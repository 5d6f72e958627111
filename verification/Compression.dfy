/** Content-coding negotiation from Accept-Encoding (sections 12.4.2 and 12.5.3 of RFC 9110). */
module Compression {
  import opened Options
  import opened Text

  /** Configured levels; zero disables a coding. */
  datatype Levels = Levels(gzip: nat, brotli: nat)

  const BR: nat := 0
  const GZIP: nat := 1
  const ANY: nat := 2
  const IDENTITY: nat := 3

  const LIMIT: nat := 8192

  /** A quality value in thousandths, the way the code reads it. */
  function Quality(value: string): Option<nat> {
    match SplitOnce(value, '.')
    case Some(parts) => QualityOf(parts.0, parts.1)
    case None => QualityOf(value, "")
  }

  function QualityOf(integer: string, fraction: string): Option<nat> {
    if |fraction| > 3 || !AllDigits(fraction) then None
    else if integer == "0" then Some(Value(fraction) * Power10(3 - |fraction|))
    else if integer == "1" && (forall i | 0 <= i < |fraction| :: fraction[i] == '0') then Some(1000)
    else None
  }

  /** qvalue of section 12.4.2: 0 with at most three decimals, or 1 with at most three zeros. */
  predicate IsQvalue(v: string) {
    && 1 <= |v| <= 5
    && (v[0] == '0' || v[0] == '1')
    && (|v| >= 2 ==> v[1] == '.')
    && (forall i | 2 <= i < |v| :: IsDigit(v[i]) && (v[0] == '1' ==> v[i] == '0'))
  }

  /** The digit at a decimal place, zero when it is left out. */
  function Place(fraction: string, i: nat): nat
    requires AllDigits(fraction)
  {
    if i < |fraction| then DigitValue(fraction[i]) else 0
  }

  /** Its value in thousandths: the decimals filled up with zeros to three places. */
  function Thousandths(v: string): nat
    requires IsQvalue(v)
  {
    if v[0] == '1' then 1000
    else
      var f := if |v| > 2 then v[2..] else "";
      100 * Place(f, 0) + 10 * Place(f, 1) + Place(f, 2)
  }

  lemma FractionValue(f: string)
    requires |f| <= 3 && AllDigits(f)
    ensures Value(f) * Power10(3 - |f|) == 100 * Place(f, 0) + 10 * Place(f, 1) + Place(f, 2)
  {
    hide Value, Power10;
    SmallPowers();
    NoDigits();
    if |f| >= 1 {
      ValueSnoc(f[..1]);
      assert f[..1][..0] == "";
    }
    if |f| >= 2 {
      ValueSnoc(f[..2]);
      assert f[..2][..1] == f[..1];
    }
    if |f| == 3 {
      ValueSnoc(f);
    }
    assert f[..|f|] == f;
  }

  lemma SmallPowers()
    ensures Power10(0) == 1 && Power10(1) == 10 && Power10(2) == 100 && Power10(3) == 1000
  {
  }

  lemma NoDigits()
    ensures Value("") == 0
  {
  }

  lemma ValueSnoc(s: string)
    requires s != "" && AllDigits(s)
    ensures Value(s) == 10 * Value(s[..|s| - 1]) + DigitValue(s[|s| - 1])
  {
  }

  lemma SplitQvalue(v: string)
    requires IsQvalue(v)
    ensures SplitOnce(v, '.') == if |v| >= 2 then Some((v[..1], v[2..])) else None
    ensures |v| >= 2 ==> AllDigits(v[2..])
  {
    IndexOfUnique(v, '.', 1);
  }

  lemma QvalueRead(v: string)
    requires IsQvalue(v)
    ensures Quality(v) == Some(Thousandths(v)) && Thousandths(v) <= 1000
  {
    SplitQvalue(v);
    var f := if |v| > 2 then v[2..] else "";
    assert v[..1] == [v[0]];
    FractionValue(f);
    hide SplitOnce, Value, Power10;
    if |v| >= 2 && v[0] == '1' {
      assert forall i | 0 <= i < |v[2..]| :: v[2..][i] == v[2 + i] == '0';
    }
  }

  lemma OnlyQvaluesRead(v: string)
    requires Quality(v).Some?
    ensures IsQvalue(v)
  {
    hide Value, Power10;
    var n := IndexOf(v, '.');
    if n < |v| {
      var fraction := v[n + 1..];
      assert SplitOnce(v, '.') == Some((v[..n], fraction));
      assert |v[..n]| == 1 && v[..n][0] == v[0];
      assert n == 1 && |v| == 2 + |fraction|;
      assert v[0] == '1' ==> v[..n] != "0";
      forall i | 2 <= i < |v| ensures IsDigit(v[i]) && (v[0] == '1' ==> v[i] == '0') {
        assert v[i] == fraction[i - 2];
      }
    }
  }

  /** Exactly the qvalues are accepted, each with its value. */
  lemma QualityReadsQvalues(v: string)
    ensures Quality(v).Some? <==> IsQvalue(v)
    ensures IsQvalue(v) ==> Quality(v) == Some(Thousandths(v)) && Thousandths(v) <= 1000
  {
    hide Quality, IsQvalue, Thousandths;
    if IsQvalue(v) {
      QvalueRead(v);
    } else if Quality(v).Some? {
      OnlyQvaluesRead(v);
    }
  }

  /** What one list item says: nothing of interest, a coding with its weight, or something unreadable. */
  datatype Item = Ignored | Weighted(coding: nat, quality: nat) | Bad

  function CodingIndex(name: string): Option<nat> {
    if SameLetters(name, "br") then Some(BR)
    else if SameLetters(name, "gzip") then Some(GZIP)
    else if name == "*" then Some(ANY)
    else if SameLetters(name, "identity") then Some(IDENTITY)
    else None
  }

  function ItemQuality(parts: seq<string>): Option<nat>
    requires parts != []
  {
    if |parts| == 1 then Some(1000)
    else
      match SplitOnce(Trim(parts[1]), '=')
      case None => None
      case Some((key, value)) =>
        if !SameLetters(key, "q") || |parts| > 2 then None else Quality(Trim(value))
  }

  function ReadItem(text: string): (item: Item)
    ensures item.Weighted? ==> item.coding <= IDENTITY
  {
    var parts := Split(Trim(text), ';');
    var name := Trim(parts[0]);
    if name == "" then Ignored
    else
      var quality := ItemQuality(parts);
      if quality.None? then Bad
      else
        var index := CodingIndex(name);
        if index.None? then Ignored else Weighted(index.value, quality.value)
  }

  /** The names of the codings, the letters in either case. */
  predicate Called(name: string, coding: nat) {
    || (coding == BR && Lower(name) == "br")
    || (coding == GZIP && Lower(name) == "gzip")
    || (coding == ANY && name == "*")
    || (coding == IDENTITY && Lower(name) == "identity")
  }

  /** A text without separators or blanks at its ends. */
  predicate Solid(s: string) {
    s != "" && ';' !in s && !IsBlank(s[0]) && !IsBlank(s[|s| - 1])
  }

  lemma CalledIsSolid(name: string, coding: nat)
    requires Called(name, coding)
    ensures Solid(name) && CodingIndex(name) == Some(coding)
  {
    assert forall i | 0 <= i < |name| :: Lower(name)[i] == LowerChar(name[i]);
    CodingNames();
  }

  lemma CodingNames()
    ensures Lower("br") == "br" && Lower("gzip") == "gzip" && Lower("identity") == "identity" && Lower("*") == "*"
    ensures Lower("q") == "q" && Lower("Q") == "q"
  {
  }

  /** An item that is a coding's name alone gives it the weight 1. */
  lemma NameAlone(name: string, coding: nat)
    requires Called(name, coding)
    ensures ReadItem(name) == Weighted(coding, 1000)
  {
    CalledIsSolid(name, coding);
    SolidItem(name);
  }

  /** A name followed by a qvalue gives that weight; one followed by anything else cannot be read. */
  lemma NameWithWeight(name: string, coding: nat, key: string, v: string)
    requires Called(name, coding) && (key == "q" || key == "Q") && Solid(v)
    ensures ReadItem(name + ";" + key + "=" + v) ==
            if IsQvalue(v) then Weighted(coding, Thousandths(v)) else Bad
  {
    CalledIsSolid(name, coding);
    CodingNames();
    QualityReadsQvalues(v);
    hide Quality, Thousandths, IsQvalue, CodingIndex, Solid;
    SolidParameter(name, key, v);
  }

  /** Other names are ignored. */
  lemma OtherNameIgnored(name: string)
    requires Solid(name) && forall c: nat | c <= IDENTITY :: !Called(name, c)
    ensures ReadItem(name) == Ignored
  {
    CodingNames();
    SolidItem(name);
    assert !Called(name, BR) && !Called(name, GZIP) && !Called(name, ANY) && !Called(name, IDENTITY);
  }

  lemma SolidItem(name: string)
    requires Solid(name)
    ensures ReadItem(name) == if CodingIndex(name).None? then Ignored else Weighted(CodingIndex(name).value, 1000)
  {
    hide Split, Trim, CodingIndex;
    TrimNothing(name);
    SplitWithout(name, ';');
  }

  lemma SolidParameter(name: string, key: string, v: string)
    requires Solid(name) && Solid(v) && (key == "q" || key == "Q") && SameLetters(key, "q")
    ensures ReadItem(name + ";" + key + "=" + v) ==
            if Quality(v).None? then Bad
            else if CodingIndex(name).None? then Ignored else Weighted(CodingIndex(name).value, Quality(v).value)
  {
    hide Split, Trim, CodingIndex, Quality, IndexOf;
    var parameter := key + "=" + v;
    var text := name + [';'] + parameter;
    assert name + ";" + key + "=" + v == text;
    assert text[0] == name[0] && text[|text| - 1] == v[|v| - 1] && parameter[|parameter| - 1] == v[|v| - 1];
    TrimNothing(text);
    TrimNothing(name);
    TrimNothing(parameter);
    TrimNothing(v);
    SplitWithout(name, ';');
    SplitWithout(parameter, ';');
    SplitConcat(name, ';', parameter);
    assert [name] + [parameter] == [name, parameter];
    IndexOfUnique(parameter, '=', 1);
    assert parameter[..1] == key && parameter[2..] == v;
  }

  function Merge(old': Option<nat>, quality: nat): Option<nat> {
    if old'.Some? && old'.value <= quality then old' else Some(quality)
  }

  /** The lowest weight given to a coding. */
  function Lowest(items: seq<string>, coding: nat): Option<nat> {
    if items == [] then None
    else
      var before := Lowest(items[..|items| - 1], coding);
      var last := ReadItem(items[|items| - 1]);
      if last.Weighted? && last.coding == coding then Merge(before, last.quality) else before
  }

  ghost predicate IsLowest(items: seq<string>, coding: nat, q: Option<nat>) {
    && (q.Some? ==> exists i :: i in items && ReadItem(i) == Weighted(coding, q.value))
    && (forall i | i in items && ReadItem(i).Weighted? && ReadItem(i).coding == coding ::
          q.Some? && q.value <= ReadItem(i).quality)
  }

  lemma {:induction false} LowestIsLowest(items: seq<string>, coding: nat)
    ensures IsLowest(items, coding, Lowest(items, coding))
    decreases |items|
  {
    if items != [] {
      hide ReadItem;
      var front, last := items[..|items| - 1], items[|items| - 1];
      LowestIsLowest(front, coding);
      assert forall i :: i in items <==> i in front || i == last;
    }
  }

  lemma LowestUnique(items: seq<string>, coding: nat, p: Option<nat>, q: Option<nat>)
    requires IsLowest(items, coding, p) && IsLowest(items, coding, q)
    ensures p == q
  {
    hide ReadItem;
    if p.Some? {
      var i :| i in items && ReadItem(i) == Weighted(coding, p.value);
    }
    if q.Some? {
      var i :| i in items && ReadItem(i) == Weighted(coding, q.value);
    }
  }

  function Readable(headers: seq<string>): bool {
    (forall i | 0 <= i < |headers| :: Visible(headers[i])) && Bytes(headers) <= LIMIT
  }

  predicate NoneBad(items: seq<string>) {
    forall i | i in items :: ReadItem(i) != Bad
  }

  /** The weight in force for an enabled coding: its own, else that of `*`, else none. */
  function Weight(items: seq<string>, coding: nat): nat {
    match Lowest(items, coding)
    case Some(q) => q
    case None => (match Lowest(items, ANY) case Some(q) => q case None => 0)
  }

  function Name(coding: nat): string {
    if coding == BR then "br" else "gzip"
  }

  predicate EnabledCoding(levels: Levels, coding: nat) {
    (coding == BR && levels.brotli > 0) || (coding == GZIP && levels.gzip > 0)
  }

  /** The coding may be answered: enabled, wanted, no enabled coding is wanted more, and explicit
      identity is not wanted more either. */
  predicate Best(items: seq<string>, levels: Levels, coding: nat) {
    && EnabledCoding(levels, coding)
    && Weight(items, coding) > 0
    && (forall other | 0 <= other <= GZIP && EnabledCoding(levels, other) ::
          Weight(items, other) <= Weight(items, coding))
    && (match Lowest(items, IDENTITY) case Some(q) => q <= Weight(items, coding) case None => true)
  }

  /** The answer for given items; brotli wins a tie. */
  function Choice(items: seq<string>, levels: Levels): Option<string> {
    if Best(items, levels, BR) then Some(Name(BR))
    else if Best(items, levels, GZIP) then Some(Name(GZIP))
    else None
  }

  function Negotiated(headers: seq<string>, levels: Levels): Option<string> {
    if Readable(headers) && NoneBad(Items(headers)) then Choice(Items(headers), levels) else None
  }

  /** `negotiated_encoding`: one pass with four running minima finds the best coding. */
  method NegotiatedEncoding(headers: seq<string>, levels: Levels) returns (result: Option<string>)
    ensures result == Negotiated(headers, levels)
  {
    hide Lowest, Split, Items, Bytes, ReadItem, Visible, Choice, Minima;
    var qualities := new Option<nat>[4](_ => None);
    var bytes := 0;
    NothingYet(headers, qualities[..]);
    for h := 0 to |headers|
      invariant bytes == Bytes(headers[..h]) <= LIMIT
      invariant forall i | 0 <= i < h :: Visible(headers[i])
      invariant NoneBad(Items(headers[..h]))
      invariant Minima(qualities[..], Items(headers[..h]))
    {
      var value := headers[h];
      LineUnfold(headers, h);
      ItemsGrow(headers, h + 1);
      bytes := bytes + |value|;
      if bytes > LIMIT {
        return None;
      }
      if !Visible(value) {
        return None;
      }
      var items := Split(value, ',');
      ghost var before := Items(headers[..h]);
      assert before + items[..0] == before;
      for i := 0 to |items|
        invariant NoneBad(before + items[..i])
        invariant Minima(qualities[..], before + items[..i])
      {
        var item := ReadItem(items[i]);
        assert before + items[..i + 1] == before + items[..i] + [items[i]];
        if item == Bad {
          assert Items(headers[..h + 1])[|before| + i] == items[i];
          assert items[i] in Items(headers[..h + 1]);
          return None;
        }
        MinimaSnoc(qualities[..], before + items[..i], items[i]);
        if item.Weighted? {
          qualities[item.coding] := Merge(qualities[item.coding], item.quality);
        }
      }
      assert items[..|items|] == items;
    }
    assert headers[..|headers|] == headers;
    MinimaGive(qualities[..], Items(headers));
    var wildcard := if qualities[ANY].Some? then qualities[ANY].value else 0;
    var br := if levels.brotli == 0 then 0 else if qualities[BR].Some? then qualities[BR].value else wildcard;
    var gzip := if levels.gzip == 0 then 0 else if qualities[GZIP].Some? then qualities[GZIP].value else wildcard;
    var best := if br >= gzip then br else gzip;
    ChoiceByWeights(Items(headers), levels, br, gzip);
    if best == 0 || (qualities[IDENTITY].Some? && qualities[IDENTITY].value > best) {
      return None;
    } else if br >= gzip {
      return Some("br");
    } else {
      return Some("gzip");
    }
  }

  lemma NothingYet(headers: seq<string>, qualities: seq<Option<nat>>)
    requires qualities == [None, None, None, None]
    ensures headers[..0] == [] && Bytes([]) == 0 && Items([]) == [] && Minima(qualities, [])
  {
  }

  lemma MinimaSnoc(qualities: seq<Option<nat>>, items: seq<string>, text: string)
    requires Minima(qualities, items)
    ensures |qualities| == 4
    ensures var item := ReadItem(text);
            Minima(if item.Weighted? then qualities[item.coding := Merge(qualities[item.coding], item.quality)]
                   else qualities, items + [text])
  {
    assert (items + [text])[..|items|] == items;
    hide ReadItem;
  }

  lemma MinimaGive(qualities: seq<Option<nat>>, items: seq<string>)
    requires Minima(qualities, items)
    ensures |qualities| == 4 && forall c | 0 <= c < 4 :: qualities[c] == Lowest(items, c)
  {
  }

  lemma ChoiceByWeights(items: seq<string>, levels: Levels, br: nat, gzip: nat)
    requires br == if levels.brotli == 0 then 0 else Weight(items, BR)
    requires gzip == if levels.gzip == 0 then 0 else Weight(items, GZIP)
    ensures var best := if br >= gzip then br else gzip;
            Choice(items, levels) ==
            if best == 0 || (Lowest(items, IDENTITY).Some? && Lowest(items, IDENTITY).value > best) then None
            else if br >= gzip then Some("br") else Some("gzip")
  {
    hide Lowest, Weight;
  }

  ghost predicate Minima(qualities: seq<Option<nat>>, items: seq<string>) {
    |qualities| == 4 && forall c | 0 <= c < 4 :: qualities[c] == Lowest(items, c)
  }

  /** Reordering items, within or across header lines, changes nothing. */
  lemma OrderIndependent(a: seq<string>, b: seq<string>, levels: Levels)
    requires Readable(a) && Readable(b)
    requires multiset(Items(a)) == multiset(Items(b))
    ensures Negotiated(a, levels) == Negotiated(b, levels)
  {
    var x, y := Items(a), Items(b);
    forall i ensures i in x <==> i in y {
      assert i in x <==> i in multiset(x);
    }
    forall c: nat ensures Lowest(x, c) == Lowest(y, c) {
      LowestIsLowest(x, c);
      LowestIsLowest(y, c);
      LowestUnique(x, c, Lowest(x, c), Lowest(y, c));
    }
    assert forall c: nat :: Weight(x, c) == Weight(y, c);
    assert forall c: nat :: Best(x, levels, c) == Best(y, levels, c);
  }

  /** Splitting any header line at a comma, or joining two lines, changes nothing. */
  lemma LineSplitting(before: seq<string>, left: string, right: string, after: seq<string>, levels: Levels)
    requires Readable(before + [left + [','] + right] + after) && Readable(before + [left, right] + after)
    ensures Negotiated(before + [left + [','] + right] + after, levels)
         == Negotiated(before + [left, right] + after, levels)
  {
    SameItems(before, left, right, after);
  }

  /** What the answer means: an enabled coding of maximal positive weight that explicit identity
      does not outrank; and none is given only when there is no such coding. */
  lemma AnswerIsBest(headers: seq<string>, levels: Levels)
    requires Readable(headers) && NoneBad(Items(headers))
    ensures match Negotiated(headers, levels)
            case Some(name) => exists c: nat :: c <= GZIP && Best(Items(headers), levels, c) && name == Name(c)
            case None => forall c: nat :: c <= GZIP ==> !Best(Items(headers), levels, c)
  {
  }

  /** An answer names an enabled coding which some item wants, by its own name or, when none has that
      name, by `*`; and no answer is given to more than 8192 bytes, or with an item that cannot be read. */
  lemma AnswerIsWanted(headers: seq<string>, levels: Levels)
    ensures Bytes(headers) > 8192 ==> Negotiated(headers, levels) == None
    ensures (exists i | i in Items(headers) :: ReadItem(i) == Bad) ==> Negotiated(headers, levels) == None
    ensures (exists i | 0 <= i < |headers| :: !Visible(headers[i])) ==> Negotiated(headers, levels) == None
    ensures Negotiated(headers, levels) == Some("br") ==> levels.brotli > 0 && Wanted(Items(headers), BR)
    ensures Negotiated(headers, levels) == Some("gzip") ==> levels.gzip > 0 && Wanted(Items(headers), GZIP)
    ensures Negotiated(headers, levels).Some? ==>
              Negotiated(headers, levels).value == "br" || Negotiated(headers, levels).value == "gzip"
  {
    hide Lowest, ReadItem, Items, Bytes;
    var items := Items(headers);
    LowestIsLowest(items, BR);
    LowestIsLowest(items, GZIP);
    LowestIsLowest(items, ANY);
  }

  ghost predicate Wanted(items: seq<string>, coding: nat) {
    || (exists i | i in items :: ReadItem(i).Weighted? && ReadItem(i).coding == coding && ReadItem(i).quality > 0)
    || ((forall i | i in items :: !(ReadItem(i).Weighted? && ReadItem(i).coding == coding))
        && exists i | i in items :: ReadItem(i).Weighted? && ReadItem(i).coding == ANY && ReadItem(i).quality > 0)
  }

  ghost predicate Mentions(items: seq<string>, coding: nat) {
    exists i | i in items :: ReadItem(i).Weighted? && ReadItem(i).coding == coding
  }

  /** The weight of a coding is the lowest given under its name, else the lowest given to `*`, else none. */
  lemma WeightIsLowest(items: seq<string>, coding: nat)
    ensures var under := if Mentions(items, coding) then coding else ANY;
            if Mentions(items, under) then
              && (exists i | i in items :: ReadItem(i) == Weighted(under, Weight(items, coding)))
              && (forall i | i in items && ReadItem(i).Weighted? && ReadItem(i).coding == under ::
                    Weight(items, coding) <= ReadItem(i).quality)
            else Weight(items, coding) == 0
  {
    hide Lowest, ReadItem;
    LowestIsLowest(items, coding);
    LowestIsLowest(items, ANY);
  }
}
