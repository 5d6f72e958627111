/** Byte strings, one `char` per byte: digits, decimal numbers, case and splitting. */
module Text {
  import opened Options

  predicate IsDigit(c: char) {
    '0' <= c <= '9'
  }

  predicate AllDigits(s: string) {
    forall i | 0 <= i < |s| :: IsDigit(s[i])
  }

  function DigitValue(c: char): nat
    requires IsDigit(c)
  {
    (c as int) - ('0' as int)
  }

  function DigitChar(d: nat): (c: char)
    requires d < 10
    ensures IsDigit(c) && DigitValue(c) == d
  {
    (d + ('0' as int)) as char
  }

  /** The number a digit string denotes, leading zeros allowed. */
  function Value(s: string): nat
    requires AllDigits(s)
  {
    if s == "" then 0 else 10 * Value(s[..|s| - 1]) + DigitValue(s[|s| - 1])
  }

  /** Canonical decimal notation. */
  function Decimal(n: nat): (s: string)
    ensures s != "" && AllDigits(s)
    ensures |s| > 1 ==> s[0] != '0'
    ensures n > 0 ==> s[0] != '0'
    ensures Value(s) == n
  {
    if n < 10 then [DigitChar(n)]
    else
      var front := Decimal(n / 10);
      var s := front + [DigitChar(n % 10)];
      assert s[..|s| - 1] == front;
      s
  }

  lemma {:induction false} ValuePositive(s: string)
    requires s != "" && AllDigits(s) && s[0] != '0'
    ensures Value(s) > 0
    decreases |s|
  {
    if |s| > 1 {
      ValuePositive(s[..|s| - 1]);
    }
  }

  /** Digits without a leading zero are the canonical notation of their value. */
  lemma {:induction false} DecimalOfValue(s: string)
    requires s != "" && AllDigits(s) && (|s| > 1 ==> s[0] != '0')
    ensures Decimal(Value(s)) == s
    decreases |s|
  {
    var front, d := s[..|s| - 1], DigitValue(s[|s| - 1]);
    if front != "" {
      ValuePositive(front);
      DecimalOfValue(front);
      var v := Value(s);
      assert v == 10 * Value(front) + d;
      assert v / 10 == Value(front) && v % 10 == d;
      assert s == front + [s[|s| - 1]];
    }
  }

  /** Numbers below 10^k need at most k digits. */
  lemma {:induction false} DecimalLength(n: nat, k: nat)
    requires k > 0 && n < Power10(k)
    ensures |Decimal(n)| <= k
    decreases k
  {
    if n >= 10 && k > 1 {
      DecimalLength(n / 10, k - 1);
    }
  }

  function Power10(k: nat): nat {
    if k == 0 then 1 else 10 * Power10(k - 1)
  }

  lemma {:induction false} ValueBound(s: string)
    requires AllDigits(s)
    ensures Value(s) < Power10(|s|)
  {
    if s != "" {
      ValueBound(s[..|s| - 1]);
    }
  }

  /** How many digits s begins with. */
  function Leading(s: string): (n: nat)
    ensures n <= |s| && AllDigits(s[..n]) && (n < |s| ==> !IsDigit(s[n]))
  {
    if s == "" || !IsDigit(s[0]) then 0 else 1 + Leading(s[1..])
  }

  lemma LeadingUnique(s: string, n: nat)
    requires n <= |s| && AllDigits(s[..n]) && (n < |s| ==> !IsDigit(s[n]))
    ensures Leading(s) == n
  {
    var m := Leading(s);
    assert forall i | 0 <= i < n :: s[..n][i] == s[i];
    assert forall i | 0 <= i < m :: s[..m][i] == s[i];
  }

  /** Where the parts of a concatenation lie. */
  lemma Parts(a: string, b: string, c: string)
    ensures var s := a + b + c;
            s[..|a|] == a && s[|a|..] == b + c && s[|a| + |b|..] == c && s[|a|..][|b|..] == c
  {
    var s := a + b + c;
    assert s == a + (b + c);
  }

  predicate StartsWith(s: string, prefix: string) {
    |prefix| <= |s| && s[..|prefix|] == prefix
  }

  predicate EndsWith(s: string, suffix: string) {
    |suffix| <= |s| && s[|s| - |suffix|..] == suffix
  }

  function StripPrefix(s: string, prefix: string): Option<string> {
    if StartsWith(s, prefix) then Some(s[|prefix|..]) else None
  }

  function StripSuffix(s: string, suffix: string): Option<string> {
    if EndsWith(s, suffix) then Some(s[..|s| - |suffix|]) else None
  }

  function LowerChar(c: char): char {
    if 'A' <= c <= 'Z' then ((c as int) + 32) as char else c
  }

  /** ASCII lower case. */
  function Lower(s: string): (r: string)
    ensures |r| == |s| && forall i | 0 <= i < |s| :: r[i] == LowerChar(s[i])
  {
    seq(|s|, i requires 0 <= i < |s| => LowerChar(s[i]))
  }

  predicate SameLetters(a: string, b: string) {
    Lower(a) == Lower(b)
  }

  /** The pieces of s between separators; there is always at least one. */
  function Split(s: string, sep: char): (r: seq<string>)
    ensures r != []
  {
    if s == "" then [""]
    else
      var rest := Split(s[1..], sep);
      if s[0] == sep then [""] + rest else [[s[0]] + rest[0]] + rest[1..]
  }

  lemma {:induction false} SplitConcat(a: string, sep: char, b: string)
    ensures Split(a + [sep] + b, sep) == Split(a, sep) + Split(b, sep)
    decreases |a|
  {
    var s := a + [sep] + b;
    if a == "" {
      assert s[1..] == b;
    } else {
      assert s[1..] == a[1..] + [sep] + b;
      SplitConcat(a[1..], sep, b);
      SplitHead(a, sep);
      SplitHead(s, sep);
      Regroup(a[0] == sep, a[0], Split(a[1..], sep), Split(b, sep));
    }
  }

  function Regrouped(atSep: bool, c: char, rest: seq<string>): seq<string>
    requires rest != []
  {
    if atSep then [""] + rest else [[c] + rest[0]] + rest[1..]
  }

  lemma SplitHead(s: string, sep: char)
    requires s != ""
    ensures Split(s, sep) == Regrouped(s[0] == sep, s[0], Split(s[1..], sep))
  {
  }

  lemma Regroup(atSep: bool, c: char, x: seq<string>, y: seq<string>)
    requires x != []
    ensures Regrouped(atSep, c, x + y) == Regrouped(atSep, c, x) + y
  {
  }

  lemma {:induction false} SplitWithout(s: string, sep: char)
    requires sep !in s
    ensures Split(s, sep) == [s]
  {
    if s != "" {
      SplitWithout(s[1..], sep);
      assert [s[0]] + s[1..] == s;
    }
  }

  /** Position of the first separator, or |s|. */
  function IndexOf(s: string, sep: char): (n: nat)
    ensures n <= |s| && sep !in s[..n] && (n < |s| ==> s[n] == sep)
  {
    if s == "" || s[0] == sep then 0 else
      var n := 1 + IndexOf(s[1..], sep);
      assert s[..n] == [s[0]] + s[1..][..n - 1];
      n
  }

  lemma IndexOfUnique(s: string, sep: char, n: nat)
    requires n <= |s| && sep !in s[..n] && (n < |s| ==> s[n] == sep)
    ensures IndexOf(s, sep) == n
  {
    var m := IndexOf(s, sep);
    assert forall i | 0 <= i < n :: s[..n][i] == s[i];
    assert forall i | 0 <= i < m :: s[..m][i] == s[i];
  }

  /** Every other character of a string is in one of its pieces. */
  lemma {:induction false} SplitKeepsCharacters(s: string, sep: char, c: char)
    requires c in s && c != sep
    ensures exists i :: 0 <= i < |Split(s, sep)| && c in Split(s, sep)[i]
  {
    var rest := Split(s[1..], sep);
    if s[0] == c {
      assert c in Split(s, sep)[0];
    } else {
      SplitKeepsCharacters(s[1..], sep, c);
      var i :| 0 <= i < |rest| && c in rest[i];
      if s[0] == sep {
        assert c in Split(s, sep)[i + 1];
      } else {
        assert c in Split(s, sep)[i];
      }
    }
  }

  /** Splitting, one separator at a time. */
  lemma {:induction false} SplitFirst(s: string, sep: char)
    ensures var n := IndexOf(s, sep);
            Split(s, sep) == if n < |s| then [s[..n]] + Split(s[n + 1..], sep) else [s]
  {
    if s != "" && s[0] != sep {
      var c, t, m := s[0], s[1..], IndexOf(s[1..], sep);
      assert IndexOf(s, sep) == 1 + m && s == [c] + t;
      hide Split, IndexOf;
      SplitFirst(t, sep);
      SplitStep(c, t, sep, m);
      assert s[..m + 1] == [c] + t[..m];
      if m < |t| {
        assert s[m + 2..] == t[m + 1..];
      }
    }
  }

  /** Putting another character in front of the first piece. */
  lemma SplitStep(c: char, t: string, sep: char, m: nat)
    requires m <= |t| && c != sep
    requires Split(t, sep) == if m < |t| then [t[..m]] + Split(t[m + 1..], sep) else [t]
    ensures Split([c] + t, sep) == if m < |t| then [[c] + t[..m]] + Split(t[m + 1..], sep) else [[c] + t]
  {
    hide Split;
    SplitHead([c] + t, sep);
    assert ([c] + t)[1..] == t;
    assert Regrouped(false, c, Split(t, sep)) == [[c] + Split(t, sep)[0]] + Split(t, sep)[1..];
  }

  /** A text is its first piece, and after a separator the text of the others. */
  lemma FirstPiece(s: string, sep: char) returns (rest: string)
    ensures sep !in Split(s, sep)[0]
    ensures if |Split(s, sep)| == 1 then s == Split(s, sep)[0]
            else s == Split(s, sep)[0] + [sep] + rest && Split(rest, sep) == Split(s, sep)[1..]
  {
    SplitFirst(s, sep);
    var n := IndexOf(s, sep);
    if n < |s| {
      rest := s[n + 1..];
    } else {
      rest := "";
    }
  }

  /** The parts before and after the first separator. */
  function SplitOnce(s: string, sep: char): Option<(string, string)> {
    var n := IndexOf(s, sep);
    if n < |s| then Some((s[..n], s[n + 1..])) else None
  }

  predicate IsBlank(c: char) {
    c == ' ' || c == '\t'
  }

  function TrimStart(s: string): string {
    if s != "" && IsBlank(s[0]) then TrimStart(s[1..]) else s
  }

  function TrimEnd(s: string): string {
    if s != "" && IsBlank(s[|s| - 1]) then TrimEnd(s[..|s| - 1]) else s
  }

  /** Blanks are the only white space a header value may contain. */
  function Trim(s: string): string {
    TrimEnd(TrimStart(s))
  }

  predicate Blank(s: string) {
    forall i | 0 <= i < |s| :: IsBlank(s[i])
  }

  lemma {:induction false} TrimStartExactly(s: string) returns (left: string)
    ensures s == left + TrimStart(s) && Blank(left) && (TrimStart(s) != "" ==> !IsBlank(TrimStart(s)[0]))
  {
    left := "";
    if s != "" && IsBlank(s[0]) {
      left := TrimStartExactly(s[1..]);
      left := [s[0]] + left;
    }
  }

  lemma {:induction false} TrimEndExactly(s: string) returns (right: string)
    ensures s == TrimEnd(s) + right && Blank(right) && (TrimEnd(s) != "" ==> !IsBlank(TrimEnd(s)[|TrimEnd(s)| - 1]))
    decreases |s|
  {
    right := "";
    if s != "" && IsBlank(s[|s| - 1]) {
      right := TrimEndExactly(s[..|s| - 1]);
      right := right + [s[|s| - 1]];
    }
  }

  /** Trimming takes blanks away at both ends, and all of them. */
  lemma TrimExactly(s: string) returns (left: string, right: string)
    ensures s == left + Trim(s) + right && Blank(left) && Blank(right)
    ensures Trim(s) != "" ==> !IsBlank(Trim(s)[0]) && !IsBlank(Trim(s)[|Trim(s)| - 1])
  {
    left := TrimStartExactly(s);
    right := TrimEndExactly(TrimStart(s));
    assert Trim(s) != "" ==> Trim(s)[0] == TrimStart(s)[0];
  }

  lemma TrimNothing(s: string)
    requires s != "" ==> !IsBlank(s[0]) && !IsBlank(s[|s| - 1])
    ensures Trim(s) == s
  {
  }

  /** Letters of the alphabet have a lower case; every other character is its own. */
  lemma LowerLetters(c: char)
    ensures Lower("ABCDEFGHIJKLMNOPQRSTUVWXYZ") == "abcdefghijklmnopqrstuvwxyz"
    ensures !('A' <= c <= 'Z') ==> LowerChar(c) == c
  {
  }

  /** The characters a header value may have to be read as text. */
  predicate Visible(s: string) {
    forall i | 0 <= i < |s| :: ' ' <= s[i] <= '~' || s[i] == '\t'
  }

  /** A text is readable exactly when every character is: printable ASCII, the blank, or a tab. */
  lemma VisibleExactly(a: string, b: string, c: char)
    ensures Visible(a + b) <==> Visible(a) && Visible(b)
    ensures Visible([c]) <==> 32 <= c as int <= 126 || c as int == 9
  {
    assert forall i | 0 <= i < |a| :: (a + b)[i] == a[i];
    assert forall i | 0 <= i < |b| :: (a + b)[|a| + i] == b[i];
    assert [c][0] == c;
  }

  function Bytes(headers: seq<string>): nat {
    if headers == [] then 0 else Bytes(headers[..|headers| - 1]) + |headers[|headers| - 1]|
  }

  /** The list items of all header lines, in order. */
  function Items(headers: seq<string>): seq<string> {
    if headers == [] then [] else Items(headers[..|headers| - 1]) + Split(headers[|headers| - 1], ',')
  }

  lemma LineUnfold(headers: seq<string>, h: nat)
    requires h < |headers|
    ensures Bytes(headers[..h + 1]) == Bytes(headers[..h]) + |headers[h]|
    ensures Items(headers[..h + 1]) == Items(headers[..h]) + Split(headers[h], ',')
  {
    assert headers[..h + 1][..h] == headers[..h];
  }

  /** Later lines only add bytes and items. */
  lemma {:induction false} ItemsGrow(headers: seq<string>, n: nat)
    requires n <= |headers|
    ensures Bytes(headers[..n]) <= Bytes(headers) && Items(headers[..n]) <= Items(headers)
    decreases |headers|
  {
    if n == |headers| {
      assert headers[..n] == headers;
    } else {
      assert headers[..|headers| - 1][..n] == headers[..n];
      ItemsGrow(headers[..|headers| - 1], n);
    }
  }

  lemma {:induction false} ItemsConcat(a: seq<string>, b: seq<string>)
    ensures Items(a + b) == Items(a) + Items(b)
    decreases |b|
  {
    if b == [] {
      assert a + b == a;
    } else {
      assert (a + b)[..|a + b| - 1] == a + b[..|b| - 1];
      ItemsConcat(a, b[..|b| - 1]);
    }
  }

  /** Splitting a header line at a comma, or joining two lines, keeps the items. */
  lemma SameItems(before: seq<string>, left: string, right: string, after: seq<string>)
    ensures Items(before + [left + [','] + right] + after) == Items(before + [left, right] + after)
  {
    SplitConcat(left, ',', right);
    assert [left, right][..1] == [left] && [left][..0] == [];
    assert Items([left]) == Split(left, ',');
    assert Items([left, right]) == Split(left, ',') + Split(right, ',');
    assert Items([left + [','] + right]) == Split(left + [','] + right, ',');
    ItemsConcat(before, [left + [','] + right]);
    ItemsConcat(before, [left, right]);
    ItemsConcat(before + [left + [','] + right], after);
    ItemsConcat(before + [left, right], after);
  }
}
