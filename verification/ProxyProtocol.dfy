/** Reading the connection's source address from a PROXY protocol header (versions 1 and 2:
    sections 2.1 and 2.2 of the HAProxy PROXY protocol specification). */
module ProxyProtocol {
  import opened Options
  import opened Text

  /** Octets in network order: four or sixteen. */
  datatype Ip = V4(octets: seq<nat>) | V6(octets: seq<nat>)

  datatype Address = Address(ip: Ip, port: nat)

  predicate ValidIp(ip: Ip) {
    && |ip.octets| == (if ip.V4? then 4 else 16)
    && forall i | 0 <= i < |ip.octets| :: ip.octets[i] < 256
  }

  /** The text forms this model does not spell out: IPv6 addresses and UTF-8. */
  datatype Codec = Codec(
    parse6: string -> Option<seq<nat>>,
    print6: seq<nat> -> string,
    utf8: string -> bool)

  /** Visible ASCII other than the blank. */
  predicate Plain(s: string) {
    forall i | 0 <= i < |s| :: '!' <= s[i] <= '~'
  }

  predicate Ascii(s: string) {
    forall i | 0 <= i < |s| :: (s[i] as int) < 128
  }

  ghost predicate Faithful(codec: Codec) {
    && (forall a | ValidIp(V6(a)) ::
          && codec.parse6(codec.print6(a)) == Some(a)
          && Plain(codec.print6(a)) && 2 <= |codec.print6(a)| <= 39 && ':' in codec.print6(a))
    && (forall s | Ascii(s) :: codec.utf8(s))
  }

  predicate IsOctet(s: string) {
    1 <= |s| <= 3 && AllDigits(s) && (|s| > 1 ==> s[0] != '0') && Value(s) < 256
  }

  /** Dotted decimal without leading zeros. */
  function Parse4(s: string): Option<seq<nat>> {
    var parts := Split(s, '.');
    if |parts| == 4 && IsOctet(parts[0]) && IsOctet(parts[1]) && IsOctet(parts[2]) && IsOctet(parts[3])
    then Some([Value(parts[0]), Value(parts[1]), Value(parts[2]), Value(parts[3])])
    else None
  }

  function ParseIp(codec: Codec, s: string): Option<Ip> {
    match Parse4(s)
    case Some(a) => Some(V4(a))
    case None => (match codec.parse6(s) case Some(a) => Some(V6(a)) case None => None)
  }

  /** A 16-bit number, with an optional plus sign. */
  function ParsePort(s: string): Option<nat> {
    var digits := if |s| > 1 && s[0] == '+' then s[1..] else s;
    if digits != "" && AllDigits(digits) && Value(digits) < 65536 then Some(Value(digits)) else None
  }

  const SIGNATURE: string := "\r\n\r\n\0\r\nQUIT\n"
  const CRLF: string := "\r\n"
  const LONGEST_LINE: nat := 108
  const LONGEST_PAYLOAD: nat := 512

  /** The end of the line: the least k >= from, within the limit, where a CRLF ends. */
  function LineEnd(data: string, from: nat): (r: Option<nat>)
    requires from <= |data|
    ensures r.Some? ==> from <= r.value <= |data| && EndsWith(data[..r.value], CRLF)
    ensures r.Some? ==> forall k | from <= k < r.value :: !EndsWith(data[..k], CRLF)
    decreases |data| - from
  {
    if EndsWith(data[..from], CRLF) then Some(from)
    else if from >= LONGEST_LINE || from == |data| then None
    else LineEnd(data, from + 1)
  }

  /** A version 1 line without its CRLF. */
  function ParseLine(codec: Codec, line: string): Result<Option<Address>> {
    if !codec.utf8(line) then Err("encoding")
    else
      var fields := Split(line, ' ');
      if |fields| > 1 && fields[1] == "UNKNOWN" then Ok(None)
      else if |fields| != 6 then Err("fields")
      else
        var source, destination := ParseIp(codec, fields[2]), ParseIp(codec, fields[3]);
        var port, target := ParsePort(fields[4]), ParsePort(fields[5]);
        if source.None? || destination.None? || port.None? || target.None? then Err("field")
        else if !((fields[1] == "TCP4" && source.value.V4? && destination.value.V4?)
                  || (fields[1] == "TCP6" && source.value.V6? && destination.value.V6?)) then Err("family")
        else Ok(Some(Address(source.value, port.value)))
  }

  function Byte(c: char): nat {
    c as int
  }

  function Octets(s: string): (r: seq<nat>)
    ensures |r| == |s| && forall i | 0 <= i < |s| :: r[i] == Byte(s[i])
  {
    seq(|s|, i requires 0 <= i < |s| => Byte(s[i]))
  }

  /** The payload length announced by a version 2 header. */
  function PayloadLength(data: string): nat
    requires |data| >= 16
  {
    256 * Byte(data[14]) + Byte(data[15])
  }

  /** A version 2 header with its whole payload. */
  function ParseBinary(command: nat, family: nat, payload: string): Result<Option<Address>> {
    if command == 0 then Ok(None)
    else if command != 1 then Err("command")
    else if family == 0x11 && |payload| >= 12 then
      Ok(Some(Address(V4(Octets(payload[..4])), 256 * Byte(payload[8]) + Byte(payload[9]))))
    else if family == 0x21 && |payload| >= 36 then
      Ok(Some(Address(V6(Octets(payload[..16])), 256 * Byte(payload[32]) + Byte(payload[33]))))
    else if family == 0 then Ok(None)
    else Err("family")
  }

  /** What reading `data` gives when it begins with the version 2 signature. */
  function BinaryOutcome(data: string): (Result<Option<Address>>, nat) {
    if |data| < 16 then (Err("eof"), 0)
    else if Byte(data[12]) / 16 != 2 || PayloadLength(data) > LONGEST_PAYLOAD then (Err("header"), 0)
    else if |data| < 16 + PayloadLength(data) then (Err("eof"), 0)
    else (ParseBinary(Byte(data[12]) % 16, Byte(data[13]), data[16..16 + PayloadLength(data)]), 16 + PayloadLength(data))
  }

  /** What reading `data` from its start gives, and how many bytes are consumed on success. */
  function Outcome(codec: Codec, data: string): (Result<Option<Address>>, nat) {
    if |data| < 12 then (Err("eof"), 0)
    else if data[..12] == SIGNATURE then BinaryOutcome(data)
    else if !StartsWith(data[..12], "PROXY ") then (Err("signature"), 0)
    else
      match LineEnd(data, 12)
      case None => (Err("line"), 0)
      case Some(end) => (ParseLine(codec, data[..end - 2]), end)
  }

  class Stream {
    const data: string
    var pos: nat

    constructor (data: string)
      ensures this.data == data && pos == 0
    {
      this.data := data;
      pos := 0;
    }

    method ReadExact(n: nat) returns (bytes: Option<string>)
      requires pos <= |data|
      modifies this
      ensures pos <= |data|
      ensures if old(pos) + n <= |data| then bytes == Some(data[old(pos)..old(pos) + n]) && pos == old(pos) + n
              else bytes == None
    {
      if pos + n > |data| {
        pos := |data|;
        return None;
      }
      bytes := Some(data[pos..pos + n]);
      pos := pos + n;
    }
  }

  /** `read`: the answer and, on success, the position reached are those of the whole-input description. */
  method Read(codec: Codec, stream: Stream) returns (result: Result<Option<Address>>)
    requires stream.pos <= |stream.data|
    modifies stream
    ensures stream.pos <= |stream.data|
    ensures var (answer, consumed) := Outcome(codec, stream.data[old(stream.pos)..]);
            if answer.Ok? then result == answer && stream.pos == old(stream.pos) + consumed else result.Err?
  {
    hide LineEnd, ParseLine, BinaryOutcome;
    ghost var start, rest := stream.pos, stream.data[stream.pos..];
    var first := stream.ReadExact(12);
    if first.None? {
      return Err("eof");
    }
    assert first.value == rest[..12];
    if first.value == SIGNATURE {
      result := FinishBinary(stream, rest);
      return;
    }
    if !StartsWith(first.value, "PROXY ") {
      return Err("signature");
    }
    var line := FinishLine(stream, first.value, rest);
    if line.None? {
      return Err("line");
    }
    assert line.value[..|line.value| - 2] == rest[..|line.value| - 2];
    return ParseLine(codec, line.value[..|line.value| - 2]);
  }

  /** What follows a version 2 signature. */
  method FinishBinary(stream: Stream, ghost rest: string) returns (result: Result<Option<Address>>)
    requires 12 <= stream.pos <= |stream.data| && rest == stream.data[stream.pos - 12..]
    modifies stream
    ensures stream.pos <= |stream.data|
    ensures var (answer, consumed) := BinaryOutcome(rest);
            if answer.Ok? then result == answer && stream.pos == old(stream.pos) - 12 + consumed else result.Err?
  {
    hide ParseBinary;
    var tail := stream.ReadExact(4);
    if tail.None? {
      return Err("eof");
    }
    assert forall i | 0 <= i < 4 :: tail.value[i] == rest[12 + i];
    var length := 256 * Byte(tail.value[2]) + Byte(tail.value[3]);
    if Byte(tail.value[0]) / 16 != 2 || length > LONGEST_PAYLOAD {
      return Err("header");
    }
    var payload := stream.ReadExact(length);
    if payload.None? {
      return Err("eof");
    }
    assert payload.value == rest[16..16 + length];
    return ParseBinary(Byte(tail.value[0]) % 16, Byte(tail.value[1]), payload.value);
  }

  /** The loop of `read`: one byte at a time until the line ends or grows too long. */
  method FinishLine(stream: Stream, first: string, ghost rest: string) returns (line: Option<string>)
    requires |first| == 12 <= stream.pos <= |stream.data|
    requires rest == stream.data[stream.pos - 12..] && first == rest[..12]
    modifies stream
    ensures stream.pos <= |stream.data|
    ensures match LineEnd(rest, 12)
            case Some(end) => line == Some(rest[..end]) && stream.pos == old(stream.pos) - 12 + end
            case None => line.None?
  {
    hide LineEnd, EndsWith;
    ghost var start := stream.pos - 12;
    var bytes := first;
    LineEndStep(rest, 12);
    while !EndsWith(bytes, CRLF)
      invariant 12 <= |bytes| <= LONGEST_LINE && |bytes| <= |rest| && bytes == rest[..|bytes|]
      invariant stream.pos == start + |bytes| <= |stream.data|
      invariant LineEnd(rest, 12) == LineEnd(rest, |bytes|)
      decreases LONGEST_LINE - |bytes|
    {
      LineEndStep(rest, |bytes|);
      if |bytes| >= LONGEST_LINE {
        return None;
      }
      var byte := stream.ReadExact(1);
      if byte.None? {
        return None;
      }
      assert byte.value[0] == rest[|bytes|];
      assert rest[..|bytes| + 1] == rest[..|bytes|] + [rest[|bytes|]];
      bytes := bytes + byte.value;
    }
    LineEndStep(rest, |bytes|);
    return Some(bytes);
  }

  lemma LineEndStep(data: string, from: nat)
    requires from <= |data|
    ensures LineEnd(data, from) ==
            if EndsWith(data[..from], CRLF) then Some(from)
            else if from >= LONGEST_LINE || from == |data| then None
            else LineEnd(data, from + 1)
  {
  }

  lemma PrefixSplits(line: string)
    requires StartsWith(line, "PROXY ")
    ensures |line| >= 6 && line[5] == ' ' && ' ' !in line[..5]
    ensures forall i | 0 <= i < 6 :: line[i] != '\n'
  {
    assert forall i | 0 <= i < 6 :: line[i] == line[..6][i] == "PROXY "[i];
  }

  /** The second blank-separated field begins right after the first blank. */
  lemma SecondField(line: string, name: string)
    requires StartsWith(line, "PROXY ") && ' ' !in name
    requires |Split(line, ' ')| > 1 && Split(line, ' ')[1] == name
    ensures 6 + |name| <= |line| && line[6..6 + |name|] == name
    ensures |Split(line, ' ')| > 2 ==> 6 + |name| < |line| && line[6 + |name|] == ' '
  {
    PrefixSplits(line);
    hide StartsWith, IndexOf, Split;
    IndexOfUnique(line, ' ', 5);
    SplitFirst(line, ' ');
    FirstField(line[6..], name);
  }

  lemma FirstField(s: string, name: string)
    requires ' ' !in name && Split(s, ' ')[0] == name
    ensures |name| <= |s| && s[..|name|] == name
    ensures |Split(s, ' ')| > 1 ==> |name| < |s| && s[|name|] == ' '
  {
    hide IndexOf, Split;
    SplitFirst(s, ' ');
  }

  lemma AcceptedFields(codec: Codec, line: string)
    requires ParseLine(codec, line).Ok?
    ensures var fields := Split(line, ' ');
            && |fields| > 1 && Plain(fields[1])
            && if |fields| == 6 then |fields[1]| >= 4 else |fields[1]| >= 5
  {
    hide Split, ParseIp, ParsePort;
  }

  /** Nothing before the thirteenth byte of an accepted line can end a CRLF. */
  lemma AcceptedLineStart(codec: Codec, line: string, k: nat)
    requires StartsWith(line, "PROXY ") && ParseLine(codec, line).Ok?
    requires k < 11
    ensures k < |line| && line[k] != '\n'
  {
    AcceptedFields(codec, line);
    hide Split, ParseLine;
    var name := Split(line, ' ')[1];
    SecondField(line, name);
    PrefixSplits(line);
    hide StartsWith;
    if k >= 6 && k - 6 < |name| {
      assert line[6..6 + |name|][k - 6] == line[k];
    }
  }

  lemma NewlineEnds(s: string)
    ensures EndsWith(s, CRLF) ==> s[|s| - 1] == '\n' && s[|s| - 2] == '\r'
  {
    if EndsWith(s, CRLF) {
      assert s[|s| - 2..][1] == s[|s| - 1] && s[|s| - 2..][0] == s[|s| - 2];
    }
  }

  /** An accepted version 1 line ends with the first CRLF of the stream. */
  lemma ConsumedThroughFirstCrlf(codec: Codec, data: string, k: nat)
    requires Outcome(codec, data).0.Ok? && data[..12] != SIGNATURE
    requires k < Outcome(codec, data).1
    ensures Outcome(codec, data).1 <= |data| && EndsWith(data[..Outcome(codec, data).1], CRLF)
    ensures !EndsWith(data[..k], CRLF)
  {
    var end := LineEnd(data, 12).value;
    var line := data[..end - 2];
    if k < 12 && k >= 2 {
      assert data[..12][..6] == data[..6];
      assert end >= 12;
      if end >= 8 {
        assert line[..6] == data[..6];
      }
      AcceptedLineStart(codec, line, k - 1);
      assert data[..k][k - 1] == data[k - 1] == line[k - 1];
      NewlineEnds(data[..k]);
    }
  }

  /** An accepted version 2 header consumes 16 bytes and the announced payload, at most 528 in all. */
  lemma ConsumedBinary(codec: Codec, data: string)
    requires Outcome(codec, data).0.Ok? && |data| >= 12 && data[..12] == SIGNATURE
    ensures |data| >= 16 && PayloadLength(data) <= LONGEST_PAYLOAD
    ensures Outcome(codec, data).1 == 16 + PayloadLength(data) <= |data|
  {
  }

  function Text4(a: seq<nat>): string
    requires ValidIp(V4(a))
  {
    Decimal(a[0]) + "." + Decimal(a[1]) + "." + Decimal(a[2]) + "." + Decimal(a[3])
  }

  lemma DecimalOctet(n: nat)
    requires n < 256
    ensures IsOctet(Decimal(n)) && '.' !in Decimal(n) && ' ' !in Decimal(n) && ':' !in Decimal(n) && Plain(Decimal(n))
  {
    assert Power10(1) == 10 && Power10(2) == 100 && Power10(3) == 1000;
    DecimalLength(n, 3);
  }

  lemma SplitThree(p: string, q: string, r: string, sep: char)
    requires sep !in p && sep !in q && sep !in r
    ensures Split(p + [sep] + q + [sep] + r, sep) == [p, q, r]
  {
    hide Split;
    SplitWithout(p, sep);
    SplitWithout(q, sep);
    SplitWithout(r, sep);
    SplitConcat(p, sep, q);
    SplitConcat(p + [sep] + q, sep, r);
  }

  lemma SplitFour(p: string, q: string, r: string, s: string, sep: char)
    requires sep !in p && sep !in q && sep !in r && sep !in s
    ensures Split(p + [sep] + q + [sep] + r + [sep] + s, sep) == [p, q, r, s]
  {
    hide Split;
    SplitThree(p, q, r, sep);
    SplitWithout(s, sep);
    SplitConcat(p + [sep] + q + [sep] + r, sep, s);
  }

  /** Dotted decimal reads back. */
  lemma Parse4UndoesText4(a: seq<nat>)
    requires ValidIp(V4(a))
    ensures Parse4(Text4(a)) == Some(a) && Plain(Text4(a)) && 7 <= |Text4(a)| <= 15
  {
    hide Split, Decimal, IsOctet, Plain;
    forall i | 0 <= i < 4 ensures IsOctet(Decimal(a[i])) && '.' !in Decimal(a[i]) && Plain(Decimal(a[i])) {
      DecimalOctet(a[i]);
    }
    var p, q, r, s := Decimal(a[0]), Decimal(a[1]), Decimal(a[2]), Decimal(a[3]);
    SplitFour(p, q, r, s, '.');
    DottedShape(p, q, r, s);
    assert a == [a[0], a[1], a[2], a[3]];
    OctetsParse(Text4(a), p, q, r, s);
  }

  lemma DottedShape(p: string, q: string, r: string, s: string)
    requires IsOctet(p) && IsOctet(q) && IsOctet(r) && IsOctet(s) && Plain(p) && Plain(q) && Plain(r) && Plain(s)
    ensures var text := p + "." + q + "." + r + "." + s;
            Plain(text) && 7 <= |text| <= 15
  {
    hide Value;
  }

  lemma OctetsParse(text: string, p: string, q: string, r: string, s: string)
    requires IsOctet(p) && IsOctet(q) && IsOctet(r) && IsOctet(s)
    requires Split(text, '.') == [p, q, r, s]
    ensures Parse4(text) == Some([Value(p), Value(q), Value(r), Value(s)])
  {
    hide Split, Value;
    var parts := Split(text, '.');
    assert parts[0] == p && parts[1] == q && parts[2] == r && parts[3] == s;
    hide AllDigits;
  }

  /** Nothing else is accepted: an IPv4 address has exactly one text. */
  lemma Parse4Exactly(s: string, a: seq<nat>)
    ensures Parse4(s) == Some(a) <==> ValidIp(V4(a)) && s == Text4(a)
  {
    if ValidIp(V4(a)) && s == Text4(a) {
      Parse4UndoesText4(a);
    } else if Parse4(s) == Some(a) {
      OnlyCanonical(s, a);
    }
  }

  lemma OnlyCanonical(s: string, a: seq<nat>)
    requires Parse4(s) == Some(a)
    ensures ValidIp(V4(a)) && s == Text4(a)
  {
    var parts := Split(s, '.');
    hide Split, Value, Decimal;
    forall i | 0 <= i < 4 ensures Decimal(a[i]) == parts[i] && a[i] < 256 {
      DecimalOfValue(parts[i]);
    }
    var s1 := FirstPiece(s, '.');
    var s2 := FirstPiece(s1, '.');
    var s3 := FirstPiece(s2, '.');
    var s4 := FirstPiece(s3, '.');
  }

  /** A text with a colon is not dotted decimal. */
  lemma ColonIsNot4(s: string)
    requires ':' in s
    ensures Parse4(s).None?
  {
    SplitKeepsCharacters(s, '.', ':');
  }

  ghost function TextOf(codec: Codec, ip: Ip): string
    requires ValidIp(ip)
  {
    if ip.V4? then Text4(ip.octets) else codec.print6(ip.octets)
  }

  lemma IpReadsBack(codec: Codec, ip: Ip)
    requires Faithful(codec) && ValidIp(ip)
    ensures ParseIp(codec, TextOf(codec, ip)) == Some(ip)
    ensures Plain(TextOf(codec, ip)) && 2 <= |TextOf(codec, ip)| <= 39
  {
    if ip.V4? {
      Parse4UndoesText4(ip.octets);
    } else {
      assert ValidIp(V6(ip.octets));
      ColonIsNot4(codec.print6(ip.octets));
    }
  }

  lemma PortReadsBack(n: nat)
    requires n < 65536
    ensures ParsePort(Decimal(n)) == Some(n) && Plain(Decimal(n)) && 1 <= |Decimal(n)| <= 5
  {
    assert Power10(1) == 10 && Power10(2) == 100 && Power10(3) == 1000;
    assert Power10(4) == 10 * Power10(3);
    assert Power10(5) == 10 * Power10(4);
    DecimalLength(n, 5);
    assert IsDigit(Decimal(n)[0]);
  }

  /** A port is digits, perhaps after a plus sign, of a value below 65536. */
  lemma PortExactly(s: string, n: nat)
    ensures ParsePort(s) == Some(n) <==>
            exists digits | s == digits || s == "+" + digits ::
              digits != "" && AllDigits(digits) && Value(digits) == n < 65536
  {
    hide Value;
    if |s| > 1 && s[0] == '+' {
      assert s == "+" + s[1..];
    }
    forall digits | s == "+" + digits ensures s[1..] == digits {
    }
  }

  /** The version 1 line for a connection, without its CRLF. */
  ghost function PrintLine(codec: Codec, source: Address, destination: Address): string
    requires ValidIp(source.ip) && ValidIp(destination.ip)
  {
    "PROXY" + " " + (if source.ip.V4? then "TCP4" else "TCP6") + " "
    + TextOf(codec, source.ip) + " " + TextOf(codec, destination.ip) + " "
    + Decimal(source.port) + " " + Decimal(destination.port)
  }

  lemma SplitSix(a: string, b: string, c: string, d: string, e: string, f: string)
    requires Plain(a) && Plain(b) && Plain(c) && Plain(d) && Plain(e) && Plain(f)
    ensures Split(Joined(a, b, c, d, e, f), ' ') == [a, b, c, d, e, f]
  {
    SplitFour(a, b, c, d, ' ');
    SplitWithout(e, ' ');
    SplitWithout(f, ' ');
    SplitConcat(a + [' '] + b + [' '] + c + [' '] + d, ' ', e);
    SplitConcat(a + [' '] + b + [' '] + c + [' '] + d + [' '] + e, ' ', f);
  }

  function Joined(a: string, b: string, c: string, d: string, e: string, f: string): string {
    a + " " + b + " " + c + " " + d + " " + e + " " + f
  }

  lemma JoinedShape(family: string, c: string, d: string, e: string, f: string)
    requires Plain(family) && Plain(c) && Plain(d) && Plain(e) && Plain(f) && |family| == 4
    ensures var line := Joined("PROXY", family, c, d, e, f);
            && Ascii(line) && '\r' !in line && StartsWith(line, "PROXY ")
            && |line| == 14 + |c| + |d| + |e| + |f|
  {
    var line := Joined("PROXY", family, c, d, e, f);
    assert Plain("PROXY");
    forall i | 0 <= i < |line| ensures line[i] == ' ' || '!' <= line[i] <= '~' {
    }
    assert line[..6] == "PROXY ";
  }

  lemma FieldsReadBack(
      codec: Codec, source: Address, destination: Address, c: string, d: string, e: string, f: string)
    requires Plain(c) && Plain(d) && Plain(e) && Plain(f) && source.ip.V4? == destination.ip.V4?
    requires ParseIp(codec, c) == Some(source.ip) && ParseIp(codec, d) == Some(destination.ip)
    requires ParsePort(e) == Some(source.port) && ParsePort(f).Some?
    ensures var line := Joined("PROXY", if source.ip.V4? then "TCP4" else "TCP6", c, d, e, f);
            codec.utf8(line) ==> ParseLine(codec, line) == Ok(Some(source))
  {
    var family := if source.ip.V4? then "TCP4" else "TCP6";
    FamilyNames();
    hide Split, ParseIp, ParsePort, Joined, Plain;
    SplitSix("PROXY", family, c, d, e, f);
  }

  lemma FamilyNames()
    ensures Plain("PROXY") && Plain("TCP4") && Plain("TCP6")
    ensures "TCP4" != "TCP6" && "TCP4" != "UNKNOWN" && "TCP6" != "UNKNOWN"
  {
  }

  lemma LineReadsBack(codec: Codec, source: Address, destination: Address)
    requires Faithful(codec) && ValidIp(source.ip) && ValidIp(destination.ip)
    requires source.ip.V4? == destination.ip.V4? && source.port < 65536 && destination.port < 65536
    ensures var line := PrintLine(codec, source, destination);
            ParseLine(codec, line) == Ok(Some(source)) && Ascii(line) && '\r' !in line && 10 <= |line| <= 102
            && StartsWith(line, "PROXY ")
  {
    var family := if source.ip.V4? then "TCP4" else "TCP6";
    assert Plain(family);
    hide TextOf, Decimal, ParseIp, ParsePort, ParseLine, Plain, ValidIp;
    IpReadsBack(codec, source.ip);
    IpReadsBack(codec, destination.ip);
    PortReadsBack(source.port);
    PortReadsBack(destination.port);
    var c, d, e, f := TextOf(codec, source.ip), TextOf(codec, destination.ip), Decimal(source.port), Decimal(destination.port);
    assert PrintLine(codec, source, destination) == Joined("PROXY", family, c, d, e, f);
    JoinedShape(family, c, d, e, f);
    FieldsReadBack(codec, source, destination, c, d, e, f);
    hide Joined, Ascii;
  }

  lemma {:induction false} LineEndAt(data: string, body: string, rest: string, from: nat)
    requires data == body + CRLF + rest && '\r' !in body
    requires from <= |body| + 2 <= LONGEST_LINE
    ensures LineEnd(data, from) == Some(|body| + 2)
    decreases |data| - from
  {
    hide EndsWith;
    var end := |body| + 2;
    assert data[|body|] == '\r' && data[|body| + 1] == '\n';
    if from == end {
      EndsAtCrlf(data, end);
    } else {
      NewlineEnds(data[..from]);
      if from >= 2 {
        assert data[..from][from - 2] == data[from - 2] == body[from - 2];
      } else {
        TooShort(data[..from]);
      }
      LineEndAt(data, body, rest, from + 1);
    }
  }

  lemma EndsAtCrlf(data: string, end: nat)
    requires 2 <= end <= |data| && data[end - 2] == '\r' && data[end - 1] == '\n'
    ensures EndsWith(data[..end], CRLF)
  {
  }

  lemma TooShort(s: string)
    requires |s| < 2
    ensures !EndsWith(s, CRLF)
  {
  }

  lemma OutcomeOfLine(codec: Codec, line: string, rest: string)
    requires StartsWith(line, "PROXY ") && '\r' !in line && 10 <= |line| <= 106
    ensures Outcome(codec, line + CRLF + rest) == (ParseLine(codec, line), |line| + 2)
  {
    hide ParseLine, LineEnd;
    var data := line + CRLF + rest;
    assert data[..12][..6] == data[..6] == line[..6] == "PROXY ";
    assert data[..12][0] == 'P' && SIGNATURE[0] == '\r';
    LineEndAt(data, line, rest, 12);
    assert data[..|line|] == line;
  }

  /** Version 1: any printed TCP4 or TCP6 line reads back, and exactly that line is consumed. */
  lemma LineRoundTrip(codec: Codec, source: Address, destination: Address, rest: string)
    requires Faithful(codec) && ValidIp(source.ip) && ValidIp(destination.ip)
    requires source.ip.V4? == destination.ip.V4? && source.port < 65536 && destination.port < 65536
    ensures var line := PrintLine(codec, source, destination);
            Outcome(codec, line + CRLF + rest) == (Ok(Some(source)), |line| + 2)
  {
    hide PrintLine, ParseLine, Outcome, Ascii, Faithful, ValidIp, StartsWith;
    LineReadsBack(codec, source, destination);
    OutcomeOfLine(codec, PrintLine(codec, source, destination), rest);
  }

  const LONGEST_ALLOWED: nat := 107

  /** Section 2.1 of the HAProxy PROXY protocol specification allows 107 bytes, the CRLF included. What is consumed of an
      accepted line stays within that exactly when a CRLF ends there; otherwise it is 108 bytes. */
  lemma AcceptedLineLength(codec: Codec, data: string)
    requires Outcome(codec, data).0.Ok? && data[..12] != SIGNATURE
    ensures Outcome(codec, data).1 <= LONGEST_ALLOWED + 1
    ensures Outcome(codec, data).1 <= LONGEST_ALLOWED
            <==> exists k :: 0 <= k <= LONGEST_ALLOWED && k <= |data| && EndsWith(data[..k], CRLF)
  {
    hide ParseLine;
    var end := Outcome(codec, data).1;
    LineEndLimit(data, 12);
    if k :| 0 <= k <= LONGEST_ALLOWED && k <= |data| && EndsWith(data[..k], CRLF) {
      if k < end {
        ConsumedThroughFirstCrlf(codec, data, k);
      }
    }
  }

  lemma {:induction false} LineEndLimit(data: string, from: nat)
    requires from <= |data| && from <= LONGEST_LINE
    ensures LineEnd(data, from).Some? ==> LineEnd(data, from).value <= LONGEST_LINE
    decreases |data| - from
  {
    if from < LONGEST_LINE && from < |data| {
      LineEndLimit(data, from + 1);
    }
  }

  /** Every printed line respects the specification's limit. */
  lemma PrintedLineLength(codec: Codec, source: Address, destination: Address)
    requires Faithful(codec) && ValidIp(source.ip) && ValidIp(destination.ip)
    requires source.ip.V4? == destination.ip.V4? && source.port < 65536 && destination.port < 65536
    ensures |PrintLine(codec, source, destination) + CRLF| <= 104 < LONGEST_ALLOWED
  {
    LineReadsBack(codec, source, destination);
  }

  /** A line of unknown family is accepted whatever follows, with 92 further characters at 108 bytes. */
  lemma UnknownLineAccepted(codec: Codec, pad: string, rest: string)
    requires Faithful(codec) && Plain(pad) && |pad| <= 92
    ensures Outcome(codec, "PROXY UNKNOWN " + pad + CRLF + rest) == (Ok(None), 16 + |pad|)
    ensures |pad| == 92 ==> Outcome(codec, "PROXY UNKNOWN " + pad + CRLF + rest).1 == LONGEST_ALLOWED + 1
  {
    var line := "PROXY UNKNOWN " + pad;
    assert forall i | 14 <= i < |line| :: line[i] == pad[i - 14];
    assert Ascii(line) && '\r' !in line;
    assert line[..6] == "PROXY ";
    UnknownFields(pad);
    hide Split, Plain, Ascii, Outcome;
    OutcomeOfLine(codec, line, rest);
  }

  lemma UnknownFields(pad: string)
    requires Plain(pad)
    ensures Split("PROXY UNKNOWN " + pad, ' ') == ["PROXY", "UNKNOWN", pad]
  {
    hide Split;
    SplitThree("PROXY", "UNKNOWN", pad, ' ');
    assert "PROXY" + [' '] + "UNKNOWN" + [' '] == "PROXY UNKNOWN ";
  }

  function Raw(a: seq<nat>): (s: string)
    requires forall i | 0 <= i < |a| :: a[i] < 256
    ensures |s| == |a| && Octets(s) == a
  {
    var s := seq(|a|, i requires 0 <= i < |a| => a[i] as char);
    assert Octets(s) == a;
    s
  }

  function Word(n: nat): (s: string)
    requires n < 65536
    ensures |s| == 2 && 256 * Byte(s[0]) + Byte(s[1]) == n
  {
    [(n / 256) as char, (n % 256) as char]
  }

  /** A version 2 header: addresses, ports, and any further payload the sender appends. */
  function PrintBinary(source: Address, destination: Address, extra: string): string
    requires ValidIp(source.ip) && ValidIp(destination.ip)
    requires source.port < 65536 && destination.port < 65536
    requires |source.ip.octets| + |destination.ip.octets| + 4 + |extra| < 65536
  {
    var payload := Raw(source.ip.octets) + Raw(destination.ip.octets) + Word(source.port) + Word(destination.port) + extra;
    SIGNATURE + [0x21 as char, (if source.ip.V4? then 0x11 else 0x21) as char] + Word(|payload|) + payload
  }

  /** A version 2 header with any command and family. */
  function PrintOther(command: nat, family: nat, payload: string): string
    requires command < 16 && family < 256 && |payload| < 65536
  {
    SIGNATURE + [(0x20 + command) as char, family as char] + Word(|payload|) + payload
  }

  /** Reading such a header, whatever follows it, depends on command, family and payload alone, and a
      payload of more than 512 bytes is refused. */
  lemma OtherReadsBack(codec: Codec, command: nat, family: nat, payload: string, rest: string)
    requires command < 16 && family < 256 && |payload| < 65536
    ensures var header := PrintOther(command, family, payload);
            if |payload| <= 512 then Outcome(codec, header + rest) == (ParseBinary(command, family, payload), |header|)
            else Outcome(codec, header + rest).0.Err?
  {
    hide ParseBinary;
    var data := PrintOther(command, family, payload) + rest;
    assert data[..12] == SIGNATURE;
    assert data[12] == (0x20 + command) as char && data[13] == family as char;
    assert data[14] == Word(|payload|)[0] && data[15] == Word(|payload|)[1];
    assert PayloadLength(data) == |payload|;
    if |payload| <= 512 {
      assert data[16..16 + |payload|] == payload;
    }
  }

  /** A LOCAL header, whatever its family and payload, and a PROXY header of the unspecified family give
      no address and are consumed whole; any other command, a family other than TCP over IPv4 or IPv6,
      and a payload too short for the addresses are refused. */
  lemma OtherHeaders(codec: Codec, command: nat, family: nat, payload: string, rest: string)
    requires command < 16 && family < 256 && |payload| <= 512
    ensures var header := PrintOther(command, family, payload);
            var outcome := Outcome(codec, header + rest);
            && (command == 0 || (command == 1 && family == 0) ==> outcome == (Ok(None), 16 + |payload|))
            && (command > 1 ==> outcome.0.Err?)
            && (command == 1 && family != 0 && !(family == 0x11 && |payload| >= 12) && !(family == 0x21 && |payload| >= 36)
                ==> outcome.0.Err?)
  {
    hide Outcome;
    OtherReadsBack(codec, command, family, payload, rest);
  }

  /** Input that begins neither with the version 2 signature nor with "PROXY ", and a version other than
      2, are refused. */
  lemma OtherInputsRefused(codec: Codec, data: string)
    ensures |data| < 12 ==> Outcome(codec, data).0.Err?
    ensures |data| >= 12 && data[..12] != "\r\n\r\n\0\r\nQUIT\n" && data[..6] != "PROXY " ==> Outcome(codec, data).0.Err?
    ensures |data| >= 16 && data[..12] == "\r\n\r\n\0\r\nQUIT\n" && !(0x20 <= Byte(data[12]) < 0x30) ==>
              Outcome(codec, data).0.Err?
  {
    if |data| >= 12 {
      assert data[..12][..6] == data[..6];
    }
  }

  /** A version 1 line gives an address exactly when it consists of six fields, the second naming the family
      of both addresses, and the address is the third and fifth field's. */
  lemma AcceptedLineExactly(codec: Codec, line: string, source: Address)
    ensures ParseLine(codec, line) == Ok(Some(source)) <==>
            && codec.utf8(line)
            && exists a, family, c, d, e, f ::
                 && Split(line, ' ') == [a, family, c, d, e, f]
                 && ParseIp(codec, c) == Some(source.ip) && ParsePort(e) == Some(source.port)
                 && ParsePort(f).Some? && ParseIp(codec, d).Some?
                 && family == (if source.ip.V4? then "TCP4" else "TCP6")
                 && ParseIp(codec, d).value.V4? == source.ip.V4?
  {
    hide Split, ParseIp, ParsePort;
    FamilyNames();
    var s := Split(line, ' ');
    if |s| == 6 {
      assert s == [s[0], s[1], s[2], s[3], s[4], s[5]];
    }
  }

  /** Version 2: any printed header with at most 512 payload bytes reads back, and exactly its
      bytes are consumed. */
  lemma BinaryRoundTrip(codec: Codec, source: Address, destination: Address, extra: string, rest: string)
    requires ValidIp(source.ip) && ValidIp(destination.ip) && source.ip.V4? == destination.ip.V4?
    requires source.port < 65536 && destination.port < 65536
    requires |source.ip.octets| + |destination.ip.octets| + 4 + |extra| <= LONGEST_PAYLOAD
    ensures var header := PrintBinary(source, destination, extra);
            Outcome(codec, header + rest) == (Ok(Some(source)), |header|)
  {
    var n := |source.ip.octets|;
    var a, b, c, d := Raw(source.ip.octets), Raw(destination.ip.octets), Word(source.port), Word(destination.port);
    var payload := a + b + c + d + extra;
    var header := PrintBinary(source, destination, extra);
    var data := header + rest;
    assert data[..12] == SIGNATURE;
    assert data[12] == 0x21 as char && data[14..16] == Word(|payload|);
    assert data[14] == Word(|payload|)[0] && data[15] == Word(|payload|)[1];
    assert PayloadLength(data) == |payload|;
    assert data[16..16 + |payload|] == payload;
    assert payload[..n] == a;
    assert payload[2 * n] == c[0] && payload[2 * n + 1] == c[1];
  }
}
