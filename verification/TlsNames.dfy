/** Which TLS entry answers for a server name, and which names a certificate covers
    (wildcards as in section 6.3 of RFC 9525). */
module TlsNames {
  import opened Options
  import opened Text

  const USIZE_MAX: nat := 0xFFFF_FFFF_FFFF_FFFF

  /** Strings never reach half the address space. */
  const LONGEST_STRING: nat := 0x7FFF_FFFF_FFFF_FFFF

  datatype AltName = Dns(name: string) | IpAddress(octets: seq<nat>) | OtherName

  datatype Certificate = Certificate(altNames: Option<seq<AltName>>, commonNames: seq<string>)

  datatype Entry = Entry(listener: nat, name: string, ingress: bool, default: bool, certificate: Option<Certificate>)

  /** How specifically a declared name matches a host in lower case. */
  function HostRank(pattern: string, host: string, ingress: bool): Option<nat> {
    if pattern == host then Some(USIZE_MAX)
    else if pattern == "" && ingress then Some(0)
    else
      match StripPrefix(pattern, "*.")
      case None => None
      case Some(suffix) =>
        match StripSuffix(host, suffix)
        case None => None
        case Some(front) =>
          match StripSuffix(front, ".")
          case None => None
          case Some(prefix) =>
            if prefix == "" || (ingress && '.' in prefix) then None else Some(|suffix| + 1)
  }

  function Rank(e: Entry, listener: nat, host: string): Option<nat> {
    if e.listener != listener then None
    else
      var byName := HostRank(e.name, Lower(host), e.ingress);
      if byName.Some? then byName else if e.default then Some(0) else None
  }

  /** The maximum over the entries from last to first, a later maximum replacing an equal one. */
  function Winner(entries: seq<Entry>, listener: nat, host: string): (r: Option<(nat, nat)>)
    ensures r.Some? ==> r.value.1 < |entries| && Rank(entries[r.value.1], listener, host) == Some(r.value.0)
  {
    if entries == [] then None
    else
      var rest := Winner(entries[1..], listener, host);
      var here := Rank(entries[0], listener, host);
      if here.Some? && (rest.None? || here.value >= rest.value.0) then Some((here.value, 0))
      else if rest.Some? then Some((rest.value.0, rest.value.1 + 1))
      else None
  }

  function TlsHost(entries: seq<Entry>, listener: nat, host: string): Option<Entry> {
    match Winner(entries, listener, host)
    case Some((_, i)) => Some(entries[i])
    case None => None
  }

  /** An entry without a usable certificate keeps its claim: no other entry answers instead. */
  function CertificateFor(entries: seq<Entry>, listener: nat, host: string): Option<Certificate> {
    match TlsHost(entries, listener, host)
    case Some(e) => e.certificate
    case None => None
  }

  /** The i-th entry matches, no entry matches more specifically, and no earlier one equally. */
  predicate EarliestMostSpecific(entries: seq<Entry>, listener: nat, host: string, i: int) {
    && 0 <= i < |entries|
    && Rank(entries[i], listener, host).Some?
    && (forall j | 0 <= j < |entries| && Rank(entries[j], listener, host).Some? ::
          Rank(entries[j], listener, host).value <= Rank(entries[i], listener, host).value)
    && (forall j | 0 <= j < i && Rank(entries[j], listener, host).Some? ::
          Rank(entries[j], listener, host).value < Rank(entries[i], listener, host).value)
  }

  lemma {:induction false} WinnerIsEarliest(entries: seq<Entry>, listener: nat, host: string)
    ensures match Winner(entries, listener, host)
            case Some((_, i)) => EarliestMostSpecific(entries, listener, host, i)
            case None => forall i | 0 <= i < |entries| :: Rank(entries[i], listener, host).None?
  {
    if entries != [] {
      WinnerIsEarliest(entries[1..], listener, host);
      assert forall j | 0 < j < |entries| :: entries[j] == entries[1..][j - 1];
    }
  }

  lemma EarliestUnique(entries: seq<Entry>, listener: nat, host: string, i: int, j: int)
    requires EarliestMostSpecific(entries, listener, host, i) && EarliestMostSpecific(entries, listener, host, j)
    ensures i == j
  {
  }

  /** The entry chosen is the earliest of maximal specificity, and its certificate is the answer. */
  lemma ChosenIsEarliest(entries: seq<Entry>, listener: nat, host: string, i: int)
    requires EarliestMostSpecific(entries, listener, host, i)
    ensures TlsHost(entries, listener, host) == Some(entries[i])
    ensures CertificateFor(entries, listener, host) == entries[i].certificate
  {
    WinnerIsEarliest(entries, listener, host);
    EarliestUnique(entries, listener, host, i, Winner(entries, listener, host).value.1);
  }

  /** Two different names never match a host equally well, except at rank 0. */
  lemma NoTies(a: string, b: string, host: string, ingressA: bool, ingressB: bool)
    requires |host| <= LONGEST_STRING
    requires HostRank(a, host, ingressA) == HostRank(b, host, ingressB)
    requires HostRank(a, host, ingressA).Some? && HostRank(a, host, ingressA).value > 0
    ensures a == b
  {
    if a != host {
      assert a == "*." + a[2..];
    }
    if b != host {
      assert b == "*." + b[2..];
    }
  }

  /** A wildcard name matches hosts with something before its suffix; for an ingress, one label. */
  predicate WildcardFits(name: string, host: string, ingress: bool) {
    && |name| >= 2 && name[..2] == "*."
    && |host| > |name| - 1
    && var at := |host| - (|name| - 1);
       && host[at..] == "." + name[2..]
       && (ingress ==> '.' !in host[..at])
  }

  lemma WildcardRank(name: string, host: string, ingress: bool)
    requires name != host && !(name == "" && ingress)
    ensures HostRank(name, host, ingress) ==
            if WildcardFits(name, host, ingress) then Some(|name| - 1) else None
  {
    if StartsWith(name, "*.") {
      var suffix := name[2..];
      if |host| >= |suffix| + 1 {
        var at := |host| - |suffix| - 1;
        assert host[at..][1..] == host[at + 1..];
        assert host[..at + 1][at..] == [host[at]] && host[..at + 1][..at] == host[..at];
        assert host[at..][0] == host[at];
        assert host[at..] == [host[at]] + host[at + 1..];
      }
    }
  }

  /** How an entry matches: by another listener not at all, by exactly the host's name, by a wildcard
      longer or shorter, or only as a catch-all. */
  lemma RanksMean(e: Entry, listener: nat, host: string)
    ensures var h, rank := Lower(host), Rank(e, listener, host);
            if e.listener != listener then rank == None
            else if e.name == h then rank == Some(0xFFFF_FFFF_FFFF_FFFF)
            else if e.name == "" && e.ingress then rank == Some(0)
            else if WildcardFits(e.name, h, e.ingress) then rank == Some(|e.name| - 1)
            else if e.default then rank == Some(0)
            else rank == None
  {
    if e.name != Lower(host) && !(e.name == "" && e.ingress) {
      WildcardRank(e.name, Lower(host), e.ingress);
    }
  }

  predicate CatchesAll(e: Entry, host: string) {
    e.name != Lower(host) && ((e.name == "" && e.ingress) || (e.default && !WildcardFits(e.name, Lower(host), e.ingress)))
  }

  /** The chosen entry belongs to the listener and matches; no entry of the listener has exactly the
      host's name unless it does, none is a longer matching wildcard than it, and if it only catches
      all, then no entry of the listener matches by name. */
  lemma ChosenIsMostSpecific(entries: seq<Entry>, listener: nat, host: string, other: Entry)
    requires TlsHost(entries, listener, host).Some? && |host| <= LONGEST_STRING
    requires other in entries && other.listener == listener
    ensures var e, h := TlsHost(entries, listener, host).value, Lower(host);
            && e in entries && e.listener == listener
            && (e.name == h || WildcardFits(e.name, h, e.ingress) || CatchesAll(e, host))
            && (other.name == h ==> e.name == h)
            && (e.name != h && WildcardFits(other.name, h, other.ingress) ==>
                  WildcardFits(e.name, h, e.ingress) && |other.name| <= |e.name|)
  {
    hide Rank, Lower, WildcardFits;
    WinnerIsEarliest(entries, listener, host);
    var e := TlsHost(entries, listener, host).value;
    var k :| 0 <= k < |entries| && entries[k] == other;
    RanksMean(e, listener, host);
    RanksMean(other, listener, host);
    FitsIsShorter(e.name, Lower(host), e.ingress);
    FitsIsShorter(other.name, Lower(host), other.ingress);
  }

  lemma FitsIsShorter(name: string, host: string, ingress: bool)
    ensures WildcardFits(name, host, ingress) ==> 2 <= |name| <= |host|
  {
  }

  function TrimDots(s: string): string {
    if s != "" && s[|s| - 1] == '.' then TrimDots(s[..|s| - 1]) else s
  }

  /** The name is one non-empty label, a dot, and the suffix. */
  predicate OneLabelBelow(name: string, suffix: string) {
    match StripSuffix(name, suffix)
    case None => false
    case Some(front) =>
      match StripSuffix(front, ".")
      case None => false
      case Some(leaf) => leaf != "" && '.' !in leaf
  }

  /** `name` is in lower case. */
  predicate DnsMatch(pattern: string, name: string) {
    var p := Lower(pattern);
    || p == name
    || (!StartsWith(name, "*.") && StartsWith(p, "*.") && OneLabelBelow(name, p[2..]))
  }

  /** A pattern covers exactly its own name and, as a wildcard, the names one non-empty label below its
      suffix, other than a wildcard itself. Case does not matter. */
  lemma DnsMatchExactly(pattern: string, name: string)
    ensures DnsMatch(pattern, name) <==>
            || Lower(pattern) == name
            || exists leaf | |leaf| <= |name| && leaf == name[..|leaf|] ::
                 leaf != "" && '.' !in leaf && leaf != "*" && Lower(pattern) == "*" + name[|leaf|..]
                 && |leaf| < |name| && name[|leaf|] == '.'
  {
    var p := Lower(pattern);
    hide Lower;
    if p != name {
      if DnsMatch(pattern, name) {
        var suffix := p[2..];
        var front := StripSuffix(name, suffix).value;
        var leaf := StripSuffix(front, ".").value;
        assert p[..2] == "*." && p == "*." + suffix;
        assert name == front + suffix && front == leaf + ".";
        assert leaf == name[..|leaf|] && name[|leaf|] == '.' && name[|leaf|..] == "." + suffix;
        StarDot(name);
        assert leaf[0] == name[0];
        assert p == "*" + name[|leaf|..];
      }
      forall leaf | |leaf| < |name| && leaf == name[..|leaf|] && leaf != "" && '.' !in leaf && leaf != "*"
        && p == "*" + name[|leaf|..] && name[|leaf|] == '.'
        ensures DnsMatch(pattern, name)
      {
        LabelBelow(leaf, name, p);
      }
    }
  }

  lemma LabelBelow(leaf: string, name: string, p: string)
    requires |leaf| < |name| && leaf == name[..|leaf|] && leaf != "" && '.' !in leaf && leaf != "*"
    requires p == "*" + name[|leaf|..] && name[|leaf|] == '.'
    ensures !StartsWith(name, "*.") && StartsWith(p, "*.") && OneLabelBelow(name, p[2..])
  {
    var n := |leaf|;
    assert p[0] == '*' && p[1] == '.' && p[..2] == "*.";
    assert p[2..] == name[n + 1..];
    assert name[..n + 1][n..] == "." && name[..n + 1][..n] == leaf;
    StarDot(name);
    assert leaf[0] == name[0] && (n > 1 ==> leaf[1] == name[1]) && (n == 1 ==> leaf == [leaf[0]]);
  }

  lemma StarDot(s: string)
    ensures StartsWith(s, "*.") <==> |s| >= 2 && s[0] == '*' && s[1] == '.'
  {
    if |s| >= 2 {
      assert s[..2] == [s[0], s[1]];
    }
  }

  predicate Relevant(n: AltName) {
    n.Dns? || n.IpAddress?
  }

  predicate AltMatches(n: AltName, name: string, ip: Option<seq<nat>>) {
    if ip.Some? then n.IpAddress? && n.octets == ip.value else n.Dns? && DnsMatch(n.name, name)
  }

  /** `parseIp` reads a textual address into octets. */
  predicate MatchesName(cert: Certificate, parseIp: string -> Option<seq<nat>>, raw: string) {
    if raw == "" || raw == "_" then true
    else
      var name := Lower(TrimDots(raw));
      var ip := parseIp(name);
      if cert.altNames.Some? && exists i | 0 <= i < |cert.altNames.value| :: Relevant(cert.altNames.value[i])
      then exists i | 0 <= i < |cert.altNames.value| :: AltMatches(cert.altNames.value[i], name, ip)
      else ip.None? && exists i | 0 <= i < |cert.commonNames| :: DnsMatch(cert.commonNames[i], name)
  }

  /** An address is covered only by the alternative name of that very address. */
  lemma AddressNeedsItsOwnName(cert: Certificate, parseIp: string -> Option<seq<nat>>, raw: string)
    requires raw != "" && raw != "_" && parseIp(Lower(TrimDots(raw))).Some?
    ensures MatchesName(cert, parseIp, raw) <==>
            cert.altNames.Some? && IpAddress(parseIp(Lower(TrimDots(raw))).value) in cert.altNames.value
  {
    hide TrimDots;
    var octets := parseIp(Lower(TrimDots(raw))).value;
    if cert.altNames.Some? && IpAddress(octets) in cert.altNames.value {
      var i :| 0 <= i < |cert.altNames.value| && cert.altNames.value[i] == IpAddress(octets);
      assert Relevant(cert.altNames.value[i]) && AltMatches(cert.altNames.value[i], Lower(TrimDots(raw)), Some(octets));
    }
  }

  /** Any other name is covered by a matching DNS name, or by a matching common name when the certificate
      has neither a DNS name nor an address among its alternative names. */
  lemma NameNeedsPattern(cert: Certificate, parseIp: string -> Option<seq<nat>>, raw: string)
    requires raw != "" && raw != "_" && parseIp(Lower(TrimDots(raw))).None?
    ensures var alts := if cert.altNames.Some? then cert.altNames.value else [];
            MatchesName(cert, parseIp, raw) <==>
              if exists n | n in alts :: n.Dns? || n.IpAddress?
              then exists n | n in alts :: n.Dns? && DnsMatch(n.name, Lower(TrimDots(raw)))
              else exists n | n in cert.commonNames :: DnsMatch(n, Lower(TrimDots(raw)))
  {
    hide TrimDots, DnsMatch, Lower;
    var alts := if cert.altNames.Some? then cert.altNames.value else [];
    assert forall i | 0 <= i < |alts| :: alts[i] in alts;
    assert forall i | 0 <= i < |cert.commonNames| :: cert.commonNames[i] in cert.commonNames;
  }

  /** An entry without a name, or with the placeholder, needs no coverage. */
  lemma NoNameNeedsNone(cert: Certificate, parseIp: string -> Option<seq<nat>>)
    ensures MatchesName(cert, parseIp, "") && MatchesName(cert, parseIp, "_")
  {
  }

  /** Only final dots are taken off, and all of them. */
  lemma {:induction false} TrimDotsExactly(s: string) returns (dots: string)
    ensures s == TrimDots(s) + dots && OnlyDots(dots)
    ensures TrimDots(s) != "" ==> TrimDots(s)[|TrimDots(s)| - 1] != '.'
    decreases |s|
  {
    dots := "";
    if s != "" && s[|s| - 1] == '.' {
      dots := TrimDotsExactly(s[..|s| - 1]);
      dots := dots + ".";
    }
  }

  /** Two names are covered alike when, neither being an address, every pattern for the first fits the second. */
  lemma CoverageFollowsPatterns(
      cert: Certificate, parseIp: string -> Option<seq<nat>>, raw: string, other: string)
    requires MatchesName(cert, parseIp, raw) && raw != "" && raw != "_"
    requires parseIp(Lower(TrimDots(raw))).None? && parseIp(Lower(TrimDots(other))).None?
    requires forall p :: DnsMatch(p, Lower(TrimDots(raw))) ==> DnsMatch(p, Lower(TrimDots(other)))
    ensures MatchesName(cert, parseIp, other)
  {
  }

  lemma {:induction false} TrimLower(s: string)
    ensures TrimDots(Lower(s)) == Lower(TrimDots(s))
    decreases |s|
  {
    if s != "" {
      var n := |s| - 1;
      assert Lower(s)[..n] == Lower(s[..n]);
      TrimLower(s[..n]);
    }
  }

  predicate OnlyDots(s: string) {
    forall i | 0 <= i < |s| :: s[i] == '.'
  }

  lemma {:induction false} TrimConcat(a: string, s: string)
    requires !OnlyDots(s)
    ensures TrimDots(a + s) == a + TrimDots(s)
    decreases |s|
  {
    var n := |s| - 1;
    if s[n] == '.' {
      assert (a + s)[..|a + s| - 1] == a + s[..n];
      TrimConcat(a, s[..n]);
    }
  }

  lemma {:induction false} TrimOnlyDots(a: string, s: string)
    requires OnlyDots(s)
    ensures TrimDots(a + s) == TrimDots(a)
    decreases |s|
  {
    if s == "" {
      assert a + s == a;
    } else {
      var n := |s| - 1;
      assert (a + s)[..|a + s| - 1] == a + s[..n];
      TrimOnlyDots(a, s[..n]);
    }
  }

  /** A pattern for the wildcard name fits every host one label below it. */
  lemma WildcardPatternFits(p: string, leaf: string, suffix: string)
    requires leaf != "" && '.' !in leaf
    requires DnsMatch(p, "*." + suffix)
    ensures DnsMatch(p, leaf + "." + suffix)
  {
    var wild, host := "*." + suffix, leaf + "." + suffix;
    assert wild[..2] == "*." && wild[2..] == suffix;
    assert host[|leaf| + 1..] == suffix && host[..|leaf| + 1] == leaf + ".";
    assert (leaf + ".")[|leaf|..] == "." && (leaf + ".")[..|leaf|] == leaf;
    assert forall i | 0 <= i < |leaf| :: host[i] == leaf[i];
    if StartsWith(host, "*.") {
      assert host[..2][0] == host[0] && host[..2][1] == host[1];
      assert leaf == "*";
    }
  }

  /** Address texts never begin with an asterisk, and a single letter is not an address. */
  ghost predicate ReadsAddresses(parseIp: string -> Option<seq<nat>>) {
    (forall s | StartsWith(s, "*") :: parseIp(s).None?) && parseIp("a").None?
  }

  /** An ingress entry's name, in lower case, that selects by name. */
  predicate NamedEntry(name: string) {
    Lower(name) == name && name != "" && name != "_"
  }

  predicate Wins(name: string, host: string) {
    HostRank(name, Lower(host), true).Some?
  }

  /** The name is a wildcard with nothing but dots behind it. */
  predicate DegenerateWildcard(name: string) {
    StartsWith(name, "*.") && OnlyDots(name[2..])
  }

  /** A certificate that covers an ingress entry's name covers every host the entry wins by it. */
  lemma CertificateCoversWonHosts(
      cert: Certificate, parseIp: string -> Option<seq<nat>>, name: string, host: string)
    requires ReadsAddresses(parseIp) && NamedEntry(name) && !DegenerateWildcard(name)
    requires Wins(name, host) && parseIp(Lower(TrimDots(host))).None?
    requires MatchesName(cert, parseIp, name)
    ensures MatchesName(cert, parseIp, host)
  {
    hide MatchesName, TrimDots;
    TrimLower(host);
    TrimLower(name);
    if name == Lower(host) {
      MatchesTrimmed(cert, parseIp, name, host);
    } else {
      var leaf := WonShape(name, Lower(host));
      CoveredBelowWildcard(cert, parseIp, name[2..], leaf, name, host);
    }
  }

  lemma CoveredBelowWildcard(
      cert: Certificate, parseIp: string -> Option<seq<nat>>,
      suffix: string, leaf: string, name: string, host: string)
    requires ReadsAddresses(parseIp) && MatchesName(cert, parseIp, name) && name != "" && name != "_"
    requires !OnlyDots(suffix) && leaf != "" && '.' !in leaf
    requires Lower(TrimDots(name)) == TrimDots("*." + suffix)
    requires Lower(TrimDots(host)) == TrimDots(leaf + "." + suffix)
    requires parseIp(Lower(TrimDots(host))).None?
    ensures MatchesName(cert, parseIp, host)
  {
    hide DnsMatch, MatchesName, TrimDots, Lower, OnlyDots;
    TrimConcat("*.", suffix);
    TrimConcat(leaf + ".", suffix);
    var t := TrimDots(suffix);
    assert ("*." + t)[..1] == "*";
    forall p | DnsMatch(p, "*." + t) ensures DnsMatch(p, leaf + "." + t) {
      WildcardPatternFits(p, leaf, t);
    }
    CoverageFollowsPatterns(cert, parseIp, name, host);
  }

  lemma WonShape(name: string, lower: string) returns (leaf: string)
    requires HostRank(name, lower, true).Some? && name != lower && name != ""
    ensures StartsWith(name, "*.") && name == "*." + name[2..]
    ensures lower == (leaf + ".") + name[2..] && leaf != "" && '.' !in leaf
  {
    var suffix := name[2..];
    var front := StripSuffix(lower, suffix).value;
    leaf := StripSuffix(front, ".").value;
    assert lower == front + suffix && front == leaf + ".";
  }

  lemma MatchesTrimmed(cert: Certificate, parseIp: string -> Option<seq<nat>>, raw: string, other: string)
    requires MatchesName(cert, parseIp, raw) && raw != "" && raw != "_"
    requires Lower(TrimDots(raw)) == Lower(TrimDots(other))
    ensures MatchesName(cert, parseIp, other)
  {
  }

  /** For a degenerate wildcard it does not: the certificate "*" covers the name "*." but not the
      host "a." that the entry wins. */
  lemma DegenerateWildcardFails(parseIp: string -> Option<seq<nat>>, name: string)
    requires ReadsAddresses(parseIp) && NamedEntry(name) && DegenerateWildcard(name)
    ensures var cert, host := Certificate(Some([Dns("*")]), []), "a." + name[2..];
            && Wins(name, host) && parseIp(Lower(TrimDots(host))).None?
            && MatchesName(cert, parseIp, name) && !MatchesName(cert, parseIp, host)
  {
    var dots := name[2..];
    var host := "a." + dots;
    DegenerateTrims(name);
    DegenerateWins(name);
    StarCoversOnlyStar(parseIp, name, host);
  }

  lemma DegenerateTrims(name: string)
    requires DegenerateWildcard(name)
    ensures TrimDots(name) == "*" && TrimDots("a." + name[2..]) == "a"
  {
    var dots := name[2..];
    assert name == "*" + ("." + dots) && "a." + dots == "a" + ("." + dots);
    TrimOnlyDots("*", "." + dots);
    TrimOnlyDots("a", "." + dots);
  }

  lemma DegenerateWins(name: string)
    requires DegenerateWildcard(name)
    ensures Wins(name, "a." + name[2..])
  {
    var dots, host := name[2..], "a." + name[2..];
    assert forall i | 0 <= i < |host| :: LowerChar(host[i]) == host[i];
    assert Lower(host) == host;
    assert name[0] == '*' by { assert name[..2][0] == '*'; }
    assert host[2..] == dots && host[..2] == "a.";
    assert "a."[1..] == "." && "a."[..1] == "a";
  }

  lemma StarCoversOnlyStar(parseIp: string -> Option<seq<nat>>, name: string, host: string)
    requires ReadsAddresses(parseIp) && TrimDots(name) == "*" && TrimDots(host) == "a"
    requires host != "_" && host != ""
    ensures parseIp(Lower(TrimDots(host))).None?
    ensures var cert := Certificate(Some([Dns("*")]), []);
            MatchesName(cert, parseIp, name) && !MatchesName(cert, parseIp, host)
  {
    var cert := Certificate(Some([Dns("*")]), []);
    assert Lower("*") == "*" && Lower("a") == "a" && "*" != "a";
    assert Relevant(cert.altNames.value[0]);
    assert StartsWith("*", "*");
    assert AltMatches(cert.altNames.value[0], "*", None);
    assert !DnsMatch("*", "a");
  }

  /** Coverage carries over from the name to all non-address hosts exactly for the other names. */
  lemma CoverageIffNotDegenerate(parseIp: string -> Option<seq<nat>>, name: string)
    requires ReadsAddresses(parseIp) && NamedEntry(name)
    ensures !DegenerateWildcard(name) <==>
            forall cert, host ::
              Wins(name, host) && parseIp(Lower(TrimDots(host))).None? && MatchesName(cert, parseIp, name) ==>
                MatchesName(cert, parseIp, host)
  {
    if DegenerateWildcard(name) {
      DegenerateWildcardFails(parseIp, name);
    } else {
      forall cert, host
        | Wins(name, host) && parseIp(Lower(TrimDots(host))).None? && MatchesName(cert, parseIp, name)
        ensures MatchesName(cert, parseIp, host)
      {
        CertificateCoversWonHosts(cert, parseIp, name, host);
      }
    }
  }
}
