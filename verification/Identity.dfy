/** Which address a request is taken to come from, given the forwarding chain it claims. */
module Identity {
  import opened Options
  import opened Text

  datatype Ip = V4(bits: nat) | V6(bits: nat)

  /** A CIDR block: an aligned range of addresses of one family. */
  datatype Network = Network(first: Ip, size: nat)

  datatype Rule = Rule(network: Option<Network>, allow: bool)

  datatype Policy = Policy(trusted: seq<Network>, header: string, recursive: bool, access: seq<Rule>)

  const MAX_BYTES: nat := 8192
  const MAX_HOPS: nat := 64

  predicate Contains(net: Network, ip: Ip) {
    net.first.V4? == ip.V4? && net.first.bits <= ip.bits < net.first.bits + net.size
  }

  predicate Trusts(policy: Policy, ip: Ip) {
    exists i | 0 <= i < |policy.trusted| :: Contains(policy.trusted[i], ip)
  }

  predicate Matches(rule: Rule, ip: Ip) {
    rule.network.Some? ==> Contains(rule.network.value, ip)
  }

  function FirstRule(rules: seq<Rule>, ip: Ip): bool {
    if rules == [] then true
    else if Matches(rules[0], ip) then rules[0].allow
    else FirstRule(rules[1..], ip)
  }

  predicate Allows(policy: Policy, ip: Ip) {
    FirstRule(policy.access, ip)
  }

  predicate FirstMatch(rules: seq<Rule>, ip: Ip, i: int) {
    0 <= i < |rules| && Matches(rules[i], ip) && forall j | 0 <= j < i :: !Matches(rules[j], ip)
  }

  lemma FirstMatchTail(rules: seq<Rule>, ip: Ip, i: int)
    requires rules != [] && !Matches(rules[0], ip)
    ensures FirstMatch(rules, ip, i) <==> FirstMatch(rules[1..], ip, i - 1)
  {
    if FirstMatch(rules[1..], ip, i - 1) {
      forall j | 0 < j < i ensures !Matches(rules[j], ip) {
        assert rules[1..][j - 1] == rules[j];
      }
    }
  }

  lemma {:induction false} FirstRuleDecides(rules: seq<Rule>, ip: Ip)
    ensures FirstRule(rules, ip) <==> forall i | FirstMatch(rules, ip, i) :: rules[i].allow
  {
    if rules != [] {
      FirstRuleDecides(rules[1..], ip);
      if Matches(rules[0], ip) {
        assert FirstMatch(rules, ip, 0);
      } else {
        forall i ensures FirstMatch(rules, ip, i) <==> FirstMatch(rules[1..], ip, i - 1) {
          FirstMatchTail(rules, ip, i);
        }
        if !FirstRule(rules[1..], ip) {
          var i :| FirstMatch(rules[1..], ip, i) && !rules[1..][i].allow;
          assert FirstMatch(rules, ip, i + 1);
        }
      }
    }
  }

  /** The first matching rule decides; without one, access is allowed. */
  lemma FirstMatchDecides(policy: Policy, ip: Ip)
    ensures Allows(policy, ip) <==> forall i | FirstMatch(policy.access, ip, i) :: policy.access[i].allow
  {
    FirstRuleDecides(policy.access, ip);
  }

  /** Removing one pair of surrounding quotes. */
  function Unquote(value: string): string {
    match StripPrefix(value, "\"")
    case None => value
    case Some(rest) => (match StripSuffix(rest, "\"") case Some(inner) => inner case None => value)
  }

  /** The values of the `for` fields of one Forwarded element. */
  function ForFields(fields: seq<string>): seq<string> {
    if fields == [] then []
    else
      var more := ForFields(fields[1..]);
      match SplitOnce(Trim(fields[0]), '=')
      case Some((key, value)) => if SameLetters(key, "for") then [value] + more else more
      case None => more
  }

  /** The address text of one hop; a Forwarded element needs exactly one `for`. */
  function HopText(header: string, hop: string): Option<string> {
    if header == "forwarded" then
      var values := ForFields(Split(hop, ';'));
      if |values| == 1 then Some(Unquote(Trim(values[0]))) else None
    else Some(Unquote(Trim(hop)))
  }

  /** Reading one hop; `parse` reads an address with or without port and brackets. */
  function ReadHop(header: string, parse: string -> Option<Ip>, hop: string): Option<Ip> {
    var text := HopText(header, hop);
    if text.None? then None else parse(text.value)
  }

  predicate WellFormed(policy: Policy, parse: string -> Option<Ip>, headers: seq<string>) {
    && (forall i | 0 <= i < |headers| :: Visible(headers[i]))
    && Bytes(headers) <= MAX_BYTES
    && |Items(headers)| <= MAX_HOPS
    && (forall i | 0 <= i < |Items(headers)| :: ReadHop(policy.header, parse, Items(headers)[i]).Some?)
  }

  function Addresses(policy: Policy, parse: string -> Option<Ip>, hops: seq<string>): (ips: seq<Ip>)
    requires forall i | 0 <= i < |hops| :: ReadHop(policy.header, parse, hops[i]).Some?
    ensures |ips| == |hops|
    ensures forall i | 0 <= i < |hops| :: ReadHop(policy.header, parse, hops[i]) == Some(ips[i])
  {
    seq(|hops|, i requires 0 <= i < |hops| => ReadHop(policy.header, parse, hops[i]).value)
  }

  /** Walking back from the peer while what has been reached is trusted. */
  function WalkBack(policy: Policy, all: seq<Ip>): Ip
    requires all != []
  {
    var last := all[|all| - 1];
    if |all| == 1 || !Trusts(policy, last) then last else WalkBack(policy, all[..|all| - 1])
  }

  /** The rightmost untrusted address of the chain and the peer, or the leftmost when all are trusted. */
  predicate IsRightmostUntrusted(policy: Policy, all: seq<Ip>, i: nat)
    requires i < |all|
  {
    && (forall j | i < j < |all| :: Trusts(policy, all[j]))
    && (i > 0 ==> !Trusts(policy, all[i]))
  }

  lemma {:induction false} WalkBackFindsRightmost(policy: Policy, all: seq<Ip>)
    requires all != []
    ensures exists i | 0 <= i < |all| :: IsRightmostUntrusted(policy, all, i) && WalkBack(policy, all) == all[i]
    decreases |all|
  {
    var n := |all| - 1;
    if n == 0 || !Trusts(policy, all[n]) {
      assert IsRightmostUntrusted(policy, all, n);
    } else {
      WalkBackFindsRightmost(policy, all[..n]);
      var i :| 0 <= i < n && IsRightmostUntrusted(policy, all[..n], i) && WalkBack(policy, all[..n]) == all[..n][i];
      assert IsRightmostUntrusted(policy, all, i);
    }
  }

  lemma RightmostUnique(policy: Policy, all: seq<Ip>, i: nat, j: nat)
    requires i < |all| && j < |all|
    requires IsRightmostUntrusted(policy, all, i) && IsRightmostUntrusted(policy, all, j)
    ensures i == j
  {
  }

  /** Once an untrusted address is reached, nothing claimed further left matters. */
  lemma {:induction false} UntrustedShields(policy: Policy, claimed: seq<Ip>, all: seq<Ip>)
    requires exists i | 0 <= i < |all| :: !Trusts(policy, all[i])
    ensures WalkBack(policy, claimed + all) == WalkBack(policy, all)
    decreases |all|
  {
    var n := |all| - 1;
    assert (claimed + all)[|claimed + all| - 1] == all[n];
    if Trusts(policy, all[n]) {
      assert (claimed + all)[..|claimed + all| - 1] == claimed + all[..n];
      var i :| 0 <= i < |all| && !Trusts(policy, all[i]);
      assert all[..n][i] == all[i];
      UntrustedShields(policy, claimed, all[..n]);
    }
  }

  /** The answer for a request. A malformed or oversized chain is disregarded as a whole. */
  function Resolution(
      policy: Policy, parse: string -> Option<Ip>, peer: Ip, headers: seq<string>, proxy: Option<Ip>): Ip
  {
    if !Trusts(policy, peer) then peer
    else if policy.header == "proxy_protocol" then (if proxy.Some? then proxy.value else peer)
    else if !WellFormed(policy, parse, headers) then peer
    else
      var chain := Addresses(policy, parse, Items(headers));
      if policy.recursive then WalkBack(policy, chain + [peer])
      else if chain == [] then peer
      else chain[|chain| - 1]
  }

  method Resolve(
      policy: Policy, parse: string -> Option<Ip>, peer: Ip, headers: seq<string>, proxy: Option<Ip>)
    returns (selected: Ip)
    ensures selected == Resolution(policy, parse, peer, headers, proxy)
  {
    hide WellFormed, Addresses, WalkBack;
    if !Trusts(policy, peer) {
      return peer;
    }
    if policy.header == "proxy_protocol" {
      return if proxy.Some? then proxy.value else peer;
    }
    var chain := ReadChain(policy, parse, headers);
    if chain.None? {
      return peer;
    }
    if !policy.recursive {
      return if chain.value == [] then peer else chain.value[|chain.value| - 1];
    }
    selected := SelectRecursive(policy, chain.value, peer);
  }

  /** The first loop of `resolve`: the whole chain, or nothing if any part of it is unacceptable. */
  method ReadChain(policy: Policy, parse: string -> Option<Ip>, headers: seq<string>) returns (result: Option<seq<Ip>>)
    ensures result.Some? <==> WellFormed(policy, parse, headers)
    ensures result.Some? ==> result.value == Addresses(policy, parse, Items(headers))
  {
    hide ReadHop, Split, Visible, Items, Bytes;
    var chain, bytes := [], 0;
    NothingYet(headers);
    for h := 0 to |headers|
      invariant bytes == Bytes(headers[..h]) <= MAX_BYTES
      invariant forall i | 0 <= i < h :: Visible(headers[i])
      invariant Read(policy, parse, Items(headers[..h]), chain) && |chain| <= MAX_HOPS
    {
      var value := headers[h];
      LineUnfold(headers, h);
      ItemsGrow(headers, h + 1);
      bytes := bytes + |value|;
      if bytes > MAX_BYTES {
        return None;
      }
      if !Visible(value) {
        return None;
      }
      var hops := Split(value, ',');
      ghost var before := Items(headers[..h]);
      assert before + hops[..0] == before;
      for i := 0 to |hops|
        invariant Read(policy, parse, before + hops[..i], chain) && |chain| <= MAX_HOPS
      {
        assert before + hops[..i + 1] == before + hops[..i] + [hops[i]];
        assert Items(headers)[|before| + i] == (before + hops)[|before| + i] == hops[i];
        var address := ReadHop(policy.header, parse, hops[i]);
        if address.None? {
          return None;
        }
        chain := chain + [address.value];
        if |chain| > MAX_HOPS {
          return None;
        }
      }
      assert hops[..|hops|] == hops;
    }
    assert headers[..|headers|] == headers;
    assert chain == Addresses(policy, parse, Items(headers));
    return Some(chain);
  }

  lemma NothingYet(headers: seq<string>)
    ensures headers[..0] == [] && Bytes([]) == 0 && Items([]) == []
  {
  }

  /** The last loop of `resolve`: hops in reverse until an untrusted one has been selected. */
  method SelectRecursive(policy: Policy, chain: seq<Ip>, peer: Ip) returns (selected: Ip)
    ensures selected == WalkBack(policy, chain + [peer])
  {
    selected := peer;
    var n := |chain|;
    assert chain[..n] == chain;
    while n > 0
      invariant 0 <= n <= |chain|
      invariant WalkBack(policy, chain + [peer]) == WalkBack(policy, chain[..n] + [selected])
    {
      var here := chain[..n] + [selected];
      assert here[..|here| - 1] == chain[..n - 1] + [chain[n - 1]];
      if !Trusts(policy, selected) {
        break;
      }
      n := n - 1;
      selected := chain[n];
    }
    assert (chain[..n] + [selected])[n] == selected;
  }

  ghost predicate Read(policy: Policy, parse: string -> Option<Ip>, hops: seq<string>, ips: seq<Ip>) {
    && |ips| == |hops|
    && forall i | 0 <= i < |hops| :: ReadHop(policy.header, parse, hops[i]) == Some(ips[i])
  }

  /** Splitting a header line at a comma, or joining two, changes nothing within the limits. */
  lemma LineSplitting(
      policy: Policy, parse: string -> Option<Ip>, peer: Ip, proxy: Option<Ip>,
      before: seq<string>, left: string, right: string, after: seq<string>)
    requires var joined, apart := before + [left + [','] + right] + after, before + [left, right] + after;
             WellFormed(policy, parse, joined) && WellFormed(policy, parse, apart)
    ensures Resolution(policy, parse, peer, before + [left + [','] + right] + after, proxy)
         == Resolution(policy, parse, peer, before + [left, right] + after, proxy)
  {
    SameItems(before, left, right, after);
  }

  /** No claim made to the left of an untrusted address changes the answer: a client cannot
      smuggle in an address by sending its own forwarding header. */
  lemma ClaimedHopsIgnored(
      policy: Policy, parse: string -> Option<Ip>, peer: Ip, proxy: Option<Ip>,
      claimed: seq<string>, headers: seq<string>)
    requires policy.recursive && Trusts(policy, peer) && policy.header != "proxy_protocol"
    requires WellFormed(policy, parse, headers) && WellFormed(policy, parse, claimed + headers)
    requires exists i | 0 <= i < |Items(headers)| ::
               !Trusts(policy, Addresses(policy, parse, Items(headers))[i])
    ensures Resolution(policy, parse, peer, claimed + headers, proxy)
         == Resolution(policy, parse, peer, headers, proxy)
  {
    hide ReadHop, Visible, WalkBack, Bytes, Items;
    ItemsConcat(claimed, headers);
    var fewer := Addresses(policy, parse, Items(headers));
    var more := Addresses(policy, parse, Items(claimed + headers));
    var extra := more[..|Items(claimed)|];
    assert more == extra + fewer;
    assert more + [peer] == extra + (fewer + [peer]);
    var i :| 0 <= i < |Items(headers)| && !Trusts(policy, fewer[i]);
    assert (fewer + [peer])[i] == fewer[i];
    UntrustedShields(policy, extra, fewer + [peer]);
  }

  /** A peer in none of the trusted ranges decides: nothing it claims is looked at. */
  lemma UntrustedPeerDecides(
      policy: Policy, parse: string -> Option<Ip>, peer: Ip, headers: seq<string>, proxy: Option<Ip>)
    requires forall i | 0 <= i < |policy.trusted| ::
               var net := policy.trusted[i];
               net.first.V4? != peer.V4? || peer.bits < net.first.bits || peer.bits >= net.first.bits + net.size
    ensures Resolution(policy, parse, peer, headers, proxy) == peer
  {
  }

  /** A trusted peer's PROXY header decides when the policy says so, and then no other header does. */
  lemma ProxyHeaderDecides(
      policy: Policy, parse: string -> Option<Ip>, peer: Ip, headers: seq<string>, proxy: Option<Ip>)
    requires Trusts(policy, peer) && policy.header == "proxy_protocol"
    ensures Resolution(policy, parse, peer, headers, proxy) == if proxy == None then peer else proxy.value
  {
  }

  /** A chain that is unreadable, longer than 8192 bytes or 64 hops, or has a hop without an address is
      disregarded; without a chain the peer decides as well. */
  lemma UnacceptableChainIgnored(
      policy: Policy, parse: string -> Option<Ip>, peer: Ip, headers: seq<string>, proxy: Option<Ip>)
    requires policy.header != "proxy_protocol"
    requires || headers == []
             || (exists i | 0 <= i < |headers| :: !Visible(headers[i]))
             || Bytes(headers) > 8192
             || |Items(headers)| > 64
             || (exists i | 0 <= i < |Items(headers)| :: ReadHop(policy.header, parse, Items(headers)[i]) == None)
    ensures Resolution(policy, parse, peer, headers, proxy) == peer
  {
    hide Visible, Bytes, ReadHop;
    if headers == [] {
      assert |Items(headers)| == 0;
    }
  }

  /** Within these limits the last hop is the answer of a policy that is not recursive. */
  lemma LastHopDecides(
      policy: Policy, parse: string -> Option<Ip>, peer: Ip, headers: seq<string>, proxy: Option<Ip>)
    requires Trusts(policy, peer) && policy.header != "proxy_protocol" && !policy.recursive
    requires headers != [] && (forall i | 0 <= i < |headers| :: Visible(headers[i]))
    requires Bytes(headers) <= 8192 && |Items(headers)| <= 64
    requires forall i | 0 <= i < |Items(headers)| :: ReadHop(policy.header, parse, Items(headers)[i]).Some?
    ensures |Items(headers)| > 0
    ensures Some(Resolution(policy, parse, peer, headers, proxy))
         == ReadHop(policy.header, parse, Items(headers)[|Items(headers)| - 1])
  {
    hide Visible, Bytes, ReadHop;
  }

  /** ... and of a recursive one, the rightmost untrusted of all hops and the peer, or the first hop. */
  lemma RightmostUntrustedDecides(
      policy: Policy, parse: string -> Option<Ip>, peer: Ip, headers: seq<string>, proxy: Option<Ip>)
    returns (i: nat)
    requires Trusts(policy, peer) && policy.header != "proxy_protocol" && policy.recursive
    requires WellFormed(policy, parse, headers)
    ensures var all := Addresses(policy, parse, Items(headers)) + [peer];
            && i < |all| && Resolution(policy, parse, peer, headers, proxy) == all[i]
            && (forall j | i < j < |all| :: Trusts(policy, all[j]))
            && (i == 0 || !Trusts(policy, all[i]))
  {
    hide Trusts, ReadHop, Visible, WalkBack;
    var all := Addresses(policy, parse, Items(headers)) + [peer];
    WalkBackFindsRightmost(policy, all);
    i :| 0 <= i < |all| && IsRightmostUntrusted(policy, all, i) && WalkBack(policy, all) == all[i];
  }

  /** A hop's address is read from its address text, and there is none without. */
  lemma AddressFromText(header: string, parse: string -> Option<Ip>, hop: string)
    ensures HopText(header, hop) == None ==> ReadHop(header, parse, hop) == None
    ensures HopText(header, hop).Some? ==> ReadHop(header, parse, hop) == parse(HopText(header, hop).value)
  {
  }

  /** A rule matches the addresses of its range, and every address when it names none. */
  lemma RuleMatches(rule: Rule, ip: Ip)
    ensures rule.network == None ==> Matches(rule, ip)
    ensures rule.network.Some? ==>
              var first, size := rule.network.value.first, rule.network.value.size;
              Matches(rule, ip) <==> first.V4? == ip.V4? && first.bits <= ip.bits && ip.bits - first.bits < size
  {
  }

  /** Outside Forwarded the address text of a hop is the hop without blanks and quotes. */
  lemma PlainHop(header: string, hop: string)
    requires header != "forwarded"
    ensures HopText(header, hop) == Some(Unquote(Trim(hop)))
  {
  }

  /** A Forwarded element has it after its only `for=`. */
  lemma ForwardedHop(value: string)
    requires ';' !in value
    ensures HopText("forwarded", "for=" + value) == Some(Unquote(Trim(TrimEnd(value))))
  {
    hide Split, Trim, Unquote, TrimEnd;
    SplitWithout("for=" + value, ';');
    ForField(value);
  }

  /** An element with two of them, or without a field, has none. */
  lemma AmbiguousHop(value: string, other: string)
    requires ';' !in value && ';' !in other
    ensures HopText("forwarded", "for=" + value + ";for=" + other) == None
    ensures '=' !in other ==> HopText("forwarded", other) == None
  {
    hide Split, Trim, Unquote, TrimEnd, ForFields;
    SplitWithout(other, ';');
    SplitWithout("for=" + value, ';');
    SplitWithout("for=" + other, ';');
    SplitConcat("for=" + value, ';', "for=" + other);
    assert "for=" + value + ";for=" + other == "for=" + value + [';'] + ("for=" + other);
    assert ["for=" + value] + ["for=" + other] == ["for=" + value, "for=" + other];
    ForField(value);
    ForField(other);
    ForFieldsPair("for=" + value, "for=" + other);
    if '=' !in other {
      NoField(other);
    }
  }

  lemma ForFieldsPair(a: string, b: string)
    ensures ForFields([a, b]) == ForFields([a]) + ForFields([b])
  {
    assert [a, b][1..] == [b] && [a][1..] == [];
  }

  lemma ForField(value: string)
    ensures ForFields(["for=" + value]) == [TrimEnd(value)]
  {
    TrimForField(value);
    hide Trim, TrimEnd;
    var field := "for=" + TrimEnd(value);
    IndexOfUnique(field, '=', 3);
    assert field[..3] == "for" && field[4..] == TrimEnd(value);
    assert SplitOnce(field, '=') == Some(("for", TrimEnd(value)));
    assert ["for=" + value][1..] == [];
  }

  lemma TrimForField(value: string)
    ensures Trim("for=" + value) == "for=" + TrimEnd(value)
  {
    assert TrimStart("for=" + value) == "for=" + value;
    TrimEndBehind("for=", value);
  }

  lemma {:induction false} TrimEndBehind(front: string, s: string)
    requires front != "" && !IsBlank(front[|front| - 1])
    ensures TrimEnd(front + s) == front + TrimEnd(s)
    decreases |s|
  {
    if s == "" {
      assert front + s == front;
    } else {
      assert (front + s)[..|front + s| - 1] == front + s[..|s| - 1];
      TrimEndBehind(front, s[..|s| - 1]);
    }
  }

  lemma NoField(s: string)
    requires '=' !in s
    ensures ForFields([s]) == []
  {
    var left, right := TrimExactly(s);
    hide Trim;
    assert forall i | 0 <= i < |Trim(s)| :: Trim(s)[i] == s[|left| + i];
    IndexOfUnique(Trim(s), '=', |Trim(s)|);
    assert [s][1..] == [];
  }

  /** Quotes are taken off in pairs only. */
  lemma UnquotePairs(s: string)
    ensures Unquote("\"" + s + "\"") == s
    ensures s == "" || s[0] != '"' || s[|s| - 1] != '"' || |s| == 1 ==> Unquote(s) == s
  {
    var quoted := "\"" + s + "\"";
    assert quoted[..1] == "\"" && quoted[1..] == s + "\"";
    assert (s + "\"")[|s|..] == "\"";
  }
}
