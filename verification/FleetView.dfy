/** What a controller concludes from the Pods and Leases it sees: the state of every replica,
    whether the fleet has converged, and the pooled rollout samples. */
module FleetView {
  import opened Options
  import opened RolloutPolicy
  import opened RolloutWindow

  const FRESH_SECONDS: int := 20
  const U64_MAX: nat := 0xFFFF_FFFF_FFFF_FFFF

  datatype Local = Local(desired: string, observed: string, attemptAt: int, completedAt: int, rejection: Option<string>)

  datatype Report = Report(
    samples: map<string, Samples>,
    podUid: string,
    local: Local,
    active: string,
    controls: string,
    ready: bool,
    rejected: int)

  /** `report` is the decoded annotation, absent when missing, too long or unreadable. */
  datatype Lease = Lease(holder: Option<string>, renewedAt: Option<int>, report: Option<Report>)

  datatype Pod = Pod(uid: Option<string>, deleting: bool, phase: Option<string>, ready: bool)

  datatype ReplicaState = Missing | Stale | Unready | Rejected | Reconciling | Drifted | Converged

  datatype Peer = Peer(state: ReplicaState, age: Option<int>, report: Option<Report>)

  datatype View = View(observedAt: Option<int>, error: Option<string>, converged: bool, replicas: Option<seq<Peer>>)

  const NO_VIEW := View(None, Some("no replica observation yet"), false, Some([]))

  predicate Live(pod: Pod) {
    !pod.deleting && pod.phase != Some("Failed") && pod.phase != Some("Succeeded")
  }

  /** The lease is held for the Pod and carries that Pod's own report. */
  predicate SpeaksFor(lease: Lease, pod: Pod) {
    && lease.holder == pod.uid
    && lease.report.Some?
    && Some(lease.report.value.podUid) == pod.uid
    && lease.renewedAt.Some?
  }

  function FindReport(leases: seq<Lease>, pod: Pod, now: int): Option<(Report, int)> {
    if leases == [] then None
    else if SpeaksFor(leases[0], pod) then Some((leases[0].report.value, now - leases[0].renewedAt.value))
    else FindReport(leases[1..], pod, now)
  }

  predicate Fresh(age: int) {
    0 <= age <= FRESH_SECONDS
  }

  function Classify(own: Report, pod: Pod, peer: Option<(Report, int)>): ReplicaState {
    if peer.None? then Missing
    else
      var (p, age) := peer.value;
      if !Fresh(age) then Stale
      else if !pod.ready || !p.ready then Unready
      else if p.rejected > 0 then Rejected
      else if p.local.desired == "" || p.local.desired != p.local.observed then Reconciling
      else if p.active != own.active || p.controls != own.controls || p.local.desired != own.local.desired then Drifted
      else Converged
  }

  function Observed(own: Report, pod: Pod, leases: seq<Lease>, now: int): Peer {
    var peer := FindReport(leases, pod, now);
    Peer(Classify(own, pod, peer),
         if peer.Some? then Some(peer.value.1) else None,
         if peer.Some? then Some(peer.value.0) else None)
  }

  function Peers(own: Report, pods: seq<Pod>, leases: seq<Lease>, now: int): seq<Peer> {
    if pods == [] then []
    else (if Live(pods[0]) then [Observed(own, pods[0], leases, now)] else []) + Peers(own, pods[1..], leases, now)
  }

  /** The outcome of one successful observation. */
  function Observe(own: Report, pods: seq<Pod>, leases: seq<Lease>, now: int): View {
    var peers := Peers(own, pods, leases, now);
    View(Some(now), None, peers != [] && forall i | 0 <= i < |peers| :: peers[i].state == Converged, Some(peers))
  }

  /** An observation that failed: the earlier replicas stay visible, but not as an agreement. */
  function ObservationFailed(view: View, message: string): View {
    view.(converged := false, error := Some(message))
  }

  /** The lease at i is the first that speaks for the Pod. */
  predicate Spokesman(leases: seq<Lease>, pod: Pod, i: int) {
    0 <= i < |leases| && SpeaksFor(leases[i], pod) && forall j | 0 <= j < i :: !SpeaksFor(leases[j], pod)
  }

  lemma {:induction false} FindReportIsSpokesman(leases: seq<Lease>, pod: Pod, now: int)
    ensures FindReport(leases, pod, now).Some? <==> exists i :: Spokesman(leases, pod, i)
    ensures forall i | Spokesman(leases, pod, i) ::
              FindReport(leases, pod, now) == Some((leases[i].report.value, now - leases[i].renewedAt.value))
  {
    if leases != [] {
      FindReportIsSpokesman(leases[1..], pod, now);
      if SpeaksFor(leases[0], pod) {
        assert Spokesman(leases, pod, 0);
      } else {
        forall i ensures Spokesman(leases, pod, i) <==> i > 0 && Spokesman(leases[1..], pod, i - 1) {
          if i > 0 && i < |leases| {
            if Spokesman(leases[1..], pod, i - 1) {
              forall j | 0 <= j < i ensures !SpeaksFor(leases[j], pod) {
                assert j > 0 ==> leases[1..][j - 1] == leases[j];
              }
            }
          }
        }
        if FindReport(leases[1..], pod, now).Some? {
          var i :| Spokesman(leases[1..], pod, i);
          assert Spokesman(leases, pod, i + 1);
        }
      }
    }
  }

  lemma {:induction false} PeersAreLivePods(own: Report, pods: seq<Pod>, leases: seq<Lease>, now: int, p: Peer)
    ensures p in Peers(own, pods, leases, now) <==>
            exists pod :: pod in pods && Live(pod) && p == Observed(own, pod, leases, now)
  {
    if pods != [] {
      PeersAreLivePods(own, pods[1..], leases, now, p);
      assert forall pod :: pod in pods <==> pod == pods[0] || pod in pods[1..];
    }
  }

  /** Only a lease held for the Pod, with that Pod's own report and a renewal time, gives a report, and
      any such lease does. */
  lemma {:induction false} OnlyOwnLeaseSpeaks(leases: seq<Lease>, pod: Pod, now: int)
    ensures match FindReport(leases, pod, now)
            case Some((report, age)) =>
              exists l | l in leases ::
                && pod.uid.Some? && l.holder == pod.uid && l.report == Some(report) && report.podUid == pod.uid.value
                && l.renewedAt == Some(now - age)
            case None =>
              forall l | l in leases ::
                !(pod.uid.Some? && l.holder == pod.uid && l.renewedAt.Some?
                  && l.report.Some? && l.report.value.podUid == pod.uid.value)
    decreases |leases|
  {
    if leases != [] {
      OnlyOwnLeaseSpeaks(leases[1..], pod, now);
      assert forall l :: l in leases <==> l == leases[0] || l in leases[1..];
    }
  }

  /** Pods being deleted, failed or finished are not looked at; all others are, in order. */
  lemma OtherPodsAreIgnored(own: Report, pod: Pod, pods: seq<Pod>, leases: seq<Lease>, now: int)
    ensures Peers(own, [pod] + pods, leases, now) ==
            (if pod.deleting || pod.phase == Some("Failed") || pod.phase == Some("Succeeded") then []
             else [Observed(own, pod, leases, now)]) + Peers(own, pods, leases, now)
  {
    assert ([pod] + pods)[1..] == pods;
  }

  /** What each state of a replica says, the first that applies being the one reported. */
  lemma StatesMean(own: Report, pod: Pod, p: Report, age: int)
    ensures Classify(own, pod, None) == Missing
    ensures var state := Classify(own, pod, Some((p, age)));
            var timely, ready := 0 <= age <= 20, pod.ready && p.ready;
            var settled := p.local.desired != "" && p.local.desired == p.local.observed;
            var agreeing := p.active == own.active && p.controls == own.controls && p.local.desired == own.local.desired;
            && (state == Stale <==> !timely)
            && (state == Unready <==> timely && !ready)
            && (state == Rejected <==> timely && ready && p.rejected > 0)
            && (state == Reconciling <==> timely && ready && p.rejected <= 0 && !settled)
            && (state == Drifted <==> timely && ready && p.rejected <= 0 && settled && !agreeing)
            && (state == Converged <==> timely && ready && p.rejected <= 0 && settled && agreeing)
  {
  }

  /** What a converged fleet requires of one live Pod. */
  ghost predicate Agreeing(own: Report, pod: Pod, leases: seq<Lease>, now: int) {
    exists i :: Spokesman(leases, pod, i)
      && Fresh(now - leases[i].renewedAt.value)
      && pod.ready && leases[i].report.value.ready && leases[i].report.value.rejected <= 0
      && leases[i].report.value.local.desired == leases[i].report.value.local.observed == own.local.desired != ""
      && leases[i].report.value.active == own.active
      && leases[i].report.value.controls == own.controls
  }

  lemma ConvergedPod(own: Report, pod: Pod, leases: seq<Lease>, now: int)
    ensures Observed(own, pod, leases, now).state == Converged <==> Agreeing(own, pod, leases, now)
  {
    FindReportIsSpokesman(leases, pod, now);
  }

  /** The view is converged exactly when there is a live Pod and every live Pod has a ready report,
      renewed within 20 seconds, that agrees with the controller's own digests. */
  lemma ConvergedIffAllAgree(own: Report, pods: seq<Pod>, leases: seq<Lease>, now: int)
    ensures Observe(own, pods, leases, now).converged <==>
            && (exists pod :: pod in pods && Live(pod))
            && (forall pod | pod in pods && Live(pod) :: Agreeing(own, pod, leases, now))
  {
    var peers := Peers(own, pods, leases, now);
    forall pod | pod in pods && Live(pod)
      ensures Observed(own, pod, leases, now) in peers
      ensures Observed(own, pod, leases, now).state == Converged <==> Agreeing(own, pod, leases, now)
    {
      PeersAreLivePods(own, pods, leases, now, Observed(own, pod, leases, now));
      ConvergedPod(own, pod, leases, now);
    }
    forall p | p in peers
      ensures exists pod :: pod in pods && Live(pod) && p == Observed(own, pod, leases, now)
    {
      PeersAreLivePods(own, pods, leases, now, p);
    }
    if peers != [] {
      assert peers[0] in peers;
    }
    assert (forall i | 0 <= i < |peers| :: peers[i].state == Converged) <==> forall p | p in peers :: p.state == Converged;
  }

  /** The published view: an agreement is withdrawn once the observation is too old. */
  function Diagnostic(view: Option<View>, now: int): (View, int) {
    var v := if view.Some? then view.value else NO_VIEW;
    var age := now - (if v.observedAt.Some? then v.observedAt.value else 0);
    (if Fresh(age) then v else v.(converged := false), if age < 0 then 0 else age)
  }

  /** A published agreement rests on leases that were renewed at most 40 seconds ago. */
  lemma PublishedConvergenceIsRecent(own: Report, pods: seq<Pod>, leases: seq<Lease>, seen: int, now: int, pod: Pod)
    requires Diagnostic(Some(Observe(own, pods, leases, seen)), now).0.converged
    requires pod in pods && Live(pod)
    ensures exists i :: Spokesman(leases, pod, i) && 0 <= now - leases[i].renewedAt.value <= 2 * FRESH_SECONDS
  {
    ConvergedIffAllAgree(own, pods, leases, seen);
    var i :| Spokesman(leases, pod, i) && Fresh(seen - leases[i].renewedAt.value);
  }

  /** One round of the observer: what it saw, or why it failed. */
  datatype Round = Seen(own: Report, pods: seq<Pod>, leases: seq<Lease>, now: int) | Failed(message: string)

  /** The view the rounds so far have left; there is none before the first. */
  function ViewAfter(rounds: seq<Round>): Option<View> {
    if rounds == [] then None
    else
      match rounds[|rounds| - 1]
      case Seen(own, pods, leases, now) => Some(Observe(own, pods, leases, now))
      case Failed(message) =>
        var before := ViewAfter(rounds[..|rounds| - 1]);
        Some(ObservationFailed(if before.Some? then before.value else NO_VIEW, message))
  }

  /** The last round saw the fleet, at most `limit` seconds ago. */
  predicate JustSeen(rounds: seq<Round>, now: int, limit: int) {
    rounds != [] && var last := rounds[|rounds| - 1]; last.Seen? && 0 <= now - last.now <= limit
  }

  /** After any rounds an agreement is published exactly when the last one did not fail, was at most
      20 seconds ago, and found every live Pod agreeing. */
  lemma PublishedIffJustSeenAgreeing(rounds: seq<Round>, now: int)
    ensures Diagnostic(ViewAfter(rounds), now).0.converged <==>
            && JustSeen(rounds, now, 20)
            && var last := rounds[|rounds| - 1];
               && (exists pod :: pod in last.pods && Live(pod))
               && (forall pod | pod in last.pods && Live(pod) :: Agreeing(last.own, pod, last.leases, last.now))
  {
    if rounds != [] && rounds[|rounds| - 1].Seen? {
      var last := rounds[|rounds| - 1];
      ConvergedIffAllAgree(last.own, last.pods, last.leases, last.now);
      hide Agreeing, Observe;
      assert Observe(last.own, last.pods, last.leases, last.now).observedAt == Some(last.now) by {
        ObservedNow(last);
      }
    }
  }

  lemma ObservedNow(r: Round)
    requires r.Seen?
    ensures var view := Observe(r.own, r.pods, r.leases, r.now);
            view.observedAt == Some(r.now) && view.error.None?
            && view.replicas == Some(Peers(r.own, r.pods, r.leases, r.now))
  {
  }

  /** Samples may be pooled exactly from a last round that did not fail, recent enough, with some live
      Pod, and then on the Pods it saw. */
  lemma PooledOnlyWhenJustSeen(rounds: seq<Round>, rule: Rollback, now: int)
    requires ViewAfter(rounds).Some?
    ensures Usable(ViewAfter(rounds).value, rule, now) <==>
            JustSeen(rounds, now, Freshness(rule)) && exists pod :: pod in rounds[|rounds| - 1].pods && Live(pod)
    ensures Usable(ViewAfter(rounds).value, rule, now) ==>
              var last := rounds[|rounds| - 1];
              ViewAfter(rounds).value.replicas == Some(Peers(last.own, last.pods, last.leases, last.now))
  {
    var last := rounds[|rounds| - 1];
    if last.Seen? {
      PeersWhenLive(last.own, last.pods, last.leases, last.now);
    }
  }

  lemma {:induction false} PeersWhenLive(own: Report, pods: seq<Pod>, leases: seq<Lease>, now: int)
    ensures Peers(own, pods, leases, now) != [] <==> exists pod :: pod in pods && Live(pod)
  {
    if pods != [] {
      PeersWhenLive(own, pods[1..], leases, now);
      assert forall pod :: pod in pods <==> pod == pods[0] || pod in pods[1..];
    }
  }

  /** A failed round leaves what was seen before it visible, with its reason, and withdraws the agreement. */
  lemma FailureKeepsReplicas(rounds: seq<Round>, message: string)
    ensures var before := ViewAfter(rounds);
            ViewAfter(rounds + [Failed(message)])
            == Some(if before.Some? then View(before.value.observedAt, Some(message), false, before.value.replicas)
                    else View(None, Some(message), false, Some([])))
  {
    assert (rounds + [Failed(message)])[..|rounds|] == rounds;
  }

  /** The age published is that of the last observation, and never negative. */
  lemma PublishedAge(view: View, now: int)
    ensures var age := Diagnostic(Some(view), now).1;
            age >= 0 && (view.observedAt.Some? && view.observedAt.value <= now ==> age == now - view.observedAt.value)
  {
  }

  /** How old evidence may be for a rollout decision. */
  function Freshness(rule: Rollback): int {
    if rule.windowSeconds < FRESH_SECONDS then rule.windowSeconds else FRESH_SECONDS
  }

  /** A peer whose samples may be pooled, `age` seconds after it was observed. */
  predicate Poolable(peer: Peer, age: int, freshness: int, key: string) {
    && peer.age.Some? && 0 <= peer.age.value + age <= freshness
    && peer.report.Some? && peer.report.value.ready
    && !peer.state.Missing? && !peer.state.Stale? && !peer.state.Unready?
    && key in peer.report.value.samples
  }

  function SumOf(peers: seq<Peer>, key: string): Samples
    requires forall p | p in peers :: p.report.Some? && key in p.report.value.samples
  {
    if peers == [] then Samples(0, 0, 0)
    else
      var front := SumOf(peers[..|peers| - 1], key);
      var last := peers[|peers| - 1].report.value.samples[key];
      Samples(front.count + last.count, front.errors + last.errors, front.slow + last.slow)
  }

  /** Evidence may be as old as the rollback window, but never more than 20 seconds. */
  lemma FreshnessIsLesser(rule: Rollback)
    ensures Freshness(rule) <= rule.windowSeconds && Freshness(rule) <= 20
    ensures Freshness(rule) == rule.windowSeconds || Freshness(rule) == 20
  {
  }

  /** A peer is pooled exactly with a fresh, ready report that has samples for the rollout, and in a state
      that does not tell of a missing, stale or unready replica. */
  lemma PoolableExactly(report: Report, state: ReplicaState, age: int, older: int, freshness: int, key: string)
    ensures Poolable(Peer(state, Some(age), Some(report)), older, freshness, key) <==>
            && 0 <= age + older <= freshness && report.ready && key in report.samples
            && (state == Rejected || state == Reconciling || state == Drifted || state == Converged)
    ensures !Poolable(Peer(state, None, Some(report)), older, freshness, key)
    ensures !Poolable(Peer(state, Some(age), None), older, freshness, key)
  {
  }

  /** A Pod whose samples are pooled was ready when it was observed, and so was its report. */
  lemma PooledPodIsReady(own: Report, pod: Pod, leases: seq<Lease>, seen: int, older: int, freshness: int, key: string)
    requires Poolable(Observed(own, pod, leases, seen), older, freshness, key)
    ensures pod.ready && Observed(own, pod, leases, seen).report.value.ready
  {
  }

  /** The pooled sum counts the samples of every peer once: one peer's are its own, and those of two
      groups add up, number by number. */
  lemma {:induction false} SumOfParts(a: seq<Peer>, b: seq<Peer>, key: string)
    requires forall p | p in a + b :: p.report.Some? && key in p.report.value.samples
    ensures SumOf([], key) == Samples(0, 0, 0)
    ensures forall p | p in a + b :: SumOf([p], key) == p.report.value.samples[key]
    ensures var x, y, both := SumOf(a, key), SumOf(b, key), SumOf(a + b, key);
            both.count == x.count + y.count && both.errors == x.errors + y.errors && both.slow == x.slow + y.slow
    decreases |b|
  {
    forall p | p in a + b ensures SumOf([p], key) == p.report.value.samples[key] {
      assert [p][..0] == [];
    }
    if b == [] {
      assert a + b == a;
    } else {
      var front, last := b[..|b| - 1], b[|b| - 1];
      assert last in a + b;
      assert (a + b)[..|a + b| - 1] == a + front;
      SumOfParts(a, front, key);
    }
  }

  predicate Fits64(s: Samples) {
    s.count <= U64_MAX && s.errors <= U64_MAX && s.slow <= U64_MAX
  }

  /** Three numbers fit when none needs more than 64 bits. */
  lemma FitsExactly(s: Samples)
    ensures Fits64(s) <==> s.count < 18446744073709551616 && s.errors < 18446744073709551616 && s.slow < 18446744073709551616
  {
  }

  /** The view may be used for pooling at all. */
  predicate Usable(view: View, rule: Rollback, now: int) {
    && view.observedAt.Some? && 0 <= now - view.observedAt.value <= Freshness(rule)
    && view.error.None?
    && view.replicas.Some? && view.replicas.value != []
  }

  lemma {:induction false} SumMonotone(peers: seq<Peer>, n: nat, key: string)
    requires n <= |peers|
    requires forall p | p in peers :: p.report.Some? && key in p.report.value.samples
    ensures var part, whole := SumOf(peers[..n], key), SumOf(peers, key);
            part.count <= whole.count && part.errors <= whole.errors && part.slow <= whole.slow
    decreases |peers|
  {
    if n == |peers| {
      assert peers[..n] == peers;
    } else {
      assert peers[..|peers| - 1][..n] == peers[..n];
      SumMonotone(peers[..|peers| - 1], n, key);
    }
  }

  /** Pooling succeeds exactly when the view and every single peer are fresh and ready and no
      counter overflows, and then yields the exact componentwise sum over all peers. */
  method RolloutSamples(view: View, rollback: Option<Rollback>, key: string, now: int) returns (pooled: Option<Samples>)
    ensures pooled.Some? <==>
            && rollback.Some? && Usable(view, rollback.value, now)
            && (forall p | p in view.replicas.value ::
                  Poolable(p, now - view.observedAt.value, Freshness(rollback.value), key))
            && Fits64(SumOf(view.replicas.value, key))
    ensures pooled.Some? ==> pooled.value == SumOf(view.replicas.value, key)
  {
    if view.observedAt.None? || rollback.None? {
      return None;
    }
    var age, freshness := now - view.observedAt.value, Freshness(rollback.value);
    if !(0 <= age <= freshness) || view.error.Some? || view.replicas.None? || view.replicas.value == [] {
      return None;
    }
    var peers := view.replicas.value;
    var total := Samples(0, 0, 0);
    for n := 0 to |peers|
      invariant forall i | 0 <= i < n :: Poolable(peers[i], age, freshness, key)
      invariant total == SumOf(peers[..n], key) && Fits64(total)
    {
      if !Poolable(peers[n], age, freshness, key) {
        assert peers[n] in peers;
        return None;
      }
      var sample := peers[n].report.value.samples[key];
      assert peers[..n + 1][..n] == peers[..n];
      total := Samples(total.count + sample.count, total.errors + sample.errors, total.slow + sample.slow);
      if !Fits64(total) {
        if forall p | p in peers :: Poolable(p, age, freshness, key) {
          SumMonotone(peers, n + 1, key);
        }
        return None;
      }
    }
    assert peers[..|peers|] == peers;
    return Some(total);
  }

  /** Pooled samples of an observed fleet: at the moment they are read, every live Pod's lease is at
      most min(window, 20) seconds old. */
  lemma PooledLeasesAreFresh(
      own: Report, pods: seq<Pod>, leases: seq<Lease>, seen: int, now: int, rule: Rollback, key: string, pod: Pod)
    requires forall p | p in Peers(own, pods, leases, seen) :: Poolable(p, now - seen, Freshness(rule), key)
    requires pod in pods && Live(pod)
    ensures exists i :: Spokesman(leases, pod, i)
              && 0 <= now - leases[i].renewedAt.value <= Freshness(rule) <= FRESH_SECONDS
              && leases[i].report.value.ready && key in leases[i].report.value.samples
  {
    var p := Observed(own, pod, leases, seen);
    PeersAreLivePods(own, pods, leases, seen, p);
    FindReportIsSpokesman(leases, pod, seen);
    var i :| Spokesman(leases, pod, i);
    assert p.age == Some(seen - leases[i].renewedAt.value);
  }

  /** What the controller reports of its own configuration, call by call. */
  datatype Call = Begin(digest: string, now: int) | Complete(rejection: Option<string>, now: int)

  const NOTHING_YET := Local("", "", 0, 0, None)

  function Cut(text: string): string {
    if |text| > 512 then text[..512] else text
  }

  /** A rejection is kept as far as its first 512 characters. */
  lemma CutKeepsStart(text: string)
    ensures |text| <= 512 ==> Cut(text) == text
    ensures |text| > 512 ==> |Cut(text)| == 512 && Cut(text) <= text
  {
  }

  /** The report after the first n calls. */
  function LocalAfter(calls: seq<Call>, n: nat): Local
    requires n <= |calls|
  {
    if n == 0 then NOTHING_YET
    else
      var before := LocalAfter(calls, n - 1);
      match calls[n - 1]
      case Begin(digest, now) =>
        before.(desired := digest, attemptAt := if before.desired != digest then now else before.attemptAt)
      case Complete(rejection, now) =>
        before.(observed := before.desired,
                completedAt := now,
                rejection := if rejection.Some? then Some(Cut(rejection.value)) else None)
  }

  lemma {:induction false} LocalOfPrefix(calls: seq<Call>, more: seq<Call>, n: nat)
    requires n <= |calls|
    ensures LocalAfter(calls + more, n) == LocalAfter(calls, n)
    decreases n
  {
    if n > 0 {
      LocalOfPrefix(calls, more, n - 1);
    }
  }

  /** The digest begun last among the first n calls. */
  function DigestAt(calls: seq<Call>, n: nat): string
    requires n <= |calls|
  {
    if n == 0 then "" else if calls[n - 1].Begin? then calls[n - 1].digest else DigestAt(calls, n - 1)
  }

  /** The i-th call begins another digest than the one before. */
  predicate Changes(calls: seq<Call>, i: nat)
    requires i < |calls|
  {
    calls[i].Begin? && calls[i].digest != DigestAt(calls, i)
  }

  /** Call i is the last of the first n that begins another digest. */
  ghost predicate LastChange(calls: seq<Call>, n: nat, i: int)
    requires n <= |calls|
  {
    0 <= i < n && Changes(calls, i) && forall j | i < j < n :: !Changes(calls, j)
  }

  /** Call i is the last completion among the first n. */
  ghost predicate LastCompletion(calls: seq<Call>, n: nat, i: int)
    requires n <= |calls|
  {
    0 <= i < n && calls[i].Complete? && forall j | i < j < n :: calls[j].Begin?
  }

  lemma {:induction false} DesiredIsDigest(calls: seq<Call>, n: nat)
    requires n <= |calls|
    ensures LocalAfter(calls, n).desired == DigestAt(calls, n)
  {
    if n > 0 {
      DesiredIsDigest(calls, n - 1);
    }
  }

  /** The reported attempt time is that of the last change of digest, however often the same digest
      was begun again and whatever completed. */
  lemma {:induction false} AttemptIsLastChange(calls: seq<Call>, n: nat, i: nat)
    requires n <= |calls| && LastChange(calls, n, i)
    ensures LocalAfter(calls, n).attemptAt == calls[i].now
    ensures LocalAfter(calls, n).desired == DigestAt(calls, n) == calls[i].digest
    decreases n
  {
    DesiredIsDigest(calls, n - 1);
    if i < n - 1 {
      assert !Changes(calls, n - 1);
      AttemptIsLastChange(calls, n - 1, i);
    }
  }

  /** The observed digest is the one in force at the last completion: a report whose two digests agree
      has completed the digest it wants. */
  lemma {:induction false} ObservedAtLastCompletion(calls: seq<Call>, n: nat, i: nat)
    requires n <= |calls| && LastCompletion(calls, n, i)
    ensures var local, rejection := LocalAfter(calls, n), calls[i].rejection;
            && local.observed == DigestAt(calls, i) && local.completedAt == calls[i].now
            && local.rejection == if rejection.Some? then Some(Cut(rejection.value)) else None
    decreases n
  {
    if i < n - 1 {
      ObservedAtLastCompletion(calls, n - 1, i);
    } else {
      DesiredIsDigest(calls, i);
    }
  }

  /** Before any completion nothing is observed, so no wanted digest is reported as agreed. */
  lemma {:induction false} NothingObserved(calls: seq<Call>, n: nat)
    requires n <= |calls| && forall i | 0 <= i < n :: calls[i].Begin?
    ensures var local := LocalAfter(calls, n);
            local.observed == "" && local.completedAt == 0 && local.rejection.None?
  {
    if n > 0 {
      NothingObserved(calls, n - 1);
    }
  }

  /** The controller's own progress towards a configuration. */
  class Publication {
    const enabled: bool
    var local: Local

    // Every call made so far.
    ghost var calls: seq<Call>

    /** A disabled publication reports nothing. */
    ghost predicate Valid()
      reads this
    {
      local == if enabled then LocalAfter(calls, |calls|) else NOTHING_YET
    }

    constructor (enabled: bool)
      ensures this.enabled == enabled && calls == [] && Valid()
    {
      this.enabled := enabled;
      local, calls := NOTHING_YET, [];
    }

    method Begin(digest: string, now: int)
      requires Valid()
      modifies this
      ensures Valid() && calls == old(calls) + [Call.Begin(digest, now)]
    {
      LocalOfPrefix(calls, [Call.Begin(digest, now)], |calls|);
      calls := calls + [Call.Begin(digest, now)];
      if !enabled {
        return;
      }
      if local.desired != digest {
        local := local.(attemptAt := now);
      }
      local := local.(desired := digest);
    }

    method Complete(rejection: Option<string>, now: int)
      requires Valid()
      modifies this
      ensures Valid() && calls == old(calls) + [Call.Complete(rejection, now)]
    {
      LocalOfPrefix(calls, [Call.Complete(rejection, now)], |calls|);
      calls := calls + [Call.Complete(rejection, now)];
      if !enabled {
        return;
      }
      local := local.(observed := local.desired, completedAt := now);
      local := local.(rejection := if rejection.Some? then Some(Cut(rejection.value)) else None);
    }
  }
}
