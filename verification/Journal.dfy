/** The durable history: a log of published revisions under three budgets, replaced on disk as a
    whole in ordered steps. */
module Journal {
  import opened Options
  import opened Suffixes

  /** A captured configuration: the sizes of its assets and of its configuration text. */
  datatype Bundle = Bundle(content: nat, assets: seq<nat>, configBytes: nat)

  datatype Revision = Revision(version: nat, bundle: Bundle)

  datatype Log = Log(source: string, revisions: seq<Revision>)

  const MAX_REVISIONS: nat := 9
  const MAX_ASSET_BYTES: nat := 32 * 1024 * 1024
  const MAX_FILE_BYTES: nat := 64 * 1024 * 1024
  const MAX_CONFIG_BYTES: nat := 8 * 1024 * 1024

  function Sum(sizes: seq<nat>): nat {
    if sizes == [] then 0 else sizes[0] + Sum(sizes[1..])
  }

  function AssetBytes(revisions: seq<Revision>): nat {
    if revisions == [] then 0 else Sum(revisions[0].bundle.assets) + AssetBytes(revisions[1..])
  }

  function ConfigBytes(revisions: seq<Revision>): nat {
    if revisions == [] then 0 else revisions[0].bundle.configBytes + ConfigBytes(revisions[1..])
  }

  predicate WithinBudgets(revisions: seq<Revision>) {
    && |revisions| <= MAX_REVISIONS
    && AssetBytes(revisions) <= MAX_ASSET_BYTES
    && ConfigBytes(revisions) <= MAX_CONFIG_BYTES
  }

  ghost function Budgets(): seq<Revision> -> bool {
    (s: seq<Revision>) => WithinBudgets(s)
  }

  /** What a journal retains of everything ever recorded. */
  ghost function Retained(log: seq<Revision>): seq<Revision> {
    LongestFit(Budgets(), log)
  }

  lemma {:induction false} BytesConcat(a: seq<Revision>, b: seq<Revision>)
    ensures AssetBytes(a + b) == AssetBytes(a) + AssetBytes(b)
    ensures ConfigBytes(a + b) == ConfigBytes(a) + ConfigBytes(b)
    decreases |a|
  {
    if a == [] {
      assert a + b == b;
    } else {
      assert (a + b)[1..] == a[1..] + b;
      BytesConcat(a[1..], b);
    }
  }

  /** Both ends of an acceptable log may be cut without leaving the budgets. */
  lemma PartWithinBudgets(a: seq<Revision>, b: seq<Revision>, c: seq<Revision>)
    requires WithinBudgets(a + b + c)
    ensures WithinBudgets(b)
  {
    BytesConcat(a + b, c);
    BytesConcat(a, b);
  }

  /** Evicting step by step over any history equals one cut of the whole history. */
  lemma RetainedAbsorbs(log: seq<Revision>, more: seq<Revision>)
    ensures Retained(Retained(log) + more) == Retained(log + more)
  {
    forall k | 0 <= k < |log| && Budgets()(log[k..] + more) ensures Budgets()(log[k..]) {
      assert [] + log[k..] + more == log[k..] + more;
      PartWithinBudgets([], log[k..], more);
    }
    Absorb(Budgets(), Budgets(), log, more);
  }

  lemma TailWithinBudgets(s: seq<Revision>, k: nat)
    requires k <= |s| && WithinBudgets(s)
    ensures WithinBudgets(s[k..])
  {
    assert s[..k] + s[k..] + [] == s;
    PartWithinBudgets(s[..k], s[k..], []);
  }

  lemma RetainedIsSuffix(log: seq<Revision>)
    ensures WithinBudgets(Retained(log)) && |Retained(log)| <= |log|
    ensures Retained(log) == log[|log| - |Retained(log)|..]
  {
    assert WithinBudgets([]);
    assert Budgets()(Retained(log)) == WithinBudgets(Retained(log));
  }

  /** The journal is the longest suffix of the log within all three budgets. */
  lemma RetainedIsLongest(log: seq<Revision>, k: nat)
    requires k <= |log|
    ensures WithinBudgets(log[k..]) <==> |log| - k <= |Retained(log)|
  {
    RetainedIsSuffix(log);
    var r := Retained(log);
    if |log| - k <= |r| {
      var cut := |r| - (|log| - k);
      assert r[cut..] == log[k..];
      TailWithinBudgets(r, cut);
    } else if WithinBudgets(log[k..]) {
      LongestFitIsLongest(Budgets(), log, k);
    }
  }

  /** One turn of the eviction loop. */
  lemma RetainedStep(log: seq<Revision>)
    ensures if WithinBudgets(log) then Retained(log) == log
            else log != [] && Retained(log) == Retained(log[1..])
  {
  }

  /** The newest revision is kept exactly when it alone is within the budgets; otherwise the
      journal becomes empty. */
  lemma NewestRetained(log: seq<Revision>, newest: Revision)
    ensures var r := Retained(log + [newest]);
            if WithinBudgets([newest]) then r != [] && r[|r| - 1] == newest else r == []
  {
    assert (log + [newest])[|log|..] == [newest];
    RetainedIsSuffix(log + [newest]);
    RetainedIsLongest(log + [newest], |log|);
  }

  /** src/config/bundle.rs compiles only bundles within these limits, so any revision that was
      ever published fits alone. */
  lemma CompiledBundleFits(r: Revision)
    requires r.bundle.configBytes <= 4 * 1024 * 1024 && Sum(r.bundle.assets) <= 16 * 1024 * 1024
    ensures WithinBudgets([r])
  {
    assert AssetBytes([r][1..]) == 0;
  }

  /** a can be obtained from b by leaving entries out. */
  ghost predicate Within(a: seq<Revision>, b: seq<Revision>)
    decreases |b|
  {
    a == [] ||
    (b != [] &&
     var (front, last) := (b[..|b| - 1], b[|b| - 1]);
     Within(a, front) || (a[|a| - 1] == last && Within(a[..|a| - 1], front)))
  }

  lemma WithinSnoc(a: seq<Revision>, b: seq<Revision>, x: Revision)
    requires Within(a, b)
    ensures Within(a, b + [x]) && Within(a + [x], b + [x])
  {
    assert (b + [x])[..|b|] == b && (a + [x])[..|a|] == a;
  }

  lemma {:induction false} WithinLength(a: seq<Revision>, b: seq<Revision>)
    requires Within(a, b)
    ensures |a| <= |b| && (|a| == |b| ==> a == b)
    decreases |b|
  {
    if a != [] {
      var front := b[..|b| - 1];
      if Within(a, front) {
        WithinLength(a, front);
      } else {
        WithinLength(a[..|a| - 1], front);
        assert a == a[..|a| - 1] + [a[|a| - 1]] && b == front + [b[|b| - 1]];
      }
    }
  }

  /** All asset sizes of a journal, laid end to end. */
  function AssetSizes(revisions: seq<Revision>): seq<nat> {
    if revisions == [] then [] else revisions[0].bundle.assets + AssetSizes(revisions[1..])
  }

  function ConfigSizes(revisions: seq<Revision>): (r: seq<nat>)
    ensures |r| == |revisions| && forall i | 0 <= i < |r| :: r[i] == revisions[i].bundle.configBytes
  {
    seq(|revisions|, i requires 0 <= i < |revisions| => revisions[i].bundle.configBytes)
  }

  /** Adding up counts every size once: a single one as itself, and parts separately. */
  lemma {:induction false} SumConcat(a: seq<nat>, b: seq<nat>)
    ensures Sum([]) == 0 && (forall n :: Sum([n]) == n)
    ensures Sum(a + b) == Sum(a) + Sum(b)
    decreases |a|
  {
    if a == [] {
      assert a + b == b;
    } else {
      assert (a + b)[1..] == a[1..] + b;
      SumConcat(a[1..], b);
    }
  }

  /** The bytes a journal is charged for are those of all its assets and all its configurations. */
  lemma {:induction false} BytesAreSums(revisions: seq<Revision>)
    ensures AssetBytes(revisions) == Sum(AssetSizes(revisions))
    ensures ConfigBytes(revisions) == Sum(ConfigSizes(revisions))
  {
    if revisions != [] {
      BytesAreSums(revisions[1..]);
      SumConcat(revisions[0].bundle.assets, AssetSizes(revisions[1..]));
      assert ConfigSizes(revisions)[1..] == ConfigSizes(revisions[1..]);
    }
  }

  lemma {:induction false} SizesConcat(a: seq<Revision>, b: seq<Revision>)
    ensures AssetSizes([]) == [] && forall r :: AssetSizes([r]) == r.bundle.assets
    ensures AssetSizes(a + b) == AssetSizes(a) + AssetSizes(b)
    decreases |a|
  {
    forall r ensures AssetSizes([r]) == r.bundle.assets {
      assert [r][1..] == [];
    }
    if a == [] {
      assert a + b == b;
    } else {
      assert (a + b)[1..] == a[1..] + b;
      SizesConcat(a[1..], b);
    }
  }

  lemma {:induction false} ChosenBytes(chosen: seq<Revision>, revisions: seq<Revision>)
    requires Within(chosen, revisions)
    ensures AssetBytes(chosen) <= AssetBytes(revisions) && ConfigBytes(chosen) <= ConfigBytes(revisions)
    decreases |revisions|
  {
    hide AssetBytes, ConfigBytes;
    NoBytes();
    if chosen != [] {
      var front, last := revisions[..|revisions| - 1], revisions[|revisions| - 1];
      LastBytes(revisions);
      if Within(chosen, front) {
        ChosenBytes(chosen, front);
      } else {
        LastBytes(chosen);
        ChosenBytes(chosen[..|chosen| - 1], front);
      }
    }
  }

  lemma NoBytes()
    ensures AssetBytes([]) == 0 && ConfigBytes([]) == 0
  {
  }

  lemma LastBytes(revisions: seq<Revision>)
    requires revisions != []
    ensures var front, last := revisions[..|revisions| - 1], revisions[|revisions| - 1];
            && AssetBytes(revisions) == AssetBytes(front) + AssetBytes([last])
            && ConfigBytes(revisions) == ConfigBytes(front) + ConfigBytes([last])
  {
    var front, last := revisions[..|revisions| - 1], revisions[|revisions| - 1];
    assert revisions == front + [last];
    BytesConcat(front, [last]);
  }

  /** Whatever revisions are chosen from a journal cost no more than the whole of it. */
  lemma ChosenCostNoMore(chosen: seq<Revision>, revisions: seq<Revision>)
    requires Within(chosen, revisions)
    ensures Sum(AssetSizes(chosen)) <= Sum(AssetSizes(revisions))
    ensures Sum(ConfigSizes(chosen)) <= Sum(ConfigSizes(revisions))
  {
    BytesAreSums(chosen);
    BytesAreSums(revisions);
    ChosenBytes(chosen, revisions);
  }

  /** What is retained has at most nine revisions, and any of them chosen together have at most 32 MiB
      of assets and 8 MiB of configuration; one revision more would exceed one of the three. */
  lemma RetainedByCount(log: seq<Revision>, chosen: seq<Revision>)
    requires Within(chosen, Retained(log))
    ensures |Retained(log)| <= 9
    ensures Sum(AssetSizes(chosen)) <= 33554432 && Sum(ConfigSizes(chosen)) <= 8388608
    ensures |Retained(log)| < |log| ==>
              var more := log[|log| - |Retained(log)| - 1..];
              |more| > 9 || Sum(AssetSizes(more)) > 33554432 || Sum(ConfigSizes(more)) > 8388608
  {
    hide Retained, Within, Sum, AssetSizes, AssetBytes, ConfigBytes;
    RetainedIsSuffix(log);
    BytesAreSums(Retained(log));
    ChosenCostNoMore(chosen, Retained(log));
    if |Retained(log)| < |log| {
      var k := |log| - |Retained(log)| - 1;
      RetainedIsLongest(log, k);
      BytesAreSums(log[k..]);
    }
  }

  /** A version is a repetition exactly when it is the last one of the journal. */
  lemma RepeatsIsNewest(revisions: seq<Revision>, r: Revision, version: nat)
    ensures !Repeats([], version)
    ensures Repeats(revisions + [r], version) <==> r.version == version
  {
  }

  /** A journal is read back exactly when it is whole, has at most nine revisions and 64 MiB, and
      belongs to the configuration file; a missing one is empty. */
  lemma AdmitExactly(found: Option<Content>, fileBytes: nat, source: string, log: Log)
    ensures Admit(None, fileBytes, source) == Ok(Log(source, []))
    ensures found.Some? ==>
              (Admit(found, fileBytes, source) == Ok(log) <==>
                 found == Some(Whole(log)) && log.source == source && |log.revisions| <= 9 && fileBytes <= 67108864)
  {
  }

  /** Reading while the system stays up gives the old journal before the rename and the new one after it. */
  lemma VisibleAfter(disk: Disk, log: Log, steps: nat)
    requires steps <= STEPS
    ensures Visible(Replace(disk, log, steps)) == if steps >= 3 then Some(Whole(log)) else Visible(disk)
  {
  }

  /** The first retained revision with the given version. */
  function Find(revisions: seq<Revision>, version: nat): Option<Bundle> {
    if revisions == [] then None
    else if revisions[0].version == version then Some(revisions[0].bundle)
    else Find(revisions[1..], version)
  }

  ghost predicate Increasing(log: seq<Revision>) {
    forall i, j | 0 <= i < j < |log| :: log[i].version < log[j].version
  }

  lemma {:induction false} FindFirst(revisions: seq<Revision>, version: nat, i: nat)
    requires i < |revisions| && revisions[i].version == version
    requires forall j | 0 <= j < i :: revisions[j].version != version
    ensures Find(revisions, version) == Some(revisions[i].bundle)
  {
    if i > 0 {
      FindFirst(revisions[1..], version, i - 1);
    }
  }

  lemma {:induction false} FindNothing(revisions: seq<Revision>, version: nat)
    requires forall r | r in revisions :: r.version != version
    ensures Find(revisions, version).None?
  {
    if revisions != [] {
      FindNothing(revisions[1..], version);
    }
  }

  /** Compiling the bundle retained under a version. */
  function Restored<T>(revisions: seq<Revision>, version: nat, compile: (Bundle, nat) -> Result<T>): Result<T> {
    match Find(revisions, version)
    case Some(bundle) => compile(bundle, version)
    case None => Err("version is not retained")
  }

  /** With strictly increasing publish versions, restoring compiles the bundle the log recorded
      under that version while it is retained, and fails afterwards. */
  lemma RestoreYieldsRecorded<T>(log: seq<Revision>, i: nat, compile: (Bundle, nat) -> Result<T>)
    requires Increasing(log) && i < |log|
    ensures Restored(Retained(log), log[i].version, compile)
         == if |log| - |Retained(log)| <= i then compile(log[i].bundle, log[i].version)
            else Err("version is not retained")
  {
    hide Retained, WithinBudgets;
    RetainedIsSuffix(log);
    var r := Retained(log);
    var cut := |log| - |r|;
    if cut <= i {
      FindFirst(r, log[i].version, i - cut);
    } else {
      FindNothing(r, log[i].version);
    }
  }

  /** The temporary file: absent, written but perhaps not on disk, or safely on disk. */
  datatype Temp = Absent | Written(log: Log) | Synced(log: Log)

  /** What a file may turn out to contain: a whole journal, or the remains of an unsynced write. */
  datatype Content = Whole(log: Log) | Torn

  /** `settled` is the directory entry known to survive; `renamed` are the entries put in its place
      since the directory was last synced, any of which a crash may or may not keep. */
  datatype Disk = Disk(settled: Option<Content>, renamed: seq<Content>, temp: Temp)

  datatype Io = WriteTemp(log: Log) | SyncTemp | Rename | SyncDirectory

  function Perform(disk: Disk, io: Io): Disk {
    match io
    case WriteTemp(log) => disk.(temp := Written(log))
    case SyncTemp => if disk.temp.Written? then disk.(temp := Synced(disk.temp.log)) else disk
    case Rename =>
      if disk.temp.Absent? then disk
      else
        var content := if disk.temp.Synced? then Whole(disk.temp.log) else Torn;
        disk.(renamed := disk.renamed + [content], temp := Absent)
    case SyncDirectory =>
      if disk.renamed == [] then disk
      else disk.(settled := Some(disk.renamed[|disk.renamed| - 1]), renamed := [])
  }

  /** The contents history.json may have after a crash; None when it may be missing. */
  predicate MayFind(disk: Disk, found: Option<Content>) {
    found == disk.settled || (found.Some? && found.value in disk.renamed)
  }

  const STEPS: nat := 4

  /** The first n steps of replacing the journal. */
  function Replace(disk: Disk, log: Log, n: nat): Disk
    requires n <= STEPS
  {
    var written := if n >= 1 then Perform(disk, WriteTemp(log)) else disk;
    var synced := if n >= 2 then Perform(written, SyncTemp) else written;
    var renamed := if n >= 3 then Perform(synced, Rename) else synced;
    if n >= 4 then Perform(renamed, SyncDirectory) else renamed
  }

  /** Reading the journal back for the given configuration file. `fileBytes` is the file's size. */
  function Admit(found: Option<Content>, fileBytes: nat, source: string): Result<Log> {
    if found.None? then Ok(Log(source, []))
    else if fileBytes > MAX_FILE_BYTES then Err("history exceeds 64 MiB")
    else if found.value.Torn? then Err("unreadable history")
    else if |found.value.log.revisions| > MAX_REVISIONS then Err("invalid history length")
    else if found.value.log.source != source then Err("history belongs to another configuration file")
    else Ok(found.value.log)
  }

  /** The revision a restart begins with; none means capturing the source file afresh. */
  function StartingRevision(log: Log): Option<Revision> {
    if log.revisions == [] then None else Some(log.revisions[|log.revisions| - 1])
  }

  /** The version is the one recorded last. */
  predicate Repeats(revisions: seq<Revision>, version: nat) {
    revisions != [] && revisions[|revisions| - 1].version == version
  }

  /** What reading history.json gives while the system stays up. */
  function Visible(disk: Disk): Option<Content> {
    if disk.renamed == [] then disk.settled else Some(disk.renamed[|disk.renamed| - 1])
  }

  /** Recording one revision when `working` of the four steps succeed: the journal in memory, the
      disk and whether success is reported. */
  ghost function Recorded(journal: Log, disk: Disk, r: Revision, working: nat): (Log, Disk, bool)
    requires working <= STEPS
  {
    if Repeats(journal.revisions, r.version) then (journal, disk, true)
    else
      var next := Log(journal.source, Retained(journal.revisions + [r]));
      (if working == STEPS then next else journal, Replace(disk, next, working), working == STEPS)
  }

  class History {
    var journal: Log
    var disk: Disk
    ghost var log: seq<Revision>

    ghost predicate Valid()
      reads this
    {
      journal.revisions == log || journal.revisions == Retained(log)
    }

    constructor (journal: Log, disk: Disk)
      ensures Valid() && this.disk == disk && this.journal == journal && log == journal.revisions
    {
      this.journal, this.disk, log := journal, disk, journal.revisions;
    }

    /** Opening what an earlier process left behind; a journal that is torn, overlong, too large or
        of another configuration file is an error. */
    static method Open(disk: Disk, fileBytes: nat, source: string) returns (result: Result<History>)
      ensures result.Ok? <==> Admit(Visible(disk), fileBytes, source).Ok?
      ensures result.Ok? ==>
                var h := result.value;
                && fresh(h) && h.Valid() && h.disk == disk
                && h.journal == Admit(Visible(disk), fileBytes, source).value && h.log == h.journal.revisions
                && h.journal.source == source
    {
      var found := Visible(disk);
      var journal := Log(source, []);
      if found.Some? {
        if fileBytes > MAX_FILE_BYTES {
          return Err("history exceeds 64 MiB");
        }
        if found.value.Torn? {
          return Err("unreadable history");
        }
        journal := found.value.log;
        if |journal.revisions| > MAX_REVISIONS {
          return Err("invalid history length");
        }
      }
      if journal.source != source {
        return Err("history belongs to another configuration file");
      }
      var history := new History(journal, disk);
      return Ok(history);
    }

    /** Record one published revision. `working` of the four I/O steps succeed; with fewer than
        four the call fails, and what it had written so far stays on disk. */
    method Record(version: nat, bundle: Option<Bundle>, working: nat) returns (result: Result<()>)
      requires Valid() && working <= STEPS
      modifies this
      ensures Valid() && journal.source == old(journal.source)
      ensures bundle.Some? ==>
                (journal, disk, result.Ok?) == Recorded(old(journal), old(disk), Revision(version, bundle.value), working)
      ensures bundle.None? ==> result.Err? && journal == old(journal) && disk == old(disk) && log == old(log)
      ensures bundle.Some? && Repeats(old(journal).revisions, version) ==>
                result.Ok? && journal == old(journal) && disk == old(disk) && log == old(log)
      ensures bundle.Some? && !Repeats(old(journal).revisions, version) ==>
                var recorded := old(log) + [Revision(version, bundle.value)];
                var next := Log(journal.source, Retained(recorded));
                && disk == Replace(old(disk), next, working)
                && if working == STEPS then result.Ok? && journal == next && log == recorded
                   else result.Err? && journal == old(journal) && log == old(log)
    {
      hide Retained, Replace, WithinBudgets, Repeats;
      if bundle.None? {
        return Err("snapshot has no source bundle");
      }
      var revisions := journal.revisions;
      if Repeats(revisions, version) {
        return Ok(());
      }
      ghost var recorded := log + [Revision(version, bundle.value)];
      RetainedAbsorbs(log, [Revision(version, bundle.value)]);
      revisions := Evict(revisions + [Revision(version, bundle.value)]);
      var next := Log(journal.source, revisions);
      var persisted := Persist(next, working);
      if !persisted {
        return Err("history could not be written");
      }
      journal := next;
      log := recorded;
      return Ok(());
    }

    /** The eviction loop ends for every input, with exactly the longest affordable suffix. */
    static method Evict(revisions: seq<Revision>) returns (kept: seq<Revision>)
      ensures kept == Retained(revisions)
    {
      kept := revisions;
      while |kept| > MAX_REVISIONS || AssetBytes(kept) > MAX_ASSET_BYTES || ConfigBytes(kept) > MAX_CONFIG_BYTES
        invariant Retained(kept) == Retained(revisions)
        decreases |kept|
      {
        RetainedStep(kept);
        kept := kept[1..];
      }
      RetainedStep(kept);
    }

    /** Write, sync, rename, sync the directory: stop at the first step that fails. */
    method Persist(next: Log, working: nat) returns (persisted: bool)
      requires working <= STEPS
      modifies this`disk
      ensures persisted == (working == STEPS)
      ensures disk == Replace(old(disk), next, working)
    {
      if working == 0 {
        return false;
      }
      disk := Perform(disk, WriteTemp(next));
      if working == 1 {
        return false;
      }
      disk := Perform(disk, SyncTemp);
      if working == 2 {
        return false;
      }
      disk := Perform(disk, Rename);
      if working == 3 {
        return false;
      }
      disk := Perform(disk, SyncDirectory);
      return true;
    }

    method Restore<T>(version: nat, compile: (Bundle, nat) -> Result<T>) returns (result: Result<T>)
      ensures result == Restored(journal.revisions, version, compile)
    {
      var i := 0;
      while i < |journal.revisions|
        invariant i <= |journal.revisions|
        invariant Find(journal.revisions, version) == Find(journal.revisions[i..], version)
      {
        if journal.revisions[i].version == version {
          return compile(journal.revisions[i].bundle, version);
        }
        i := i + 1;
      }
      return Err("version is not retained");
    }
  }
}
