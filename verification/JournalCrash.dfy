/** Failed writes, process restarts and power losses at any point of any run of records. */
module JournalCrash {
  import opened Options
  import opened Journal

  /** A process and its disk. `acked` are the revisions whose write was reported successful, `tried`
      all whose write was begun, both since the given start and in order. */
  datatype Proc = Proc(journal: Log, disk: Disk, acked: seq<Revision>, tried: seq<Revision>)

  datatype Event =
    | Record(r: Revision, working: nat)
    | Reopen(fileBytes: nat)
    | PowerLoss(found: Option<Content>, fileBytes: nat)

  function Fresh(source: string): Proc {
    Proc(Log(source, []), Disk(None, [], Absent), [], [])
  }

  /** The disk a new process reads after the event that ended the last one. */
  function Remains(disk: Disk, e: Event): Disk {
    if e.PowerLoss? then Disk(e.found, [], Absent) else disk
  }

  ghost predicate Enabled(p: Proc, e: Event) {
    if e.Record? then e.working <= STEPS
    else
      && (e.PowerLoss? ==> MayFind(p.disk, e.found))
      && Admit(Visible(Remains(p.disk, e)), e.fileBytes, p.journal.source).Ok?
  }

  ghost function Step(p: Proc, e: Event): Proc
    requires Enabled(p, e)
  {
    if e.Record? then
      var (journal, disk, ok) := Recorded(p.journal, p.disk, e.r, e.working);
      var writes := if Repeats(p.journal.revisions, e.r.version) then [] else [e.r];
      Proc(journal, disk, if ok then p.acked + writes else p.acked, p.tried + writes)
    else
      var disk := Remains(p.disk, e);
      p.(journal := Admit(Visible(disk), e.fileBytes, p.journal.source).value, disk := disk)
  }

  ghost predicate Reaches(p: Proc, es: seq<Event>, q: Proc)
    decreases |es|
  {
    if es == [] then q == p else Enabled(p, es[0]) && Reaches(Step(p, es[0]), es[1..], q)
  }

  /** The history that explains a journal: every acknowledged revision, in order, perhaps some of
      the revisions whose write failed, and nothing else. */
  ghost predicate Explains(log: seq<Revision>, p: Proc, revisions: seq<Revision>) {
    Within(p.acked, log) && Within(log, p.tried) && revisions == Retained(log)
  }

  /** A whole journal of this configuration file with an explanation. */
  ghost predicate Explained(p: Proc, c: Content) {
    c.Whole? && c.log.source == p.journal.source && exists log :: Explains(log, p, c.log.revisions)
  }

  ghost predicate Valid(p: Proc) {
    && Explained(p, Whole(p.journal))
    && (p.disk.settled.Some? ==> Explained(p, p.disk.settled.value))
    && (p.disk.settled.None? ==> p.acked == [])
    && forall c | c in p.disk.renamed :: Explained(p, c)
  }

  /** What n steps of a replacement do to the directory entries. */
  lemma ReplaceEntries(disk: Disk, next: Log, n: nat)
    requires n <= STEPS
    ensures var after := Replace(disk, next, n);
            if n <= 2 then after.settled == disk.settled && after.renamed == disk.renamed
            else if n == 3 then after.settled == disk.settled && after.renamed == disk.renamed + [Whole(next)]
            else after.settled == Some(Whole(next)) && after.renamed == []
  {
  }

  /** An explanation survives a failed write. */
  lemma StillExplained(p: Proc, q: Proc, c: Content, r: Revision)
    requires Explained(p, c) && q.acked == p.acked && q.tried == p.tried + [r]
    requires q.journal.source == p.journal.source
    ensures Explained(q, c)
  {
    hide Retained, Within;
    var log :| Explains(log, p, c.log.revisions);
    WithinSnoc(log, p.tried, r);
    assert Explains(log, q, c.log.revisions);
  }

  /** The journal about to be written is explained, whether or not its write succeeds. */
  lemma NextExplained(p: Proc, q: Proc, r: Revision)
    requires Explained(p, Whole(p.journal)) && q.tried == p.tried + [r]
    requires q.acked == p.acked || q.acked == p.acked + [r]
    requires q.journal.source == p.journal.source
    ensures Explained(q, Whole(Log(p.journal.source, Retained(p.journal.revisions + [r]))))
  {
    hide Retained, Within;
    var log :| Explains(log, p, p.journal.revisions);
    RetainedAbsorbs(log, [r]);
    WithinSnoc(p.acked, log, r);
    WithinSnoc(log, p.tried, r);
    assert Explains(log + [r], q, Retained(p.journal.revisions + [r]));
  }

  lemma RecordKeepsValid(p: Proc, e: Event)
    requires Valid(p) && Enabled(p, e) && e.Record?
    ensures Valid(Step(p, e))
  {
    hide Explained, Retained, Replace;
    var q := Step(p, e);
    if !Repeats(p.journal.revisions, e.r.version) {
      var next := Log(p.journal.source, Retained(p.journal.revisions + [e.r]));
      ReplaceEntries(p.disk, next, e.working);
      NextExplained(p, q, e.r);
      if e.working < STEPS {
        forall c | Explained(p, c) ensures Explained(q, c) {
          StillExplained(p, q, c, e.r);
        }
      }
    } else {
      SameExplained(p, q);
    }
  }

  /** Explanations depend only on what was acknowledged and tried. */
  lemma SameExplained(p: Proc, q: Proc)
    requires q.acked == p.acked && q.tried == p.tried && q.journal.source == p.journal.source
    ensures forall c :: Explained(p, c) ==> Explained(q, c)
  {
    forall c | Explained(p, c) ensures Explained(q, c) {
      var log :| Explains(log, p, c.log.revisions);
      assert Explains(log, q, c.log.revisions);
    }
  }

  lemma EmptyExplained(p: Proc)
    requires p.acked == []
    ensures Explained(p, Whole(Log(p.journal.source, [])))
  {
    assert Explains([], p, []);
  }

  lemma RestartKeepsValid(p: Proc, e: Event)
    requires Valid(p) && Enabled(p, e) && !e.Record?
    ensures Valid(Step(p, e))
  {
    hide Explained;
    var q := Step(p, e);
    if p.acked == [] {
      EmptyExplained(p);
    }
    SameExplained(p, q);
  }

  lemma {:induction false} ReachableIsValid(p: Proc, es: seq<Event>, q: Proc)
    requires Valid(p) && Reaches(p, es, q)
    ensures Valid(q)
    decreases |es|
  {
    if es != [] {
      hide Valid, Step;
      if es[0].Record? {
        RecordKeepsValid(p, es[0]);
      } else {
        RestartKeepsValid(p, es[0]);
      }
      ReachableIsValid(Step(p, es[0]), es[1..], q);
    }
  }

  /** After any run of records, failed writes, restarts and power losses, the journal in memory is
      the one cut of some history that has every acknowledged revision and only revisions whose
      write was begun. */
  lemma JournalIsExplained(source: string, es: seq<Event>, p: Proc)
    requires Reaches(Fresh(source), es, p)
    ensures exists log :: Explains(log, p, p.journal.revisions)
  {
    FreshIsValid(source);
    ReachableIsValid(Fresh(source), es, p);
  }

  lemma FreshIsValid(source: string)
    ensures Valid(Fresh(source))
  {
    EmptyExplained(Fresh(source));
  }

  /** Whatever a power loss leaves can be read back, unless its file exceeds 64 MiB, and has such a
      history too. */
  lemma EveryReadingIsExplained(source: string, es: seq<Event>, p: Proc, found: Option<Content>, fileBytes: nat)
    requires Reaches(Fresh(source), es, p) && MayFind(p.disk, found)
    ensures var admitted := Admit(found, fileBytes, p.journal.source);
            && (admitted.Ok? <==> found.None? || fileBytes <= MAX_FILE_BYTES)
            && (admitted.Ok? ==> exists log :: Explains(log, p, admitted.value.revisions))
  {
    FreshIsValid(source);
    ReachableIsValid(Fresh(source), es, p);
    hide Reaches, Explains, Retained, WithinBudgets;
    if found.None? {
      EmptyExplained(p);
    } else {
      ExplainedIsAdmitted(p, found.value, fileBytes);
    }
  }

  lemma ExplainedIsAdmitted(p: Proc, c: Content, fileBytes: nat)
    requires Explained(p, c)
    ensures if fileBytes <= MAX_FILE_BYTES then Admit(Some(c), fileBytes, p.journal.source) == Ok(c.log)
            else Admit(Some(c), fileBytes, p.journal.source).Err?
  {
    hide Within, Retained;
    var log :| Explains(log, p, c.log.revisions);
    RetainedIsSuffix(log);
  }

  /** When every write begun was acknowledged, memory and disk hold exactly the one cut of all of
      them, whatever restarts and power losses came between. */
  lemma AcknowledgedIsAll(source: string, es: seq<Event>, p: Proc, found: Option<Content>)
    requires Reaches(Fresh(source), es, p) && MayFind(p.disk, found) && p.acked == p.tried
    ensures p.journal.revisions == Retained(p.acked)
    ensures found == Some(Whole(p.journal)) || (found.None? && p.acked == [])
  {
    FreshIsValid(source);
    ReachableIsValid(Fresh(source), es, p);
    hide Retained, Within;
    forall log, revisions | Explains(log, p, revisions) ensures log == p.acked {
      WithinLength(p.acked, log);
      WithinLength(log, p.tried);
    }
  }

  /** What a process started on the given file would hold. */
  function Reading(p: Proc, found: Option<Content>): Result<Log> {
    Admit(found, 0, p.journal.source)
  }

  /** A process started on the given file begins with this version. */
  predicate BeginsWith(p: Proc, found: Option<Content>, version: nat) {
    Reading(p, found).Ok? && Repeats(Reading(p, found).value.revisions, version)
  }

  /** With no rename awaiting its directory sync the journal in memory is the one on disk; the first
      such rename put a journal in place that does not begin a start with the same version. */
  ghost predicate Rooted(p: Proc) {
    if p.disk.renamed == [] then Reading(p, p.disk.settled) == Ok(p.journal)
    else forall v :: !(BeginsWith(p, p.disk.settled, v) && BeginsWith(p, Some(p.disk.renamed[0]), v))
  }

  /** Every possible reading after a power loss is the given journal. */
  ghost predicate AllRead(p: Proc, journal: Log) {
    forall found | MayFind(p.disk, found) :: Reading(p, found) == Ok(journal)
  }

  /** Whatever a power loss leaves, the next start begins with this version. */
  ghost predicate AllBeginWith(p: Proc, version: nat) {
    forall found | MayFind(p.disk, found) :: BeginsWith(p, found, version)
  }

  lemma AdmitIgnoresSize(found: Option<Content>, fileBytes: nat, source: string)
    requires Admit(found, fileBytes, source).Ok?
    ensures Admit(found, 0, source) == Admit(found, fileBytes, source)
    ensures Admit(found, 0, source).value.source == source
  {
  }

  lemma RecordKeepsRooted(p: Proc, e: Event)
    requires Rooted(p) && Enabled(p, e) && e.Record?
    ensures Rooted(Step(p, e)) && Step(p, e).journal.source == p.journal.source
  {
    hide Retained, WithinBudgets, Replace;
    var q := Step(p, e);
    assert forall found, v :: BeginsWith(q, found, v) == BeginsWith(p, found, v);
    if !Repeats(p.journal.revisions, e.r.version) {
      var next := Log(p.journal.source, Retained(p.journal.revisions + [e.r]));
      NewestRetained(p.journal.revisions, e.r);
      RetainedIsShort(p.journal.revisions + [e.r]);
      ReplaceEntries(p.disk, next, e.working);
      assert Reading(p, Some(Whole(next))) == Ok(next);
      if e.working == STEPS {
        assert Reading(q, q.disk.settled) == Ok(q.journal);
      } else if p.disk.renamed != [] {
        assert q.disk.renamed[0] == p.disk.renamed[0];
      } else if e.working == 3 {
        assert q.disk.renamed[0] == Whole(next);
        assert forall v | BeginsWith(q, Some(Whole(next)), v) :: v == e.r.version;
      }
    }
  }

  lemma RetainedIsShort(log: seq<Revision>)
    ensures |Retained(log)| <= MAX_REVISIONS
  {
    RetainedIsSuffix(log);
  }

  lemma RestartKeepsRooted(p: Proc, e: Event)
    requires Rooted(p) && Enabled(p, e) && !e.Record?
    ensures Rooted(Step(p, e)) && Step(p, e).journal.source == p.journal.source
  {
    var disk := Remains(p.disk, e);
    AdmitIgnoresSize(Visible(disk), e.fileBytes, p.journal.source);
    hide Admit;
    var q := Step(p, e);
    if disk.renamed != [] {
      assert forall v :: BeginsWith(q, disk.settled, v) == BeginsWith(p, disk.settled, v);
    }
  }

  lemma {:induction false} ReachableIsRooted(p: Proc, es: seq<Event>, q: Proc)
    requires Rooted(p) && Reaches(p, es, q)
    ensures Rooted(q)
    decreases |es|
  {
    if es != [] {
      hide Rooted, Step;
      if es[0].Record? {
        RecordKeepsRooted(p, es[0]);
      } else {
        RestartKeepsRooted(p, es[0]);
      }
      ReachableIsRooted(Step(p, es[0]), es[1..], q);
    }
  }

  /** Exactly when a record reported successful is what the next start begins with, whatever a power
      loss leaves: a revision really written must fit the budgets alone, and one taken for a
      repetition needs that no renamed journal was still waiting for its directory sync. The other
      case arises when a process dies between rename and sync: the next process reads the renamed
      journal and takes recording the same version again for a repetition. */
  lemma SuccessIsDurableIff(source: string, es: seq<Event>, p: Proc, e: Event)
    requires Reaches(Fresh(source), es, p) && e.Record? && Enabled(p, e)
    requires Recorded(p.journal, p.disk, e.r, e.working).2
    ensures var q, repetition := Step(p, e), Repeats(p.journal.revisions, e.r.version);
            && (AllBeginWith(q, e.r.version) <==> if repetition then p.disk.renamed == [] else WithinBudgets([e.r]))
            && (AllRead(q, q.journal) <==> !repetition || p.disk.renamed == [])
  {
    FreshIsRooted(source);
    ReachableIsRooted(Fresh(source), es, p);
    hide Rooted, AllRead, AllBeginWith, Reaches, Step, Recorded, WithinBudgets;
    if Repeats(p.journal.revisions, e.r.version) {
      RepetitionIsDurableIff(p, e);
    } else {
      WriteIsDurable(p, e);
    }
  }

  lemma RepetitionIsDurableIff(p: Proc, e: Event)
    requires Rooted(p) && e.Record? && Enabled(p, e) && Repeats(p.journal.revisions, e.r.version)
    ensures var q := Step(p, e);
            && (AllBeginWith(q, e.r.version) <==> p.disk.renamed == [])
            && (AllRead(q, q.journal) <==> p.disk.renamed == [])
  {
    hide Admit;
    var q := Step(p, e);
    assert q.journal == p.journal && q.disk == p.disk;
    assert forall found, v :: BeginsWith(q, found, v) == BeginsWith(p, found, v);
    assert AllRead(q, q.journal) ==> AllBeginWith(q, e.r.version);
    if p.disk.renamed != [] {
      assert MayFind(q.disk, q.disk.settled) && MayFind(q.disk, Some(q.disk.renamed[0]));
    }
  }

  lemma WriteIsDurable(p: Proc, e: Event)
    requires e.Record? && Enabled(p, e) && !Repeats(p.journal.revisions, e.r.version)
    requires Recorded(p.journal, p.disk, e.r, e.working).2
    ensures var q := Step(p, e);
            AllRead(q, q.journal) && (AllBeginWith(q, e.r.version) <==> WithinBudgets([e.r]))
  {
    hide WithinBudgets, Retained, Replace;
    var next := Log(p.journal.source, Retained(p.journal.revisions + [e.r]));
    ReplaceEntries(p.disk, next, e.working);
    NewestRetained(p.journal.revisions, e.r);
    RetainedIsShort(p.journal.revisions + [e.r]);
    var q := Step(p, e);
    assert MayFind(q.disk, q.disk.settled) && Reading(q, q.disk.settled) == Ok(next);
  }

  lemma FreshIsRooted(source: string)
    ensures Rooted(Fresh(source))
  {
    assert Reading(Fresh(source), None) == Ok(Fresh(source).journal);
  }

  /** The unsafe case does occur: the revision is reported recorded and then lost. */
  lemma RepeatedRecordMayBeLost(source: string, r: Revision)
    requires WithinBudgets([r])
    ensures var once := Step(Fresh(source), Record(r, 3));
            Enabled(once, Reopen(0)) &&
            var again := Step(once, Reopen(0));
            && Recorded(again.journal, again.disk, r, STEPS) == (again.journal, again.disk, true)
            && Enabled(again, PowerLoss(None, 0))
            && Step(again, PowerLoss(None, 0)).journal.revisions == []
  {
    hide Retained, WithinBudgets;
    NewestRetained([], r);
    RetainedIsShort([] + [r]);
    ReplaceEntries(Fresh(source).disk, Log(source, Retained([] + [r])), 3);
  }

  /** A single record from a settled disk: a crash after any number of steps reveals exactly the
      old or the new journal, the old one before the rename and the new one after the last step. */
  lemma CrashIsAtomic(old': Option<Content>, temp: Temp, next: Log, steps: nat, found: Option<Content>)
    requires steps <= STEPS && MayFind(Replace(Disk(old', [], temp), next, steps), found)
    ensures found == old' || found == Some(Whole(next))
    ensures steps <= 2 ==> found == old'
    ensures steps == STEPS ==> found == Some(Whole(next))
  {
    ReplaceEntries(Disk(old', [], temp), next, steps);
  }

  /** Both outcomes really occur between the rename and the directory sync. */
  lemma CrashIsUndecidedAfterRename(old': Option<Content>, temp: Temp, next: Log)
    ensures MayFind(Replace(Disk(old', [], temp), next, 3), old')
    ensures MayFind(Replace(Disk(old', [], temp), next, 3), Some(Whole(next)))
  {
    ReplaceEntries(Disk(old', [], temp), next, 3);
    assert Whole(next) in [] + [Whole(next)];
  }

  /** The order of the steps is what makes this true: renaming before syncing the temporary file
      could leave a torn journal. */
  lemma RenameBeforeSyncTears(old': Option<Content>, next: Log)
    ensures MayFind(Perform(Perform(Disk(old', [], Absent), WriteTemp(next)), Rename), Some(Torn))
  {
    assert Torn in [] + [Torn];
  }

  /** A record that returned success is what the next start begins with, however the process ends. */
  lemma PublishedSurvivesRestart(
      disk: Disk, source: string, log: seq<Revision>, newest: Revision, found: Option<Content>, fileBytes: nat)
    requires WithinBudgets([newest])
    requires MayFind(Replace(disk, Log(source, Retained(log + [newest])), STEPS), found)
    ensures var admitted := Admit(found, fileBytes, source);
            if fileBytes <= MAX_FILE_BYTES then
              && admitted == Ok(Log(source, Retained(log + [newest])))
              && StartingRevision(admitted.value) == Some(newest)
            else admitted.Err?
  {
    ReplaceEntries(disk, Log(source, Retained(log + [newest])), STEPS);
    NewestRetained(log, newest);
    RetainedIsSuffix(log + [newest]);
  }
}
