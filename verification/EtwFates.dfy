/**
 * What becomes of every event on the IRP route, told from the trace alone: the next use of its IRP decides
 * whether a begin is completed, displaced, superseded or left for the flush, and the uses of an IRP decide
 * whether an OP_END is matched, suppressed or unmatched. The counters are the numbers of these cases.
 */
module EtwFates {
  import opened Options
  import opened EtwEvents
  import opened EtwSpec
  import opened EtwTree
  import opened EtwIrps
  import opened EtwPaths
  import opened EtwRecords
  import opened Totals

  /** The begin that waits under the IRP at the end of the trace. */
  function Waiting(cfg: Config, t: seq<Event>, irp: Irp): (k: Option<nat>)
    ensures k.Some? ==> k.value < |t|
  {
    var k := LastTouch(cfg, t, irp);
    if k.Some? && Begins(cfg, t, k.value) then k else None
  }

  predicate Closes(cfg: Config, t: seq<Event>, k: nat, irp: Irp)
    requires k < |t|
  {
    AcceptedAt(cfg, t, k) && t[k].opcode == FILE_IO_CLOSE && t[k].io.irp == Some(irp)
  }

  /** An OP_END on the IRP that finds no begin waiting. */
  predicate Stray(cfg: Config, t: seq<Event>, k: nat, irp: Irp)
    requires k < |t|
  {
    IsOpEnd(cfg, t[k]) && t[k].io.irp == Some(irp) && Waiting(cfg, t[..k], irp).None?
  }

  /** A CLOSE used the IRP, and no stray OP_END on it has come since. */
  ghost predicate Ignores(cfg: Config, t: seq<Event>, irp: Irp) {
    exists k :: 0 <= k < |t| && Closes(cfg, t, k, irp) && forall j :: k < j < |t| ==> !Stray(cfg, t, j, irp)
  }

  // ---------- the set of ignored IRPs ----------

  lemma WaitingIsPending(cfg: Config, t: seq<Event>, irp: Irp)
    ensures Waiting(cfg, t, irp).Some? <==> irp in Run(cfg, t).irps.pending
  {
    TableIsLastTouch(cfg, t, irp);
  }

  lemma IgnoredStep(cfg: Config, s: State, e: Event, irp: Irp)
    ensures var i := s.irps;
            irp in IrpStepOf(cfg, s, e).table.ignored <==>
            || (AcceptedBy(cfg, s.tree, e) && e.opcode == FILE_IO_CLOSE && e.io.irp == Some(irp))
            || (irp in i.ignored && !(IsOpEnd(cfg, e) && e.io.irp == Some(irp) && irp !in i.pending))
  {
  }

  lemma SameBefore(cfg: Config, t: seq<Event>, k: nat, irp: Irp)
    requires t != [] && k < |Prefix(t)|
    ensures Closes(cfg, t, k, irp) == Closes(cfg, Prefix(t), k, irp)
    ensures Stray(cfg, t, k, irp) == Stray(cfg, Prefix(t), k, irp)
  {
    assert Prefix(t)[..k] == t[..k];
  }

  lemma IgnoresStays(cfg: Config, t: seq<Event>, irp: Irp)
    requires t != [] && Ignores(cfg, Prefix(t), irp) && !Stray(cfg, t, |t| - 1, irp)
    ensures Ignores(cfg, t, irp)
  {
    var u, n := Prefix(t), |t| - 1;
    var k :| 0 <= k < n && Closes(cfg, u, k, irp) && forall j :: k < j < n ==> !Stray(cfg, u, j, irp);
    SameBefore(cfg, t, k, irp);
    forall j | k < j < |t|
      ensures !Stray(cfg, t, j, irp)
    {
      if j < n {
        SameBefore(cfg, t, j, irp);
      }
    }
  }

  lemma IgnoresCameBefore(cfg: Config, t: seq<Event>, irp: Irp)
    requires t != [] && Ignores(cfg, t, irp) && !Closes(cfg, t, |t| - 1, irp)
    ensures Ignores(cfg, Prefix(t), irp) && !Stray(cfg, t, |t| - 1, irp)
  {
    var u, n := Prefix(t), |t| - 1;
    var k :| 0 <= k < |t| && Closes(cfg, t, k, irp) && forall j :: k < j < |t| ==> !Stray(cfg, t, j, irp);
    SameBefore(cfg, t, k, irp);
    forall j | k < j < n
      ensures !Stray(cfg, u, j, irp)
    {
      SameBefore(cfg, t, j, irp);
    }
  }

  lemma IgnoresSnoc(cfg: Config, t: seq<Event>, irp: Irp)
    requires t != []
    ensures var n := |t| - 1;
            Ignores(cfg, t, irp) <==>
            Closes(cfg, t, n, irp) || (Ignores(cfg, Prefix(t), irp) && !Stray(cfg, t, n, irp))
  {
    if Ignores(cfg, Prefix(t), irp) && !Stray(cfg, t, |t| - 1, irp) {
      IgnoresStays(cfg, t, irp);
    }
    if Ignores(cfg, t, irp) && !Closes(cfg, t, |t| - 1, irp) {
      IgnoresCameBefore(cfg, t, irp);
    }
  }

  /** In every reachable state the ignored IRPs are those that a CLOSE used and no stray OP_END has spent. */
  lemma {:induction false} IgnoredIsHistory(cfg: Config, t: seq<Event>, irp: Irp)
    ensures irp in Run(cfg, t).irps.ignored <==> Ignores(cfg, t, irp)
    decreases |t|
  {
    if t != [] {
      var u, e := Prefix(t), Last(t);
      IgnoredIsHistory(cfg, u, irp);
      IgnoresSnoc(cfg, t, irp);
      RunTree(cfg, u);
      StepIrps(cfg, Run(cfg, u), e);
      IgnoredStep(cfg, Run(cfg, u), e, irp);
      WaitingIsPending(cfg, u, irp);
      assert t[..|t| - 1] == u;
    }
  }

  // ---------- the part each event plays ----------

  datatype Part = Matched | Suppressing | Unmatched | Superseding | Displacing | Other

  /** The part of the last event of a trace, by the uses of its IRP before it. */
  ghost function PartOf(cfg: Config, t: seq<Event>): Part
    requires t != []
  {
    var u, e := Prefix(t), Last(t);
    if IsOpEnd(cfg, e) then
      if e.io.irp.None? then Unmatched
      else if Waiting(cfg, u, e.io.irp.value).Some? then Matched
      else if Ignores(cfg, u, e.io.irp.value) then Suppressing
      else Unmatched
    else if AcceptedAt(cfg, t, |t| - 1) && e.io.irp.Some? && Waiting(cfg, u, e.io.irp.value).Some? then
      if e.opcode == FILE_IO_CLOSE then Superseding else Displacing
    else Other
  }

  ghost function Count(cfg: Config, t: seq<Event>, part: Part): nat
    decreases |t|
  {
    if t == [] then 0 else Count(cfg, Prefix(t), part) + if PartOf(cfg, t) == part then 1 else 0
  }

  /** The part the machine lets an event play. */
  function MachinePart(cfg: Config, s: State, e: Event): Part {
    if IsOpEnd(cfg, e) then
      if e.io.irp.None? then Unmatched
      else if e.io.irp.value in s.irps.pending then Matched
      else if e.io.irp.value in s.irps.ignored then Suppressing
      else Unmatched
    else if AcceptedBy(cfg, s.tree, e) && e.io.irp.Some? && e.io.irp.value in s.irps.pending then
      if e.opcode == FILE_IO_CLOSE then Superseding else Displacing
    else Other
  }

  lemma PartIsPlayed(cfg: Config, t: seq<Event>)
    requires t != []
    ensures PartOf(cfg, t) == MachinePart(cfg, Run(cfg, Prefix(t)), Last(t))
  {
    var u, e := Prefix(t), Last(t);
    RunTree(cfg, u);
    assert t[..|t| - 1] == u;
    if e.io.irp.Some? {
      WaitingIsPending(cfg, u, e.io.irp.value);
      IgnoredIsHistory(cfg, u, e.io.irp.value);
    }
  }

  lemma PartCounts(cfg: Config, s: State, e: Event)
    ensures var i, i', part := s.irps, IrpStepOf(cfg, s, e).table, MachinePart(cfg, s, e);
            && i'.matched == i.matched + (if part == Matched then 1 else 0)
            && i'.unmatched == i.unmatched + (if part == Unmatched then 1 else 0)
            && i'.reused == i.reused + (if part == Superseding || part == Displacing then 1 else 0)
            && |LostBy(cfg, s, e)| == (if part == Superseding then 1 else 0)
  {
  }

  /** In every reachable state each counter is the number of events that played its part. */
  lemma {:induction false} CountersAreHistory(cfg: Config, t: seq<Event>)
    ensures var i := Run(cfg, t).irps;
            && i.matched == Count(cfg, t, Matched)
            && i.unmatched == Count(cfg, t, Unmatched)
            && i.reused == Count(cfg, t, Superseding) + Count(cfg, t, Displacing)
            && Suppressed(cfg, t) == Count(cfg, t, Suppressing)
            && |Superseded(cfg, t)| == Count(cfg, t, Superseding)
    decreases |t|
  {
    if t != [] {
      var s, e := Run(cfg, Prefix(t)), Last(t);
      CountersAreHistory(cfg, Prefix(t));
      PartIsPlayed(cfg, t);
      StepIrps(cfg, s, e);
      PartCounts(cfg, s, e);
    }
  }

  // ---------- the fate of a begin ----------

  lemma {:induction false} RecordsGrow(cfg: Config, t: seq<Event>, n: nat)
    requires n <= |t|
    ensures FileRecords(Run(cfg, t[..n]).sink.log) <= FileRecords(Run(cfg, t).sink.log)
    decreases |t|
  {
    if n == |t| {
      assert t[..n] == t;
    } else {
      RecordsGrow(cfg, Prefix(t), n);
      assert Prefix(t)[..n] == t[..n];
      StepIrps(cfg, Run(cfg, Prefix(t)), Last(t));
    }
  }

  /** The file records of a finished extraction, and where those of step k begin. */
  function Written(cfg: Config, t: seq<Event>): seq<FileRecord> {
    FileRecords(Extract(cfg, t).sink.log)
  }

  function Place(cfg: Config, t: seq<Event>, k: nat): nat
    requires k <= |t|
  {
    |FileRecords(Run(cfg, t[..k]).sink.log)|
  }

  /** A record that a step writes stays where it was written. */
  lemma WrittenAt(cfg: Config, t: seq<Event>, k: nat, r: FileRecord)
    requires k < |t| && IrpStepOf(cfg, Run(cfg, t[..k]), t[k]).writes == [r]
    ensures Place(cfg, t, k) < |Written(cfg, t)| && Written(cfg, t)[Place(cfg, t, k)] == r
    ensures Place(cfg, t, k + 1) == Place(cfg, t, k) + 1
  {
    var s, p := Run(cfg, t), t[..k + 1];
    assert Prefix(p) == t[..k] && Last(p) == t[k];
    StepIrps(cfg, Run(cfg, t[..k]), t[k]);
    RecordsGrow(cfg, t, k + 1);
    WriteAllRecords(cfg, s.modules, s.sink, FlushIo(cfg, s.irps).writes);
  }

  lemma PendingIsWaiting(cfg: Config, t: seq<Event>, n: nat, irp: Irp)
    requires n <= |t| && Waiting(cfg, t[..n], irp).Some?
    ensures var p := Run(cfg, t[..n]).irps.pending;
            irp in p && Genuine(cfg, t, Waiting(cfg, t[..n], irp).value, p[irp]) && Incomplete(p[irp])
  {
    var i := Waiting(cfg, t[..n], irp).value;
    TableIsLastTouch(cfg, t[..n], irp);
    assert t[..n][..i] == t[..i];
  }

  lemma EndWrites(cfg: Config, s: State, e: Event, irp: Irp)
    requires IsOpEnd(cfg, e) && e.io.irp == Some(irp) && irp in s.irps.pending
    ensures IrpStepOf(cfg, s, e).writes == [Merged(s.irps.pending[irp], e, s.sequence + 1)]
  {
  }

  lemma BeginWrites(cfg: Config, s: State, e: Event, irp: Irp)
    requires AcceptedBy(cfg, s.tree, e) && e.io.irp == Some(irp) && irp in s.irps.pending
    ensures var r := s.irps.pending[irp];
            if e.opcode == FILE_IO_CLOSE
            then IrpStepOf(cfg, s, e).writes == [RecordFor(s, e)] && LostBy(cfg, s, e) == [r]
            else IrpStepOf(cfg, s, e).writes == [r]
  {
  }

  lemma MergedIsCompleted(cfg: Config, t: seq<Event>, i: nat, k: nat, r: FileRecord)
    requires k < |t| && Genuine(cfg, t, i, r) && Incomplete(r)
    ensures var r' := Merged(r, t[k], FileIoCount(cfg, t[..k + 1]));
            Genuine(cfg, t, i, r') && CompletedBy(cfg, t, k, r')
  {
  }

  /**
   * The next use of its IRP after begin i is the OP_END at k: the record of event i, completed by event k,
   * is written at that step.
   */
  lemma PairIsWritten(cfg: Config, t: seq<Event>, i: nat, k: nat)
    requires Pairs(cfg, t, i, k) && Begins(cfg, t, i)
    ensures Place(cfg, t, k) < |Written(cfg, t)|
    ensures var r := Written(cfg, t)[Place(cfg, t, k)];
            Genuine(cfg, t, i, r) && CompletedBy(cfg, t, k, r)
  {
    var irp := t[k].io.irp.value;
    var s := Run(cfg, t[..k]);
    PairWaits(cfg, t, i, k);
    PendingIsWaiting(cfg, t, k, irp);
    EndWrites(cfg, s, t[k], irp);
    SequenceAt(cfg, t, k);
    MergedIsCompleted(cfg, t, i, k, s.irps.pending[irp]);
    WrittenAt(cfg, t, k, Merged(s.irps.pending[irp], t[k], s.sequence + 1));
  }

  lemma PairWaits(cfg: Config, t: seq<Event>, i: nat, k: nat)
    requires Pairs(cfg, t, i, k) && Begins(cfg, t, i)
    ensures Waiting(cfg, t[..k], t[k].io.irp.value) == Some(i)
  {
    assert t[..k][..i] == t[..i];
  }

  lemma SequenceAt(cfg: Config, t: seq<Event>, k: nat)
    requires k < |t| && IsFileIo(cfg, t[k])
    ensures Run(cfg, t[..k]).sequence + 1 == FileIoCount(cfg, t[..k + 1])
  {
    assert Prefix(t[..k + 1]) == t[..k];
    NextSequence(cfg, t[..k + 1]);
  }

  /** The next use is another begin: event i is written, not completed, at that step. */
  lemma DisplacedIsWritten(cfg: Config, t: seq<Event>, i: nat, k: nat, irp: Irp)
    requires k < |t| && Waiting(cfg, t[..k], irp) == Some(i)
    requires Begins(cfg, t, k) && t[k].io.irp == Some(irp)
    ensures Place(cfg, t, k) < |Written(cfg, t)|
    ensures var r := Written(cfg, t)[Place(cfg, t, k)];
            Genuine(cfg, t, i, r) && Incomplete(r)
  {
    var s := Run(cfg, t[..k]);
    RunTree(cfg, t[..k]);
    PendingIsWaiting(cfg, t, k, irp);
    BeginWrites(cfg, s, t[k], irp);
    WrittenAt(cfg, t, k, s.irps.pending[irp]);
  }

  lemma CloseIsGenuine(cfg: Config, t: seq<Event>, k: nat)
    requires k < |t| && AcceptedAt(cfg, t, k)
    ensures Genuine(cfg, t, k, RecordFor(Run(cfg, t[..k]), t[k]))
  {
    var p := t[..k + 1];
    assert Prefix(p) == t[..k] == p[..k] && Last(p) == t[k];
    NewIsGenuine(cfg, p);
  }

  /** The next use is an accepted CLOSE: event i is thrown away at that step, which writes the CLOSE alone. */
  lemma SupersededIsLost(cfg: Config, t: seq<Event>, i: nat, k: nat, irp: Irp)
    requires k < |t| && Waiting(cfg, t[..k], irp) == Some(i) && Closes(cfg, t, k, irp)
    ensures exists r :: LostBy(cfg, Run(cfg, t[..k]), t[k]) == [r] && Genuine(cfg, t, i, r)
    ensures Place(cfg, t, k + 1) == Place(cfg, t, k) + 1 <= |Written(cfg, t)|
    ensures Genuine(cfg, t, k, Written(cfg, t)[Place(cfg, t, k)])
  {
    var s := Run(cfg, t[..k]);
    RunTree(cfg, t[..k]);
    PendingIsWaiting(cfg, t, k, irp);
    BeginWrites(cfg, s, t[k], irp);
    CloseIsGenuine(cfg, t, k);
    WrittenAt(cfg, t, k, RecordFor(s, t[k]));
  }

  lemma {:induction false} ListedHas(p: map<Irp, FileRecord>, keys: seq<Irp>, irp: Irp)
    requires irp in keys && irp in p
    ensures p[irp] in Listed(p, keys)
    decreases |keys|
  {
    if Last(keys) != irp {
      ListedHas(p, Prefix(keys), irp);
    }
  }

  lemma WrittenSplits(cfg: Config, t: seq<Event>)
    ensures Written(cfg, t) == FileRecords(Run(cfg, t).sink.log) + FlushIo(cfg, Run(cfg, t).irps).writes
  {
    var s := Run(cfg, t);
    WriteAllRecords(cfg, s.modules, s.sink, FlushIo(cfg, s.irps).writes);
  }

  lemma InSecondPart<T>(a: seq<T>, b: seq<T>, x: T) returns (n: nat)
    requires x in b
    ensures |a| <= n < |a + b| && (a + b)[n] == x
  {
    var m :| 0 <= m < |b| && b[m] == x;
    n := |a| + m;
  }

  /** There is no next use: event i is written, not completed, by the flush. */
  lemma WaitingIsFlushed(cfg: Config, t: seq<Event>, irp: Irp)
    requires cfg.Valid() && Waiting(cfg, t, irp).Some?
    ensures exists n :: Place(cfg, t, |t|) <= n < |Written(cfg, t)|
                        && Genuine(cfg, t, Waiting(cfg, t, irp).value, Written(cfg, t)[n])
                        && Incomplete(Written(cfg, t)[n])
  {
    var p: map<Irp, FileRecord> := Run(cfg, t).irps.pending;
    assert t[..|t|] == t;
    PendingIsWaiting(cfg, t, |t|, irp);
    assert Enumerates(cfg.walkOrder(p.Keys), p.Keys);
    ListedHas(p, cfg.walkOrder(p.Keys), irp);
    WrittenSplits(cfg, t);
    var n := InSecondPart(FileRecords(Run(cfg, t).sink.log), FlushIo(cfg, Run(cfg, t).irps).writes, p[irp]);
  }

  lemma {:induction false} ListedInOrder(p: map<Irp, FileRecord>, keys: seq<Irp>)
    requires forall irp :: irp in keys ==> irp in p
    ensures |Listed(p, keys)| == |keys| && forall k :: 0 <= k < |keys| ==> Listed(p, keys)[k] == p[keys[k]]
    decreases |keys|
  {
    if keys != [] {
      ListedInOrder(p, Prefix(keys));
      assert keys == Prefix(keys) + [Last(keys)];
    }
  }

  lemma ListedBehind(before: seq<FileRecord>, p: map<Irp, FileRecord>, keys: seq<Irp>)
    requires forall irp :: irp in keys ==> irp in p
    ensures |before + Listed(p, keys)| == |before| + |keys|
    ensures forall k :: 0 <= k < |keys| ==> (before + Listed(p, keys))[|before| + k] == p[keys[k]]
  {
    ListedInOrder(p, keys);
  }

  /** What the flush of a state appends: the parked records in iteration order. */
  ghost predicate FlushesInOrder(cfg: Config, s: State) {
    var keys := cfg.walkOrder(s.irps.pending.Keys);
    var before, after := FileRecords(s.sink.log), FileRecords(Flush(cfg, s).sink.log);
    && (forall irp :: irp in keys <==> irp in s.irps.pending)
    && |after| == |before| + |keys|
    && before <= after
    && forall k :: 0 <= k < |keys| ==> after[|before| + k] == s.irps.pending[keys[k]]
  }

  lemma FlushRecords(cfg: Config, s: State)
    ensures FileRecords(Flush(cfg, s).sink.log) ==
            FileRecords(s.sink.log) + Listed(s.irps.pending, cfg.walkOrder(s.irps.pending.Keys))
  {
    WriteAllRecords(cfg, s.modules, s.sink, Listed(s.irps.pending, cfg.walkOrder(s.irps.pending.Keys)));
  }

  lemma FlushOrder(cfg: Config, s: State)
    requires cfg.Valid()
    ensures FlushesInOrder(cfg, s)
  {
    var keys := cfg.walkOrder(s.irps.pending.Keys);
    assert Enumerates(keys, s.irps.pending.Keys);
    FlushRecords(cfg, s);
    ListedBehind(FileRecords(s.sink.log), s.irps.pending, keys);
  }

  /** At the end of a trace the parked records are written in the iteration order of the table, and nothing else. */
  lemma FlushInOrder(cfg: Config, t: seq<Event>)
    requires cfg.Valid()
    ensures FlushesInOrder(cfg, Run(cfg, t)) && Extract(cfg, t) == Flush(cfg, Run(cfg, t))
  {
    FlushOrder(cfg, Run(cfg, t));
  }

  // ---------- exactly once, told from the trace ----------

  /** The begins whose IRP was next used by an accepted CLOSE. */
  ghost function SupersededEvents(cfg: Config, t: seq<Event>): seq<Event>
    decreases |t|
  {
    if t == [] then []
    else
      SupersededEvents(cfg, Prefix(t)) +
      if PartOf(cfg, t) == Superseding then [t[Waiting(cfg, Prefix(t), Last(t).io.irp.value).value]] else []
  }

  lemma LostByPart(cfg: Config, s: State, e: Event)
    ensures LostBy(cfg, s, e) ==
            if MachinePart(cfg, s, e) == Superseding then [s.irps.pending[e.io.irp.value]] else []
  {
  }

  lemma LostCount(cfg: Config, t: seq<Event>, x: Event)
    requires t != []
    ensures Sum(LostBy(cfg, Run(cfg, Prefix(t)), Last(t)), CopyOf(x)) ==
            if PartOf(cfg, t) == Superseding && t[Waiting(cfg, Prefix(t), Last(t).io.irp.value).value] == x
            then 1 else 0
  {
    var u, e := Prefix(t), Last(t);
    PartIsPlayed(cfg, t);
    LostByPart(cfg, Run(cfg, u), e);
    if PartOf(cfg, t) == Superseding {
      var irp := e.io.irp.value;
      assert u[..|u|] == u;
      PendingIsWaiting(cfg, u, |u|, irp);
      SumOne(Run(cfg, u).irps.pending[irp], CopyOf(x));
    }
  }

  lemma {:induction false} SupersededIsHistory(cfg: Config, t: seq<Event>, x: Event)
    ensures Sum(Superseded(cfg, t), CopyOf(x)) == multiset(SupersededEvents(cfg, t))[x]
    decreases |t|
  {
    if t != [] {
      SupersededIsHistory(cfg, Prefix(t), x);
      LostCount(cfg, t, x);
      SumAppend(Superseded(cfg, Prefix(t)), LostBy(cfg, Run(cfg, Prefix(t)), Last(t)), CopyOf(x));
    }
  }

  /** Every accepted event is written exactly once, except the begins that a CLOSE on their IRP came next to. */
  lemma ExactlyOnceByTrace(cfg: Config, t: seq<Event>, x: Event)
    requires cfg.Valid()
    ensures multiset(Accepted(cfg, t))[x] ==
            Sum(Written(cfg, t), CopyOf(x)) + multiset(SupersededEvents(cfg, t))[x]
  {
    ExactlyOnce(cfg, t, x);
    SupersededIsHistory(cfg, t, x);
  }
}
