/**
 * Conservation laws of the IRP route. Over every run, every parked event and every OP_END is accounted
 * for once, and every accepted event is handed to the writer exactly once unless a CLOSE superseded it.
 */
module EtwIrps {
  import opened Options
  import opened EtwEvents
  import opened EtwSpec
  import opened EtwTree
  import opened Totals

  // ---------- what a trace holds ----------

  predicate IsFileIo(cfg: Config, e: Event) {
    KnownFileIo(e) && File in cfg.presets
  }

  predicate IsOpEnd(cfg: Config, e: Event) {
    IsFileIo(cfg, e) && e.opcode == FILE_IO_OP_END
  }

  predicate AcceptedBy(cfg: Config, tree: set<Pid>, e: Event) {
    IsFileIo(cfg, e) && e.opcode != FILE_IO_OP_END && OwnerAllowed(cfg, tree, Owner(e))
  }

  /** The file events that pass the presets and the process tree, in trace order. */
  function Accepted(cfg: Config, t: seq<Event>): seq<Event>
    decreases |t|
  {
    if t == [] then []
    else Accepted(cfg, Prefix(t)) +
         (if AcceptedBy(cfg, Tree(cfg, Prefix(t)), Last(t)) then [Last(t)] else [])
  }

  /** How many of the events are parked under an IRP. */
  function ParkedCount(es: seq<Event>): nat {
    if es == [] then 0
    else ParkedCount(Prefix(es)) + (if Last(es).opcode != FILE_IO_CLOSE && Last(es).io.irp.Some? then 1 else 0)
  }

  /** How many of the events are CLOSE events that carry an IRP. */
  function CloseCount(es: seq<Event>): nat {
    if es == [] then 0
    else CloseCount(Prefix(es)) + (if Last(es).opcode == FILE_IO_CLOSE && Last(es).io.irp.Some? then 1 else 0)
  }

  function OpEndCount(cfg: Config, t: seq<Event>): nat
    decreases |t|
  {
    if t == [] then 0 else OpEndCount(cfg, Prefix(t)) + (if IsOpEnd(cfg, Last(t)) then 1 else 0)
  }

  /** How many OP_END records were swallowed because a CLOSE had used their IRP. */
  function Suppressed(cfg: Config, t: seq<Event>): nat
    decreases |t|
  {
    if t == [] then 0
    else
      var i, e := Run(cfg, Prefix(t)).irps, Last(t);
      Suppressed(cfg, Prefix(t)) +
      if IsOpEnd(cfg, e) && e.io.irp.Some? && e.io.irp.value !in i.pending && e.io.irp.value in i.ignored
      then 1 else 0
  }

  /** The parked record, if any, that an accepted CLOSE on the same IRP throws away. */
  function LostBy(cfg: Config, s: State, e: Event): seq<FileRecord> {
    if AcceptedBy(cfg, s.tree, e) && e.opcode == FILE_IO_CLOSE && e.io.irp.Some? && e.io.irp.value in s.irps.pending
    then [s.irps.pending[e.io.irp.value]] else []
  }

  function Superseded(cfg: Config, t: seq<Event>): seq<FileRecord>
    decreases |t|
  {
    if t == [] then [] else Superseded(cfg, Prefix(t)) + LostBy(cfg, Run(cfg, Prefix(t)), Last(t))
  }

  // ---------- what a step does ----------

  /** The record an accepted event becomes. */
  function RecordFor(s: State, e: Event): FileRecord {
    Decode(CachePath(s.paths, e), e, Taken(s.cache.stacks, e.time, Owner(e), e.tid))
  }

  predicate Attaches(cfg: Config, s: State, e: Event) {
    e.walk.Some? && Target(cfg, s.irps.pending, e.walk.value).Some?
  }

  /** The step of the IRP table, whatever kind of event comes. */
  function IrpStepOf(cfg: Config, s: State, e: Event): IrpStep {
    if IsOpEnd(cfg, e) then EndIo(s.irps, e, s.sequence + 1)
    else if AcceptedBy(cfg, s.tree, e) then BeginIo(s.irps, RecordFor(s, e))
    else if Attaches(cfg, s, e) then
      var irp := Target(cfg, s.irps.pending, e.walk.value).value;
      IrpStep(s.irps.(pending := s.irps.pending[irp := Attached(s.irps.pending[irp], e.walk.value)]), [])
    else IrpStep(s.irps, [])
  }

  function FileRecords(log: seq<Output>): seq<FileRecord> {
    if log == [] then []
    else FileRecords(Prefix(log)) + (if Last(log).FileLine? then [Last(log).record] else [])
  }

  lemma FileRecordsSnoc(log: seq<Output>, line: Output)
    ensures FileRecords(log + [line]) == FileRecords(log) + (if line.FileLine? then [line.record] else [])
  {
    assert Prefix(log + [line]) == log;
  }

  lemma WriteRecord(cfg: Config, k: Sink, r: FileRecord, fs: seq<Frame>)
    ensures FileRecords(Write(cfg, k, File, FileLine(r, None), fs).log) == FileRecords(k.log) + [r]
  {
    FileRecordsSnoc(k.log, FileLine(r, Some(fs)));
    FileRecordsSnoc(k.log, FileLine(r, None));
  }

  lemma {:induction false} WriteAllRecords(cfg: Config, modules: Modules, k: Sink, rs: seq<FileRecord>)
    ensures FileRecords(WriteAll(cfg, modules, k, rs).log) == FileRecords(k.log) + rs
    decreases |rs|
  {
    if rs == [] {
      assert FileRecords(k.log) + rs == FileRecords(k.log);
    } else {
      var r := Last(rs);
      var k' := WriteAll(cfg, modules, k, Prefix(rs));
      calc {
        FileRecords(WriteAll(cfg, modules, k, rs).log);
      ==  { WriteRecord(cfg, k', r, Frames(modules, r.pid, r.stack)); }
        FileRecords(k'.log) + [r];
      ==  { WriteAllRecords(cfg, modules, k, Prefix(rs)); }
        FileRecords(k.log) + Prefix(rs) + [r];
      ==  { assert rs == Prefix(rs) + [r]; }
        FileRecords(k.log) + rs;
      }
    }
  }

  lemma FileStepIrps(cfg: Config, s: State, e: Event)
    requires IsFileIo(cfg, e)
    ensures var s', io := StepFile(cfg, s, e), IrpStepOf(cfg, s, e);
            s'.irps == io.table && FileRecords(s'.sink.log) == FileRecords(s.sink.log) + io.writes
  {
    WriteAllRecords(cfg, s.modules, s.sink, IrpStepOf(cfg, s, e).writes);
  }

  lemma OtherStepIrps(cfg: Config, s: State, c: Category, e: Event)
    ensures var s' := StepOther(cfg, s, c, e);
            s'.irps == s.irps && FileRecords(s'.sink.log) == FileRecords(s.sink.log)
  {
    var log' := StepOther(cfg, s, c, e).sink.log;
    if Allows(cfg, s.tree, c, e) {
      assert log' == s.sink.log + [Last(log')];
      FileRecordsSnoc(s.sink.log, Last(log'));
    }
  }

  lemma StepIrps(cfg: Config, s: State, e: Event)
    ensures Step(cfg, s, e).irps == IrpStepOf(cfg, s, e).table
    ensures FileRecords(Step(cfg, s, e).sink.log) == FileRecords(s.sink.log) + IrpStepOf(cfg, s, e).writes
  {
    if e.walk.None? && e.category.Some? && e.category.value in cfg.presets {
      if KnownFileIo(e) {
        FileStepIrps(cfg, s, e);
      } else {
        OtherStepIrps(cfg, StepImage(cfg, s, e.category.value, e), e.category.value, e);
      }
    }
  }

  // ---------- counting laws ----------

  lemma CountsSnoc(es: seq<Event>, e: Event)
    ensures ParkedCount(es + [e]) == ParkedCount(es) + (if e.opcode != FILE_IO_CLOSE && e.io.irp.Some? then 1 else 0)
    ensures CloseCount(es + [e]) == CloseCount(es) + (if e.opcode == FILE_IO_CLOSE && e.io.irp.Some? then 1 else 0)
  {
    assert Prefix(es + [e]) == es;
  }

  lemma RemoveSize<K, V>(m: map<K, V>, k: K)
    ensures |m - {k}| == if k in m then |m| - 1 else |m|
  {
    assert (m - {k}).Keys == m.Keys - {k};
    assert |m - {k}| == |(m - {k}).Keys| && |m| == |m.Keys|;
  }

  lemma InsertSize<K, V>(m: map<K, V>, k: K, v: V)
    ensures |m[k := v]| == if k in m then |m| else |m| + 1
  {
    RemoveSize(m[k := v], k);
    assert m[k := v] - {k} == m - {k};
    RemoveSize(m, k);
  }

  lemma EndBalance(i: IrpTable, e: Event, sequence: nat)
    ensures var i' := EndIo(i, e, sequence).table;
            && i'.incomplete == i.incomplete && i'.ignored <= i.ignored
            && i'.matched + i'.reused + |i'.pending| == i.matched + i.reused + |i.pending|
            && i'.matched + i'.unmatched + |i.ignored| == i.matched + i.unmatched + |i'.ignored| + 1
  {
    if e.io.irp.Some? {
      RemoveSize(i.pending, e.io.irp.value);
    }
  }

  lemma BeginBalance(i: IrpTable, r: FileRecord)
    ensures var i' := BeginIo(i, r).table;
            var waits := r.origin.opcode != FILE_IO_CLOSE && r.origin.io.irp.Some?;
            var closes := r.origin.opcode == FILE_IO_CLOSE && r.origin.io.irp.Some?;
            && i'.incomplete == i.incomplete && i'.matched == i.matched && i'.unmatched == i.unmatched
            && i'.reused + |i'.pending| == i.reused + |i.pending| + (if waits then 1 else 0)
            && |i'.ignored| <= |i.ignored| + (if closes then 1 else 0)
  {
    if r.origin.io.irp.Some? {
      RemoveSize(i.pending, r.origin.io.irp.value);
      InsertSize(i.pending, r.origin.io.irp.value, r);
    }
  }

  lemma AttachBalance(cfg: Config, s: State, e: Event)
    requires !IsOpEnd(cfg, e) && !AcceptedBy(cfg, s.tree, e)
    ensures var i' := IrpStepOf(cfg, s, e).table;
            i' == s.irps.(pending := i'.pending) && |i'.pending| == |s.irps.pending|
  {
    if Attaches(cfg, s, e) {
      var irp := Target(cfg, s.irps.pending, e.walk.value).value;
      InsertSize(s.irps.pending, irp, Attached(s.irps.pending[irp], e.walk.value));
    }
  }

  /** How much a step adds to the three sums of the ledger. */
  lemma StepBalance(cfg: Config, s: State, e: Event)
    ensures var i, i' := s.irps, IrpStepOf(cfg, s, e).table;
            var begins := AcceptedBy(cfg, s.tree, e) && e.io.irp.Some?;
            && i'.incomplete == i.incomplete
            && i'.matched + i'.reused + |i'.pending| ==
               i.matched + i.reused + |i.pending| + (if begins && e.opcode != FILE_IO_CLOSE then 1 else 0)
            && (if IsOpEnd(cfg, e)
                then i'.matched + i'.unmatched + |i.ignored| == i.matched + i.unmatched + |i'.ignored| + 1
                else i'.matched == i.matched && i'.unmatched == i.unmatched
                     && |i'.ignored| <= |i.ignored| + (if begins && e.opcode == FILE_IO_CLOSE then 1 else 0))
  {
    if IsOpEnd(cfg, e) {
      EndBalance(s.irps, e, s.sequence + 1);
    } else if AcceptedBy(cfg, s.tree, e) {
      BeginBalance(s.irps, RecordFor(s, e));
    } else {
      AttachBalance(cfg, s, e);
    }
  }

  /**
   * In every reachable state each parked event is matched, displaced or still waiting; each OP_END is
   * matched, unmatched or suppressed; and only CLOSE events pay for suppression.
   */
  lemma {:induction false} IrpConservation(cfg: Config, t: seq<Event>)
    ensures var i := Run(cfg, t).irps;
            && ParkedCount(Accepted(cfg, t)) == i.matched + i.reused + |i.pending|
            && OpEndCount(cfg, t) == i.matched + i.unmatched + Suppressed(cfg, t)
            && Suppressed(cfg, t) + |i.ignored| <= CloseCount(Accepted(cfg, t))
            && i.incomplete == 0
    decreases |t|
  {
    if t != [] {
      var u, e := Prefix(t), Last(t);
      var s := Run(cfg, u);
      IrpConservation(cfg, u);
      RunTree(cfg, u);
      StepIrps(cfg, s, e);
      StepBalance(cfg, s, e);
      if AcceptedBy(cfg, s.tree, e) {
        CountsSnoc(Accepted(cfg, u), e);
      } else {
        assert Accepted(cfg, u) + [] == Accepted(cfg, u);
      }
      if IsOpEnd(cfg, e) {
        SuppressedStep(cfg, t);
      }
    }
  }

  lemma SuppressedStep(cfg: Config, t: seq<Event>)
    requires t != [] && IsOpEnd(cfg, Last(t))
    ensures var i, i' := Run(cfg, Prefix(t)).irps, Run(cfg, t).irps;
            Suppressed(cfg, t) == Suppressed(cfg, Prefix(t)) + |i.ignored| - |i'.ignored|
  {
    StepIrps(cfg, Run(cfg, Prefix(t)), Last(t));
  }

  /** After the flush nothing waits: parked events are matched, displaced or reported incomplete. */
  lemma IrpConservationAtEnd(cfg: Config, t: seq<Event>)
    ensures var i := Extract(cfg, t).irps;
            && i.pending == map[]
            && ParkedCount(Accepted(cfg, t)) == i.matched + i.reused + i.incomplete
  {
    IrpConservation(cfg, t);
  }

  // ---------- exactly once ----------

  /** The weight of a record in the count of copies of `e`. */
  function CopyOf(e: Event): FileRecord -> nat {
    (r: FileRecord) => if r.origin == e then 1 else 0
  }

  lemma EndOrigins(i: IrpTable, e: Event, sequence: nat, weight: FileRecord -> nat)
    requires forall r: FileRecord :: weight(Merged(r, e, sequence)) == weight(r)
    ensures var io := EndIo(i, e, sequence);
            Sum(io.writes, weight) + Total(io.table.pending, weight) == Total(i.pending, weight)
  {
    if e.io.irp.Some? && e.io.irp.value in i.pending {
      var irp := e.io.irp.value;
      TotalSplit(i.pending, weight, irp);
      SumOne(Merged(i.pending[irp], e, sequence), weight);
    }
  }

  lemma BeginOrigins(i: IrpTable, r: FileRecord, weight: FileRecord -> nat)
    ensures var io := BeginIo(i, r);
            var irp := r.origin.io.irp;
            var lost := r.origin.opcode == FILE_IO_CLOSE && irp.Some? && irp.value in i.pending;
            Sum(io.writes, weight) + Total(io.table.pending, weight) + (if lost then weight(i.pending[irp.value]) else 0)
            == Total(i.pending, weight) + weight(r)
  {
    SumOne(r, weight);
    if r.origin.io.irp.Some? {
      var irp := r.origin.io.irp.value;
      TotalUpdate(i.pending, weight, irp, r);
      TotalRemove(i.pending, weight, irp);
      if irp in i.pending {
        SumOne(i.pending[irp], weight);
      }
    }
  }

  /** A step moves records between the writer and the table; only an accepted event adds one. */
  lemma StepOrigins(cfg: Config, s: State, e: Event, weight: FileRecord -> nat)
    requires forall r: FileRecord, d, n :: weight(Merged(r, d, n)) == weight(r)
    ensures var io := IrpStepOf(cfg, s, e);
            Sum(io.writes, weight) + Total(io.table.pending, weight) + Sum(LostBy(cfg, s, e), weight)
            == Total(s.irps.pending, weight)
               + (if AcceptedBy(cfg, s.tree, e) then weight(RecordFor(s, e))
                  else if !IsOpEnd(cfg, e) && Attaches(cfg, s, e) then
                    var irp := Target(cfg, s.irps.pending, e.walk.value).value;
                    weight(Attached(s.irps.pending[irp], e.walk.value)) - weight(s.irps.pending[irp])
                  else 0)
  {
    var p: map<Irp, FileRecord> := s.irps.pending;
    if IsOpEnd(cfg, e) {
      EndOrigins(s.irps, e, s.sequence + 1, weight);
    } else if AcceptedBy(cfg, s.tree, e) {
      BeginOrigins(s.irps, RecordFor(s, e), weight);
      if LostBy(cfg, s, e) != [] {
        SumOne(p[e.io.irp.value], weight);
      }
    } else if Attaches(cfg, s, e) {
      var irp := Target(cfg, p, e.walk.value).value;
      TotalUpdate(p, weight, irp, Attached(p[irp], e.walk.value));
    }
  }

  /** What a step adds to the three places where a copy of an event can be. */
  lemma StepCopies(cfg: Config, s: State, e: Event, x: Event)
    ensures var s' := Step(cfg, s, e);
            Sum(FileRecords(s'.sink.log), CopyOf(x)) + Total(s'.irps.pending, CopyOf(x))
            + Sum(LostBy(cfg, s, e), CopyOf(x))
            == Sum(FileRecords(s.sink.log), CopyOf(x)) + Total(s.irps.pending, CopyOf(x))
               + (if AcceptedBy(cfg, s.tree, e) && e == x then 1 else 0)
  {
    StepIrps(cfg, s, e);
    StepOrigins(cfg, s, e, CopyOf(x));
    SumAppend(FileRecords(s.sink.log), IrpStepOf(cfg, s, e).writes, CopyOf(x));
  }

  /** In every reachable state an accepted event was written, is parked or was superseded, as often as it came. */
  lemma {:induction false} OriginConservation(cfg: Config, t: seq<Event>, x: Event)
    ensures var s := Run(cfg, t);
            multiset(Accepted(cfg, t))[x] ==
            Sum(FileRecords(s.sink.log), CopyOf(x)) + Total(s.irps.pending, CopyOf(x))
            + Sum(Superseded(cfg, t), CopyOf(x))
    decreases |t|
  {
    if t != [] {
      var s, e := Run(cfg, Prefix(t)), Last(t);
      OriginConservation(cfg, Prefix(t), x);
      RunTree(cfg, Prefix(t));
      StepCopies(cfg, s, e, x);
      SumAppend(Superseded(cfg, Prefix(t)), LostBy(cfg, s, e), CopyOf(x));
    }
  }

  lemma {:induction false} ListedTotal(p: map<Irp, FileRecord>, keys: seq<Irp>, weight: FileRecord -> nat)
    requires Enumerates(keys, p.Keys)
    ensures Sum(Listed(p, keys), weight) == Total(p, weight)
    decreases |keys|
  {
    if keys == [] {
      assert p.Keys == {};
      assert p == map[];
    } else {
      var k, rest := Last(keys), Prefix(keys);
      var q := p - {k};
      forall j
        ensures j in q.Keys <==> j in rest
      {
        assert keys == rest + [k];
        assert forall n :: 0 <= n < |rest| ==> keys[n] != keys[|rest|];
      }
      ListedTotal(q, rest, weight);
      ListedWithin(p, q, rest);
      TotalSplit(p, weight, k);
    }
  }

  lemma {:induction false} ListedWithin(p: map<Irp, FileRecord>, q: map<Irp, FileRecord>, keys: seq<Irp>)
    requires forall k :: k in keys ==> k in p && k in q && p[k] == q[k]
    ensures Listed(p, keys) == Listed(q, keys)
    decreases |keys|
  {
    if keys != [] {
      ListedWithin(p, q, Prefix(keys));
    }
  }

  /**
   * Exactly once: over a whole extraction every accepted event reaches the file writer once, except the
   * ones a CLOSE superseded, and those are all counted as reused IRPs.
   */
  lemma ExactlyOnce(cfg: Config, t: seq<Event>, x: Event)
    requires cfg.Valid()
    ensures multiset(Accepted(cfg, t))[x] ==
            Sum(FileRecords(Extract(cfg, t).sink.log), CopyOf(x)) + Sum(Superseded(cfg, t), CopyOf(x))
    ensures |Superseded(cfg, t)| <= Extract(cfg, t).irps.reused
  {
    var s := Run(cfg, t);
    var io := FlushIo(cfg, s.irps);
    OriginConservation(cfg, t, x);
    WriteAllRecords(cfg, s.modules, s.sink, io.writes);
    SumAppend(FileRecords(s.sink.log), io.writes, CopyOf(x));
    assert Enumerates(cfg.walkOrder(s.irps.pending.Keys), s.irps.pending.Keys);
    ListedTotal(s.irps.pending, cfg.walkOrder(s.irps.pending.Keys), CopyOf(x));
    SupersededCounted(cfg, t);
  }

  lemma LostIsReuse(cfg: Config, s: State, e: Event)
    ensures s.irps.reused + |LostBy(cfg, s, e)| <= IrpStepOf(cfg, s, e).table.reused
  {
  }

  lemma {:induction false} SupersededCounted(cfg: Config, t: seq<Event>)
    ensures |Superseded(cfg, t)| <= Run(cfg, t).irps.reused
    decreases |t|
  {
    if t != [] {
      SupersededCounted(cfg, Prefix(t));
      StepIrps(cfg, Run(cfg, Prefix(t)), Last(t));
      LostIsReuse(cfg, Run(cfg, Prefix(t)), Last(t));
    }
  }
}
