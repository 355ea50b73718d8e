/**
 * What a written file record says is true of the trace: it is one accepted event, its path is the one the
 * history gives, and its completion comes from the first OP_END after it that carries its IRP.
 */
module EtwRecords {
  import opened Options
  import opened EtwEvents
  import opened EtwSpec
  import opened EtwTree
  import opened EtwIrps
  import opened EtwPaths
  import EtwStacks

  /** Event k uses the IRP: it is an OP_END or an accepted event that carries it. */
  predicate Touches(cfg: Config, t: seq<Event>, k: nat, irp: Irp)
    requires k < |t|
  {
    (IsOpEnd(cfg, t[k]) || AcceptedAt(cfg, t, k)) && t[k].io.irp == Some(irp)
  }

  function LastTouch(cfg: Config, t: seq<Event>, irp: Irp): (k: Option<nat>)
    ensures k.Some? ==> k.value < |t|
    decreases |t|
  {
    if t == [] then None
    else if Touches(cfg, t, |t| - 1, irp) then Some(|t| - 1)
    else LastTouch(cfg, Prefix(t), irp)
  }

  /** The event is one that waits for its OP_END. */
  predicate Begins(cfg: Config, t: seq<Event>, k: nat)
    requires k < |t|
  {
    AcceptedAt(cfg, t, k) && t[k].opcode != FILE_IO_CLOSE
  }

  function FileIoCount(cfg: Config, t: seq<Event>): nat
    decreases |t|
  {
    if t == [] then 0 else FileIoCount(cfg, Prefix(t)) + (if IsFileIo(cfg, Last(t)) then 1 else 0)
  }

  lemma {:induction false} SequenceCounts(cfg: Config, t: seq<Event>)
    ensures Run(cfg, t).sequence == FileIoCount(cfg, t)
    decreases |t|
  {
    if t != [] {
      SequenceCounts(cfg, Prefix(t));
      assert Step(cfg, Run(cfg, Prefix(t)), Last(t)).sequence ==
             Run(cfg, Prefix(t)).sequence + if IsFileIo(cfg, Last(t)) then 1 else 0;
    }
  }

  lemma TouchStep(cfg: Config, s: State, e: Event, irp: Irp)
    ensures var p, p' := s.irps.pending, IrpStepOf(cfg, s, e).table.pending;
            if (IsOpEnd(cfg, e) || AcceptedBy(cfg, s.tree, e)) && e.io.irp == Some(irp)
            then
              && (irp in p' <==> AcceptedBy(cfg, s.tree, e) && e.opcode != FILE_IO_CLOSE)
              && (irp in p' ==> p'[irp] == RecordFor(s, e))
            else
              && (irp in p' <==> irp in p)
              && (irp in p ==> p'[irp].(stack := p[irp].stack, walks := p[irp].walks) == p[irp])
  {
  }

  // ---------- what is true of a record ----------

  /** The path and its origin: the event's own one, else that of its object, else that of its key. */
  predicate PathIs(e: Event, byObject: Option<string>, byKey: Option<string>, r: FileRecord) {
    var hasOwn := e.io.path.Some? && e.io.path.value != "";
    if !hasOwn && byObject.Some? then r.path == byObject && r.pathSource == Some(ObjectCache)
    else if !hasOwn && byKey.Some? then r.path == byKey && r.pathSource == Some(KeyCache)
    else
      && r.path == e.io.path
      && r.pathSource == (if e.io.path.None? then None else if e.opcode == 64 then Some(OpenPath) else Some(FileName))
  }

  /** The record is event i of the trace, with the path that the history before it gives. */
  predicate Genuine(cfg: Config, t: seq<Event>, i: nat, r: FileRecord) {
    && i < |t|
    && r.origin == t[i]
    && AcceptedAt(cfg, t, i)
    && r.pid == Owner(t[i])
    && PathIs(t[i], LatestPathOf(cfg, t[..i], ObjectId, t[i].io.fileObject),
              LatestPathOf(cfg, t[..i], KeyId, t[i].io.fileKey), r)
  }

  predicate Incomplete(r: FileRecord) {
    r.completion.None? && r.extraInfo == r.origin.io.extraInfo && r.status == r.origin.io.status
  }

  /** Event j is the OP_END of event i: nothing used their common IRP in between. */
  predicate Pairs(cfg: Config, t: seq<Event>, i: nat, j: nat) {
    && i < j < |t|
    && IsOpEnd(cfg, t[j])
    && t[j].io.irp.Some?
    && LastTouch(cfg, t[..j], t[j].io.irp.value) == Some(i)
    && t[i].io.irp == t[j].io.irp
  }

  predicate CompletedBy(cfg: Config, t: seq<Event>, j: nat, r: FileRecord) {
    && j < |t|
    && r.completion == Some(Completion(Owner(t[j]), t[j].tid, FileIoCount(cfg, t[..j + 1])))
    && r.extraInfo == (if t[j].io.extraInfo.Some? then t[j].io.extraInfo else r.origin.io.extraInfo)
    && r.status == (if t[j].io.status.Some? then t[j].io.status else r.origin.io.status)
  }

  /** Event i is not one that waits for an OP_END, or none came for it. */
  ghost predicate Alone(cfg: Config, t: seq<Event>, i: nat) {
    forall j: nat :: Pairs(cfg, t, i, j) ==> !Begins(cfg, t, i)
  }

  /** The record is true of the trace, and completed if and only if the OP_END of its event came. */
  ghost predicate Sound(cfg: Config, t: seq<Event>, r: FileRecord) {
    exists i: nat :: Genuine(cfg, t, i, r) &&
                     ((Incomplete(r) && Alone(cfg, t, i)) ||
                      exists j: nat :: Pairs(cfg, t, i, j) && CompletedBy(cfg, t, j, r))
  }

  /** Event i does not wait any more: whatever comes is not its OP_END. */
  predicate Settled(cfg: Config, t: seq<Event>, i: nat)
    requires i < |t|
  {
    !Begins(cfg, t, i) || t[i].io.irp.None? || LastTouch(cfg, t, t[i].io.irp.value) != Some(i)
  }

  /** What holds of a record from the moment it is written. */
  ghost predicate SoundSoFar(cfg: Config, t: seq<Event>, r: FileRecord) {
    exists i: nat :: Genuine(cfg, t, i, r) &&
                     ((Incomplete(r) && Alone(cfg, t, i) && Settled(cfg, t, i)) ||
                      exists j: nat :: Pairs(cfg, t, i, j) && CompletedBy(cfg, t, j, r))
  }

  lemma {:induction false} LastTouchIsLast(cfg: Config, t: seq<Event>, k: nat, irp: Irp)
    requires k < |t| && Touches(cfg, t, k, irp)
    ensures LastTouch(cfg, t, irp).Some? && k <= LastTouch(cfg, t, irp).value
    decreases |t|
  {
    if k < |t| - 1 {
      assert Prefix(t)[..k] == t[..k];
      LastTouchIsLast(cfg, Prefix(t), k, irp);
    }
  }

  lemma SettledStays(cfg: Config, t: seq<Event>, i: nat)
    requires t != [] && i < |Prefix(t)| && Settled(cfg, Prefix(t), i)
    ensures Settled(cfg, t, i)
  {
    assert Prefix(t)[..i] == t[..i];
  }

  lemma AloneStays(cfg: Config, t: seq<Event>, i: nat)
    requires t != [] && i < |Prefix(t)| && Settled(cfg, Prefix(t), i) && Alone(cfg, Prefix(t), i)
    ensures Alone(cfg, t, i)
  {
    assert Prefix(t)[..i] == t[..i];
    forall j: nat | Pairs(cfg, t, i, j)
      ensures !Begins(cfg, t, i)
    {
      if j < |t| - 1 {
        assert Prefix(t)[..j] == t[..j];
        assert Pairs(cfg, Prefix(t), i, j);
      } else {
        assert t[..j] == Prefix(t);
      }
    }
  }

  lemma PairedIsNotLast(cfg: Config, t: seq<Event>, i: nat, j: nat)
    requires Pairs(cfg, t, i, j)
    ensures LastTouch(cfg, t, t[i].io.irp.value) != Some(i)
  {
    LastTouchIsLast(cfg, t, j, t[j].io.irp.value);
  }

  /** While an event is the last to use its IRP no OP_END has come for it. */
  lemma LastIsAlone(cfg: Config, t: seq<Event>, irp: Irp)
    ensures LastTouch(cfg, t, irp).Some? ==> Alone(cfg, t, LastTouch(cfg, t, irp).value)
  {
    LastTouchTouches(cfg, t, irp);
    forall i: nat, j: nat | Pairs(cfg, t, i, j)
      ensures LastTouch(cfg, t, t[i].io.irp.value) != Some(i)
    {
      PairedIsNotLast(cfg, t, i, j);
    }
  }

  lemma NewIsAlone(cfg: Config, t: seq<Event>)
    requires t != []
    ensures Alone(cfg, t, |t| - 1)
  {
  }

  lemma GenuineLater(cfg: Config, t: seq<Event>, i: nat, r: FileRecord)
    requires t != [] && Genuine(cfg, Prefix(t), i, r)
    ensures Genuine(cfg, t, i, r)
  {
    assert Prefix(t)[..i] == t[..i];
  }

  lemma CompletionLater(cfg: Config, t: seq<Event>, i: nat, j: nat, r: FileRecord)
    requires t != [] && Pairs(cfg, Prefix(t), i, j) && CompletedBy(cfg, Prefix(t), j, r)
    ensures Pairs(cfg, t, i, j) && CompletedBy(cfg, t, j, r)
  {
    assert Prefix(t)[..j] == t[..j] && Prefix(t)[..j + 1] == t[..j + 1];
  }

  lemma SoundLater(cfg: Config, t: seq<Event>, r: FileRecord)
    requires t != [] && SoundSoFar(cfg, Prefix(t), r)
    ensures SoundSoFar(cfg, t, r)
  {
    var u := Prefix(t);
    var i: nat :| Genuine(cfg, u, i, r) &&
                  ((Incomplete(r) && Alone(cfg, u, i) && Settled(cfg, u, i)) ||
                   exists j: nat :: Pairs(cfg, u, i, j) && CompletedBy(cfg, u, j, r));
    GenuineLater(cfg, t, i, r);
    if Incomplete(r) && Alone(cfg, u, i) && Settled(cfg, u, i) {
      SettledStays(cfg, t, i);
      AloneStays(cfg, t, i);
    } else {
      var j: nat :| Pairs(cfg, u, i, j) && CompletedBy(cfg, u, j, r);
      CompletionLater(cfg, t, i, j, r);
    }
  }

  lemma NewIsGenuine(cfg: Config, t: seq<Event>)
    requires t != [] && AcceptedAt(cfg, t, |t| - 1)
    ensures Genuine(cfg, t, |t| - 1, RecordFor(Run(cfg, Prefix(t)), Last(t)))
    ensures Incomplete(RecordFor(Run(cfg, Prefix(t)), Last(t)))
  {
    var u, e := Prefix(t), Last(t);
    if e.io.fileObject.Some? {
      CacheIsSearch(cfg, u, ObjectId, e.io.fileObject.value);
    }
    if e.io.fileKey.Some? {
      CacheIsSearch(cfg, u, KeyId, e.io.fileKey.value);
    }
  }

  // ---------- the table of parked records ----------

  /** The table holds the IRP exactly when its last use is a begin, and then it holds that event. */
  predicate ParkedRight(cfg: Config, t: seq<Event>, irp: Irp, p: map<Irp, FileRecord>) {
    var k := LastTouch(cfg, t, irp);
    && (irp in p <==> k.Some? && Begins(cfg, t, k.value))
    && (irp in p ==> Genuine(cfg, t, k.value, p[irp]) && Incomplete(p[irp]))
  }

  lemma UntouchedStaysRight(cfg: Config, t: seq<Event>, irp: Irp, p: map<Irp, FileRecord>, p': map<Irp, FileRecord>)
    requires t != [] && ParkedRight(cfg, Prefix(t), irp, p) && !Touches(cfg, t, |t| - 1, irp)
    requires irp in p' <==> irp in p
    requires irp in p ==> p'[irp].(stack := p[irp].stack, walks := p[irp].walks) == p[irp]
    ensures ParkedRight(cfg, t, irp, p')
  {
    var k := LastTouch(cfg, Prefix(t), irp);
    if k.Some? {
      assert Prefix(t)[..k.value] == t[..k.value];
    }
  }

  /** The table refines a history search over the uses of the IRP. */
  lemma {:induction false} TableIsLastTouch(cfg: Config, t: seq<Event>, irp: Irp)
    ensures ParkedRight(cfg, t, irp, Run(cfg, t).irps.pending)
    decreases |t|
  {
    if t != [] {
      var u, e := Prefix(t), Last(t);
      var s := Run(cfg, u);
      TableIsLastTouch(cfg, u, irp);
      RunTree(cfg, u);
      StepIrps(cfg, s, e);
      TouchStep(cfg, s, e, irp);
      assert t[..|t| - 1] == u;
      if !Touches(cfg, t, |t| - 1, irp) {
        UntouchedStaysRight(cfg, t, irp, s.irps.pending, Run(cfg, t).irps.pending);
      } else if AcceptedAt(cfg, t, |t| - 1) {
        NewIsGenuine(cfg, t);
      }
    }
  }

  lemma NextSequence(cfg: Config, t: seq<Event>)
    requires t != [] && IsFileIo(cfg, Last(t))
    ensures Run(cfg, Prefix(t)).sequence + 1 == FileIoCount(cfg, t)
  {
    SequenceCounts(cfg, Prefix(t));
  }

  /** A parked record that its OP_END completes is sound. */
  lemma MergedIsSound(cfg: Config, t: seq<Event>, irp: Irp)
    requires t != [] && IsOpEnd(cfg, Last(t)) && Last(t).io.irp == Some(irp)
    requires irp in Run(cfg, Prefix(t)).irps.pending
    ensures var s := Run(cfg, Prefix(t)); SoundSoFar(cfg, t, Merged(s.irps.pending[irp], Last(t), s.sequence + 1))
  {
    var u := Prefix(t);
    TableIsLastTouch(cfg, u, irp);
    NextSequence(cfg, t);
    LastTouchTouches(cfg, u, irp);
    MergeSound(cfg, t, LastTouch(cfg, u, irp).value, Run(cfg, u).irps.pending[irp], Run(cfg, u).sequence + 1);
  }

  lemma MergeSound(cfg: Config, t: seq<Event>, i: nat, r: FileRecord, sequence: nat)
    requires t != [] && IsOpEnd(cfg, Last(t)) && Last(t).io.irp.Some?
    requires LastTouch(cfg, Prefix(t), Last(t).io.irp.value) == Some(i) && t[i].io.irp == Last(t).io.irp
    requires Genuine(cfg, Prefix(t), i, r) && Incomplete(r) && sequence == FileIoCount(cfg, t)
    ensures SoundSoFar(cfg, t, Merged(r, Last(t), sequence))
  {
    var j := |t| - 1;
    assert t[..j] == Prefix(t) && t[..j + 1] == t && Prefix(t)[..i] == t[..i];
    assert Pairs(cfg, t, i, j);
    assert CompletedBy(cfg, t, j, Merged(r, Last(t), sequence));
    assert Genuine(cfg, t, i, Merged(r, Last(t), sequence));
  }

  /** A parked record that another begin on its IRP displaces is sound. */
  lemma DisplacedIsSound(cfg: Config, t: seq<Event>, irp: Irp)
    requires t != [] && irp in Run(cfg, Prefix(t)).irps.pending
    requires AcceptedAt(cfg, t, |t| - 1) && Last(t).io.irp == Some(irp)
    ensures SoundSoFar(cfg, t, Run(cfg, Prefix(t)).irps.pending[irp])
  {
    var u := Prefix(t);
    var r, i := Run(cfg, u).irps.pending[irp], LastTouch(cfg, u, irp);
    TableIsLastTouch(cfg, u, irp);
    LastTouchTouches(cfg, u, irp);
    LastIsAlone(cfg, u, irp);
    DisplacedIsAlone(cfg, t, i.value, irp);
    GenuineLater(cfg, t, i.value, r);
  }

  lemma DisplacedIsAlone(cfg: Config, t: seq<Event>, i: nat, irp: Irp)
    requires t != [] && LastTouch(cfg, Prefix(t), irp) == Some(i) && Alone(cfg, Prefix(t), i)
    requires AcceptedAt(cfg, t, |t| - 1) && Last(t).io.irp == Some(irp) == t[i].io.irp
    ensures Alone(cfg, t, i) && Settled(cfg, t, i)
  {
    assert Prefix(t)[..i] == t[..i];
    forall j: nat | Pairs(cfg, t, i, j)
      ensures !Begins(cfg, t, i)
    {
      assert j < |t| - 1;
      assert Prefix(t)[..j] == t[..j];
      assert Pairs(cfg, Prefix(t), i, j);
    }
  }

  lemma WriteKinds(cfg: Config, s: State, e: Event, r: FileRecord)
    requires r in IrpStepOf(cfg, s, e).writes
    ensures if IsOpEnd(cfg, e)
            then e.io.irp.Some? && e.io.irp.value in s.irps.pending
                 && r == Merged(s.irps.pending[e.io.irp.value], e, s.sequence + 1)
            else AcceptedBy(cfg, s.tree, e) &&
                 ((r == RecordFor(s, e) && (e.opcode == FILE_IO_CLOSE || e.io.irp.None?))
                  || (e.io.irp.Some? && e.io.irp.value in s.irps.pending && r == s.irps.pending[e.io.irp.value]))
  {
  }

  /** The writes of a step are sound: parked records that are displaced or completed, or the event itself. */
  lemma WritesSound(cfg: Config, t: seq<Event>, r: FileRecord)
    requires t != [] && r in IrpStepOf(cfg, Run(cfg, Prefix(t)), Last(t)).writes
    ensures SoundSoFar(cfg, t, r)
  {
    var u, e := Prefix(t), Last(t);
    var s := Run(cfg, u);
    RunTree(cfg, u);
    WriteKinds(cfg, s, e, r);
    assert t[..|t| - 1] == u;
    if IsOpEnd(cfg, e) {
      MergedIsSound(cfg, t, e.io.irp.value);
    } else if r == RecordFor(s, e) && (e.opcode == FILE_IO_CLOSE || e.io.irp.None?) {
      NewIsGenuine(cfg, t);
      NewIsAlone(cfg, t);
    } else {
      DisplacedIsSound(cfg, t, e.io.irp.value);
    }
  }

  lemma {:induction false} LastTouchTouches(cfg: Config, t: seq<Event>, irp: Irp)
    ensures LastTouch(cfg, t, irp).Some? ==> t[LastTouch(cfg, t, irp).value].io.irp == Some(irp)
    decreases |t|
  {
    if t != [] {
      LastTouchTouches(cfg, Prefix(t), irp);
    }
  }

  lemma {:induction false} RunSound(cfg: Config, t: seq<Event>)
    ensures forall r :: r in FileRecords(Run(cfg, t).sink.log) ==> SoundSoFar(cfg, t, r)
    decreases |t|
  {
    if t != [] {
      var u, e := Prefix(t), Last(t);
      RunSound(cfg, u);
      StepIrps(cfg, Run(cfg, u), e);
      forall r | r in FileRecords(Run(cfg, t).sink.log)
        ensures SoundSoFar(cfg, t, r)
      {
        if r in FileRecords(Run(cfg, u).sink.log) {
          SoundLater(cfg, t, r);
        } else {
          WritesSound(cfg, t, r);
        }
      }
    }
  }

  /** Every file record of a finished extraction is sound. */
  lemma RecordsAreSound(cfg: Config, t: seq<Event>, r: FileRecord)
    requires r in FileRecords(Extract(cfg, t).sink.log)
    ensures Sound(cfg, t, r)
  {
    var s := Run(cfg, t);
    var keys := cfg.walkOrder(s.irps.pending.Keys);
    var rs := Listed(s.irps.pending, keys);
    WriteAllRecords(cfg, s.modules, s.sink, rs);
    RunSound(cfg, t);
    if r !in FileRecords(s.sink.log) {
      EtwStacks.ListedIn(s.irps.pending, keys);
      var irp :| irp in s.irps.pending && s.irps.pending[irp] == r;
      TableIsLastTouch(cfg, t, irp);
      LastIsAlone(cfg, t, irp);
    }
  }
}
