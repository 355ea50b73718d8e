/**
 * More laws of the session protocol: a session answers its calls in the order they were made, a call can be
 * made exactly when the borrow allows it, an open succeeds exactly when no session is active, and every
 * answer comes from one native call and carries its outcome.
 */
module IdaOrder {
  import opened Options
  import opened Totals
  import opened IdaSession
  import opened IdaClient

  // ---------- answers in order ----------

  predicate QueueSorted(k: Worker) {
    forall p, q :: 0 <= p < q < |k.queue| ==> k.queue[p].id < k.queue[q].id
  }

  predicate SameSession(asked: seq<Asked>, x: nat, y: nat) {
    x < |asked| && y < |asked| && asked[x].session == asked[y].session
  }

  /** Replies on one session have rising numbers. */
  ghost predicate RepliesSorted(w: World) {
    forall m, n :: 0 <= m < n < |w.system.replies| ==>
      (SameSession(w.asked, w.system.replies[m].0, w.system.replies[n].0) ==>
         w.system.replies[m].0 < w.system.replies[n].0)
  }

  /** Whatever waits in the queue of a worker was asked after everything its session has answered. */
  ghost predicate AnsweredFirst(w: World, i: nat)
    requires i < |w.system.workers|
  {
    forall n, q :: 0 <= n < |w.system.replies| && 0 <= q < |w.system.workers[i].queue| ==>
      (SameSession(w.asked, w.system.replies[n].0, w.system.workers[i].queue[q].id) ==>
         w.system.replies[n].0 < w.system.workers[i].queue[q].id)
  }

  ghost predicate InOrder(w: World) {
    && RepliesSorted(w)
    && (forall i :: 0 <= i < |w.system.workers| ==> QueueSorted(w.system.workers[i]) && AnsweredFirst(w, i))
  }

  lemma ServeKeepsSorted(w: World, i: nat, ok: bool)
    requires WorldOk(w) && InOrder(w) && Allowed(w, Work(Serve(i, ok)))
    ensures RepliesSorted(After(w, Work(Serve(i, ok))))
  {
    assert WorkerOk(w.system.owners, i, w.system.workers[i]);
    assert AnsweredFirst(w, i);
  }

  lemma ServeKeepsOwn(w: World, i: nat, ok: bool)
    requires WorldOk(w) && InOrder(w) && Allowed(w, Work(Serve(i, ok)))
    ensures var w' := After(w, Work(Serve(i, ok))); QueueSorted(w'.system.workers[i]) && AnsweredFirst(w', i)
  {
    var k, k' := w.system.workers[i], After(w, Work(Serve(i, ok))).system.workers[i];
    assert WorkerOk(w.system.owners, i, k);
    assert QueueSorted(k) && AnsweredFirst(w, i);
    assert forall q :: 0 <= q < |k'.queue| ==> k'.queue[q] == k.queue[q + 1];
  }

  lemma ServeKeepsOther(w: World, i: nat, ok: bool, j: nat)
    requires WorldOk(w) && InOrder(w) && Allowed(w, Work(Serve(i, ok))) && j < |w.system.workers| && j != i
    ensures var w' := After(w, Work(Serve(i, ok))); QueueSorted(w'.system.workers[j]) && AnsweredFirst(w', j)
  {
    assert WorkerOk(w.system.owners, i, w.system.workers[i]);
    assert QueueSorted(w.system.workers[j]) && AnsweredFirst(w, j);
    OtherQueue(w, i, j);
  }

  lemma ServeInOrder(w: World, i: nat, ok: bool)
    requires WorldOk(w) && InOrder(w) && Allowed(w, Work(Serve(i, ok)))
    ensures InOrder(After(w, Work(Serve(i, ok))))
  {
    var w' := After(w, Work(Serve(i, ok)));
    ServeKeepsSorted(w, i, ok);
    forall j | 0 <= j < |w'.system.workers|
      ensures QueueSorted(w'.system.workers[j]) && AnsweredFirst(w', j)
    {
      if j == i {
        ServeKeepsOwn(w, i, ok);
      } else {
        ServeKeepsOther(w, i, ok, j);
      }
    }
  }

  /** The head of one queue belongs to another session than anything in another queue. */
  lemma OtherQueue(w: World, i: nat, j: nat)
    requires WorldOk(w) && i < |w.clients| && j < |w.clients| && i != j && w.system.workers[i].queue != []
    ensures forall q :: 0 <= q < |w.system.workers[j].queue| ==>
              !SameSession(w.asked, w.system.workers[i].queue[0].id, w.system.workers[j].queue[q].id)
  {
    assert ClientOk(w.asked, w.system.owners, i, w.clients[i], w.system.workers[i]);
    assert ClientOk(w.asked, w.system.owners, j, w.clients[j], w.system.workers[j]);
    assert Waits(w.asked, i, w.clients[i], w.system.workers[i].queue[0]);
    forall q | 0 <= q < |w.system.workers[j].queue|
      ensures !SameSession(w.asked, w.system.workers[i].queue[0].id, w.system.workers[j].queue[q].id)
    {
      assert Waits(w.asked, j, w.clients[j], w.system.workers[j].queue[q]);
    }
  }

  lemma KnownIds(w: World)
    requires WorldOk(w)
    ensures forall n :: 0 <= n < |w.system.replies| ==> w.system.replies[n].0 < |w.asked|
    ensures forall i, q :: 0 <= i < |w.clients| && 0 <= q < |w.system.workers[i].queue| ==>
              w.system.workers[i].queue[q].id < |w.asked|
  {
    forall i, q | 0 <= i < |w.clients| && 0 <= q < |w.system.workers[i].queue|
      ensures w.system.workers[i].queue[q].id < |w.asked|
    {
      assert ClientOk(w.asked, w.system.owners, i, w.clients[i], w.system.workers[i]);
      assert Waits(w.asked, i, w.clients[i], w.system.workers[i].queue[q]);
    }
  }

  /** Among calls made before, one more call changes nothing. */
  lemma SameAsBefore(asked: seq<Asked>, a: Asked, x: nat, y: nat)
    requires x < |asked| && y < |asked|
    ensures SameSession(asked + [a], x, y) == SameSession(asked, x, y)
  {
  }

  lemma CallKeepsSorted(w: World, i: nat, kind: Kind)
    requires WorldOk(w) && InOrder(w) && Allowed(w, Call(i, kind))
    ensures RepliesSorted(After(w, Call(i, kind)))
  {
    var w' := After(w, Call(i, kind));
    KnownIds(w);
    forall m, n | 0 <= m < n < |w'.system.replies| && SameSession(w'.asked, w'.system.replies[m].0, w'.system.replies[n].0)
      ensures w'.system.replies[m].0 < w'.system.replies[n].0
    {
      if n < |w.system.replies| {
        SameAsBefore(w.asked, Asked(i, kind), w.system.replies[m].0, w.system.replies[n].0);
      }
    }
  }

  /** What waits in a queue was asked of that session. */
  lemma WaitsAtHome(w: World, j: nat)
    requires WorldOk(w) && j < |w.clients|
    ensures forall q :: 0 <= q < |w.system.workers[j].queue| ==>
              var id := w.system.workers[j].queue[q].id; id < |w.asked| && w.asked[id].session == j
  {
    assert ClientOk(w.asked, w.system.owners, j, w.clients[j], w.system.workers[j]);
    forall q | 0 <= q < |w.system.workers[j].queue|
      ensures var id := w.system.workers[j].queue[q].id; id < |w.asked| && w.asked[id].session == j
    {
      assert Waits(w.asked, j, w.clients[j], w.system.workers[j].queue[q]);
    }
  }

  lemma CallKeepsQueue(w: World, i: nat, kind: Kind, j: nat)
    requires WorldOk(w) && InOrder(w) && Allowed(w, Call(i, kind)) && j < |w.system.workers|
    ensures var w' := After(w, Call(i, kind)); QueueSorted(w'.system.workers[j]) && AnsweredFirst(w', j)
  {
    var w' := After(w, Call(i, kind));
    KnownIds(w);
    WaitsAtHome(w, j);
    assert QueueSorted(w.system.workers[j]) && AnsweredFirst(w, j);
    assert WorkerOk(w.system.owners, j, w.system.workers[j]);
  }

  lemma CallInOrder(w: World, i: nat, kind: Kind)
    requires WorldOk(w) && InOrder(w) && Allowed(w, Call(i, kind))
    ensures InOrder(After(w, Call(i, kind)))
  {
    CallKeepsSorted(w, i, kind);
    forall j | 0 <= j < |w.system.workers|
      ensures QueueSorted(After(w, Call(i, kind)).system.workers[j]) && AnsweredFirst(After(w, Call(i, kind)), j)
    {
      CallKeepsQueue(w, i, kind, j);
    }
  }

  /** Any other step of a worker answers nothing. */
  lemma QuietInOrder(w: World, a: Action)
    requires WorldOk(w) && InOrder(w) && Allowed(w, Work(a)) && !a.Serve?
    ensures InOrder(After(w, Work(a)))
  {
    var w' := After(w, Work(a));
    if !a.Spawn? {
      assert ClientOk(w.asked, w.system.owners, a.worker, w.clients[a.worker], w.system.workers[a.worker]);
      assert WorkerOk(w.system.owners, a.worker, w.system.workers[a.worker]);
    }
    assert w'.system.replies == w.system.replies;
    forall j | 0 <= j < |w'.system.workers|
      ensures QueueSorted(w'.system.workers[j]) && AnsweredFirst(w', j)
    {
      if j < |w.system.workers| {
        assert QueueSorted(w.system.workers[j]) && AnsweredFirst(w, j);
        assert w'.system.workers[j].queue == w.system.workers[j].queue;
      }
    }
  }

  lemma {:induction false} RunInOrder(deeds: seq<Deed>)
    ensures InOrder(RunAll(deeds))
    decreases |deeds|
  {
    if deeds != [] {
      var w, d := RunAll(deeds[..|deeds| - 1]), deeds[|deeds| - 1];
      RunInOrder(deeds[..|deeds| - 1]);
      DoInOrder(w, d);
    }
  }

  lemma DoInOrder(w: World, d: Deed)
    requires WorldOk(w) && InOrder(w)
    ensures InOrder(Do(w, d))
  {
    if Allowed(w, d) {
      match d
      case Work(a) =>
        if a.Serve? {
          ServeInOrder(w, a.worker, a.ok);
        } else {
          QuietInOrder(w, a);
        }
      case Call(i, kind) => CallInOrder(w, i, kind);
      case _ => SameSystem(w, After(w, d));
    }
  }

  lemma SameSystem(w: World, w': World)
    requires InOrder(w) && w'.system == w.system && w'.asked == w.asked
    ensures InOrder(w')
  {
    forall i | 0 <= i < |w.system.workers|
      ensures QueueSorted(w'.system.workers[i]) && AnsweredFirst(w', i)
    {
      assert QueueSorted(w.system.workers[i]) && AnsweredFirst(w, i);
    }
  }

  /** Over every run a session answers its calls in the order in which they were made. */
  lemma AnswersInOrder(deeds: seq<Deed>, m: nat, n: nat)
    requires var w := RunAll(deeds);
             m < n < |w.system.replies| && SameSession(w.asked, w.system.replies[m].0, w.system.replies[n].0)
    ensures RunAll(deeds).system.replies[m].0 < RunAll(deeds).system.replies[n].0
  {
    RunInOrder(deeds);
  }

  // ---------- what is possible ----------

  /**
   * A call can be made on a session exactly when its open succeeded, the session was not dropped, no close
   * is under way and, for a close, no other call is.
   */
  lemma CallIsPossible(deeds: seq<Deed>, i: nat, kind: Kind)
    ensures var w := RunAll(deeds);
            Allowed(w, Call(i, kind)) <==>
            && i < |w.clients| && i in w.system.owners && !w.clients[i].dropped && w.clients[i].closing.None?
            && (kind.Close? ==> w.clients[i].calls == {})
  {
    var w := RunAll(deeds);
    if i < |w.clients| {
      assert ClientOk(w.asked, w.system.owners, i, w.clients[i], w.system.workers[i]);
    }
  }

  /** A new worker can always be started, and one that is not finished can go on unless it waits for a command. */
  lemma WorkersGoOn(deeds: seq<Deed>, i: nat, ok: bool)
    ensures var w := RunAll(deeds);
            && Allowed(w, Work(Spawn))
            && (i < |w.clients| ==>
                  match w.system.workers[i].phase
                  case Starting => Allowed(w, Work(OpenNative(i, ok)))
                  case Serving => w.system.workers[i].queue != [] ==> Allowed(w, Work(Serve(i, ok)))
                  case Leaving => Allowed(w, Work(Exit(i)))
                  case Finished => true)
  {
    var w := RunAll(deeds);
    if i < |w.clients| {
      assert ClientOk(w.asked, w.system.owners, i, w.clients[i], w.system.workers[i]);
      assert WorkerOk(w.system.owners, i, w.system.workers[i]);
    }
  }

  /** An open hands out a handle exactly when no session is active and the adapter opens the database. */
  lemma OpenSucceedsIff(s: System, i: nat, ok: bool)
    requires Invariant(s) && Enabled(s, OpenNative(i, ok))
    ensures var s' := Step(s, OpenNative(i, ok));
            if ok && !s.active
            then s'.active && s'.owners == s.owners + [i] && s'.calls == s.calls + [Opened(|s.owners|, i)]
                 && s'.workers[i].phase.Serving? && s'.workers[i].handle == Some(|s.owners|)
            else s'.active == s.active && s'.owners == s.owners && s'.calls == s.calls
                 && s'.workers[i].phase.Finished?
  {
  }

  // ---------- answers and native calls ----------

  function IsUse(): NativeCall -> nat {
    (c: NativeCall) => if c.Used? then 1 else 0
  }

  function IsAnswer(ok: bool): ((nat, Reply)) -> nat {
    (r: (nat, Reply)) => if r.1 == Answer(ok) then 1 else 0
  }

  /** How often commands other than a close were served with this outcome. */
  ghost function ServedWith(s: System, acts: seq<Action>, ok: bool): nat
    requires Invariant(s)
    decreases |acts|
  {
    if acts == [] then 0
    else
      StepKeeps(s, acts[0]);
      (if Serves(s, acts[0]) && acts[0].ok == ok then 1 else 0) + ServedWith(Step(s, acts[0]), acts[1..], ok)
  }

  predicate Serves(s: System, a: Action) {
    Enabled(s, a) && a.Serve? && !s.workers[a.worker].queue[0].kind.Close?
  }

  lemma {:induction false} NoAnswers(queue: seq<Command>, ok: bool)
    ensures Sum(StoppedReplies(queue), IsAnswer(ok)) == 0
    decreases |queue|
  {
    if queue != [] {
      var n := |queue| - 1;
      NoAnswers(queue[..n], ok);
      assert StoppedReplies(queue)[..n] == StoppedReplies(queue[..n]);
    }
  }

  lemma StepAnswers(s: System, a: Action, ok: bool)
    requires Invariant(s)
    ensures Sum(Step(s, a).replies, IsAnswer(ok)) ==
            Sum(s.replies, IsAnswer(ok)) + if Serves(s, a) && a.ok == ok then 1 else 0
  {
    if Enabled(s, a) {
      match a
      case Send(i, kind) =>
        var r := (s.issued, if kind.Close? then Closed(true) else Stopped);
        SumAppend(s.replies, [r], IsAnswer(ok));
        SumOne(r, IsAnswer(ok));
      case Serve(i, outcome) =>
        assert WorkerOk(s.owners, i, s.workers[i]);
        var c := s.workers[i].queue[0];
        var r := (c.id, if c.kind.Close? then Closed(outcome) else Answer(outcome));
        SumAppend(s.replies, [r], IsAnswer(ok));
        SumOne(r, IsAnswer(ok));
      case Exit(i) =>
        SumAppend(s.replies, StoppedReplies(s.workers[i].queue), IsAnswer(ok));
        NoAnswers(s.workers[i].queue, ok);
      case _ =>
    }
  }

  lemma StepUses(s: System, a: Action)
    requires Invariant(s)
    ensures Sum(Step(s, a).calls, IsUse()) == Sum(s.calls, IsUse()) + if Serves(s, a) then 1 else 0
  {
    if Enabled(s, a) {
      if !a.Spawn? {
        assert WorkerOk(s.owners, a.worker, s.workers[a.worker]);
      }
      var c := CallOf(s, a);
      if c.Some? {
        assert Step(s, a).calls == s.calls + [c.value];
        SumAppend(s.calls, [c.value], IsUse());
        SumOne(c.value, IsUse());
      }
    }
  }

  /**
   * Over every interleaving the answers with each outcome are the commands served with that outcome, and
   * the uses of the adapter are all of them: every answer comes from one native call.
   */
  lemma {:induction false} AnswersComeFromCalls(s: System, acts: seq<Action>)
    requires Invariant(s)
    ensures var s' := RunFrom(s, acts);
            && (forall ok :: Sum(s'.replies, IsAnswer(ok)) == Sum(s.replies, IsAnswer(ok)) + ServedWith(s, acts, ok))
            && Sum(s'.calls, IsUse()) == Sum(s.calls, IsUse()) + ServedWith(s, acts, true) + ServedWith(s, acts, false)
    decreases |acts|
  {
    if acts != [] {
      StepKeeps(s, acts[0]);
      AnswersComeFromCalls(Step(s, acts[0]), acts[1..]);
      StepUses(s, acts[0]);
      StepAnswers(s, acts[0], true);
      StepAnswers(s, acts[0], false);
    }
  }

  /** A close reports the outcome of the native close that it makes. */
  lemma CloseReportsOutcome(s: System, i: nat, ok: bool)
    requires Invariant(s) && Enabled(s, Serve(i, ok)) && s.workers[i].queue[0].kind.Close?
    ensures var s' := Step(s, Serve(i, ok));
            && s'.replies == s.replies + [(s.workers[i].queue[0].id, Closed(ok))]
            && |s'.calls| == |s.calls| + 1 && s'.calls[|s.calls|].Shut?
            && s.workers[i].handle == Some(s'.calls[|s.calls|].handle)
            && !s'.active
  {
    assert WorkerOk(s.owners, i, s.workers[i]);
  }
}
