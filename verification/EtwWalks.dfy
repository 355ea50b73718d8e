/**
 * How stack walks wait and join, told without the operations that do it: the order of the addresses in a
 * stack, which waiting walk an event takes, which parked record a walk joins, what each event does to the
 * walks cached for a timestamp, and that timestamps leave the bounded queue first in, first out.
 */
module EtwWalks {
  import opened Options
  import opened EtwEvents
  import opened EtwSpec
  import opened EtwTree
  import opened EtwInvariants
  import opened EtwIrps
  import opened EtwStacks
  import opened EtwPaths
  import opened EtwAccounts

  // ---------- the order of addresses ----------

  predicate FirstAt(source: seq<Address>, a: Address, n: nat) {
    n < |source| && source[n] == a && forall m :: 0 <= m < n ==> source[m] != a
  }

  /** The stack after the first address of the source. */
  function AfterHead(target: seq<Address>, source: seq<Address>): seq<Address>
    requires source != []
  {
    if source[0] != 0 && source[0] !in target then target + [source[0]] else target
  }

  lemma HeadComesFirst(target: seq<Address>, source: seq<Address>, k: nat)
    requires source != [] && |target| <= k < |AppendStack(target, source)|
    ensures var isHead := AppendStack(target, source)[k] == source[0];
            if isHead then k == |target| else |AfterHead(target, source)| <= k
  {
    var r, next := AppendStack(target, source), AfterHead(target, source);
    AppendStackIsExact(target, source);
    AppendStackIsExact(next, source[1..]);
    assert r == AppendStack(next, source[1..]);
    assert r[k] in r && forall m :: 0 <= m < |target| ==> r[m] == target[m] && r[m] != r[k];
    if |next| > |target| {
      assert r[|target|] == next[|target|] == source[0];
    }
  }

  /** The addresses that a source adds come in the order in which they first occur in it. */
  lemma {:induction false} AppendStackInOrder(target: seq<Address>, source: seq<Address>, i: nat, j: nat, p: nat, q: nat)
    requires |target| <= i < j < |AppendStack(target, source)|
    requires FirstAt(source, AppendStack(target, source)[i], p) && FirstAt(source, AppendStack(target, source)[j], q)
    ensures p < q
    decreases |source|
  {
    HeadComesFirst(target, source, i);
    HeadComesFirst(target, source, j);
    if p > 0 {
      AppendStackInOrder(AfterHead(target, source), source[1..], i, j, p - 1, q - 1);
    }
  }

  function AllAddresses(walks: seq<StackWalk>): seq<Address> {
    if walks == [] then [] else AllAddresses(Prefix(walks)) + Last(walks).addresses
  }

  lemma {:induction false} AppendStackTwice(target: seq<Address>, a: seq<Address>, b: seq<Address>)
    ensures AppendStack(AppendStack(target, a), b) == AppendStack(target, a + b)
    decreases |a|
  {
    if a == [] {
      assert a + b == b;
    } else {
      var next := if a[0] != 0 && a[0] !in target then target + [a[0]] else target;
      AppendStackTwice(next, a[1..], b);
      assert (a + b)[1..] == a[1..] + b;
    }
  }

  /** A stack with several walks is as if their addresses had come in one walk, the first walk first. */
  lemma {:induction false} WalksConcatenate(own: seq<Address>, walks: seq<StackWalk>)
    ensures AppendWalks(own, walks) == AppendStack(own, AllAddresses(walks))
    decreases |walks|
  {
    if walks != [] {
      WalksConcatenate(own, Prefix(walks));
      AppendStackTwice(own, AllAddresses(Prefix(walks)), Last(walks).addresses);
    }
  }

  // ---------- which waiting walk an event takes ----------

  predicate IsExact(w: StackWalk, pid: Pid, tid: nat) {
    w.pid == pid && w.tid == tid
  }

  /** The first walk of the thread if there is one, else the first walk of the process. */
  ghost predicate IsBest(ws: seq<StackWalk>, pid: Pid, tid: nat, k: nat) {
    && k < |ws|
    && ws[k].pid == pid
    && if exists m :: 0 <= m < |ws| && IsExact(ws[m], pid, tid)
       then ws[k].tid == tid && forall m :: 0 <= m < k ==> !IsExact(ws[m], pid, tid)
       else forall m :: 0 <= m < k ==> ws[m].pid != pid
  }

  /** From the walks that wait the best one is taken and the others stay in order; none if none is of the process. */
  ghost predicate TakesBest(ws: seq<StackWalk>, pid: Pid, tid: nat, taken: seq<StackWalk>, left: seq<StackWalk>) {
    || (taken == [] && left == ws && forall m :: 0 <= m < |ws| ==> ws[m].pid != pid)
    || (exists k: nat :: IsBest(ws, pid, tid, k) && taken == [ws[k]] && left == ws[..k] + ws[k + 1..])
  }

  lemma TakeIsBest(stacks: Stacks, time: int, pid: Pid, tid: nat)
    ensures TakesBest(CachedAt(stacks, time), pid, tid, Taken(stacks, time, pid, tid),
                      CachedAt(AfterTake(stacks, time, pid, tid), time))
    ensures forall other :: other != time ==> CachedAt(AfterTake(stacks, time, pid, tid), other) == CachedAt(stacks, other)
  {
    var ws := CachedAt(stacks, time);
    var k := SelectWalk(ws, pid, tid);
    var exact := FirstWalk(ws, pid, Some(tid));
    assert forall m :: 0 <= m < |ws| ==> WalkFits(ws[m], pid, Some(tid)) == IsExact(ws[m], pid, tid);
    if k < |ws| {
      assert exact < |ws| ==> IsExact(ws[exact], pid, tid);
      assert IsBest(ws, pid, tid, k);
      if |ws| == 1 {
        assert ws[..k] + ws[k + 1..] == [];
      }
    }
  }

  // ---------- which parked record a walk joins ----------

  predicate Suits(r: FileRecord, w: StackWalk) {
    r.origin.time == w.time && r.pid == w.pid
  }

  predicate SuitsExactly(r: FileRecord, w: StackWalk) {
    Suits(r, w) && r.origin.tid == w.tid
  }

  /** In iteration order: the first record of the walk's thread, or else the last one of its process. */
  ghost predicate IsTarget(p: map<Irp, FileRecord>, keys: seq<Irp>, w: StackWalk, n: nat)
    requires forall k :: k in keys ==> k in p
  {
    && n < |keys|
    && Suits(p[keys[n]], w)
    && if exists m :: 0 <= m < |keys| && SuitsExactly(p[keys[m]], w)
       then SuitsExactly(p[keys[n]], w) && forall m :: 0 <= m < n ==> !SuitsExactly(p[keys[m]], w)
       else forall m :: n < m < |keys| ==> !Suits(p[keys[m]], w)
  }

  lemma {:induction false} AttachFinds(p: map<Irp, FileRecord>, keys: seq<Irp>, fallback: Option<Irp>, w: StackWalk)
    requires forall k :: k in keys ==> k in p
    ensures var target := AttachTarget(p, keys, fallback, w);
            || (target == fallback && forall m :: 0 <= m < |keys| ==> !Suits(p[keys[m]], w))
            || (exists n: nat :: IsTarget(p, keys, w, n) && target == Some(keys[n]))
    decreases |keys|
  {
    if keys != [] {
      var rest := keys[1..];
      assert keys == [keys[0]] + rest;
      if SuitsExactly(p[keys[0]], w) {
        assert IsTarget(p, keys, w, 0);
      } else {
        var next := if Suits(p[keys[0]], w) then Some(keys[0]) else fallback;
        var target := AttachTarget(p, rest, next, w);
        assert AttachTarget(p, keys, fallback, w) == target;
        AttachFinds(p, rest, next, w);
        if n: nat :| IsTarget(p, rest, w, n) && target == Some(rest[n]) {
          TargetShifts(p, keys, w, n);
        } else if Suits(p[keys[0]], w) {
          assert forall m :: 0 < m < |keys| ==> keys[m] == rest[m - 1];
          assert IsTarget(p, keys, w, 0);
        }
      }
    }
  }

  lemma TargetShifts(p: map<Irp, FileRecord>, keys: seq<Irp>, w: StackWalk, n: nat)
    requires keys != [] && (forall k :: k in keys ==> k in p) && !SuitsExactly(p[keys[0]], w)
    requires IsTarget(p, keys[1..], w, n)
    ensures IsTarget(p, keys, w, n + 1)
  {
    var rest := keys[1..];
    assert forall m :: 0 < m < |keys| ==> keys[m] == rest[m - 1];
    if m :| 0 <= m < |rest| && SuitsExactly(p[rest[m]], w) {
      assert SuitsExactly(p[keys[m + 1]], w);
    }
  }

  /** A walk joins its target, and no record if none of its time and process is parked. */
  lemma TargetIsBest(cfg: Config, p: map<Irp, FileRecord>, w: StackWalk)
    requires cfg.Valid()
    ensures var keys, target := cfg.walkOrder(p.Keys), Target(cfg, p, w);
            && (forall k :: k in keys ==> k in p)
            && (|| (target == None && forall irp :: irp in p ==> !Suits(p[irp], w))
                || (exists n: nat :: IsTarget(p, keys, w, n) && target == Some(keys[n])))
  {
    var keys := cfg.walkOrder(p.Keys);
    assert Enumerates(keys, p.Keys);
    AttachFinds(p, keys, None, w);
    if Target(cfg, p, w).None? {
      forall irp | irp in p
        ensures !Suits(p[irp], w)
      {
        assert irp in keys;
      }
    }
  }

  /** What a walk does to the parked records: its target gains it, the others stay. */
  lemma WalkJoins(cfg: Config, s: State, e: Event)
    requires cfg.Valid() && e.walk.Some?
    ensures var p, p', w, keys := s.irps.pending, Step(cfg, s, e).irps.pending, e.walk.value,
                                  cfg.walkOrder(s.irps.pending.Keys);
            && (forall k :: k in keys ==> k in p)
            && p'.Keys == p.Keys
            && (|| (p' == p && forall irp :: irp in p ==> !Suits(p[irp], w))
                || (exists n: nat :: IsTarget(p, keys, w, n)
                                && p'[keys[n]] == p[keys[n]].(stack := AppendStack(p[keys[n]].stack, w.addresses),
                                                              walks := p[keys[n]].walks + [w])
                                && forall irp :: irp in p && irp != keys[n] ==> p'[irp] == p[irp]))
  {
    TargetIsBest(cfg, s.irps.pending, e.walk.value);
  }

  // ---------- what an event does to the cache ----------

  /** Some parked record of the walk's time and process waits for it. */
  ghost predicate HasTarget(p: map<Irp, FileRecord>, w: StackWalk) {
    exists irp :: irp in p && Suits(p[irp], w)
  }

  /** The walks cached for a time after one more walk arrived that no record waited for. */
  function SlotAfterWalk(cfg: Config, s: State, w: StackWalk, time: int): seq<StackWalk> {
    var slot := CachedAt(s.cache.stacks, time);
    if cfg.root.Some? && w.pid !in s.tree then slot
    else if time == w.time then (if |slot| < 32 then slot + [w] else slot)
    else if CachedAt(s.cache.stacks, w.time) == [] && |s.cache.order| >= 4096 && time == s.cache.order[0] then []
    else slot
  }

  lemma WalkSlots(cfg: Config, s: State, w: StackWalk, time: int)
    requires Invariant(cfg, s) && Target(cfg, s.irps.pending, w).None?
    ensures CachedAt(StepWalk(cfg, s, w).cache.stacks, time) == SlotAfterWalk(cfg, s, w, time)
  {
  }

  /** A walk that finds a parked record leaves the cache alone; any other waits, is refused or dropped. */
  lemma WalkCached(cfg: Config, s: State, e: Event, time: int)
    requires cfg.Valid() && Invariant(cfg, s) && e.walk.Some?
    ensures CachedAt(Step(cfg, s, e).cache.stacks, time) ==
            if HasTarget(s.irps.pending, e.walk.value) then CachedAt(s.cache.stacks, time)
            else SlotAfterWalk(cfg, s, e.walk.value, time)
  {
    var w := e.walk.value;
    TargetIsBest(cfg, s.irps.pending, w);
    if Target(cfg, s.irps.pending, w).None? {
      WalkSlots(cfg, s, w, time);
    }
  }

  // ---------- what takes a waiting walk ----------

  /** An accepted file event, or a reported event whose file opens. */
  predicate Takes(cfg: Config, s: State, e: Event) {
    || AcceptedBy(cfg, s.tree, e)
    || (IsOther(cfg, e) && Allows(cfg, s.tree, e.category.value, e) && cfg.opens(s.sink.attempts))
  }

  lemma FileCache(cfg: Config, s: State, e: Event)
    requires Invariant(cfg, s) && IsFileIo(cfg, e)
    ensures StepFile(cfg, s, e).cache ==
            if AcceptedBy(cfg, s.tree, e)
            then s.cache.(stacks := AfterTake(s.cache.stacks, e.time, Owner(e), e.tid)) else s.cache
  {
    if !IsOpEnd(cfg, e) && !AcceptedBy(cfg, s.tree, e) {
      RejectedTakesNothing(cfg, s, e);
    }
  }

  lemma StepCache(cfg: Config, s: State, e: Event)
    requires Invariant(cfg, s) && e.walk.None?
    ensures Step(cfg, s, e).cache ==
            if Takes(cfg, s, e)
            then s.cache.(stacks := AfterTake(s.cache.stacks, e.time, Owner(e), e.tid)) else s.cache
  {
    if IsFileIo(cfg, e) {
      FileCache(cfg, s, e);
    }
  }

  /** Any event but a walk changes the cache only by taking a walk of its own time. */
  lemma TakenFromCache(cfg: Config, t: seq<Event>, time: int)
    requires t != [] && Last(t).walk.None?
    ensures var s, s', e := Run(cfg, Prefix(t)), Run(cfg, t), Last(t);
            && s'.cache.order == s.cache.order
            && (time != e.time || !Takes(cfg, s, e) ==> CachedAt(s'.cache.stacks, time) == CachedAt(s.cache.stacks, time))
  {
    var s, e := Run(cfg, Prefix(t)), Last(t);
    Reachable(cfg, Prefix(t));
    StepCache(cfg, s, e);
    TakeIsBest(s.cache.stacks, e.time, Owner(e), e.tid);
  }

  /** The record or line got the best walk that waited for the last event, after the event's own addresses. */
  ghost predicate Carries(cfg: Config, t: seq<Event>, stack: seq<Address>, walks: seq<StackWalk>)
    requires t != []
  {
    var s, s', e := Run(cfg, Prefix(t)), Run(cfg, t), Last(t);
    && TakesBest(CachedAt(s.cache.stacks, e.time), if e.pid.Some? then e.pid.value else e.headerPid, e.tid, walks,
                 CachedAt(s'.cache.stacks, e.time))
    && stack == AppendStack(e.addresses, AllAddresses(walks))
  }

  lemma CarriesTaken(cfg: Config, t: seq<Event>)
    requires t != [] && Last(t).walk.None? && Takes(cfg, Run(cfg, Prefix(t)), Last(t))
    ensures var s, e := Run(cfg, Prefix(t)), Last(t);
            var walks := Taken(s.cache.stacks, e.time, Owner(e), e.tid);
            Carries(cfg, t, AppendWalks(e.addresses, walks), walks)
  {
    var s, e := Run(cfg, Prefix(t)), Last(t);
    Reachable(cfg, Prefix(t));
    StepCache(cfg, s, e);
    TakeIsBest(s.cache.stacks, e.time, Owner(e), e.tid);
    WalksConcatenate(e.addresses, Taken(s.cache.stacks, e.time, Owner(e), e.tid));
  }

  /** An accepted event is parked or written at once, with the walk that waited for it. */
  lemma AcceptedCarries(cfg: Config, t: seq<Event>)
    requires t != [] && AcceptedAt(cfg, t, |t| - 1)
    ensures var s', e := Run(cfg, t), Last(t);
            exists r: FileRecord ::
              && r.origin == e && Carries(cfg, t, r.stack, r.walks)
              && if e.io.irp.Some? && e.opcode != 66
                 then e.io.irp.value in s'.irps.pending && s'.irps.pending[e.io.irp.value] == r
                 else FileRecords(s'.sink.log) == FileRecords(Run(cfg, Prefix(t)).sink.log) + [r]
  {
    var s, e := Run(cfg, Prefix(t)), Last(t);
    assert t[..|t| - 1] == Prefix(t);
    RunTree(cfg, Prefix(t));
    StepIrps(cfg, s, e);
    CarriesTaken(cfg, t);
    AcceptedGoes(cfg, s, e);
    assert RecordFor(s, e).origin == e;
  }

  lemma AcceptedGoes(cfg: Config, s: State, e: Event)
    requires AcceptedBy(cfg, s.tree, e)
    ensures var io, r := IrpStepOf(cfg, s, e), RecordFor(s, e);
            if e.io.irp.Some? && e.opcode != 66
            then e.io.irp.value in io.table.pending && io.table.pending[e.io.irp.value] == r
            else io.writes == [r]
  {
  }

  /** A reported event whose file opens is written with the walk that waited for it. */
  lemma ReportedCarries(cfg: Config, t: seq<Event>)
    requires t != [] && ReportedAt(cfg, t, |t| - 1) && cfg.opens(|Run(cfg, Prefix(t)).sink.log|)
    ensures var k, k' := Run(cfg, Prefix(t)).sink, Run(cfg, t).sink;
            exists stack, walks, frames ::
              k'.log == k.log + [EventLine(Last(t), stack, walks, Some(frames))] && Carries(cfg, t, stack, walks)
  {
    var s, e := Run(cfg, Prefix(t)), Last(t);
    assert t[..|t| - 1] == Prefix(t) && t[..|t| - 1 + 1] == t;
    RunTree(cfg, Prefix(t));
    AllowedIsReported(cfg, t);
    RunOpens(cfg, Prefix(t));
    CarriesTaken(cfg, t);
    OtherWrites(cfg, StepImage(cfg, s, e.category.value, e), e.category.value, e);
  }

  lemma OtherWrites(cfg: Config, s: State, c: Category, e: Event)
    requires Allows(cfg, s.tree, c, e) && cfg.opens(s.sink.attempts)
    ensures var walks := Taken(s.cache.stacks, e.time, Owner(e), e.tid);
            var stack := AppendWalks(e.addresses, walks);
            exists frames :: StepOther(cfg, s, c, e).sink.log == s.sink.log + [EventLine(e, stack, walks, Some(frames))]
  {
  }

  // ---------- first in, first out ----------

  /** The last event is a walk that has to queue its timestamp: traced, not joined, and none of its time waits. */
  ghost predicate Queues(cfg: Config, t: seq<Event>)
    requires t != []
  {
    var s, e := Run(cfg, Prefix(t)), Last(t);
    && e.walk.Some?
    && (cfg.root.None? || e.walk.value.pid in s.tree)
    && !HasTarget(s.irps.pending, e.walk.value)
    && CachedAt(s.cache.stacks, e.walk.value.time) == []
  }

  /** All timestamps that were ever queued, in the order they came. */
  ghost function Queued(cfg: Config, t: seq<Event>): seq<int>
    decreases |t|
  {
    if t == [] then [] else Queued(cfg, Prefix(t)) + (if Queues(cfg, t) then [Last(t).walk.value.time] else [])
  }

  /** The last 4096 of a sequence. */
  function Newest(q: seq<int>): seq<int> {
    if |q| <= 4096 then q else q[|q| - 4096..]
  }

  lemma NewestSnoc(q: seq<int>, x: int)
    ensures Newest(q + [x]) ==
            if |Newest(q)| >= 4096 then Newest(q)[1..] + [x] else Newest(q) + [x]
  {
  }

  lemma WalkQueue(cfg: Config, s: State, w: StackWalk)
    requires Invariant(cfg, s) && Target(cfg, s.irps.pending, w).None?
    ensures var q := s.cache.order;
            StepWalk(cfg, s, w).cache.order ==
            if (cfg.root.Some? && w.pid !in s.tree) || CachedAt(s.cache.stacks, w.time) != [] then q
            else if |q| >= 4096 then q[1..] + [w.time] else q + [w.time]
  {
  }

  lemma StepQueue(cfg: Config, t: seq<Event>)
    requires cfg.Valid() && t != []
    ensures var q := Run(cfg, Prefix(t)).cache.order;
            Run(cfg, t).cache.order ==
            if !Queues(cfg, t) then q
            else if |q| >= 4096 then q[1..] + [Last(t).walk.value.time] else q + [Last(t).walk.value.time]
  {
    var s, e := Run(cfg, Prefix(t)), Last(t);
    Reachable(cfg, Prefix(t));
    if e.walk.None? {
      StepCache(cfg, s, e);
    } else {
      TargetIsBest(cfg, s.irps.pending, e.walk.value);
      if Target(cfg, s.irps.pending, e.walk.value).None? {
        WalkQueue(cfg, s, e.walk.value);
      }
    }
  }

  /** First in, first out: the queue always holds the 4096 timestamps queued last, so the earliest one is evicted. */
  lemma {:induction false} QueueIsFifo(cfg: Config, t: seq<Event>)
    requires cfg.Valid()
    ensures Run(cfg, t).cache.order == Newest(Queued(cfg, t))
    decreases |t|
  {
    if t != [] {
      QueueIsFifo(cfg, Prefix(t));
      StepQueue(cfg, t);
      if Queues(cfg, t) {
        NewestSnoc(Queued(cfg, Prefix(t)), Last(t).walk.value.time);
      }
    }
  }
}
