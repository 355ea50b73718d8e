/**
 * The module map agrees with the load and unload history, and stack frames agree with the module map:
 * an address is named exactly when a module loaded at that moment contains it.
 */
module EtwModules {
  import opened Options
  import opened EtwEvents
  import opened EtwSpec
  import opened EtwTree
  import opened Totals

  // ---------- one update ----------

  lemma {:induction false} WithoutMembers(ms: seq<Module>, base: Address, m: Module)
    ensures m in Without(ms, base) <==> m in ms && m.base != base
    decreases |ms|
  {
    if ms != [] {
      WithoutMembers(ms[..|ms| - 1], base, m);
      assert ms == ms[..|ms| - 1] + [ms[|ms| - 1]];
    }
  }

  predicate UniqueBases(ms: seq<Module>) {
    forall i, j :: 0 <= i < j < |ms| ==> ms[i].base != ms[j].base
  }

  lemma {:induction false} WithoutUnique(ms: seq<Module>, base: Address)
    requires UniqueBases(ms)
    ensures UniqueBases(Without(ms, base))
    decreases |ms|
  {
    if ms != [] {
      var rest, m := ms[..|ms| - 1], ms[|ms| - 1];
      WithoutUnique(rest, base);
      var kept := Without(rest, base);
      forall i | 0 <= i < |kept|
        ensures kept[i].base != m.base
      {
        WithoutMembers(rest, base, kept[i]);
        assert kept[i] in rest;
      }
    }
  }

  lemma {:induction false} WithoutAbsent(ms: seq<Module>, base: Address)
    requires forall m :: m in ms ==> m.base != base
    ensures Without(ms, base) == ms
    decreases |ms|
  {
    if ms != [] {
      WithoutAbsent(ms[..|ms| - 1], base);
      assert ms == ms[..|ms| - 1] + [ms[|ms| - 1]];
    }
  }

  lemma WithoutTwice(ms: seq<Module>, base: Address)
    ensures Without(Without(ms, base), base) == Without(ms, base)
  {
    forall m
      ensures m in Without(ms, base) ==> m.base != base
    {
      WithoutMembers(ms, base, m);
    }
    WithoutAbsent(Without(ms, base), base);
  }

  /** The callback updates the map twice for an image event that is also written; the second time is a no-op. */
  lemma SecondUpdateIsNoOp(modules: Modules, e: Event)
    ensures UpdateModules(UpdateModules(modules, e), e) == UpdateModules(modules, e)
  {
    if e.image.base.Some? {
      var base: Address := e.image.base.value;
      var kept := Without(ModulesOf(modules, Owner(e)), base);
      WithoutTwice(ModulesOf(modules, Owner(e)), base);
      if !e.image.unload {
        WithoutLast(kept, ImageModule(e));
      }
    }
  }

  lemma WithoutLast(ms: seq<Module>, m: Module)
    ensures Without(ms + [m], m.base) == Without(ms, m.base)
  {
    assert (ms + [m])[..|ms + [m]| - 1] == ms;
  }

  // ---------- history ----------

  /** The image event is let through by the tree filter; no preset is needed for the module map. */
  predicate IsImageEvent(cfg: Config, tree: set<Pid>, e: Event) {
    e.walk.None? && e.category == Some(Image) && Allows(cfg, tree, Image, e)
  }

  /** Event i, in terms of its fields, is an image event of a followed process about this process and base. */
  predicate Concerns(cfg: Config, t: seq<Event>, i: nat, pid: Pid, base: Address)
    requires i < |t|
  {
    && t[i].walk.None? && t[i].category == Some(Image)
    && (cfg.root.None? || t[i].headerPid in Tree(cfg, t[..i]))
    && (if t[i].pid.Some? then t[i].pid.value else t[i].headerPid) == pid
    && t[i].image.base == Some(base)
  }

  /** Event i loads the module: base, size and name are those of the image. */
  predicate Loads(cfg: Config, t: seq<Event>, i: nat, pid: Pid, m: Module)
    requires i < |t|
  {
    && Concerns(cfg, t, i, pid, m.base)
    && !t[i].image.unload
    && m.size == t[i].image.size
    && m.name == t[i].image.name
  }

  /** By a search of the history, latest event first: is the module loaded in the process? */
  predicate Loaded(cfg: Config, t: seq<Event>, pid: Pid, m: Module)
    decreases |t|
  {
    if t == [] then false
    else if Concerns(cfg, t, |t| - 1, pid, m.base) then Loads(cfg, t, |t| - 1, pid, m)
    else Loaded(cfg, Prefix(t), pid, m)
  }

  lemma OtherModules(cfg: Config, s: State, c: Category, e: Event)
    ensures StepOther(cfg, s, c, e).modules ==
            if Allows(cfg, s.tree, c, e) && cfg.opens(s.sink.attempts) && c.Image? then UpdateModules(s.modules, e)
            else s.modules
  {
  }

  lemma StepModules(cfg: Config, s: State, e: Event)
    ensures Step(cfg, s, e).modules ==
            if IsImageEvent(cfg, s.tree, e) then UpdateModules(s.modules, e) else s.modules
  {
    if e.walk.None? && e.category.Some? && e.category.value in cfg.presets && !KnownFileIo(e) {
      OtherModules(cfg, StepImage(cfg, s, e.category.value, e), e.category.value, e);
      SecondUpdateIsNoOp(s.modules, e);
    }
  }

  lemma UpdateMembers(modules: Modules, e: Event, pid: Pid, m: Module)
    ensures m in ModulesOf(UpdateModules(modules, e), pid) <==>
            if Owner(e) == pid && e.image.base == Some(m.base) then !e.image.unload && ImageModule(e) == m
            else m in ModulesOf(modules, pid)
  {
    if e.image.base.Some? {
      WithoutMembers(ModulesOf(modules, Owner(e)), e.image.base.value, m);
    }
  }

  lemma {:induction false} MapIsHistory(cfg: Config, t: seq<Event>, pid: Pid, m: Module)
    ensures m in ModulesOf(Run(cfg, t).modules, pid) <==> Loaded(cfg, t, pid, m)
    decreases |t|
  {
    if t != [] {
      var u, e := Prefix(t), Last(t);
      MapIsHistory(cfg, u, pid, m);
      RunTree(cfg, u);
      StepModules(cfg, Run(cfg, u), e);
      UpdateMembers(Run(cfg, u).modules, e, pid, m);
    }
  }

  lemma {:induction false} LoadedFinds(cfg: Config, t: seq<Event>, pid: Pid, m: Module)
    requires Loaded(cfg, t, pid, m)
    ensures exists i :: 0 <= i < |t| && Loads(cfg, t, i, pid, m) &&
                        forall j :: i < j < |t| ==> !Concerns(cfg, t, j, pid, m.base)
    decreases |t|
  {
    var u, n := Prefix(t), |t| - 1;
    if Concerns(cfg, t, n, pid, m.base) {
      assert Loads(cfg, t, n, pid, m);
    } else {
      LoadedFinds(cfg, u, pid, m);
      var i :| 0 <= i < |u| && Loads(cfg, u, i, pid, m) &&
               forall j :: i < j < |u| ==> !Concerns(cfg, u, j, pid, m.base);
      assert forall j :: 0 <= j < |u| ==> u[..j] == t[..j];
      assert Loads(cfg, t, i, pid, m);
      forall j | i < j < |t|
        ensures !Concerns(cfg, t, j, pid, m.base)
      {
        if j < |u| {
          assert !Concerns(cfg, u, j, pid, m.base);
        }
      }
    }
  }

  lemma {:induction false} LoadedComplete(cfg: Config, t: seq<Event>, pid: Pid, m: Module, i: nat)
    requires i < |t| && Loads(cfg, t, i, pid, m)
    requires forall j :: i < j < |t| ==> !Concerns(cfg, t, j, pid, m.base)
    ensures Loaded(cfg, t, pid, m)
    decreases |t|
  {
    if i < |t| - 1 {
      var u := Prefix(t);
      assert !Concerns(cfg, t, |t| - 1, pid, m.base);
      assert u[..i] == t[..i];
      forall j | i < j < |u|
        ensures !Concerns(cfg, u, j, pid, m.base)
      {
        assert u[..j] == t[..j];
        assert !Concerns(cfg, t, j, pid, m.base);
      }
      LoadedComplete(cfg, u, pid, m, i);
    }
  }

  /**
   * In every reachable state a process has a module exactly when a traced image event loaded it and no
   * later traced image event of that process loaded or unloaded anything at its base.
   */
  lemma ModuleMapIsHistory(cfg: Config, t: seq<Event>, pid: Pid, m: Module)
    ensures m in ModulesOf(Run(cfg, t).modules, pid) <==>
            exists i :: 0 <= i < |t| && Loads(cfg, t, i, pid, m) &&
                        forall j :: i < j < |t| ==> !Concerns(cfg, t, j, pid, m.base)
  {
    MapIsHistory(cfg, t, pid, m);
    if Loaded(cfg, t, pid, m) {
      LoadedFinds(cfg, t, pid, m);
    }
    if i :| 0 <= i < |t| && Loads(cfg, t, i, pid, m) &&
            forall j :: i < j < |t| ==> !Concerns(cfg, t, j, pid, m.base)
    {
      LoadedComplete(cfg, t, pid, m, i);
    }
  }

  lemma {:induction false} BasesStayUnique(cfg: Config, t: seq<Event>, pid: Pid)
    ensures UniqueBases(ModulesOf(Run(cfg, t).modules, pid))
    decreases |t|
  {
    if t != [] {
      var s, e := Run(cfg, Prefix(t)), Last(t);
      BasesStayUnique(cfg, Prefix(t), pid);
      StepModules(cfg, s, e);
      if e.image.base.Some? && Owner(e) == pid {
        var ms, base := ModulesOf(s.modules, pid), e.image.base.value;
        WithoutUnique(ms, base);
        var kept := Without(ms, base);
        forall i | 0 <= i < |kept|
          ensures kept[i].base != base
        {
          WithoutMembers(ms, base, kept[i]);
        }
      }
    }
  }

  // ---------- load order ----------

  /** Event i loaded a module into the process, and no later event of the process touched its base. */
  ghost predicate Live(cfg: Config, t: seq<Event>, i: nat, pid: Pid) {
    && i < |t|
    && t[i].image.base.Some? && !t[i].image.unload
    && Concerns(cfg, t, i, pid, t[i].image.base.value)
    && forall j :: i < j < |t| ==> !Concerns(cfg, t, j, pid, t[i].image.base.value)
  }

  predicate IsImageOf(m: Module, e: Event) {
    e.image.base == Some(m.base) && m.size == e.image.size && m.name == e.image.name
  }

  /** The modules of the list are the images of the events at these positions, earliest first. */
  predicate Lists(t: seq<Event>, ms: seq<Module>, at: seq<nat>) {
    && |ms| == |at|
    && (forall k :: 0 <= k < |ms| ==> at[k] < |t| && IsImageOf(ms[k], t[at[k]]))
    && (forall k, l :: 0 <= k < l < |ms| ==> at[k] < at[l])
  }

  lemma {:induction false} WithoutLists(t: seq<Event>, ms: seq<Module>, at: seq<nat>, base: Address)
    returns (left: seq<nat>)
    requires Lists(t, ms, at)
    ensures Lists(t, Without(ms, base), left)
    ensures forall i :: i in left ==> i in at && t[i].image.base != Some(base)
    decreases |ms|
  {
    if ms == [] {
      left := [];
    } else {
      var n := |ms| - 1;
      left := WithoutLists(t, ms[..n], at[..n], base);
      if ms[n].base != base {
        forall i | i in left
          ensures i < at[n]
        {
          var k :| 0 <= k < n && at[..n][k] == i;
        }
        left := left + [at[n]];
      }
    }
  }

  lemma LiveStays(cfg: Config, t: seq<Event>, i: nat, pid: Pid)
    requires t != [] && Live(cfg, Prefix(t), i, pid)
    requires !Concerns(cfg, t, |t| - 1, pid, t[i].image.base.value)
    ensures Live(cfg, t, i, pid)
  {
    assert Prefix(t)[..i] == t[..i];
    forall j | i < j < |t|
      ensures !Concerns(cfg, t, j, pid, t[i].image.base.value)
    {
      if j < |t| - 1 {
        assert Prefix(t)[..j] == t[..j];
        assert !Concerns(cfg, Prefix(t), j, pid, t[i].image.base.value);
      }
    }
  }

  /** The last event of the trace is about an image of the process. */
  predicate ConcernsLast(cfg: Config, t: seq<Event>, pid: Pid)
    requires t != []
  {
    Last(t).image.base.Some? && Concerns(cfg, t, |t| - 1, pid, Last(t).image.base.value)
  }

  lemma ListsLater(t: seq<Event>, ms: seq<Module>, at: seq<nat>)
    requires t != [] && Lists(Prefix(t), ms, at)
    ensures Lists(t, ms, at)
    ensures Last(t).image.base.Some? ==> Lists(t, ms + [ImageModule(Last(t))], at + [|t| - 1])
  {
  }

  lemma LiveLater(cfg: Config, t: seq<Event>, pid: Pid, at: seq<nat>)
    requires t != [] && forall i :: i in at ==> Live(cfg, Prefix(t), i, pid)
    requires forall i :: i in at ==> i < |t| && (ConcernsLast(cfg, t, pid) ==> t[i].image.base != Last(t).image.base)
    ensures forall i :: i in at ==> Live(cfg, t, i, pid)
  {
    forall i | i in at
      ensures Live(cfg, t, i, pid)
    {
      LiveStays(cfg, t, i, pid);
    }
  }

  lemma KeptPositions(cfg: Config, t: seq<Event>, pid: Pid, ms: seq<Module>, before: seq<nat>) returns (at: seq<nat>)
    requires t != [] && Lists(Prefix(t), ms, before) && forall i :: i in before ==> Live(cfg, Prefix(t), i, pid)
    ensures Lists(Prefix(t), if ConcernsLast(cfg, t, pid) then Without(ms, Last(t).image.base.value) else ms, at)
    ensures forall i :: i in at ==> Live(cfg, t, i, pid)
  {
    at := before;
    if ConcernsLast(cfg, t, pid) {
      at := WithoutLists(Prefix(t), ms, before, Last(t).image.base.value);
    }
    LiveLater(cfg, t, pid, at);
  }

  /** What the last event makes of the modules of a process. */
  function NextList(cfg: Config, t: seq<Event>, pid: Pid, ms: seq<Module>): seq<Module>
    requires t != []
  {
    var e := Last(t);
    if !ConcernsLast(cfg, t, pid) then ms
    else Without(ms, e.image.base.value) + if e.image.unload then [] else [ImageModule(e)]
  }

  lemma NextPositions(cfg: Config, t: seq<Event>, pid: Pid, ms: seq<Module>, before: seq<nat>) returns (at: seq<nat>)
    requires t != [] && Lists(Prefix(t), ms, before) && forall i :: i in before ==> Live(cfg, Prefix(t), i, pid)
    ensures Lists(t, NextList(cfg, t, pid, ms), at) && forall i :: i in at ==> Live(cfg, t, i, pid)
  {
    at := KeptPositions(cfg, t, pid, ms, before);
    ListsLater(t, if ConcernsLast(cfg, t, pid) then Without(ms, Last(t).image.base.value) else ms, at);
    if ConcernsLast(cfg, t, pid) && !Last(t).image.unload {
      assert Live(cfg, t, |t| - 1, pid);
      at := at + [|t| - 1];
    }
  }

  lemma ListStep(cfg: Config, t: seq<Event>, pid: Pid)
    requires t != []
    ensures ModulesOf(Run(cfg, t).modules, pid) == NextList(cfg, t, pid, ModulesOf(Run(cfg, Prefix(t)).modules, pid))
  {
    RunTree(cfg, Prefix(t));
    StepModules(cfg, Run(cfg, Prefix(t)), Last(t));
    assert t[..|t| - 1] == Prefix(t);
  }

  lemma {:induction false} ModulesInLoadOrder(cfg: Config, t: seq<Event>, pid: Pid) returns (at: seq<nat>)
    ensures Lists(t, ModulesOf(Run(cfg, t).modules, pid), at) && forall i :: i in at ==> Live(cfg, t, i, pid)
    decreases |t|
  {
    if t == [] {
      at := [];
    } else {
      var before := ModulesInLoadOrder(cfg, Prefix(t), pid);
      at := NextPositions(cfg, t, pid, ModulesOf(Run(cfg, Prefix(t)).modules, pid), before);
      ListStep(cfg, t, pid);
    }
  }

  lemma LiveOnce(cfg: Config, t: seq<Event>, i: nat, j: nat, pid: Pid)
    requires Live(cfg, t, i, pid) && Live(cfg, t, j, pid) && t[i].image.base == t[j].image.base
    ensures i == j
  {
  }

  lemma LiveIsListed(cfg: Config, t: seq<Event>, pid: Pid, i: nat, at: seq<nat>)
    requires Live(cfg, t, i, pid) && Lists(t, ModulesOf(Run(cfg, t).modules, pid), at)
    requires forall k :: k in at ==> Live(cfg, t, k, pid)
    ensures i in at
  {
    var ms := ModulesOf(Run(cfg, t).modules, pid);
    var m := Module(t[i].image.base.value, t[i].image.size, t[i].image.name);
    assert Loads(cfg, t, i, pid, m);
    ModuleMapIsHistory(cfg, t, pid, m);
    var k :| 0 <= k < |ms| && ms[k] == m;
    assert at[k] in at;
    LiveOnce(cfg, t, i, at[k], pid);
  }

  // ---------- frames ----------

  ghost predicate Covers(ms: seq<Module>, a: Address) {
    exists m :: m in ms && m.Contains(a)
  }

  lemma FindInCovers(ms: seq<Module>, a: Address)
    ensures FindIn(ms, a).Some? <==> Covers(ms, a)
    ensures FindIn(ms, a).Some? ==> FindIn(ms, a).value in ms && FindIn(ms, a).value.Contains(a)
  {
    var k := FirstContaining(ms, a);
    if k < |ms| {
      assert ms[k] in ms;
    }
  }

  /**
   * An address is named exactly when a module of its process, or else of process 0, contains it, and
   * the printed offset stays inside that module.
   */
  lemma FrameIsExact(modules: Modules, pid: Pid, a: Address)
    ensures var f, own, shared := FrameOf(modules, pid, a), ModulesOf(modules, pid), ModulesOf(modules, 0);
            && (f.Resolved? <==> Covers(own, a) || Covers(shared, a))
            && (f.Raw? ==> f.address == a)
            && (f.Resolved? ==>
                  exists m: Module :: m in (if Covers(own, a) then own else shared) && f.name == m.name
                              && m.base + f.offset == a && f.offset < m.size)
  {
    FindInCovers(ModulesOf(modules, pid), a);
    FindInCovers(ModulesOf(modules, 0), a);
    if FindModule(modules, pid, a).Some? {
      var m := FindModule(modules, pid, a).value;
      assert m.Contains(a);
    }
  }

  /** The image that event i loaded is still there and contains the address. */
  ghost predicate CoversAt(cfg: Config, t: seq<Event>, i: nat, pid: Pid, a: Address) {
    Live(cfg, t, i, pid) && t[i].image.base.value <= a < t[i].image.base.value + t[i].image.size
  }

  /** Of the images that contain the address, that of event i was loaded first. */
  ghost predicate NamesAt(cfg: Config, t: seq<Event>, i: nat, pid: Pid, a: Address) {
    CoversAt(cfg, t, i, pid, a) && forall j: nat :: j < i ==> !CoversAt(cfg, t, j, pid, a)
  }

  lemma CoverComesLater(t: seq<Event>, ms: seq<Module>, at: seq<nat>, i: nat, a: Address)
    requires Lists(t, ms, at) && i in at && i < |t| && t[i].image.base.Some?
    requires t[i].image.base.value <= a < t[i].image.base.value + t[i].image.size
    ensures FirstContaining(ms, a) < |ms| && at[FirstContaining(ms, a)] <= i
  {
    var k :| 0 <= k < |at| && at[k] == i;
    assert ms[k].Contains(a);
  }

  lemma FoundIsFirst(cfg: Config, t: seq<Event>, pid: Pid, a: Address)
    ensures var found := FindIn(ModulesOf(Run(cfg, t).modules, pid), a);
            if found.None? then forall i: nat :: !CoversAt(cfg, t, i, pid, a)
            else exists i: nat :: NamesAt(cfg, t, i, pid, a) && IsImageOf(found.value, t[i])
  {
    var ms := ModulesOf(Run(cfg, t).modules, pid);
    var at := ModulesInLoadOrder(cfg, t, pid);
    var n := FirstContaining(ms, a);
    forall i: nat | CoversAt(cfg, t, i, pid, a)
      ensures n < |ms| && at[n] <= i
    {
      LiveIsListed(cfg, t, pid, i, at);
      CoverComesLater(t, ms, at, i, a);
    }
    if n < |ms| {
      assert at[n] in at;
      assert NamesAt(cfg, t, at[n], pid, a);
    }
  }

  lemma NamesOnce(cfg: Config, t: seq<Event>, i: nat, j: nat, pid: Pid, a: Address)
    requires NamesAt(cfg, t, i, pid, a) && NamesAt(cfg, t, j, pid, a)
    ensures i == j
  {
  }

  /**
   * An address of a process is named after the image loaded first of those that contain it - of its own
   * images, or if none of them does of those of process 0 - and is left raw if there is none.
   */
  lemma AddressIsNamed(cfg: Config, t: seq<Event>, pid: Pid, a: Address, i: nat)
    ensures var f := FrameOf(Run(cfg, t).modules, pid, a);
            var own := exists j: nat :: CoversAt(cfg, t, j, pid, a);
            var shared := exists j: nat :: CoversAt(cfg, t, j, 0, a);
            var p := if own then pid else 0;
            && (NamesAt(cfg, t, i, p, a) ==> f == Resolved(t[i].image.name, a - t[i].image.base.value))
            && (!own && !shared ==> f == Raw(a))
            && (own || shared ==> exists j: nat :: NamesAt(cfg, t, j, p, a))
  {
    FoundNames(cfg, t, pid, a, i);
    FoundNames(cfg, t, 0, a, i);
  }

  /** What the search in one list of modules finds, whichever list it is. */
  lemma FoundNames(cfg: Config, t: seq<Event>, pid: Pid, a: Address, i: nat)
    ensures var found := FindIn(ModulesOf(Run(cfg, t).modules, pid), a);
            && (found.Some? <==> exists j: nat :: CoversAt(cfg, t, j, pid, a))
            && (found.Some? ==> exists j: nat :: NamesAt(cfg, t, j, pid, a))
            && (NamesAt(cfg, t, i, pid, a) ==>
                  found.Some? && found.value.name == t[i].image.name && found.value.base == t[i].image.base.value
                  && found.value.base <= a)
  {
    FoundIsFirst(cfg, t, pid, a);
    var found := FindIn(ModulesOf(Run(cfg, t).modules, pid), a);
    if found.Some? {
      var j: nat :| NamesAt(cfg, t, j, pid, a) && IsImageOf(found.value, t[j]);
      if NamesAt(cfg, t, i, pid, a) {
        NamesOnce(cfg, t, i, j, pid, a);
      }
    }
  }

  /** Frames are the resolved addresses in reverse order, one for one. */
  lemma {:induction false} FramesReverse(modules: Modules, pid: Pid, addresses: seq<Address>)
    ensures var fs := Frames(modules, pid, addresses);
            && |fs| == |addresses|
            && forall k :: 0 <= k < |fs| ==> fs[k] == FrameOf(modules, pid, addresses[|addresses| - 1 - k])
    decreases |addresses|
  {
    if addresses != [] {
      var init, fs := Prefix(addresses), Frames(modules, pid, addresses);
      FramesReverse(modules, pid, init);
      forall k | 0 <= k < |fs|
        ensures fs[k] == FrameOf(modules, pid, addresses[|addresses| - 1 - k])
      {
        if k > 0 {
          assert fs[k] == Frames(modules, pid, init)[k - 1];
        }
      }
    }
  }

  // ---------- frames of a whole run ----------

  function LinePid(o: Output): Pid {
    if o.FileLine? then o.record.pid else Owner(o.event)
  }

  function FrameCount(): Output -> nat {
    (o: Output) => if o.frames.Some? then |o.frames.value| else 0
  }

  function NamedCount(): Output -> nat {
    (o: Output) => if o.frames.Some? then ResolvedCount(o.frames.value) else 0
  }

  /** Line k was written while the n-th event was handled, or by the flush after the last one. */
  predicate WrittenAt(cfg: Config, t: seq<Event>, n: nat, k: nat) {
    && n <= |t|
    && if k < |Run(cfg, t).sink.log|
       then 0 < n && |Run(cfg, t[..n - 1]).sink.log| <= k < |Run(cfg, t[..n]).sink.log|
       else n == |t|
  }

  /** The frames of a line are its stack, outermost first, named by the module map after n events. */
  predicate FramedAt(cfg: Config, t: seq<Event>, n: nat, o: Output) {
    n <= |t| && o.frames == Some(Frames(Run(cfg, t[..n]).modules, LinePid(o), LineStack(o)))
  }

  /** Lines that a sink gains are framed by the given module map. */
  ghost predicate GainsFramed(k: Sink, k': Sink, modules: Modules) {
    && k.log <= k'.log
    && forall o :: o in k'.log[|k.log|..] && o.frames.Some? ==>
                     o.frames == Some(Frames(modules, LinePid(o), LineStack(o)))
  }

  lemma WriteFramed(cfg: Config, modules: Modules, k: Sink, k1: Sink, c: Category, line: Output, fs: seq<Frame>)
    requires GainsFramed(k, k1, modules) && fs == Frames(modules, LinePid(line), LineStack(line))
    ensures GainsFramed(k, Write(cfg, k1, c, line, fs), modules)
  {
    var k2 := Write(cfg, k1, c, line, fs);
    assert k2.log[|k.log|..] == k1.log[|k.log|..] + [Last(k2.log)];
  }

  lemma {:induction false} WriteAllFramed(cfg: Config, modules: Modules, k: Sink, rs: seq<FileRecord>)
    ensures GainsFramed(k, WriteAll(cfg, modules, k, rs), modules)
    decreases |rs|
  {
    if rs != [] {
      WriteAllFramed(cfg, modules, k, Prefix(rs));
      var k1, r := WriteAll(cfg, modules, k, Prefix(rs)), Last(rs);
      WriteFramed(cfg, modules, k, k1, File, FileLine(r, None), Frames(modules, r.pid, r.stack));
    }
  }

  lemma StepFramed(cfg: Config, s: State, e: Event)
    ensures GainsFramed(s.sink, Step(cfg, s, e).sink, Step(cfg, s, e).modules)
  {
    StepModules(cfg, s, e);
    if e.walk.None? && e.category.Some? && e.category.value in cfg.presets {
      if KnownFileIo(e) {
        FileFramed(cfg, s, e);
      } else {
        OtherFramed(cfg, StepImage(cfg, s, e.category.value, e), e.category.value, e);
      }
    }
  }

  lemma FileFramed(cfg: Config, s: State, e: Event)
    ensures GainsFramed(s.sink, StepFile(cfg, s, e).sink, StepFile(cfg, s, e).modules)
  {
    if e.opcode == FILE_IO_OP_END {
      WriteAllFramed(cfg, s.modules, s.sink, EndIo(s.irps, e, s.sequence + 1).writes);
    } else if OwnerAllowed(cfg, s.tree, Owner(e)) {
      var walks := Taken(s.cache.stacks, e.time, Owner(e), e.tid);
      WriteAllFramed(cfg, s.modules, s.sink, BeginIo(s.irps, Decode(CachePath(s.paths, e), e, walks)).writes);
    }
  }

  lemma OtherFramed(cfg: Config, s: State, c: Category, e: Event)
    ensures GainsFramed(s.sink, StepOther(cfg, s, c, e).sink, StepOther(cfg, s, c, e).modules)
  {
    if Allows(cfg, s.tree, c, e) && cfg.opens(s.sink.attempts) {
      var walks := Taken(s.cache.stacks, e.time, Owner(e), e.tid);
      var stack := AppendWalks(e.addresses, walks);
      var modules := if c.Image? then UpdateModules(s.modules, e) else s.modules;
      assert GainsFramed(s.sink, s.sink, modules);
      WriteFramed(cfg, modules, s.sink, s.sink, c, EventLine(e, stack, walks, None),
                  Frames(modules, Owner(e), stack));
    }
  }

  lemma WrittenLater(cfg: Config, t: seq<Event>, n: nat, k: nat, o: Output)
    requires t != [] && WrittenAt(cfg, Prefix(t), n, k) && FramedAt(cfg, Prefix(t), n, o)
    requires k < |Run(cfg, Prefix(t)).sink.log| <= |Run(cfg, t).sink.log|
    ensures WrittenAt(cfg, t, n, k) && FramedAt(cfg, t, n, o)
  {
    assert Prefix(t)[..n] == t[..n] && Prefix(t)[..n - 1] == t[..n - 1];
  }

  lemma {:induction false} RunFramed(cfg: Config, t: seq<Event>, k: nat)
    requires k < |Run(cfg, t).sink.log| && Run(cfg, t).sink.log[k].frames.Some?
    ensures exists n: nat :: WrittenAt(cfg, t, n, k) && FramedAt(cfg, t, n, Run(cfg, t).sink.log[k])
    decreases |t|
  {
    var u, log := Prefix(t), Run(cfg, t).sink.log;
    StepFramed(cfg, Run(cfg, u), Last(t));
    if k < |Run(cfg, u).sink.log| {
      RunFramed(cfg, u, k);
      var n: nat :| WrittenAt(cfg, u, n, k) && FramedAt(cfg, u, n, log[k]);
      WrittenLater(cfg, t, n, k, log[k]);
    } else {
      assert t[..|t|] == t && t[..|t| - 1] == u;
      assert log[k] in log[|Run(cfg, u).sink.log|..];
      assert FramedAt(cfg, t, |t|, log[k]);
      assert WrittenAt(cfg, t, |t|, k);
    }
  }

  /** Every line of a finished extraction is framed by the module map of the moment it was written. */
  lemma LinesAreFramed(cfg: Config, t: seq<Event>, k: nat)
    requires k < |Extract(cfg, t).sink.log| && Extract(cfg, t).sink.log[k].frames.Some?
    ensures exists n: nat :: WrittenAt(cfg, t, n, k) && FramedAt(cfg, t, n, Extract(cfg, t).sink.log[k])
  {
    var s, log := Run(cfg, t), Extract(cfg, t).sink.log;
    WriteAllFramed(cfg, s.modules, s.sink, FlushIo(cfg, s.irps).writes);
    if k < |s.sink.log| {
      RunFramed(cfg, t, k);
    } else {
      assert t[..|t|] == t;
      assert log[k] in log[|s.sink.log|..];
      assert FramedAt(cfg, t, |t|, log[k]);
    }
  }

  // ---------- frame counters ----------

  function IsResolved(): Frame -> nat {
    (f: Frame) => if f.Resolved? then 1 else 0
  }

  /** Every frame that names a module is counted, and no other. */
  lemma {:induction false} ResolvedCountIs(fs: seq<Frame>)
    ensures ResolvedCount(fs) == Sum(fs, IsResolved())
    decreases |fs|
  {
    if fs != [] {
      ResolvedCountIs(fs[1..]);
      SumAppend([fs[0]], fs[1..], IsResolved());
      SumOne(fs[0], IsResolved());
      assert [fs[0]] + fs[1..] == fs;
    }
  }

  predicate CountsFrames(k: Sink) {
    && k.frames.total == Sum(k.log, FrameCount())
    && k.frames.resolved == Sum(k.log, NamedCount())
    && k.frames.total == k.frames.resolved + k.frames.unresolved
  }

  lemma WriteCounts(cfg: Config, k: Sink, c: Category, line: Output, fs: seq<Frame>)
    requires CountsFrames(k)
    ensures CountsFrames(Write(cfg, k, c, line, fs))
  {
    var k' := Write(cfg, k, c, line, fs);
    assert k'.log[..|k'.log| - 1] == k.log;
  }

  lemma {:induction false} WriteAllCounts(cfg: Config, modules: Modules, k: Sink, rs: seq<FileRecord>)
    requires CountsFrames(k)
    ensures CountsFrames(WriteAll(cfg, modules, k, rs))
    decreases |rs|
  {
    if rs != [] {
      var r := Last(rs);
      WriteAllCounts(cfg, modules, k, Prefix(rs));
      WriteCounts(cfg, WriteAll(cfg, modules, k, Prefix(rs)), File, FileLine(r, None),
                  Frames(modules, r.pid, r.stack));
    }
  }

  lemma FileCounts(cfg: Config, s: State, e: Event)
    requires CountsFrames(s.sink)
    ensures CountsFrames(StepFile(cfg, s, e).sink)
  {
    if e.opcode == FILE_IO_OP_END {
      WriteAllCounts(cfg, s.modules, s.sink, EndIo(s.irps, e, s.sequence + 1).writes);
    } else if OwnerAllowed(cfg, s.tree, Owner(e)) {
      var walks := Taken(s.cache.stacks, e.time, Owner(e), e.tid);
      WriteAllCounts(cfg, s.modules, s.sink, BeginIo(s.irps, Decode(CachePath(s.paths, e), e, walks)).writes);
    }
  }

  lemma StepCounts(cfg: Config, s: State, e: Event)
    requires CountsFrames(s.sink)
    ensures CountsFrames(Step(cfg, s, e).sink)
  {
    if e.walk.None? && e.category.Some? && e.category.value in cfg.presets {
      if KnownFileIo(e) {
        FileCounts(cfg, s, e);
      } else {
        OtherCounts(cfg, StepImage(cfg, s, e.category.value, e), e.category.value, e);
      }
    }
  }

  lemma OtherCounts(cfg: Config, s: State, c: Category, e: Event)
    requires CountsFrames(s.sink)
    ensures CountsFrames(StepOther(cfg, s, c, e).sink)
  {
    if Allows(cfg, s.tree, c, e) {
      if cfg.opens(s.sink.attempts) {
        var walks := Taken(s.cache.stacks, e.time, Owner(e), e.tid);
        var stack := AppendWalks(e.addresses, walks);
        var modules := if c.Image? then UpdateModules(s.modules, e) else s.modules;
        WriteCounts(cfg, s.sink, c, EventLine(e, stack, walks, None), Frames(modules, Owner(e), stack));
      } else {
        WriteCounts(cfg, s.sink, c, EventLine(e, [], [], None), []);
      }
    }
  }

  lemma {:induction false} RunCounts(cfg: Config, t: seq<Event>)
    ensures CountsFrames(Run(cfg, t).sink)
    decreases |t|
  {
    if t != [] {
      RunCounts(cfg, Prefix(t));
      StepCounts(cfg, Run(cfg, Prefix(t)), Last(t));
    }
  }

  /** The reported frame counters are the totals over the lines written, and resolved + unresolved = total. */
  lemma FramesAreCounted(cfg: Config, t: seq<Event>)
    ensures CountsFrames(Extract(cfg, t).sink)
  {
    var s := Run(cfg, t);
    RunCounts(cfg, t);
    WriteAllCounts(cfg, s.modules, s.sink, FlushIo(cfg, s.irps).writes);
  }
}
