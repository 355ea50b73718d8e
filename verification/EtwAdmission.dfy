/**
 * Which events of a trace do what, told from the fields of the records: which file events are accepted,
 * which other events are reported, which records are completions, and which processes are followed.
 */
module EtwAdmission {
  import opened Options
  import opened EtwEvents
  import opened EtwSpec
  import opened EtwTree
  import opened EtwIrps
  import opened EtwPaths
  import opened EtwAccounts

  /** A record of one of the two file providers with an opcode that the extraction knows. */
  predicate FileRecordOf(e: Event) {
    && e.walk.None? && e.category == Some(File) && e.fileProvider
    && (e.opcode == 0 || e.opcode == 32 || e.opcode == 35 || e.opcode == 36 || (64 <= e.opcode && e.opcode <= 77))
  }

  /** Without a root everything is followed. */
  predicate Follows(cfg: Config, t: seq<Event>, pid: Pid) {
    cfg.root.None? || pid in Run(cfg, t).tree
  }

  /** What an event adds to the tree of the extraction. */
  lemma TreeStep(cfg: Config, t: seq<Event>, e: Event)
    ensures var tree := Run(cfg, t).tree;
            Run(cfg, t + [e]).tree ==
            if && cfg.root.Some? && e.walk.None? && e.category == Some(Process) && Process in cfg.presets
               && e.parentPid.Some? && e.parentPid.value in tree
            then tree + {if e.pid.Some? then e.pid.value else e.headerPid} else tree
  {
    assert Prefix(t + [e]) == t;
    StepTree(cfg, Run(cfg, t), e);
  }

  /** A completion is an enabled file record with opcode 76, of whatever process. */
  lemma CompletionsAre(cfg: Config, e: Event)
    ensures IsOpEnd(cfg, e) <==> FileRecordOf(e) && File in cfg.presets && e.opcode == 76
  {
  }

  /** An accepted event is any other enabled file record whose decoded process, or else its header's, is followed. */
  lemma AcceptedAre(cfg: Config, t: seq<Event>, i: nat)
    requires i < |t|
    ensures AcceptedAt(cfg, t, i) <==>
            && FileRecordOf(t[i]) && File in cfg.presets && t[i].opcode != 76
            && Follows(cfg, t[..i], if t[i].pid.Some? then t[i].pid.value else t[i].headerPid)
  {
    RunTree(cfg, t[..i]);
  }

  /**
   * A reported event is any other record of an enabled category; a process event needs its own process or
   * its parent to be followed, any other event the process of its header.
   */
  lemma ReportedAre(cfg: Config, t: seq<Event>, i: nat)
    requires i < |t|
    ensures ReportedAt(cfg, t, i) <==>
            && t[i].walk.None? && t[i].category.Some? && t[i].category.value in cfg.presets && !FileRecordOf(t[i])
            && (if t[i].category == Some(Process)
                then Follows(cfg, t[..i], if t[i].pid.Some? then t[i].pid.value else t[i].headerPid)
                     || (t[i].parentPid.Some? && Follows(cfg, t[..i], t[i].parentPid.value))
                else Follows(cfg, t[..i], t[i].headerPid))
  {
    RunTree(cfg, t[..i]);
    assert Prefix(t[..i + 1]) == t[..i];
  }
}
