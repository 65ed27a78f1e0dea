/** The environment options read at start-up and the checks made on them
    before anything is opened. */
module Config {
  import opened Wrappers
  import opened Subspace
  import opened Traversal

  /** The environment as the collector reads it. `STOP_AT_BLOCK` and
      `START_AT_BLOCK` are given as their parsed value, `None` when unset or
      empty; `WS_URL` and `OUTPUT` as their text. */
  datatype Env = Env(stopAtBlock: Option<nat>, startAtBlock: Option<nat>, wsUrl: Option<string>, output: Option<string>)

  datatype Settings = Settings(stopAtBlock: nat, startAtBlock: nat, wsUrl: string, output: string)

  /** The settings of a run, or the exit status of a run refused at start-up. */
  datatype Loaded = Ready(settings: Settings) | ConfigError(exitCode: nat)

  /** A text option counts as given only when it is set and not empty. */
  predicate Given(v: Option<string>) {
    v.Some? && v.value != ""
  }

  /** A block option defaults to 0 (genesis) when it is not given. */
  function BlockOption(v: Option<nat>): nat {
    match v
    case Some(n) => n
    case None => 0
  }

  /** Reads the options: a missing `WS_URL` refuses the run with status 1,
      checked first; a missing `OUTPUT` refuses it with status 2. Both block
      options default to 0. */
  function Load(env: Env): (r: Loaded)
    ensures r.ConfigError? <==> !Given(env.wsUrl) || !Given(env.output)
    ensures r.ConfigError? ==> (r.exitCode == 1 <==> !Given(env.wsUrl)) && (r.exitCode == 1 || r.exitCode == 2)
    ensures r.Ready? ==> r.settings.wsUrl == env.wsUrl.value && r.settings.output == env.output.value
    ensures r.Ready? ==>
      (env.stopAtBlock.Some? ==> r.settings.stopAtBlock == env.stopAtBlock.value) &&
      (env.stopAtBlock.None? ==> r.settings.stopAtBlock == 0) &&
      (env.startAtBlock.Some? ==> r.settings.startAtBlock == env.startAtBlock.value) &&
      (env.startAtBlock.None? ==> r.settings.startAtBlock == 0)
  {
    var stop := BlockOption(env.stopAtBlock);
    var start := BlockOption(env.startAtBlock);
    if !Given(env.wsUrl) then ConfigError(1)
    else if !Given(env.output) then ConfigError(2)
    else Ready(Settings(stop, start, env.wsUrl.value, env.output.value))
  }

  /** With both block options left unset, the walk starts and stops at
      genesis: at most block 0 is visited, and the walk finishes exactly when
      it is. This holds whatever genesis carries; a genesis header without a
      pre-runtime log ends the walk with nothing visited. */
  lemma DefaultsProcessOnlyGenesis(env: Env, c: Chain)
    requires Load(env).Ready? && env.stopAtBlock.None? && env.startAtBlock.None?
    requires WellFormed(c) && 0 in c.hashAt
    ensures Load(env).settings.startAtBlock == 0 && Load(env).settings.stopAtBlock == 0
    ensures var t := Walk(c, c.hashAt[0], 0);
      |t.visited| <= 1 &&
      (forall i :: 0 <= i < |t.visited| ==> t.visited[i].number == 0) &&
      (t.status.Finished? <==> |t.visited| == 1)
    ensures c.hashAt[0] in c.headers && c.headers[c.hashAt[0]].preRuntime.None? ==>
      Walk(c, c.hashAt[0], 0).visited == []
  {
    WalkEndsAtStop(c, c.hashAt[0], 0);
    if c.hashAt[0] in c.headers {
      WalkDescends(c, c.hashAt[0], 0);
    }
  }

  /** When genesis is served with its digest and both block options are
      left unset, the walk visits exactly block 0 and finishes. */
  lemma DefaultsVisitGenesisOnly(env: Env, c: Chain)
    requires Load(env).Ready? && env.stopAtBlock.None? && env.startAtBlock.None?
    requires WellFormed(c) && Canonical(c, 0, 0)
    ensures Load(env).settings.startAtBlock == 0 && Load(env).settings.stopAtBlock == 0 && Served(c, 0)
    ensures Walk(c, c.hashAt[0], 0) == Trace([CanonicalVisit(c, 0)], Finished)
  {
    WalkCanonical(c, 0, 0);
  }
}
