/** The version numbers of the messages, when joins and ticks are interleaved statement by statement. */
module MicroVersions {
  import opened Json
  import opened JsonDiff
  import S = Sync
  import opened SyncMicro

  // ---- What holds whatever the interleaving ----

  /** A snapshot first and deltas after it; the versions of the deltas strictly increase. */
  ghost predicate Sequence(sent: seq<S.Message>, bound: nat) {
    && sent != []
    && (forall i :: 0 <= i < |sent| ==> (sent[i].Snapshot? <==> i == 0) && sent[i].version <= bound)
    && (forall i, j :: 1 <= i < j < |sent| ==> sent[i].version < sent[j].version)
  }

  predicate DeltasBelow(sent: seq<S.Message>, bound: nat) {
    forall i :: 1 <= i < |sent| ==> sent[i].version < bound
  }

  /** The current tick has its number, and has not reached this session. */
  predicate Awaits(x: State, c: S.SessionId) {
    x.tick.Numbered? || InWindow(x) || (x.tick.Sending? && c in x.tick.targets)
  }

  /** The version that the message of the current tick has, or would have if it took it now. */
  function TickVersion(x: State): nat {
    match x.tick
    case Stamped(v) => v
    case Built(m, _) => m.version
    case Sending(m, _, _) => m.version
    case _ => x.ver
  }

  /** How the version of a snapshot compares with that of the delta to come. */
  predicate Compares(x: State, c: S.SessionId, version: nat) {
    Awaits(x, c) ==>
      (version == TickVersion(x) <==> c in x.past.level) && (version > TickVersion(x) <==> c in x.past.ahead)
  }

  ghost predicate ClientVersions(x: State, c: S.SessionId)
    requires c in x.posted
  {
    && Sequence(x.posted[c], x.ver)
    && Compares(x, c, x.posted[c][0].version)
    && (Awaits(x, c) ==> DeltasBelow(x.posted[c], TickVersion(x)))
    && (Awaits(x, c) && c in x.past.level + x.past.ahead ==> |x.posted[c]| == 1)
  }

  predicate HistoryInvariant(x: State) {
    && (x.tick.Resting? || x.tick.Awake? ==> x.past.level == {})
    && (x.tick.Stamped? || x.tick.Built? ==> (x.past.risen <==> TickVersion(x) < x.ver))
    && (!x.tick.Stamped? && !x.tick.Built? && !x.tick.Sending? ==> x.past.ahead == {} && !x.past.risen)
    && TickVersion(x) <= x.ver
  }

  /** The version that the snapshot in the making has taken. */
  ghost predicate JoinVersion(x: State) {
    && (x.join.Marked? ==> x.join.v <= x.ver && Compares(x, x.join.c, x.join.v))
    && (x.join.Ready? ==> x.join.m.version <= x.ver && Compares(x, x.join.c, x.join.m.version))
  }

  ghost predicate VersionsInvariant(x: State) {
    HistoryInvariant(x) && JoinVersion(x) && forall c :: c in x.posted ==> ClientVersions(x, c)
  }

  lemma SequenceOneMore(sent: seq<S.Message>, m: S.Message, bound: nat)
    requires Sequence(sent, bound) && DeltasBelow(sent, m.version) && m.Delta? && m.version <= bound
    ensures Sequence(sent + [m], bound)
  {
  }

  lemma LaterVersions(sent: seq<S.Message>, bound: nat, later: nat)
    requires Sequence(sent, bound) && bound < later
    ensures Sequence(sent, later) && DeltasBelow(sent, later) && sent[0].version < later
  {
  }

  lemma SendKeepsClientVersions(loop: AppendLoop, x: State, d: S.SessionId, c: S.SessionId)
    requires c in x.posted && ClientVersions(x, c) && Possible(loop, x, TickSend(d))
    requires x.tick.m.Delta? && x.tick.m.version <= x.ver
    ensures ClientVersions(Do(loop, x, TickSend(d)), c)
  {
    var y := Do(loop, x, TickSend(d));
    if d == c && c in x.sessions {
      assert !Awaits(y, c) && y.posted[c] == x.posted[c] + [x.tick.m];
      SequenceOneMore(x.posted[c], x.tick.m, x.ver);
    } else {
      assert y.posted[c] == x.posted[c];
    }
  }

  lemma QuietStepKeepsClientVersions(loop: AppendLoop, x: State, a: Step, c: S.SessionId)
    requires c in x.posted && ClientVersions(x, c) && SessionsInvariant(x)
    requires Possible(loop, x, a) && !a.TickSend? && !a.JoinSend?
    requires HistoryInvariant(x)
    ensures ClientVersions(Do(loop, x, a), c)
  {
    LaterVersions(x.posted[c], x.ver, x.ver + 1);
    assert Do(loop, x, a).posted == x.posted;
  }

  lemma StepKeepsClientVersions(loop: AppendLoop, x: State, a: Step, c: S.SessionId)
    requires DocumentsInvariant(loop, x) && SessionsInvariant(x) && VersionsInvariant(x) && Possible(loop, x, a)
    requires c in Do(loop, x, a).posted
    ensures ClientVersions(Do(loop, x, a), c)
  {
    assert c in x.posted ==> ClientVersions(x, c);
    if a.TickSend? {
      SendKeepsClientVersions(loop, x, a.c, c);
    } else if !a.JoinSend? {
      QuietStepKeepsClientVersions(loop, x, a, c);
    }
  }

  lemma StepKeepsHistory(loop: AppendLoop, x: State, a: Step)
    requires HistoryInvariant(x) && Possible(loop, x, a)
    ensures HistoryInvariant(Do(loop, x, a))
  {
  }

  lemma StepKeepsJoinVersion(loop: AppendLoop, x: State, a: Step)
    requires SessionsInvariant(x) && HistoryInvariant(x) && JoinVersion(x) && Possible(loop, x, a)
    ensures JoinVersion(Do(loop, x, a))
  {
  }

  lemma StepKeepsVersions(loop: AppendLoop, x: State, a: Step)
    requires DocumentsInvariant(loop, x) && SessionsInvariant(x) && VersionsInvariant(x) && Possible(loop, x, a)
    ensures VersionsInvariant(Do(loop, x, a))
  {
    var y := Do(loop, x, a);
    StepKeepsHistory(loop, x, a);
    StepKeepsJoinVersion(loop, x, a);
    forall c | c in y.posted ensures ClientVersions(y, c) {
      StepKeepsClientVersions(loop, x, a, c);
    }
  }

  /** What every possible run keeps, without any condition. */
  ghost predicate Safe(loop: AppendLoop, x: State) {
    DocumentsInvariant(loop, x) && SessionsInvariant(x) && VersionsInvariant(x)
  }

  lemma {:induction false} RunStaysSafe(loop: AppendLoop, x: State, run: seq<Step>)
    requires Safe(loop, x) && After(loop, x, run).Some?
    ensures Safe(loop, After(loop, x, run).value)
    decreases |run|
  {
    if run != [] {
      StepKeepsDocuments(loop, x, run[0]);
      StepKeepsSessions(loop, x, run[0]);
      StepKeepsVersions(loop, x, run[0]);
      RunStaysSafe(loop, Do(loop, x, run[0]), run[1..]);
    }
  }

  /** In every interleaving each session gets its snapshot first and only deltas after it, and the versions
      of its deltas strictly increase. */
  lemma DeltasIncrease(loop: AppendLoop, run: seq<Step>, c: S.SessionId)
    requires After(loop, Start(), run).Some? && c in After(loop, Start(), run).value.posted
    ensures var x := After(loop, Start(), run).value; Sequence(x.posted[c], x.ver)
  {
    RunStaysSafe(loop, Start(), run);
    assert ClientVersions(After(loop, Start(), run).value, c);
  }

  /** In every interleaving, how the version of a delta compares with that of the last message of the
      session it is sent to: it is the same exactly for the sessions in `level`, lower exactly for those in
      `ahead`, and in both cases that message is the snapshot; otherwise it is higher. */
  lemma DeltaVersionIff(loop: AppendLoop, run: seq<Step>, c: S.SessionId)
    requires After(loop, Start(), run).Some?
    requires var x := After(loop, Start(), run).value; Possible(loop, x, TickSend(c)) && Connected(x, c)
    ensures var x := After(loop, Start(), run).value;
      x.posted[c] != [] &&
      var last := x.posted[c][|x.posted[c]| - 1];
      && (x.tick.m.version == last.version <==> c in x.past.level)
      && (x.tick.m.version < last.version <==> c in x.past.ahead)
      && (x.tick.m.version <= last.version ==> last.Snapshot?)
  {
    RunStaysSafe(loop, Start(), run);
    assert ClientVersions(After(loop, Start(), run).value, c);
  }

  // ---- Calm runs ----

  /** No snapshot takes its document in the window from the write of `curr_stats` to the copy of the sessions. */
  ghost predicate Calm(x: State, a: Step) {
    a.JoinBuild? ==> !InWindow(x)
  }

  /** A possible run whose every step is calm and whose every tick has an exact diff. */
  ghost predicate CalmRun(loop: AppendLoop, x: State, run: seq<Step>)
    decreases |run|
  {
    run == [] ||
    (Possible(loop, x, run[0]) && Calm(x, run[0]) && (run[0].TickEnd? ==> S.Exact(loop, x.prev, x.curr)) &&
     CalmRun(loop, Do(loop, x, run[0]), run[1..]))
  }

  /** No version is ever below an earlier one of the same session. */
  ghost predicate NeverFalls(sent: seq<S.Message>) {
    forall i, j :: 0 <= i < j < |sent| ==> sent[i].version <= sent[j].version
  }

  /** An overwritten `curr_stats` belongs to a join that has yet to make its snapshot, in the window. */
  ghost predicate CalmInvariant(x: State) {
    && x.past.window == {}
    && (x.tick.Built? && x.tick.goal != x.curr ==> x.join.Filled? || x.join.Marked?)
    && (x.tick.Sending? ==> x.tick.goal == x.curr)
    && (x.past.ahead != {} ==> x.join.Marked? && x.past.ahead == {x.join.c} && !x.tick.Sending?)
    && forall c :: c in x.posted ==> NeverFalls(x.posted[c])
  }

  lemma CalmSend(loop: AppendLoop, x: State, c: S.SessionId)
    requires c in x.posted && ClientVersions(x, c) && c !in x.past.ahead && NeverFalls(x.posted[c])
    requires x.tick.Sending? && c in x.tick.targets
    ensures NeverFalls(x.posted[c] + [x.tick.m])
  {
  }

  lemma StepKeepsCalm(loop: AppendLoop, x: State, a: Step)
    requires Safe(loop, x) && CalmInvariant(x) && Possible(loop, x, a) && Calm(x, a)
    ensures CalmInvariant(Do(loop, x, a))
  {
    var y := Do(loop, x, a);
    forall c | c in y.posted ensures NeverFalls(y.posted[c]) {
      if a.TickSend? && a.c == c && c in x.sessions {
        assert ClientVersions(x, c);
        CalmSend(loop, x, c);
      } else if c in x.posted {
        assert y.posted[c] == x.posted[c];
      }
    }
  }

  lemma {:induction false} CalmRunsAreGood(loop: AppendLoop, x: State, run: seq<Step>)
    requires Safe(loop, x) && CalmInvariant(x) && CalmRun(loop, x, run)
    ensures After(loop, x, run).Some? && CalmInvariant(After(loop, x, run).value)
    ensures GoodTicks(loop, x, run)
    decreases |run|
  {
    if run != [] {
      StepKeepsDocuments(loop, x, run[0]);
      StepKeepsSessions(loop, x, run[0]);
      StepKeepsVersions(loop, x, run[0]);
      StepKeepsCalm(loop, x, run[0]);
      CalmRunsAreGood(loop, Do(loop, x, run[0]), run[1..]);
    }
  }

  /** In every calm interleaving, between ticks each connected client that has its snapshot and has
      drained its inbox holds `curr_stats`; its first message, and no other, was a snapshot; its versions
      never decreased, and those of its deltas strictly increased. */
  lemma CalmRunsConverge(loop: AppendLoop, run: seq<Step>, c: S.SessionId)
    requires CalmRun(loop, Start(), run)
    ensures After(loop, Start(), run).Some?
    ensures var x := After(loop, Start(), run).value;
      && (c in x.posted ==> Sequence(x.posted[c], x.ver) && NeverFalls(x.posted[c]))
      && (Connected(x, c) && Between(x) ==> S.Replay(x.posted[c]) == Some(x.curr))
      && (c in x.sessions && x.join.NoJoin? ==> c in x.posted)
  {
    StartIsInvariant(loop);
    CalmRunsAreGood(loop, Start(), run);
    InSyncIffGoodTicks(loop, Start(), run);
    InvariantMeansInSync(loop, After(loop, Start(), run).value);
    RunStaysSafe(loop, Start(), run);
    if c in After(loop, Start(), run).value.posted { DeltasIncrease(loop, run, c); }
  }
}
