/** The small steps of `SyncMicro` composed with one `SendQueue` per session: what reaches the clients in
    every interleaving. */
module MicroRuns {
  import opened Json
  import opened JsonDiff
  import opened SyncMicro
  import opened MicroVersions
  import Q = SendQueue
  import S = Sync
  import R = SyncRuns

  /** `goals[v]` is what `curr_stats` was when the patch with version `v` was made; it plays no part in the steps. */
  datatype System = System(x: State, links: map<S.SessionId, R.Link>, goals: map<nat, Value>)

  datatype SystemStep =
    | AtServer(a: Step)
    | RunSend(c: S.SessionId)
    | WriteDone(c: S.SessionId, r: Q.WriteResult)

  function Begin(): System {
    System(Start(), map[], map[])
  }

  ghost predicate CanDo(loop: AppendLoop, y: System, b: SystemStep) {
    match b
    case AtServer(a) => Possible(loop, y.x, a)
    case RunSend(c) => c in y.links && c in y.x.posted && y.links[c].taken < |y.x.posted[c]|
    case WriteDone(c, _) => c in y.links && y.links[c].q.inFlight.Some? && y.links[c].q.queue != []
  }

  ghost function Next(loop: AppendLoop, y: System, b: SystemStep): System
    requires CanDo(loop, y, b)
  {
    match b
    case AtServer(a) =>
      System(Do(loop, y.x, a),
             if a.JoinSend? then y.links[y.x.join.c := R.Link(0, Q.Empty(), false)] else y.links,
             if a.TickBuild? then y.goals[y.x.tick.v := y.x.curr] else y.goals)
    case RunSend(c) =>
      var k := y.links[c];
      y.(links := y.links[c := R.Link(k.taken + 1, Q.Enqueued(k.q, y.x.posted[c][k.taken]), k.failed)])
    case WriteDone(c, r) =>
      var k := y.links[c];
      y.(links := y.links[c := R.Link(k.taken, Q.Completed(k.q, r), k.failed || !r.Ok?)])
  }

  /** The system after a run; None when some step was impossible. */
  ghost function Reaches(loop: AppendLoop, run: seq<SystemStep>): Option<System> {
    if run == [] then Some(Begin())
    else
      match Reaches(loop, run[..|run| - 1])
      case None => None
      case Some(y) => if CanDo(loop, y, run[|run| - 1]) then Some(Next(loop, y, run[|run| - 1])) else None
  }

  /** A possible run in which every tick ends with good verdicts. */
  ghost predicate GoodRun(loop: AppendLoop, run: seq<SystemStep>) {
    run == [] ||
    var init, b := run[..|run| - 1], run[|run| - 1];
    && GoodRun(loop, init) && Reaches(loop, init).Some? && CanDo(loop, Reaches(loop, init).value, b)
    && (b.AtServer? ==> GoodStep(loop, Reaches(loop, init).value.x, b.a))
  }

  // ---- The invariant ----

  /** The document that a message stands for: the body of a snapshot, the goal of a delta. */
  function Meant(goals: map<nat, Value>, m: S.Message): Option<Value> {
    match m
    case Snapshot(_, _, body) => Some(body)
    case Delta(v, _) => if v in goals then Some(goals[v]) else None
  }

  /** After message `i` a client that follows `sent` holds the document that the message stands for. */
  ghost predicate Stands(sent: seq<S.Message>, goals: map<nat, Value>, i: nat)
    requires i < |sent|
  {
    Meant(goals, sent[i]).Some? && S.Replay(sent[..i + 1]) == Meant(goals, sent[i])
  }

  ghost predicate StandsUpTo(sent: seq<S.Message>, goals: map<nat, Value>, n: nat)
    requires n <= |sent|
  {
    forall i {:trigger Stands(sent, goals, i)} :: 0 <= i < n ==> Stands(sent, goals, i)
  }

  /** The session's last message is that of the tick which is still being sent. */
  predicate JustSent(x: State, c: S.SessionId) {
    Reached(x, c) && c !in x.past.late
  }

  /** Every message but the last stands, for sessions that have left too; and for a connected session also
      the last, unless the tick that sent it has not ended. */
  ghost predicate MessagesStand(x: State, goals: map<nat, Value>, c: S.SessionId)
    requires c in x.posted
  {
    var sent := x.posted[c];
    && sent != []
    && StandsUpTo(sent, goals, |sent| - 1)
    && (Connected(x, c) ==> if JustSent(x, c) then sent[|sent| - 1] == x.tick.m else StandsUpTo(sent, goals, |sent|))
  }

  ghost predicate GoalsInvariant(x: State, goals: map<nat, Value>) {
    && (x.tick.Built? || x.tick.Sending? ==> x.tick.m.version in goals && goals[x.tick.m.version] == x.tick.goal)
    && (forall v :: v in goals ==> v <= TickVersion(x))
    && (x.tick.Numbered? || x.tick.Wrote? || x.tick.Stamped? ==> TickVersion(x) !in goals)
  }

  ghost predicate LinksInvariant(y: System) {
    && y.links.Keys == y.x.posted.Keys
    && forall c :: c in y.links ==> R.LinkInvariant(y.links[c], y.x.posted[c])
  }

  ghost predicate SystemInvariant(loop: AppendLoop, y: System) {
    && Invariant(loop, y.x) && VersionsInvariant(y.x) && GoalsInvariant(y.x, y.goals) && LinksInvariant(y)
    && forall c :: c in y.x.posted ==> MessagesStand(y.x, y.goals, c)
  }

  lemma StepKeepsGoals(loop: AppendLoop, y: System, a: Step)
    requires GoalsInvariant(y.x, y.goals) && HistoryInvariant(y.x) && Possible(loop, y.x, a)
    ensures var z := Next(loop, y, AtServer(a)); GoalsInvariant(z.x, z.goals)
  {
  }

  lemma StepKeepsLinks(loop: AppendLoop, y: System, a: Step)
    requires LinksInvariant(y) && SessionsInvariant(y.x) && Possible(loop, y.x, a)
    ensures LinksInvariant(Next(loop, y, AtServer(a)))
  {
    var z := Next(loop, y, AtServer(a));
    forall c | c in z.links ensures R.LinkInvariant(z.links[c], z.x.posted[c]) {
      if a.TickSend? && c == a.c && c in y.x.sessions {
        R.LinkSurvivesPosting(y.links[c], y.x.posted[c], y.x.tick.m);
      } else if c in y.links {
        assert R.LinkInvariant(y.links[c], y.x.posted[c]);
      }
    }
  }

  lemma SnapshotStands(m: S.Message, goals: map<nat, Value>)
    requires m.Snapshot?
    ensures StandsUpTo([m], goals, 1)
  {
    ReplaySnapshot(m);
    assert [m][..1] == [m];
  }

  /** More messages and more goals do not change what earlier messages stand for. */
  lemma StillStands(sent: seq<S.Message>, goals: map<nat, Value>, n: nat, more: seq<S.Message>,
          newGoals: map<nat, Value>)
    requires n <= |sent| && StandsUpTo(sent, goals, n) && sent <= more
    requires forall v :: v in goals ==> v in newGoals && newGoals[v] == goals[v]
    ensures StandsUpTo(more, newGoals, n)
  {
    forall i | 0 <= i < n ensures Stands(more, newGoals, i) {
      assert Stands(sent, goals, i);
      assert more[..i + 1] == sent[..i + 1];
    }
  }

  lemma LastStands(sent: seq<S.Message>, goals: map<nat, Value>)
    requires sent != [] && StandsUpTo(sent, goals, |sent| - 1)
    requires Meant(goals, sent[|sent| - 1]).Some? && S.Replay(sent) == Meant(goals, sent[|sent| - 1])
    ensures StandsUpTo(sent, goals, |sent|)
  {
    assert sent[..(|sent| - 1) + 1] == sent;
    assert Stands(sent, goals, |sent| - 1);
  }

  /** A client for which the tick ends well holds its goal. */
  lemma EndKeepsMessages(loop: AppendLoop, y: System, c: S.SessionId)
    requires Possible(loop, y.x, TickEnd) && GoalsInvariant(y.x, y.goals)
    requires c in y.x.posted && MessagesStand(y.x, y.goals, c)
    requires Connected(y.x, c) ==> Holds(loop, y.x, c) && Verdict(loop, y.x, c)
    ensures var z := Next(loop, y, AtServer(TickEnd)); MessagesStand(z.x, z.goals, c)
  {
    if Connected(y.x, c) && JustSent(y.x, c) {
      LastStands(y.x.posted[c], y.goals);
    }
  }

  lemma SendKeepsMessages(loop: AppendLoop, y: System, d: S.SessionId, c: S.SessionId)
    requires Possible(loop, y.x, TickSend(d)) && SessionsInvariant(y.x) && c in y.x.posted
    requires MessagesStand(y.x, y.goals, c)
    ensures var z := Next(loop, y, AtServer(TickSend(d))); MessagesStand(z.x, z.goals, c)
  {
    if c == d && c in y.x.sessions {
      StillStands(y.x.posted[c], y.goals, |y.x.posted[c]|, y.x.posted[c] + [y.x.tick.m], y.goals);
    }
  }

  lemma QuietStepKeepsMessages(loop: AppendLoop, y: System, a: Step, c: S.SessionId)
    requires Possible(loop, y.x, a) && !a.TickSend? && !a.TickEnd? && !a.JoinSend?
    requires DocumentsInvariant(loop, y.x) && SessionsInvariant(y.x) && GoalsInvariant(y.x, y.goals)
    requires c in y.x.posted && MessagesStand(y.x, y.goals, c)
    ensures var z := Next(loop, y, AtServer(a)); MessagesStand(z.x, z.goals, c)
  {
    var z, sent := Next(loop, y, AtServer(a)), y.x.posted[c];
    StillStands(sent, y.goals, |sent| - 1, sent, z.goals);
    if StandsUpTo(sent, y.goals, |sent|) { StillStands(sent, y.goals, |sent|, sent, z.goals); }
  }

  lemma JoinKeepsMessages(loop: AppendLoop, y: System, c: S.SessionId)
    requires DocumentsInvariant(loop, y.x) && SessionsInvariant(y.x) && Possible(loop, y.x, JoinSend)
    requires c in y.x.posted ==> MessagesStand(y.x, y.goals, c)
    requires c in Next(loop, y, AtServer(JoinSend)).x.posted
    ensures var z := Next(loop, y, AtServer(JoinSend)); MessagesStand(z.x, z.goals, c)
  {
    if c == y.x.join.c { SnapshotStands(y.x.join.m, y.goals); }
  }

  lemma StepKeepsMessages(loop: AppendLoop, y: System, a: Step, c: S.SessionId)
    requires SystemInvariant(loop, y) && Possible(loop, y.x, a) && GoodStep(loop, y.x, a)
    requires c in Next(loop, y, AtServer(a)).x.posted
    ensures var z := Next(loop, y, AtServer(a)); MessagesStand(z.x, z.goals, c)
  {
    if a.TickEnd? {
      EndKeepsMessages(loop, y, c);
    } else if a.JoinSend? {
      JoinKeepsMessages(loop, y, c);
    } else if a.TickSend? {
      SendKeepsMessages(loop, y, a.c, c);
    } else {
      QuietStepKeepsMessages(loop, y, a, c);
    }
  }

  lemma QueueStepKeepsLinks(loop: AppendLoop, y: System, b: SystemStep)
    requires LinksInvariant(y) && CanDo(loop, y, b) && !b.AtServer?
    ensures var z := Next(loop, y, b); LinksInvariant(z) && z.x == y.x && z.goals == y.goals
  {
    R.QueueStepKeepsInvariant(y.links[b.c], y.x.posted[b.c], if b.WriteDone? then b.r else Q.Ok);
  }

  lemma NextKeepsInvariant(loop: AppendLoop, y: System, b: SystemStep)
    requires SystemInvariant(loop, y) && CanDo(loop, y, b) && (b.AtServer? ==> GoodStep(loop, y.x, b.a))
    ensures SystemInvariant(loop, Next(loop, y, b))
  {
    if b.AtServer? {
      var z := Next(loop, y, b);
      StepKeepsInvariant(loop, y.x, b.a);
      StepKeepsVersions(loop, y.x, b.a);
      StepKeepsGoals(loop, y, b.a);
      StepKeepsLinks(loop, y, b.a);
      forall c | c in z.x.posted ensures MessagesStand(z.x, z.goals, c) {
        StepKeepsMessages(loop, y, b.a, c);
      }
    } else {
      QueueStepKeepsLinks(loop, y, b);
    }
  }

  lemma BeginIsInvariant(loop: AppendLoop)
    ensures SystemInvariant(loop, Begin())
  {
    StartIsInvariant(loop);
  }

  lemma {:induction false} GoodRunKeepsInvariant(loop: AppendLoop, run: seq<SystemStep>)
    requires GoodRun(loop, run)
    ensures Reaches(loop, run).Some? && SystemInvariant(loop, Reaches(loop, run).value)
  {
    if run == [] {
      BeginIsInvariant(loop);
    } else {
      var init := run[..|run| - 1];
      GoodRunKeepsInvariant(loop, init);
      NextKeepsInvariant(loop, Reaches(loop, init).value, run[|run| - 1]);
    }
  }

  // ---- What reaches a client ----

  /** What has been written is a prefix of what was posted: a snapshot first, deltas after it, and the
      versions of the deltas strictly increasing. */
  ghost predicate InOrder(wire: seq<S.Message>, sent: seq<S.Message>) {
    && wire <= sent
    && (forall i :: 0 <= i < |wire| ==> (wire[i].Snapshot? <==> i == 0))
    && (forall i, j :: 1 <= i < j < |wire| ==> wire[i].version < wire[j].version)
  }

  /** A client that has applied these messages holds the document that the last of them stands for. */
  ghost predicate LeadsToMeant(wire: seq<S.Message>, goals: map<nat, Value>) {
    wire != [] ==> S.Replay(wire).Some? && S.Replay(wire) == Meant(goals, wire[|wire| - 1])
  }

  /** What was written to the session leads to what its last message stands for; unless everything posted
      has been written and the last message is that of a tick still being sent, or the session has left. */
  ghost predicate WireStands(y: System, c: S.SessionId)
    requires c in y.links && c in y.x.posted
  {
    var wire := y.links[c].q.wire;
    wire != y.x.posted[c] || (Connected(y.x, c) && !JustSent(y.x, c)) ==> LeadsToMeant(wire, y.goals)
  }

  /** What a connected client holds that everything posted has been written to. */
  ghost predicate DrainedHolds(loop: AppendLoop, y: System, c: S.SessionId)
    requires c in y.links
  {
    var held := S.Replay(y.links[c].q.wire);
    && (Between(y.x) ==> held == Some(y.x.curr))
    && (Reached(y.x, c) ==> (held == Some(y.x.curr) <==> Verdict(loop, y.x, c)))
  }

  /** End to end, in every interleaving of joins, leaves, ticks, queued sends and completed or failed writes
      whose ticks end with good verdicts: each client's wire is in order and leads to the document that its
      last message stands for, and a drained one to `curr_stats` between ticks. */
  lemma EveryWireStands(loop: AppendLoop, run: seq<SystemStep>, c: S.SessionId)
    requires GoodRun(loop, run) && Reaches(loop, run).Some? && c in Reaches(loop, run).value.links
    ensures var y := Reaches(loop, run).value;
      && c in y.x.posted
      && InOrder(y.links[c].q.wire, y.x.posted[c]) && WireStands(y, c)
      && (Connected(y.x, c) && y.links[c].q.wire == y.x.posted[c] ==> DrainedHolds(loop, y, c))
  {
    GoodRunKeepsInvariant(loop, run);
    var y := Reaches(loop, run).value;
    assert MessagesStand(y.x, y.goals, c) && ClientVersions(y.x, c);
    WireOfLink(y.links[c], y.x.posted[c], y.goals, y.x.ver);
    if Connected(y.x, c) { assert Holds(loop, y.x, c); }
  }

  lemma WireOfLink(k: R.Link, sent: seq<S.Message>, goals: map<nat, Value>, bound: nat)
    requires R.LinkInvariant(k, sent) && Sequence(sent, bound) && StandsUpTo(sent, goals, |sent| - 1)
    ensures InOrder(k.q.wire, sent)
    ensures k.q.wire != sent || StandsUpTo(sent, goals, |sent|) ==> LeadsToMeant(k.q.wire, goals)
  {
    var wire := k.q.wire;
    R.PrefixOfPrefix(wire, k.q.queue, sent, k.taken);
    if wire != [] && (wire != sent || StandsUpTo(sent, goals, |sent|)) {
      assert |wire| == |sent| ==> wire == sent;
      assert Stands(sent, goals, |wire| - 1);
      assert sent[..(|wire| - 1) + 1] == wire && wire[|wire| - 1] == sent[|wire| - 1];
    }
  }

  // ---- The goals are the history of the run ----

  /** Step `i` makes the message with version `v`, whose patch leads to `doc`, the `curr_stats` of that moment. */
  ghost predicate BuiltAt(loop: AppendLoop, run: seq<SystemStep>, i: nat, v: nat, doc: Value)
    requires i < |run|
  {
    var end := Reaches(loop, run[..i + 1]);
    && run[i].AtServer? && run[i].a.TickBuild? && end.Some? && end.value.x.tick.Built?
    && end.value.x.tick.m.version == v && end.value.x.curr == end.value.x.tick.goal == doc
  }

  ghost predicate BuiltOnce(loop: AppendLoop, run: seq<SystemStep>, v: nat, doc: Value) {
    exists i :: 0 <= i < |run| && BuiltAt(loop, run, i, v, doc) && OnlyBuiltAt(loop, run, i, v)
  }

  ghost predicate OnlyBuiltAt(loop: AppendLoop, run: seq<SystemStep>, i: nat, v: nat) {
    forall j, other :: 0 <= j < |run| && BuiltAt(loop, run, j, v, other) ==> j == i
  }

  lemma {:induction false} RunKeepsGoals(loop: AppendLoop, run: seq<SystemStep>)
    requires Reaches(loop, run).Some?
    ensures var y := Reaches(loop, run).value; HistoryInvariant(y.x) && GoalsInvariant(y.x, y.goals)
  {
    if run != [] {
      var init, b := run[..|run| - 1], run[|run| - 1];
      var y := Reaches(loop, init).value;
      RunKeepsGoals(loop, init);
      if b.AtServer? {
        StepKeepsHistory(loop, y.x, b.a);
        StepKeepsGoals(loop, y, b.a);
      }
    }
  }

  lemma {:induction false} GoalKept(loop: AppendLoop, run: seq<SystemStep>, i: nat, v: nat, doc: Value)
    requires Reaches(loop, run).Some? && i < |run| && BuiltAt(loop, run, i, v, doc)
    ensures v in Reaches(loop, run).value.goals
    decreases |run|
  {
    var init := run[..|run| - 1];
    if i == |init| {
      assert run[..i + 1] == run;
      RunKeepsGoals(loop, run);
    } else {
      assert init[..i + 1] == run[..i + 1];
      GoalKept(loop, init, i, v, doc);
    }
  }

  lemma {:induction false} PrefixReached(loop: AppendLoop, run: seq<SystemStep>, n: nat)
    requires Reaches(loop, run).Some? && n <= |run|
    ensures Reaches(loop, run[..n]).Some?
    decreases |run|
  {
    if n < |run| {
      PrefixReached(loop, run[..|run| - 1], n);
      assert run[..|run| - 1][..n] == run[..n];
    } else {
      assert run[..n] == run;
    }
  }

  /** Two messages of ticks have two versions. */
  lemma BuildsDiffer(loop: AppendLoop, run: seq<SystemStep>, i: nat, j: nat, v: nat, w: nat, one: Value, two: Value)
    requires Reaches(loop, run).Some? && i < j < |run| && BuiltAt(loop, run, i, v, one) && BuiltAt(loop, run, j, w, two)
    ensures v != w
  {
    var before := run[..j];
    PrefixReached(loop, run, j);
    assert before[..i + 1] == run[..i + 1];
    GoalKept(loop, before, i, v, one);
    RunKeepsGoals(loop, before);
    assert run[..j + 1][..j] == before;
  }

  lemma BuiltOnly(loop: AppendLoop, run: seq<SystemStep>, i: nat, v: nat, doc: Value)
    requires Reaches(loop, run).Some? && i < |run| && BuiltAt(loop, run, i, v, doc)
    ensures BuiltOnce(loop, run, v, doc)
  {
    forall j, other | 0 <= j < |run| && BuiltAt(loop, run, j, v, other) ensures j == i {
      if j < i { BuildsDiffer(loop, run, j, i, v, v, other, doc); }
      if i < j { BuildsDiffer(loop, run, i, j, v, v, doc, other); }
    }
  }

  /** What a delta stands for is the `curr_stats` from which the one tick with its version made the patch. */
  lemma {:induction false} GoalIsHistory(loop: AppendLoop, run: seq<SystemStep>, v: nat)
    requires Reaches(loop, run).Some? && v in Reaches(loop, run).value.goals
    ensures BuiltOnce(loop, run, v, Reaches(loop, run).value.goals[v])
  {
    var init, b := run[..|run| - 1], run[|run| - 1];
    var goals := Reaches(loop, run).value.goals;
    if b.AtServer? && b.a.TickBuild? && v == Reaches(loop, init).value.x.tick.v {
      assert run[..(|run| - 1) + 1] == run;
      BuiltOnly(loop, run, |run| - 1, v, goals[v]);
    } else {
      GoalIsHistory(loop, init, v);
      var i :| 0 <= i < |init| && BuiltAt(loop, init, i, v, goals[v]) && OnlyBuiltAt(loop, init, i, v);
      assert init[..i + 1] == run[..i + 1];
      BuiltOnly(loop, run, i, v, goals[v]);
    }
  }

  // ---- Leaving, and the queues ----

  lemma {:induction false} RunIsSafe(loop: AppendLoop, run: seq<SystemStep>)
    requires Reaches(loop, run).Some?
    ensures var x := Reaches(loop, run).value.x; DocumentsInvariant(loop, x) && SessionsInvariant(x)
  {
    if run != [] {
      var init, b := run[..|run| - 1], run[|run| - 1];
      RunIsSafe(loop, init);
      if b.AtServer? {
        StepKeepsDocuments(loop, Reaches(loop, init).value.x, b.a);
        StepKeepsSessions(loop, Reaches(loop, init).value.x, b.a);
      }
    }
  }

  predicate Gone(x: State, c: S.SessionId) {
    c in x.posted && c !in x.sessions
  }

  lemma StepAfterLeave(loop: AppendLoop, y: System, b: SystemStep, c: S.SessionId)
    requires SessionsInvariant(y.x) && CanDo(loop, y, b) && Gone(y.x, c)
    ensures var z := Next(loop, y, b); Gone(z.x, c) && z.x.posted[c] == y.x.posted[c]
  {
  }

  lemma {:induction false} NothingWhenGone(loop: AppendLoop, run: seq<SystemStep>, more: seq<SystemStep>,
          c: S.SessionId)
    requires Reaches(loop, run + more).Some? && Reaches(loop, run).Some? && Gone(Reaches(loop, run).value.x, c)
    ensures var x, z := Reaches(loop, run).value.x, Reaches(loop, run + more).value.x;
      Gone(z, c) && z.posted[c] == x.posted[c]
    decreases |more|
  {
    if more == [] {
      assert run + more == run;
    } else {
      var init := more[..|more| - 1];
      assert (run + more)[..|run + more| - 1] == run + init;
      NothingWhenGone(loop, run, init, c);
      RunIsSafe(loop, run + init);
      StepAfterLeave(loop, Reaches(loop, run + init).value, more[|more| - 1], c);
    }
  }

  /** A session that leaves gets nothing more, in any interleaving; also not from a tick that has copied the
      set of sessions before. */
  lemma LeaveIsFinal(loop: AppendLoop, run: seq<SystemStep>, more: seq<SystemStep>, c: S.SessionId)
    requires Reaches(loop, run + [AtServer(Leave(c))] + more).Some?
    requires Reaches(loop, run).Some? && CanDo(loop, Reaches(loop, run).value, AtServer(Leave(c)))
    requires c in Reaches(loop, run).value.x.posted
    ensures var x, z := Reaches(loop, run).value.x, Reaches(loop, run + [AtServer(Leave(c))] + more).value.x;
      c !in z.sessions && c in z.posted && z.posted[c] == x.posted[c]
  {
    var left := run + [AtServer(Leave(c))];
    assert left[..|left| - 1] == run;
    NothingWhenGone(loop, left, more, c);
  }

  /** How many of the session's writes have succeeded. */
  function Successes(run: seq<SystemStep>, c: S.SessionId): nat {
    if run == [] then 0
    else Successes(run[..|run| - 1], c) + if run[|run| - 1] == WriteDone(c, Q.Ok) then 1 else 0
  }

  /** How many of the session's posted sends have run. */
  function SendsRun(run: seq<SystemStep>, c: S.SessionId): nat {
    if run == [] then 0
    else SendsRun(run[..|run| - 1], c) + if run[|run| - 1] == RunSend(c) then 1 else 0
  }

  ghost predicate LinkCounts(y: System, c: S.SessionId, sends: nat, successes: nat) {
    && (c in y.links <==> c in y.x.posted)
    && if c in y.links then y.links[c].taken == sends && |y.links[c].q.wire| == successes
       else sends == 0 && successes == 0
  }

  lemma StepKeepsLinkCounts(loop: AppendLoop, y: System, b: SystemStep, c: S.SessionId, sends: nat, successes: nat)
    requires SessionsInvariant(y.x) && CanDo(loop, y, b) && LinkCounts(y, c, sends, successes)
    ensures LinkCounts(Next(loop, y, b), c, sends + if b == RunSend(c) then 1 else 0,
                       successes + if b == WriteDone(c, Q.Ok) then 1 else 0)
  {
  }

  /** Each send that runs takes the next posted message into the queue, and each successful write puts the
      next one on the wire. */
  lemma {:induction false} LinkProgress(loop: AppendLoop, run: seq<SystemStep>, c: S.SessionId)
    requires Reaches(loop, run).Some?
    ensures LinkCounts(Reaches(loop, run).value, c, SendsRun(run, c), Successes(run, c))
  {
    if run != [] {
      var init := run[..|run| - 1];
      LinkProgress(loop, init, c);
      RunIsSafe(loop, init);
      StepKeepsLinkCounts(loop, Reaches(loop, init).value, run[|run| - 1], c, SendsRun(init, c), Successes(init, c));
    }
  }
}
