/** The server of `Sync` composed with one `SendQueue` per session: what reaches the clients over whole runs. */
module SyncRuns {
  import opened Json
  import opened Patch
  import opened JsonDiff
  import opened DiffTheorems
  import opened DirtyKeys
  import opened SendQueue
  import opened Sync

  /** `taken` counts the posted `on_send` calls that have run; they run in the order of posting. */
  datatype Link = Link(taken: nat, q: Queue<Message>, failed: bool)

  datatype System = System(server: Server, links: map<SessionId, Link>)

  datatype SystemStep =
    | AtServer(step: Sync.Step)
    | RunSend(c: SessionId)
    | WriteDone(c: SessionId, r: WriteResult)

  function Begin(): System {
    System(Sync.Start(), map[])
  }

  ghost predicate CanDo(loop: AppendLoop, y: System, a: SystemStep) {
    match a
    case AtServer(step) => Sync.Possible(loop, y.server, step)
    case RunSend(c) => c in y.links && c in y.server.posted && y.links[c].taken < |y.server.posted[c]|
    case WriteDone(c, _) => c in y.links && y.links[c].q.inFlight.Some? && y.links[c].q.queue != []
  }

  ghost function Next(loop: AppendLoop, y: System, a: SystemStep): System
    requires CanDo(loop, y, a)
  {
    match a
    case AtServer(Join(c, id, stats)) =>
      System(Sync.Do(y.server, a.step), y.links[c := Link(0, SendQueue.Empty(), false)])
    case AtServer(step) =>
      y.(server := Sync.Do(y.server, step))
    case RunSend(c) =>
      var k := y.links[c];
      y.(links := y.links[c := Link(k.taken + 1, Enqueued(k.q, y.server.posted[c][k.taken]), k.failed)])
    case WriteDone(c, r) =>
      var k := y.links[c];
      y.(links := y.links[c := Link(k.taken, Completed(k.q, r), k.failed || !r.Ok?)])
  }

  /** The system after a run; None when some step was impossible. */
  ghost function After(loop: AppendLoop, run: seq<SystemStep>): Option<System> {
    if run == [] then Some(Begin())
    else
      match After(loop, run[..|run| - 1])
      case None => None
      case Some(y) => if CanDo(loop, y, run[|run| - 1]) then Some(Next(loop, y, run[|run| - 1])) else None
  }

  predicate IsTick(a: SystemStep) {
    a.AtServer? && a.step.Tick?
  }

  predicate Publishes(a: SystemStep) {
    a.AtServer? && !a.step.Leave?
  }

  ghost predicate ExactIfTick(loop: AppendLoop, y: System, a: SystemStep) {
    IsTick(a) ==> Exact(loop, y.server.prev, a.step.stats)
  }

  /** Every tick of the run has an exact diff; with the repaired loop, every run has. */
  ghost predicate TicksExact(loop: AppendLoop, run: seq<SystemStep>) {
    run == [] ||
    var init, a := run[..|run| - 1], run[|run| - 1];
    TicksExact(loop, init) && (After(loop, init).Some? ==> ExactIfTick(loop, After(loop, init).value, a))
  }

  ghost predicate LinkInvariant(k: Link, sent: seq<Message>) {
    k.taken <= |sent| && Consistent(k.q, sent[..k.taken], k.failed)
  }

  ghost predicate LinksInvariant(y: System) {
    && y.links.Keys == y.server.posted.Keys
    && forall c :: c in y.links ==> LinkInvariant(y.links[c], y.server.posted[c])
  }

  ghost predicate Invariant(y: System) {
    ServerInvariant(y.server) && LinksInvariant(y)
  }

  lemma LinkSurvivesPosting(k: Link, sent: seq<Message>, m: Message)
    requires LinkInvariant(k, sent)
    ensures LinkInvariant(k, sent + [m])
  {
    assert (sent + [m])[..k.taken] == sent[..k.taken];
  }

  lemma JoinKeepsLinks(loop: AppendLoop, y: System, step: Sync.Step)
    requires LinksInvariant(y) && CanDo(loop, y, AtServer(step)) && step.Join?
    ensures LinksInvariant(Next(loop, y, AtServer(step)))
  {
  }

  lemma TickKeepsLinks(loop: AppendLoop, y: System, step: Sync.Step)
    requires LinksInvariant(y) && CanDo(loop, y, AtServer(step)) && step.Tick?
    ensures LinksInvariant(Next(loop, y, AtServer(step)))
  {
    var z, m := Next(loop, y, AtServer(step)), Delta(y.server.ver + 1, step.patch);
    forall c | c in z.links ensures LinkInvariant(z.links[c], z.server.posted[c]) {
      LinkSurvivesPosting(y.links[c], y.server.posted[c], m);
    }
  }

  lemma QueueStepKeepsInvariant(k: Link, sent: seq<Message>, r: WriteResult)
    requires LinkInvariant(k, sent)
    ensures k.taken < |sent| ==> LinkInvariant(Link(k.taken + 1, Enqueued(k.q, sent[k.taken]), k.failed), sent)
    ensures k.q.inFlight.Some? && k.q.queue != [] ==>
      LinkInvariant(Link(k.taken, Completed(k.q, r), k.failed || !r.Ok?), sent)
  {
    if k.taken < |sent| {
      StepKeepsConsistent(k.q, sent[..k.taken], k.failed, Send(sent[k.taken]));
      assert sent[..k.taken] + [sent[k.taken]] == sent[..k.taken + 1];
    }
    if k.q.inFlight.Some? && k.q.queue != [] {
      StepKeepsConsistent(k.q, sent[..k.taken], k.failed, Complete(r));
      assert sent[..k.taken] + [] == sent[..k.taken];
    }
  }

  lemma QueueStepKeepsLinks(loop: AppendLoop, y: System, a: SystemStep)
    requires LinksInvariant(y) && CanDo(loop, y, a) && !a.AtServer?
    ensures LinksInvariant(Next(loop, y, a))
  {
    QueueStepKeepsInvariant(y.links[a.c], y.server.posted[a.c], if a.WriteDone? then a.r else Ok);
  }

  lemma NextKeepsInvariant(loop: AppendLoop, y: System, a: SystemStep)
    requires Invariant(y) && CanDo(loop, y, a)
    requires ExactIfTick(loop, y, a)
    ensures Invariant(Next(loop, y, a))
  {
    if a.AtServer? {
      StepKeepsInvariant(loop, y.server, a.step);
      if a.step.Join? { JoinKeepsLinks(loop, y, a.step); }
      if a.step.Tick? { TickKeepsLinks(loop, y, a.step); }
    } else {
      QueueStepKeepsLinks(loop, y, a);
    }
  }

  lemma {:induction false} RunKeepsInvariant(loop: AppendLoop, run: seq<SystemStep>)
    requires After(loop, run).Some? && TicksExact(loop, run)
    ensures Invariant(After(loop, run).value)
  {
    if run != [] {
      var before := run[..|run| - 1];
      RunKeepsInvariant(loop, before);
      NextKeepsInvariant(loop, After(loop, before).value, run[|run| - 1]);
    }
  }

  // ---- Exactly which runs keep all clients current ----

  /** What has been posted to each connected client leads to the current document. */
  ghost predicate AllCurrent(s: Server) {
    forall c :: c in s.sessions ==> c in s.posted && Replay(s.posted[c]) == Some(s.curr)
  }

  /** At the start and after each step of the run all clients are current. */
  ghost predicate AlwaysCurrent(loop: AppendLoop, run: seq<SystemStep>) {
    && (run == [] || AlwaysCurrent(loop, run[..|run| - 1]))
    && (After(loop, run).Some? ==> AllCurrent(After(loop, run).value.server))
  }

  lemma InvariantMeansAllCurrent(y: System)
    requires Invariant(y)
    ensures AllCurrent(y.server)
  {
    forall c | c in y.server.sessions
      ensures c in y.server.posted && Replay(y.server.posted[c]) == Some(y.server.curr)
    {
      assert ClientInvariant(y.server, c);
    }
  }

  /** A step leaves all clients current, except a tick whose diff is not exact: it leaves every client behind. */
  lemma NextIsCurrentIff(loop: AppendLoop, y: System, a: SystemStep)
    requires Invariant(y) && CanDo(loop, y, a)
    ensures AllCurrent(Next(loop, y, a).server) <==> ExactIfTick(loop, y, a)
  {
    if ExactIfTick(loop, y, a) {
      NextKeepsInvariant(loop, y, a);
      InvariantMeansAllCurrent(Next(loop, y, a));
    } else {
      var c :| c in y.server.sessions;
      TickReachesClientsIff(loop, y.server, a.step.stats, a.step.patch, c);
    }
  }

  /** Over every run: after each of its steps all connected clients are current, if and only if every one
      of its ticks has an exact diff. */
  lemma {:induction false} RunsTrackIff(loop: AppendLoop, run: seq<SystemStep>)
    requires After(loop, run).Some?
    ensures AlwaysCurrent(loop, run) <==> TicksExact(loop, run)
  {
    if run != [] {
      var before := run[..|run| - 1];
      RunsTrackIff(loop, before);
      if TicksExact(loop, before) {
        RunKeepsInvariant(loop, before);
        NextIsCurrentIff(loop, After(loop, before).value, run[|run| - 1]);
      }
    }
  }

  // ---- The log is the history of the run ----

  /** Exactly one step of the run is the join or tick numbered `v`, and it left `doc` as `curr_stats`. */
  ghost predicate IsCurrStatsAt(loop: AppendLoop, run: seq<SystemStep>, v: nat, doc: Value) {
    exists i :: 0 <= i < |run| && WasPublished(loop, run, i, v, doc) && OnlyPublishedAt(loop, run, i, v)
  }

  /** Step `i` is a join or a tick, and left the server with version `v` and `doc` as `curr_stats`. */
  ghost predicate WasPublished(loop: AppendLoop, run: seq<SystemStep>, i: nat, v: nat, doc: Value)
    requires i < |run|
  {
    var end := After(loop, run[..i + 1]);
    Publishes(run[i]) && end.Some? && end.value.server.ver == v && end.value.server.curr == doc
  }

  ghost predicate OnlyPublishedAt(loop: AppendLoop, run: seq<SystemStep>, i: nat, v: nat) {
    forall j, other :: 0 <= j < |run| && WasPublished(loop, run, j, v, other) ==> j == i
  }

  /** Versions never fall, and each join or tick raises them. */
  lemma {:induction false} VersionsRise(loop: AppendLoop, run: seq<SystemStep>, i: nat)
    requires After(loop, run).Some? && i < |run|
    ensures After(loop, run[..i]).Some?
    ensures var before, after := After(loop, run[..i]).value.server.ver, After(loop, run).value.server.ver;
      before <= after && (Publishes(run[|run| - 1]) ==> before < after)
    decreases |run|
  {
    var init := run[..|run| - 1];
    assert init[..i] == run[..i];
    if i < |init| { VersionsRise(loop, init, i); }
  }

  lemma {:induction false} PrefixPossible(loop: AppendLoop, run: seq<SystemStep>, n: nat)
    requires After(loop, run).Some? && n <= |run|
    ensures After(loop, run[..n]).Some?
    decreases |run|
  {
    if n < |run| {
      PrefixPossible(loop, run[..|run| - 1], n);
      assert run[..|run| - 1][..n] == run[..n];
    } else {
      assert run[..n] == run;
    }
  }

  lemma PrefixOfRun(run: seq<SystemStep>, j: nat, i: nat)
    requires i <= j <= |run|
    ensures run[..j][..i] == run[..i]
  {
  }

  /** What is published later has a higher version. */
  lemma PublishedInOrder(loop: AppendLoop, run: seq<SystemStep>, i: nat, j: nat, v: nat, w: nat, one: Value, two: Value)
    requires After(loop, run).Some? && i < j < |run|
    requires WasPublished(loop, run, i, v, one) && WasPublished(loop, run, j, w, two)
    ensures v < w
  {
    PrefixPossible(loop, run, j + 1);
    PrefixOfRun(run, j + 1, i + 1);
    VersionsRise(loop, run[..j + 1], i + 1);
  }

  lemma PublishedOnly(loop: AppendLoop, run: seq<SystemStep>, i: nat, v: nat, doc: Value)
    requires After(loop, run).Some? && i < |run| && WasPublished(loop, run, i, v, doc)
    ensures IsCurrStatsAt(loop, run, v, doc)
  {
    forall j, other | 0 <= j < |run| && WasPublished(loop, run, j, v, other) ensures j == i {
      if j < i { PublishedInOrder(loop, run, j, i, v, v, other, doc); }
      if i < j { PublishedInOrder(loop, run, i, j, v, v, doc, other); }
    }
  }

  /** Every version in the log is that of exactly one join or tick of the run, with `curr_stats` as it was then. */
  lemma {:induction false} LogIsHistory(loop: AppendLoop, run: seq<SystemStep>, v: nat)
    requires After(loop, run).Some? && v in After(loop, run).value.server.log
    ensures IsCurrStatsAt(loop, run, v, After(loop, run).value.server.log[v])
  {
    var before, a := run[..|run| - 1], run[|run| - 1];
    var z := After(loop, run).value;
    if Publishes(a) && z.server.ver == v {
      assert run[..(|run| - 1) + 1] == run;
      PublishedOnly(loop, run, |run| - 1, v, z.server.log[v]);
    } else {
      LogIsHistory(loop, before, v);
      var i :| 0 <= i < |before| && WasPublished(loop, before, i, v, z.server.log[v]) &&
        OnlyPublishedAt(loop, before, i, v);
      assert before[..i + 1] == run[..i + 1];
      PublishedOnly(loop, run, i, v, z.server.log[v]);
    }
  }

  /** What has been written is a prefix of what was posted, starts with the only snapshot, and has
      strictly increasing versions. */
  ghost predicate InOrder(wire: seq<Message>, sent: seq<Message>) {
    && wire <= sent
    && (wire != [] ==> wire[0].Snapshot?)
    && (forall i, j :: 0 <= i < j < |wire| ==> wire[j].Delta? && wire[i].version < wire[j].version)
  }

  /** A client that has applied these messages holds the document that the last of them stands for. */
  ghost predicate LeadsToLast(wire: seq<Message>, log: map<nat, Value>) {
    wire != [] ==> wire[|wire| - 1].version in log && Replay(wire) == Some(log[wire[|wire| - 1].version])
  }

  /** A client that has applied these messages holds exactly the `curr_stats` of the join or tick of the
      run that made the last of them. */
  ghost predicate LeadsToHistory(loop: AppendLoop, run: seq<SystemStep>, wire: seq<Message>) {
    wire != [] ==> Replay(wire).Some? && IsCurrStatsAt(loop, run, wire[|wire| - 1].version, Replay(wire).value)
  }

  /** End to end: whatever ticks, joins, leaves, queued sends and completed or failed writes have
      happened, what was written to a client's wire is in order and leads to the `curr_stats` of the join
      or tick that made the last of these messages. */
  lemma EndToEnd(loop: AppendLoop, run: seq<SystemStep>, c: SessionId)
    requires After(loop, run).Some? && TicksExact(loop, run)
    requires c in After(loop, run).value.links
    ensures c in After(loop, run).value.server.posted
    ensures InOrder(After(loop, run).value.links[c].q.wire, After(loop, run).value.server.posted[c])
    ensures LeadsToHistory(loop, run, After(loop, run).value.links[c].q.wire)
  {
    RunKeepsInvariant(loop, run);
    WireIsTruthful(After(loop, run).value, c);
    LastIsHistory(loop, run, After(loop, run).value.links[c].q.wire);
  }

  lemma LastIsHistory(loop: AppendLoop, run: seq<SystemStep>, wire: seq<Message>)
    requires After(loop, run).Some? && LeadsToLast(wire, After(loop, run).value.server.log)
    ensures LeadsToHistory(loop, run, wire)
  {
    if wire != [] {
      LogIsHistory(loop, run, wire[|wire| - 1].version);
    }
  }

  lemma WireIsTruthful(y: System, c: SessionId)
    requires Invariant(y) && c in y.links
    ensures c in y.server.posted
    ensures InOrder(y.links[c].q.wire, y.server.posted[c]) && LeadsToLast(y.links[c].q.wire, y.server.log)
  {
    assert ClientInvariant(y.server, c);
    WireOfLink(y.links[c], y.server.posted[c], y.server.log, y.server.ver);
  }

  /** What a consistent link has written, of messages that are tracked. */
  lemma WireOfLink(k: Link, sent: seq<Message>, log: map<nat, Value>, ver: nat)
    requires LinkInvariant(k, sent) && Tracks(sent, log, ver)
    ensures InOrder(k.q.wire, sent) && LeadsToLast(k.q.wire, log)
  {
    var wire := k.q.wire;
    PrefixOfPrefix(wire, k.q.queue, sent, k.taken);
    if wire != [] {
      assert TrueAt(sent, log, |wire| - 1);
      assert sent[..(|wire| - 1) + 1] == wire && wire[|wire| - 1] == sent[|wire| - 1];
    }
  }

  lemma PrefixOfPrefix(wire: seq<Message>, queue: seq<Message>, sent: seq<Message>, taken: nat)
    requires taken <= |sent| && wire + queue == sent[..taken]
    ensures |wire| <= |sent| && wire == sent[..|wire|]
  {
    assert wire == (wire + queue)[..|wire|] == sent[..taken][..|wire|];
  }

  /** A connected client whose inbox is drained holds the server's current document. */
  lemma DrainedClientIsCurrent(loop: AppendLoop, run: seq<SystemStep>, c: SessionId)
    requires After(loop, run).Some? && TicksExact(loop, run)
    requires c in After(loop, run).value.server.sessions
    ensures var y := After(loop, run).value;
      c in y.links && c in y.server.posted &&
      (y.links[c].q.wire == y.server.posted[c] ==> Replay(y.links[c].q.wire) == Some(y.server.curr))
  {
    RunKeepsInvariant(loop, run);
    assert ClientInvariant(After(loop, run).value.server, c);
  }

  /** A session that has left gets nothing more posted, whatever happens afterwards. */
  lemma {:induction false} NothingAfterLeave(loop: AppendLoop, run: seq<SystemStep>, more: seq<SystemStep>,
          c: SessionId)
    requires After(loop, run + more).Some? && After(loop, run).Some?
    requires var y := After(loop, run).value.server; c in y.posted && c !in y.sessions
    ensures var y, z := After(loop, run).value.server, After(loop, run + more).value.server;
      c in z.posted && c !in z.sessions && z.posted[c] == y.posted[c]
    decreases |more|
  {
    if more == [] {
      assert run + more == run;
    } else {
      var init := more[..|more| - 1];
      assert (run + more)[..|run + more| - 1] == run + init;
      NothingAfterLeave(loop, run, init, c);
    }
  }

  lemma {:induction false} RepairedRunsAreExact(run: seq<SystemStep>)
    ensures TicksExact(Repaired, run)
  {
    if run != [] { RepairedRunsAreExact(run[..|run| - 1]); }
  }

  /** With the repaired append loop all connected clients are current after every step of every run. */
  lemma RepairedRunsAlwaysCurrent(run: seq<SystemStep>)
    requires After(Repaired, run).Some?
    ensures AlwaysCurrent(Repaired, run)
  {
    RepairedRunsAreExact(run);
    RunsTrackIff(Repaired, run);
  }

  // ---- The queues move on ----

  /** How many of the session's writes have succeeded. */
  function Successes(run: seq<SystemStep>, c: SessionId): nat {
    if run == [] then 0
    else Successes(run[..|run| - 1], c) + if run[|run| - 1] == WriteDone(c, Ok) then 1 else 0
  }

  /** How many of the session's posted sends have run. */
  function SendsRun(run: seq<SystemStep>, c: SessionId): nat {
    if run == [] then 0
    else SendsRun(run[..|run| - 1], c) + if run[|run| - 1] == RunSend(c) then 1 else 0
  }

  /** Each send that runs takes the next posted message into the queue, and each successful write puts the
      next one on the wire. */
  lemma {:induction false} LinkProgress(loop: AppendLoop, run: seq<SystemStep>, c: SessionId)
    requires After(loop, run).Some?
    ensures var y := After(loop, run).value;
      && (c in y.links <==> c in y.server.posted)
      && if c in y.links then y.links[c].taken == SendsRun(run, c) && |y.links[c].q.wire| == Successes(run, c)
         else SendsRun(run, c) == 0 && Successes(run, c) == 0
  {
    if run != [] {
      LinkProgress(loop, run[..|run| - 1], c);
    }
  }

  // ---- The server's state, told from the run alone ----

  predicate IsJoin(a: SystemStep, c: SessionId) {
    a.AtServer? && a.step.Join? && a.step.c == c
  }

  predicate IsLeave(a: SystemStep, c: SessionId) {
    a.AtServer? && a.step.Leave? && a.step.c == c
  }

  /** The session has joined, and has not left since. */
  ghost predicate IsConnected(run: seq<SystemStep>, c: SessionId) {
    exists i :: 0 <= i < |run| && IsJoin(run[i], c) && forall j :: i < j < |run| ==> !IsLeave(run[j], c)
  }

  /** How many joins and ticks there were. */
  function Publications(run: seq<SystemStep>): nat {
    if run == [] then 0 else Publications(run[..|run| - 1]) + if Publishes(run[|run| - 1]) then 1 else 0
  }

  /** The document of the last tick; null before the first one. */
  function LastTicked(run: seq<SystemStep>): Value {
    if run == [] then Null
    else if IsTick(run[|run| - 1]) then run[|run| - 1].step.stats
    else LastTicked(run[..|run| - 1])
  }

  /** The document of the first join; null before it. */
  function FirstJoined(run: seq<SystemStep>): Value {
    if run == [] then Null
    else
      var before, a := FirstJoined(run[..|run| - 1]), run[|run| - 1];
      if before == Null && a.AtServer? && a.step.Join? then a.step.stats else before
  }

  /** What is current: the document of the last tick, or before the first tick that of the first join. */
  function Current(run: seq<SystemStep>): Value {
    if LastTicked(run) != Null then LastTicked(run) else FirstJoined(run)
  }

  /** What a session has been sent: at its join the current document with its id, and at every tick while it
      was connected the patch of the tick, each with the number of joins and ticks so far. */
  ghost function Inbox(run: seq<SystemStep>, c: SessionId): seq<Message> {
    if run == [] then []
    else
      var before, a := run[..|run| - 1], run[|run| - 1];
      Inbox(before, c) +
        if IsJoin(a, c) then [Snapshot(Publications(run), a.step.id, Current(run))]
        else if IsTick(a) && IsConnected(before, c) then [Delta(Publications(run), a.step.patch)]
        else []
  }

  lemma ConnectedStep(before: seq<SystemStep>, a: SystemStep, c: SessionId)
    ensures IsConnected(before + [a], c) <==> IsJoin(a, c) || (IsConnected(before, c) && !IsLeave(a, c))
  {
    var run := before + [a];
    if IsConnected(run, c) {
      var i :| 0 <= i < |run| && IsJoin(run[i], c) && forall j :: i < j < |run| ==> !IsLeave(run[j], c);
      assert i < |before| ==> before[i] == run[i] && !IsLeave(run[|before|], c);
      assert forall j :: 0 <= j < |before| ==> before[j] == run[j];
    }
    if IsJoin(a, c) { assert IsJoin(run[|before|], c); }
    if IsConnected(before, c) && !IsLeave(a, c) {
      var i :| 0 <= i < |before| && IsJoin(before[i], c) && forall j :: i < j < |before| ==> !IsLeave(before[j], c);
      assert IsJoin(run[i], c);
    }
  }

  /** The counter and the two documents of the server are those of the run. */
  lemma {:induction false} DocumentsAreHistory(loop: AppendLoop, run: seq<SystemStep>)
    requires After(loop, run).Some?
    ensures var s := After(loop, run).value.server;
      s.ver == Publications(run) && s.prev == LastTicked(run) && s.curr == Current(run)
  {
    if run != [] {
      DocumentsAreHistory(loop, run[..|run| - 1]);
    }
  }

  /** The set of sessions holds exactly those that have joined and have not left since. */
  lemma {:induction false} SessionsAreHistory(loop: AppendLoop, run: seq<SystemStep>, c: SessionId)
    requires After(loop, run).Some?
    ensures c in After(loop, run).value.server.sessions <==> IsConnected(run, c)
  {
    if run != [] {
      var before, a := run[..|run| - 1], run[|run| - 1];
      SessionsAreHistory(loop, before, c);
      ConnectedStep(before, a, c);
      assert run == before + [a];
    }
  }

  lemma SessionsWereSentTo(loop: AppendLoop, run: seq<SystemStep>)
    requires After(loop, run).Some?
    ensures var s := After(loop, run).value.server; s.sessions <= s.posted.Keys
  {
    if run != [] {
      SessionsWereSentTo(loop, run[..|run| - 1]);
    }
  }

  function PostedTo(s: Server, c: SessionId): seq<Message> {
    if c in s.posted then s.posted[c] else []
  }

  lemma StepPosts(loop: AppendLoop, y: System, a: SystemStep, c: SessionId)
    requires CanDo(loop, y, a) && y.server.sessions <= y.server.posted.Keys
    ensures var z := Next(loop, y, a);
      PostedTo(z.server, c) == PostedTo(y.server, c) +
        if IsJoin(a, c) then [Snapshot(z.server.ver, a.step.id, z.server.curr)]
        else if IsTick(a) && c in y.server.sessions then [Delta(z.server.ver, a.step.patch)]
        else []
  {
  }

  /** What was posted to a session is exactly what the run says it should have been sent. */
  lemma {:induction false} PostedIsHistory(loop: AppendLoop, run: seq<SystemStep>, c: SessionId)
    requires After(loop, run).Some?
    ensures PostedTo(After(loop, run).value.server, c) == Inbox(run, c)
  {
    if run != [] {
      var before := run[..|run| - 1];
      PostedIsHistory(loop, before, c);
      SessionsAreHistory(loop, before, c);
      SessionsWereSentTo(loop, before);
      DocumentsAreHistory(loop, run);
      StepPosts(loop, After(loop, before).value, run[|run| - 1], c);
    }
  }

  // ---- Leaving ----

  /** A session that leaves is not in the set any more and gets nothing more, whatever happens afterwards. */
  lemma LeaveIsFinal(loop: AppendLoop, run: seq<SystemStep>, more: seq<SystemStep>, c: SessionId)
    requires After(loop, run + [AtServer(Leave(c))] + more).Some?
    requires After(loop, run).Some? && c in After(loop, run).value.server.posted
    ensures var y, z := After(loop, run).value.server, After(loop, run + [AtServer(Leave(c))] + more).value.server;
      c !in z.sessions && c in z.posted && z.posted[c] == y.posted[c]
  {
    var left := run + [AtServer(Leave(c))];
    assert left[..|left| - 1] == run;
    AfterOneMore(loop, run, AtServer(Leave(c)));
    SessionsAreHistory(loop, left, c);
    ConnectedStep(run, AtServer(Leave(c)), c);
    NothingAfterLeave(loop, left, more, c);
  }

  /** Nobody else notices: every other session stays connected, and no inbox, document or number changes. */
  lemma LeaveChangesNothingElse(loop: AppendLoop, run: seq<SystemStep>, c: SessionId, d: SessionId)
    requires After(loop, run).Some? && c != d
    ensures After(loop, run + [AtServer(Leave(c))]).Some?
    ensures var y, z := After(loop, run).value, After(loop, run + [AtServer(Leave(c))]).value;
      && (d in y.server.sessions <==> d in z.server.sessions)
      && y.server.posted == z.server.posted && y.links == z.links
      && y.server.ver == z.server.ver && y.server.prev == z.server.prev && y.server.curr == z.server.curr
      && y.server.log == z.server.log
  {
    AfterOneMore(loop, run, AtServer(Leave(c)));
    SessionsAreHistory(loop, run, d);
    SessionsAreHistory(loop, run + [AtServer(Leave(c))], d);
    ConnectedStep(run, AtServer(Leave(c)), d);
  }

  // ---- A run that loses an element ----

  function Listing(items: seq<Value>): Value {
    Object(map["t" := Array(items)])
  }

  /** A session joins, and two ticks follow. */
  function TwoTicks(c: SessionId, d: Value, e: Value, p: seq<Op>, q: seq<Op>): seq<SystemStep> {
    [AtServer(Join(c, "", d))] + [AtServer(Tick(d, p))] + [AtServer(Tick(e, q))]
  }

  lemma TwoNewItemsDiff(a: Value, b: Value)
    ensures IsDiff(AsWritten, Array([]), Array([a, b]), "/t", [Add("/t/-", a)])
  {
    var ops := [Add("/t/-", a)];
    EverySecondElement([a, b], 0);
    assert EveryNth(2, [a, b], 0) == [a];
    assert "/t" + "/-" == "/t/-";
    assert ops[..0] == [] && ops[0..] == ops == TailOps(AsWritten, Array([]), Array([a, b]), "/t");
  }

  lemma OneMemberDiff(loop: AppendLoop, key: string, one: Value, two: Value, op: Op)
    requires IsDiff(loop, one, two, KeyPath("", key), [op]) && one != two
    ensures IsDiff(loop, Object(map[key := one]), Object(map[key := two]), "", [op])
  {
    var s, t := Object(map[key := one]), Object(map[key := two]);
    assert s.members[key] == one && t.members[key] == two;
    DiffOfOneMember(loop, s, t, "", key, op);
  }

  lemma AfterOneMore(loop: AppendLoop, run: seq<SystemStep>, a: SystemStep)
    requires After(loop, run).Some? && CanDo(loop, After(loop, run).value, a)
    ensures After(loop, run + [a]) == Some(Next(loop, After(loop, run).value, a))
  {
    assert (run + [a])[..|run + [a]| - 1] == run;
  }

  /** A join and two ticks, whatever their documents. */
  lemma JoinAndTwoTicks(loop: AppendLoop, c: SessionId, d: Value, e: Value, p: seq<Op>, q: seq<Op>)
    requires Payload(d) && Payload(e) && IsDiff(loop, Null, d, "", p) && IsDiff(loop, d, e, "", q)
    ensures var run := [AtServer(Join(c, "", d))] + [AtServer(Tick(d, p))];
      && After(loop, run).Some? && After(loop, run).value.server.prev == d
      && After(loop, run + [AtServer(Tick(e, q))]).Some?
  {
    var none: seq<SystemStep> := [];
    var join, first := AtServer(Join(c, "", d)), AtServer(Tick(d, p));
    assert none + [join] == [join];
    AfterOneMore(loop, none, join);
    assert c in After(loop, [join]).value.server.sessions;
    AfterOneMore(loop, [join], first);
    assert c in After(loop, [join] + [first]).value.server.sessions;
    AfterOneMore(loop, [join] + [first], AtServer(Tick(e, q)));
  }

  /** If the second tick is not exact, the client is left behind. */
  lemma InexactTickIsSeen(loop: AppendLoop, c: SessionId, d: Value, e: Value, p: seq<Op>, q: seq<Op>)
    requires Payload(d) && Payload(e) && IsDiff(loop, Null, d, "", p) && IsDiff(loop, d, e, "", q) && !Exact(loop, d, e)
    ensures After(loop, TwoTicks(c, d, e, p, q)).Some? && !AlwaysCurrent(loop, TwoTicks(c, d, e, p, q))
  {
    var before := [AtServer(Join(c, "", d))] + [AtServer(Tick(d, p))];
    var run := before + [AtServer(Tick(e, q))];
    JoinAndTwoTicks(loop, c, d, e, p, q);
    RunsTrackIff(loop, run);
    assert run[..|run| - 1] == before;
  }

  lemma ListingGrows(a: Value, b: Value)
    ensures GrowsByTwo(Listing([]), Listing([a, b])) &&
      IsDiff(AsWritten, Listing([]), Listing([a, b]), "", [Add("/t/-", a)])
  {
    TwoNewItemsDiff(a, b);
    assert KeyPath("", "t") == "/t";
    OneMemberDiff(AsWritten, "t", Array([]), Array([a, b]), Add("/t/-", a));
    assert GrowsByTwo(Array([]), Array([a, b]));
    assert Listing([]).members["t"] == Array([]) && Listing([a, b]).members["t"] == Array([a, b]);
  }

  lemma ListingIsPayload(items: seq<Value>)
    requires forall i :: 0 <= i < |items| ==> Clean(items[i])
    ensures Payload(Listing(items))
  {
    assert Clean(Array(items));
  }

  /** With the loop as written, a possible run that leaves its client behind: between the ticks an array
      goes from empty to two elements. */
  lemma LossyRunIsNotCurrent(c: SessionId, a: Value, b: Value)
    requires Clean(a) && Clean(b)
    ensures var d, e := Listing([]), Listing([a, b]);
      var run := TwoTicks(c, d, e, [Replace("", d)], [Add("/t/-", a)]);
      After(AsWritten, run).Some? && !AlwaysCurrent(AsWritten, run)
  {
    ListingIsPayload([]);
    ListingIsPayload([a, b]);
    ListingGrows(a, b);
    InexactTickIsSeen(AsWritten, c, Listing([]), Listing([a, b]), [Replace("", Listing([]))], [Add("/t/-", a)]);
  }
}
