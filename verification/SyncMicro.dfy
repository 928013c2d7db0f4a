/** `doLoop` and `join` split at their statements. `join` and `leave` hold the mutex throughout;
    `doLoop` holds it only while it copies the set of sessions. */
module SyncMicro {
  import opened Json
  import opened Patch
  import opened JsonDiff
  import opened DiffTheorems
  import opened DirtyKeys
  import opened Sync

  /** Where `doLoop` is: asleep or testing for sessions; past the test; past `sync_ver ++`; past the
      assignment to `curr_stats`; past the reading of the version `v` for the message; past the making of
      the message, whose patch leads to `goal`; past the copy of the sessions, with `targets` still to be
      sent to. */
  datatype TickPc =
    | Resting
    | Awake
    | Numbered
    | Wrote
    | Stamped(v: nat)
    | Built(m: Message, goal: Value)
    | Sending(m: Message, goal: Value, targets: set<SessionId>)

  /** Where the `join` that holds the mutex is: past the insertion of its session; past `sync_ver ++`;
      past the null test of `curr_stats`; past the assignment that may follow; past the reading of the
      version `v` for the snapshot; past the making of the snapshot. */
  datatype JoinPc =
    | NoJoin
    | Entered(c: SessionId)
    | Counted(c: SessionId)
    | Tested(c: SessionId, wasNull: bool)
    | Filled(c: SessionId)
    | Marked(c: SessionId, v: nat)
    | Ready(c: SessionId, m: Message)

  /** When, during the current tick, snapshots were made. `window` holds the sessions whose snapshot took its
      document between the write of `curr_stats` and the copy of the sessions, `late` those after the copy.
      `level` holds those whose snapshot took its version after the tick's `sync_ver ++`, with no
      `sync_ver ++` of a join between that and the tick's own reading of the version, whichever came first;
      `ahead`, those after the tick's reading and such a `sync_ver ++`, which sets `risen`. A record only:
      no step depends on it. */
  datatype History = History(
    window: set<SessionId>,
    late: set<SessionId>,
    level: set<SessionId>,
    ahead: set<SessionId>,
    risen: bool)

  datatype State = State(
    ver: nat,
    prev: Value,
    curr: Value,
    sessions: set<SessionId>,
    posted: map<SessionId, seq<Message>>,
    tick: TickPc,
    join: JoinPc,
    past: History)

  function Nothing(): History {
    History({}, {}, {}, {}, false)
  }

  function Start(): State {
    State(0, Null, Null, {}, map[], Resting, NoJoin, Nothing())
  }

  datatype Step =
    | TickWake
    | TickBump
    | TickWrite(stats: Value)
    | TickStamp
    | TickBuild(patch: seq<Op>)
    | TickCopy
    | TickSend(c: SessionId)
    | TickEnd
    | JoinEnter(c: SessionId)
    | JoinBump
    | JoinTest
    | JoinFill(stats: Value)
    | JoinMark
    | JoinBuild(id: string)
    | JoinSend
    | Leave(c: SessionId)

  ghost predicate Possible(loop: AppendLoop, x: State, a: Step) {
    match a
    case TickWake => x.tick.Resting? && x.sessions != {}
    case TickBump => x.tick.Awake?
    case TickWrite(stats) => x.tick.Numbered? && Payload(stats)
    case TickStamp => x.tick.Wrote?
    case TickBuild(patch) => x.tick.Stamped? && IsDiff(loop, x.prev, x.curr, "", patch)
    case TickCopy => x.tick.Built? && x.join.NoJoin?
    case TickSend(c) => x.tick.Sending? && c in x.tick.targets
    case TickEnd => x.tick.Sending? && x.tick.targets == {}
    case JoinEnter(c) => x.join.NoJoin? && c !in x.posted && c !in x.sessions
    case JoinBump => x.join.Entered?
    case JoinTest => x.join.Counted?
    case JoinFill(stats) => x.join.Tested? && Payload(stats)
    case JoinMark => x.join.Filled?
    case JoinBuild(_) => x.join.Marked?
    case JoinSend => x.join.Ready?
    case Leave(c) => x.join.NoJoin?
  }

  /** The record after a `sync_ver ++` of a join. */
  function Bumped(x: State): History {
    match x.tick
    case Numbered => x.past.(level := {})
    case Wrote => x.past.(level := {})
    case Stamped(_) => x.past.(risen := true)
    case Built(_, _) => x.past.(risen := true)
    case _ => x.past
  }

  /** The record after `c`'s snapshot has taken its version. */
  function VersionTaken(x: State, c: SessionId): History {
    match x.tick
    case Resting => x.past
    case Awake => x.past
    case Sending(_, _, _) => x.past
    case _ =>
      if x.past.risen then x.past.(ahead := x.past.ahead + {c}) else x.past.(level := x.past.level + {c})
  }

  /** Between the write of `curr_stats` and the copy of the sessions. */
  predicate InWindow(x: State) {
    x.tick.Wrote? || x.tick.Stamped? || x.tick.Built?
  }

  /** The record after `c`'s snapshot has taken its document. */
  function DocumentTaken(x: State, c: SessionId): History {
    if InWindow(x) then x.past.(window := x.past.window + {c})
    else if x.tick.Sending? then x.past.(late := x.past.late + {c})
    else x.past
  }

  ghost function Do(loop: AppendLoop, x: State, a: Step): State
    requires Possible(loop, x, a)
  {
    match a
    case TickWake => x.(tick := Awake)
    case TickBump => x.(tick := Numbered, ver := x.ver + 1)
    case TickWrite(stats) => x.(tick := Wrote, curr := stats)
    case TickStamp => x.(tick := Stamped(x.ver))
    case TickBuild(patch) => x.(tick := Built(Delta(x.tick.v, patch), x.curr))
    case TickCopy => x.(tick := Sending(x.tick.m, x.tick.goal, x.sessions))
    case TickSend(c) =>
      // A session that has left in the meantime cannot be locked any more and is skipped.
      var x' := x.(tick := x.tick.(targets := x.tick.targets - {c}));
      if c in x.sessions && c in x.posted then x'.(posted := x.posted[c := x.posted[c] + [x.tick.m]]) else x'
    case TickEnd => x.(tick := Resting, prev := x.curr, past := Nothing())
    case JoinEnter(c) => x.(join := Entered(c), sessions := x.sessions + {c})
    case JoinBump => x.(join := Counted(x.join.c), ver := x.ver + 1, past := Bumped(x))
    case JoinTest => x.(join := Tested(x.join.c, x.curr.Null?))
    case JoinFill(stats) => x.(join := Filled(x.join.c), curr := if x.join.wasNull then stats else x.curr)
    case JoinMark => x.(join := Marked(x.join.c, x.ver), past := VersionTaken(x, x.join.c))
    case JoinBuild(id) =>
      x.(join := Ready(x.join.c, Snapshot(x.join.v, id, x.curr)), past := DocumentTaken(x, x.join.c))
    case JoinSend => x.(join := NoJoin, posted := x.posted[x.join.c := [x.join.m]])
    case Leave(c) => x.(sessions := x.sessions - {c})
  }

  ghost function After(loop: AppendLoop, x: State, run: seq<Step>): Option<State>
    decreases |run|
  {
    if run == [] then Some(x)
    else if Possible(loop, x, run[0]) then After(loop, Do(loop, x, run[0]), run[1..])
    else None
  }

  // ---- What holds whatever the interleaving ----

  predicate Between(x: State) {
    x.tick.Resting? || x.tick.Awake? || x.tick.Numbered?
  }

  /** The current tick has sent what it will send to this session. */
  predicate Reached(x: State, c: SessionId) {
    x.tick.Sending? && c !in x.tick.targets
  }

  /** Holding the new document; before the tick reaches it, a client from outside the window holds the
      previous one instead, or anything when there was none. */
  predicate HoldsBefore(x: State, c: SessionId, doc: Value) {
    if Between(x) || c in x.past.window then doc == x.curr else x.prev != Null ==> doc == x.prev
  }

  /** What the server's documents are at each point of `doLoop` and `join`. */
  ghost predicate DocumentsInvariant(loop: AppendLoop, x: State) {
    && (x.curr == Null || Payload(x.curr))
    && (x.prev == Null || Payload(x.prev))
    && (x.curr == Null ==> x.posted == map[] && Between(x) && !x.join.Filled? && !x.join.Marked? && !x.join.Ready?)
    && (x.join.Tested? && x.join.wasNull ==> x.prev == Null && x.posted == map[] && !x.tick.Sending?)
    && (x.join.Tested? && !x.join.wasNull ==> x.curr != Null)
    && (Between(x) ==> (x.prev == x.curr || x.prev == Null) && x.past.window == {})
    && (!x.tick.Sending? ==> x.past.late == {})
    && (x.tick.Built? || x.tick.Sending? ==> MessageInvariant(loop, x))
    && (x.join.Ready? ==> x.join.m.Snapshot? && SnapshotBody(x))
  }

  /** The patch leads to what `curr_stats` was; only in the first tick can that have been overwritten since. */
  ghost predicate MessageInvariant(loop: AppendLoop, x: State)
    requires x.tick.Built? || x.tick.Sending?
  {
    && x.tick.m.Delta? && Payload(x.tick.goal) && IsDiff(loop, x.prev, x.tick.goal, "", x.tick.m.patch)
    && (x.tick.goal != x.curr ==> x.prev == Null)
  }

  /** What the snapshot that is about to be sent contains. */
  ghost predicate SnapshotBody(x: State)
    requires x.join.Ready? && x.join.m.Snapshot?
  {
    if x.tick.Sending? then x.join.m.body == x.curr && x.join.c in x.past.late
    else HoldsBefore(x, x.join.c, x.join.m.body)
  }

  /** The sessions whose snapshot has taken its version. */
  function Served(x: State): set<SessionId> {
    x.posted.Keys + if x.join.Marked? || x.join.Ready? then {x.join.c} else {}
  }

  /** Which sessions have been sent to: all but the one that is joining. */
  ghost predicate SessionsInvariant(x: State) {
    && (forall c :: c in x.sessions && c !in x.posted ==> !x.join.NoJoin? && x.join.c == c)
    && (!x.join.NoJoin? ==> x.join.c !in x.posted)
    && (x.tick.Sending? ==> x.tick.targets <= x.posted.Keys && x.tick.targets !! x.past.late)
    && x.past.window + x.past.late + x.past.level + x.past.ahead <= Served(x)
  }

  /** Whether the tick that is being sent brings a client to the current document, told from when its
      snapshot was made and from the documents: made after the copy of the sessions, always; otherwise only
      if the patch leads to what is still `curr_stats`, and then, for a snapshot made in the window, if the two
      documents have the same shape, and for an earlier one, if their diff is exact. */
  ghost predicate Verdict(loop: AppendLoop, x: State, c: SessionId)
    requires x.tick.Sending?
  {
    || c in x.past.late
    || (x.tick.goal == x.curr && if c in x.past.window then SameShape(x.prev, x.curr) else Exact(loop, x.prev, x.curr))
  }

  /** What a client that has drained its inbox holds. */
  ghost predicate Holds(loop: AppendLoop, x: State, c: SessionId)
    requires c in x.posted
  {
    if Reached(x, c) then Replay(x.posted[c]) == Some(x.curr) <==> Verdict(loop, x, c)
    else Replay(x.posted[c]).Some? && HoldsBefore(x, c, Replay(x.posted[c]).value)
  }

  /** The sessions that are connected and have been sent their snapshot. */
  ghost predicate Connected(x: State, c: SessionId) {
    c in x.sessions && c in x.posted
  }

  ghost predicate Invariant(loop: AppendLoop, x: State) {
    && DocumentsInvariant(loop, x)
    && SessionsInvariant(x)
    && forall c :: c in x.sessions && c in x.posted ==> Holds(loop, x, c)
  }

  /** The steps of `doLoop`; the others are those of `join` and `leave`. */
  predicate OfTick(a: Step) {
    a.TickWake? || a.TickBump? || a.TickWrite? || a.TickStamp? ||
    a.TickBuild? || a.TickCopy? || a.TickSend? || a.TickEnd?
  }

  lemma TickStepKeepsDocuments(loop: AppendLoop, x: State, a: Step)
    requires DocumentsInvariant(loop, x) && Possible(loop, x, a) && OfTick(a)
    ensures DocumentsInvariant(loop, Do(loop, x, a))
  {
  }

  lemma JoinStepKeepsDocuments(loop: AppendLoop, x: State, a: Step)
    requires DocumentsInvariant(loop, x) && SessionsInvariant(x) && Possible(loop, x, a) && !OfTick(a)
    ensures DocumentsInvariant(loop, Do(loop, x, a))
  {
  }

  lemma StepKeepsDocuments(loop: AppendLoop, x: State, a: Step)
    requires DocumentsInvariant(loop, x) && SessionsInvariant(x) && Possible(loop, x, a)
    ensures DocumentsInvariant(loop, Do(loop, x, a))
  {
    if OfTick(a) { TickStepKeepsDocuments(loop, x, a); } else { JoinStepKeepsDocuments(loop, x, a); }
  }

  lemma TickStepKeepsSessions(loop: AppendLoop, x: State, a: Step)
    requires DocumentsInvariant(loop, x) && SessionsInvariant(x) && Possible(loop, x, a) && OfTick(a)
    ensures SessionsInvariant(Do(loop, x, a))
  {
  }

  lemma JoinStepKeepsSessions(loop: AppendLoop, x: State, a: Step)
    requires DocumentsInvariant(loop, x) && SessionsInvariant(x) && Possible(loop, x, a) && !OfTick(a)
    ensures SessionsInvariant(Do(loop, x, a))
  {
  }

  lemma StepKeepsSessions(loop: AppendLoop, x: State, a: Step)
    requires DocumentsInvariant(loop, x) && SessionsInvariant(x) && Possible(loop, x, a)
    ensures SessionsInvariant(Do(loop, x, a))
  {
    if OfTick(a) { TickStepKeepsSessions(loop, x, a); } else { JoinStepKeepsSessions(loop, x, a); }
  }

  /** A tick's patch, on a document that a client may hold before the tick reaches it. */
  lemma PatchVerdict(loop: AppendLoop, x: State, c: SessionId, doc: Value)
    requires DocumentsInvariant(loop, x) && x.tick.Sending? && c !in x.past.late && HoldsBefore(x, c, doc)
    ensures ApplyAll(doc, x.tick.m.patch) == Some(x.curr) <==> Verdict(loop, x, c)
  {
    var patch := x.tick.m.patch;
    if x.prev == Null {
      ApplyOne(doc, Replace("", x.tick.goal));
    } else {
      CleanIsEnough(x.prev, x.curr);
      if c in x.past.window {
        ReapplyIsHarmlessIff(loop, x.prev, x.curr, patch);
      } else {
        RoundTripIff(loop, x.prev, x.curr, patch);
      }
    }
  }

  /** Sending to a client decides what it holds. */
  lemma SendDecides(loop: AppendLoop, x: State, c: SessionId)
    requires Invariant(loop, x) && Possible(loop, x, TickSend(c)) && c in x.sessions
    ensures c in x.posted && Holds(loop, Do(loop, x, TickSend(c)), c)
  {
    assert Holds(loop, x, c);
    ReplayLast(x.posted[c], x.tick.m);
    PatchVerdict(loop, x, c, Replay(x.posted[c]).value);
  }

  lemma ReplaySnapshot(m: Message)
    requires m.Snapshot?
    ensures Replay([m]) == Some(m.body)
  {
    assert [] + [m] == [m];
    ReplayLast([], m);
  }

  /** A step that sends nothing leaves every inbox as it is. */
  lemma QuietTickStepKeepsHolds(loop: AppendLoop, x: State, a: Step, c: SessionId)
    requires DocumentsInvariant(loop, x) && Possible(loop, x, a) && OfTick(a) && !a.TickSend? && !a.TickEnd?
    requires Connected(x, c) && Holds(loop, x, c)
    ensures Holds(loop, Do(loop, x, a), c)
  {
  }

  lemma QuietJoinStepKeepsHolds(loop: AppendLoop, x: State, a: Step, c: SessionId)
    requires DocumentsInvariant(loop, x) && SessionsInvariant(x) && Possible(loop, x, a) && !OfTick(a) && !a.JoinSend?
    requires Connected(x, c) && Holds(loop, x, c)
    ensures Holds(loop, Do(loop, x, a), c)
  {
  }

  /** In every interleaving, each step keeps what is known of a client's document; the end of a tick, if
      its verdict is good. */
  lemma StepKeepsHolds(loop: AppendLoop, x: State, a: Step, c: SessionId)
    requires Invariant(loop, x) && Possible(loop, x, a) && (a.TickEnd? ==> x.tick.Sending? && Verdict(loop, x, c))
    requires c in Do(loop, x, a).sessions && c in Do(loop, x, a).posted
    ensures Holds(loop, Do(loop, x, a), c)
  {
    if a.TickSend? {
      if c == a.c { SendDecides(loop, x, c); }
    } else if a.JoinSend? {
      if c == x.join.c { ReplaySnapshot(x.join.m); }
    } else if a.TickEnd? {
      assert Holds(loop, x, c);
    } else if OfTick(a) {
      QuietTickStepKeepsHolds(loop, x, a, c);
    } else {
      assert c in x.sessions;
      QuietJoinStepKeepsHolds(loop, x, a, c);
    }
  }

  /** The verdict on every connected client is good when a tick ends. */
  ghost predicate GoodStep(loop: AppendLoop, x: State, a: Step)
    requires Possible(loop, x, a)
  {
    a.TickEnd? ==> forall c :: Connected(x, c) ==> Verdict(loop, x, c)
  }

  lemma StepKeepsInvariant(loop: AppendLoop, x: State, a: Step)
    requires Invariant(loop, x) && Possible(loop, x, a) && GoodStep(loop, x, a)
    ensures Invariant(loop, Do(loop, x, a))
  {
    var y := Do(loop, x, a);
    StepKeepsDocuments(loop, x, a);
    StepKeepsSessions(loop, x, a);
    forall c | c in y.sessions && c in y.posted ensures Holds(loop, y, c) {
      assert a.TickEnd? ==> Connected(x, c);
      StepKeepsHolds(loop, x, a, c);
    }
  }

  // ---- Exactly which clients a tick leaves current ----

  /** Outside ticks every connected client that has drained its inbox holds `curr_stats`. */
  ghost predicate InSync(x: State) {
    Between(x) ==> forall c :: Connected(x, c) ==> Replay(x.posted[c]) == Some(x.curr)
  }

  /** Every state of the run is in sync. */
  ghost predicate AlwaysInSync(loop: AppendLoop, x: State, run: seq<Step>)
    decreases |run|
  {
    InSync(x) && (run == [] || (Possible(loop, x, run[0]) && AlwaysInSync(loop, Do(loop, x, run[0]), run[1..])))
  }

  /** At the end of every tick of the run, the verdict on every connected client is good. */
  ghost predicate GoodTicks(loop: AppendLoop, x: State, run: seq<Step>)
    decreases |run|
  {
    run == [] ||
    (Possible(loop, x, run[0]) && GoodStep(loop, x, run[0]) && GoodTicks(loop, Do(loop, x, run[0]), run[1..]))
  }

  lemma InvariantMeansInSync(loop: AppendLoop, x: State)
    requires Invariant(loop, x)
    ensures InSync(x)
  {
    if Between(x) {
      forall c | Connected(x, c) ensures Replay(x.posted[c]) == Some(x.curr) {
        assert Holds(loop, x, c);
      }
    }
  }

  /** A tick that ends badly leaves a client behind. */
  lemma BadEndIsSeen(loop: AppendLoop, x: State)
    requires Invariant(loop, x) && Possible(loop, x, TickEnd) && !GoodStep(loop, x, TickEnd)
    ensures !InSync(Do(loop, x, TickEnd))
  {
    var c :| Connected(x, c) && !Verdict(loop, x, c);
    assert Holds(loop, x, c);
    assert Connected(Do(loop, x, TickEnd), c);
  }

  /** Over every run, in every interleaving of its statements: the clients are in sync whenever no tick is
      under way, if and only if every tick ends with good verdicts. */
  lemma {:induction false} InSyncIffGoodTicks(loop: AppendLoop, x: State, run: seq<Step>)
    requires Invariant(loop, x) && After(loop, x, run).Some?
    ensures AlwaysInSync(loop, x, run) <==> GoodTicks(loop, x, run)
    ensures GoodTicks(loop, x, run) ==> Invariant(loop, After(loop, x, run).value)
    decreases |run|
  {
    InvariantMeansInSync(loop, x);
    if run != [] {
      if GoodStep(loop, x, run[0]) {
        StepKeepsInvariant(loop, x, run[0]);
        InSyncIffGoodTicks(loop, Do(loop, x, run[0]), run[1..]);
      } else {
        BadEndIsSeen(loop, x);
      }
    }
  }

  /** Whatever joins, leaves and sends were interleaved with a tick that started from a state with the
      invariant, after any number of ticks that ended well: when it ends, a connected client that has
      drained its inbox holds `curr_stats` if and only if the verdict on its snapshot is good. */
  lemma TickLeavesCurrentIff(loop: AppendLoop, x: State, run: seq<Step>, c: SessionId)
    requires Invariant(loop, x) && After(loop, x, run).Some? && GoodTicks(loop, x, run)
    requires var y := After(loop, x, run).value; Possible(loop, y, TickEnd) && Connected(y, c)
    ensures var y := After(loop, x, run).value; Replay(y.posted[c]) == Some(y.curr) <==> Verdict(loop, y, c)
  {
    InSyncIffGoodTicks(loop, x, run);
    assert Holds(loop, After(loop, x, run).value, c);
  }

  lemma StartIsInvariant(loop: AppendLoop)
    ensures Invariant(loop, Start())
  {
  }
}
