/** The atomic steps of `Sync` are runs of the small ones; and single runs that show what a join inside a
    tick can do. */
module MicroAtomic {
  import opened Json
  import opened Patch
  import opened JsonDiff
  import opened DiffTheorems
  import opened SyncMicro
  import S = Sync

  // ---- Whole joins ----

  /** A whole join by session `c`, with nothing of `doLoop` in between. */
  function WholeJoin(c: S.SessionId, id: string, stats: Value): seq<Step> {
    [JoinEnter(c)] + ([JoinBump] + ([JoinTest] + ([JoinFill(stats)] + ([JoinMark] + ([JoinBuild(id)] + [JoinSend])))))
  }

  lemma {:induction false} AfterConcat(loop: AppendLoop, x: State, one: seq<Step>, two: seq<Step>)
    requires After(loop, x, one).Some?
    ensures After(loop, x, one + two) == After(loop, After(loop, x, one).value, two)
    decreases |one|
  {
    if one == [] {
      assert one + two == two;
    } else {
      assert (one + two)[1..] == one[1..] + two;
      AfterConcat(loop, Do(loop, x, one[0]), one[1..], two);
    }
  }

  lemma AfterStep(loop: AppendLoop, x: State, a: Step, rest: seq<Step>)
    requires Possible(loop, x, a)
    ensures After(loop, x, [a] + rest) == After(loop, Do(loop, x, a), rest)
  {
    assert ([a] + rest)[1..] == rest;
  }

  lemma AfterOne(loop: AppendLoop, x: State, a: Step)
    requires Possible(loop, x, a)
    ensures After(loop, x, [a]) == Some(Do(loop, x, a))
  {
    var none: seq<Step> := [];
    AfterStep(loop, x, a, none);
    assert [a] + none == [a];
  }

  /** The rest of a join after its null test. */
  lemma AfterTest(loop: AppendLoop, x: State, c: S.SessionId, id: string, stats: Value,
          rest: seq<Step>) returns (y: State)
    requires x.join.Tested? && x.join.c == c && S.Payload(stats)
    ensures var curr := if x.join.wasNull then stats else x.curr;
      y == x.(curr := curr, join := NoJoin, posted := x.posted[c := [S.Snapshot(x.ver, id, curr)]], past := y.past)
    ensures !x.tick.Sending? ==> y.past.late == x.past.late
    ensures After(loop, x, [JoinFill(stats)] + ([JoinMark] + ([JoinBuild(id)] + ([JoinSend] + rest)))) ==
      After(loop, y, rest)
  {
    var x1 := Do(loop, x, JoinFill(stats));
    var x2 := Do(loop, x1, JoinMark);
    var x3 := Do(loop, x2, JoinBuild(id));
    y := Do(loop, x3, JoinSend);
    AfterStep(loop, x, JoinFill(stats), [JoinMark] + ([JoinBuild(id)] + ([JoinSend] + rest)));
    AfterStep(loop, x1, JoinMark, [JoinBuild(id)] + ([JoinSend] + rest));
    AfterStep(loop, x2, JoinBuild(id), [JoinSend] + rest);
    AfterStep(loop, x3, JoinSend, rest);
  }

  /** A join up to its null test. */
  lemma UntilTest(loop: AppendLoop, x: State, c: S.SessionId, rest: seq<Step>) returns (y: State)
    requires x.join.NoJoin? && c !in x.posted && c !in x.sessions
    ensures y == x.(ver := x.ver + 1, sessions := x.sessions + {c}, join := Tested(c, x.curr.Null?), past := y.past)
    ensures y.past.late == x.past.late
    ensures After(loop, x, [JoinEnter(c)] + ([JoinBump] + ([JoinTest] + rest))) == After(loop, y, rest)
  {
    var x1 := Do(loop, x, JoinEnter(c));
    var x2 := Do(loop, x1, JoinBump);
    y := Do(loop, x2, JoinTest);
    AfterStep(loop, x, JoinEnter(c), [JoinBump] + ([JoinTest] + rest));
    AfterStep(loop, x1, JoinBump, [JoinTest] + rest);
    AfterStep(loop, x2, JoinTest, rest);
  }

  /** Where a whole join leads. */
  lemma AfterWholeJoin(loop: AppendLoop, x: State, c: S.SessionId, id: string, stats: Value)
    requires x.join.NoJoin? && c !in x.posted && c !in x.sessions && S.Payload(stats)
    ensures var end := After(loop, x, WholeJoin(c, id, stats));
      var curr := if x.curr.Null? then stats else x.curr;
      && end.Some?
      && end.value == x.(ver := x.ver + 1, curr := curr, sessions := x.sessions + {c},
                         posted := x.posted[c := [S.Snapshot(x.ver + 1, id, curr)]], past := end.value.past)
  {
    var none: seq<Step> := [];
    assert [JoinSend] + none == [JoinSend];
    var y := UntilTest(loop, x, c, [JoinFill(stats)] + ([JoinMark] + ([JoinBuild(id)] + [JoinSend])));
    var z := AfterTest(loop, y, c, id, stats, none);
  }

  // ---- The atomic steps are runs of the small ones ----

  function Sends(order: seq<S.SessionId>): seq<Step> {
    seq(|order|, i requires 0 <= i < |order| => TickSend(order[i]))
  }

  /** Sending to the targets in any order leaves every one of them with the message. */
  lemma {:induction false} AfterSends(loop: AppendLoop, x: State, order: seq<S.SessionId>)
    requires x.tick.Sending? && x.tick.targets <= x.sessions && x.sessions <= x.posted.Keys
    requires forall c :: c in order <==> c in x.tick.targets
    requires forall i, j :: 0 <= i < j < |order| ==> order[i] != order[j]
    ensures After(loop, x, Sends(order)) ==
            Some(x.(tick := x.tick.(targets := {}), posted := S.SentTo(x.posted, x.tick.targets, x.tick.m)))
    decreases |order|
  {
    var m, targets := x.tick.m, x.tick.targets;
    if order == [] {
      assert targets == {};
      assert S.SentTo(x.posted, targets, m) == x.posted;
    } else {
      var c, rest := order[0], order[1..];
      assert c in order;
      var y := Do(loop, x, TickSend(c));
      assert Sends(order) == [TickSend(c)] + Sends(rest);
      AfterStep(loop, x, TickSend(c), Sends(rest));
      forall d ensures d in rest <==> d in targets - {c} {
        assert d in order <==> d == c || d in rest;
      }
      AfterSends(loop, y, rest);
      assert S.SentTo(y.posted, targets - {c}, m) == S.SentTo(x.posted, targets, m);
    }
  }

  /** A whole tick, sending in the given order, with nothing of any join in between. */
  function WholeTick(stats: Value, patch: seq<Op>, order: seq<S.SessionId>): seq<Step> {
    [TickWake] + ([TickBump] + ([TickWrite(stats)] +
      ([TickStamp] + ([TickBuild(patch)] + ([TickCopy] + (Sends(order) + [TickEnd]))))))
  }

  /** What the atomic server of `Sync` sees of a state; the log plays no part in the steps. */
  function Seen(x: State, log: map<nat, Value>): S.Server {
    S.Server(x.ver, x.prev, x.curr, x.sessions, x.posted, log)
  }

  /** Run without interruption, the statements of `join` have the effect of the atomic join. */
  lemma WholeJoinIsJoin(loop: AppendLoop, x: State, c: S.SessionId, id: string, stats: Value, log: map<nat, Value>)
    requires x.join.NoJoin? && c !in x.sessions && S.Possible(loop, Seen(x, log), S.Join(c, id, stats))
    ensures var end := After(loop, x, WholeJoin(c, id, stats));
      && end.Some? && end.value.tick == x.tick && end.value.join.NoJoin?
      && Seen(end.value, log[x.ver + 1 := end.value.curr]) == S.Do(Seen(x, log), S.Join(c, id, stats))
  {
    AfterWholeJoin(loop, x, c, id, stats);
    var m := S.Snapshot(x.ver + 1, id, if x.curr.Null? then stats else x.curr);
    assert [] + [m] == [m];
  }

  /** The one statement of `leave` that changes anything has the effect of the atomic leave, wherever a tick is. */
  lemma LeaveIsLeave(loop: AppendLoop, x: State, c: S.SessionId, log: map<nat, Value>)
    requires x.join.NoJoin?
    ensures var end := After(loop, x, [Leave(c)]);
      && end.Some? && end.value.tick == x.tick && end.value.join.NoJoin? && end.value.past == x.past
      && c !in end.value.sessions && (forall d :: d != c ==> (d in end.value.sessions <==> d in x.sessions))
      && Seen(end.value, log) == S.Do(Seen(x, log), S.Leave(c))
  {
    AfterOne(loop, x, Leave(c));
  }

  /** Run without interruption, the statements of `doLoop` have the effect of the atomic tick. */
  lemma WholeTickIsTick(loop: AppendLoop, x: State, stats: Value, patch: seq<Op>, order: seq<S.SessionId>,
          log: map<nat, Value>)
    requires x.tick.Resting? && x.join.NoJoin? && x.sessions <= x.posted.Keys
    requires S.Possible(loop, Seen(x, log), S.Tick(stats, patch))
    requires forall c :: c in order <==> c in x.sessions
    requires forall i, j :: 0 <= i < j < |order| ==> order[i] != order[j]
    ensures var end := After(loop, x, WholeTick(stats, patch, order));
      && end.Some? && end.value.tick.Resting? && end.value.join.NoJoin?
      && Seen(end.value, log[x.ver + 1 := stats]) == S.Do(Seen(x, log), S.Tick(stats, patch))
  {
    var m := S.Delta(x.ver + 1, patch);
    var y := x.(ver := x.ver + 1, curr := stats, tick := Sending(m, stats, x.sessions));
    UntilSending(loop, x, stats, patch, Sends(order) + [TickEnd]);
    AfterSends(loop, y, order);
    AfterConcat(loop, y, Sends(order), [TickEnd]);
    AfterOne(loop, After(loop, y, Sends(order)).value, TickEnd);
  }

  lemma UntilBuilt(loop: AppendLoop, x: State, stats: Value, patch: seq<Op>, rest: seq<Step>)
    requires x.tick.Resting? && x.sessions != {} && S.Payload(stats) && IsDiff(loop, x.prev, stats, "", patch)
    ensures After(loop, x, [TickWake] + ([TickBump] +
      ([TickWrite(stats)] + ([TickStamp] + ([TickBuild(patch)] + rest))))) ==
            After(loop, x.(ver := x.ver + 1, curr := stats, tick := Built(S.Delta(x.ver + 1, patch), stats)), rest)
  {
    var x1 := x.(tick := Awake);
    var x2 := x.(tick := Numbered, ver := x.ver + 1);
    var x3 := x2.(tick := Wrote, curr := stats);
    var x4 := x3.(tick := Stamped(x.ver + 1));
    var tail := [TickStamp] + ([TickBuild(patch)] + rest);
    AfterStep(loop, x, TickWake, [TickBump] + ([TickWrite(stats)] + tail));
    AfterStep(loop, x1, TickBump, [TickWrite(stats)] + tail);
    AfterStep(loop, x2, TickWrite(stats), tail);
    AfterStep(loop, x3, TickStamp, [TickBuild(patch)] + rest);
    AfterStep(loop, x4, TickBuild(patch), rest);
  }

  lemma UntilSending(loop: AppendLoop, x: State, stats: Value, patch: seq<Op>, rest: seq<Step>)
    requires x.tick.Resting? && x.join.NoJoin? && x.sessions != {}
    requires S.Payload(stats) && IsDiff(loop, x.prev, stats, "", patch)
    ensures After(loop, x, [TickWake] + ([TickBump] + ([TickWrite(stats)] +
                             ([TickStamp] + ([TickBuild(patch)] + ([TickCopy] + rest)))))) ==
            After(loop, x.(ver := x.ver + 1, curr := stats,
              tick := Sending(S.Delta(x.ver + 1, patch), stats, x.sessions)), rest)
  {
    UntilBuilt(loop, x, stats, patch, [TickCopy] + rest);
    var built := x.(ver := x.ver + 1, curr := stats, tick := Built(S.Delta(x.ver + 1, patch), stats));
    AfterStep(loop, built, TickCopy, rest);
  }

  lemma AfterTwo(loop: AppendLoop, x: State, a: Step, b: Step)
    requires Possible(loop, x, a) && Possible(loop, Do(loop, x, a), b)
    ensures After(loop, x, [a, b]) == Some(Do(loop, Do(loop, x, a), b))
  {
    var none: seq<Step> := [];
    AfterStep(loop, x, a, [b]);
    AfterStep(loop, Do(loop, x, a), b, none);
    assert [b] + none == [b] && [a] + [b] == [a, b];
  }

  lemma ReplayTwo(first: S.Message, second: S.Message)
    requires first.Snapshot? && second.Delta?
    ensures S.Replay([first, second]) == ApplyAll(first.body, second.patch)
  {
    assert [] + [first] == [first] && [first] + [second] == [first, second];
    S.ReplayLast([], first);
    S.ReplayLast([first], second);
  }

  // ---- Single runs ----

  /** From the making of the message to the sending of it to one session. */
  lemma AfterBuilt(loop: AppendLoop, y: State, patch: seq<Op>, c: S.SessionId)
    requires y.tick.Wrote? && y.join.NoJoin? && c in y.sessions && c in y.posted
    requires IsDiff(loop, y.prev, y.curr, "", patch)
    ensures After(loop, y, [TickStamp] + ([TickBuild(patch)] + [TickCopy, TickSend(c)])) ==
            Some(y.(tick := Sending(S.Delta(y.ver, patch), y.curr, y.sessions - {c}),
                    posted := y.posted[c := y.posted[c] + [S.Delta(y.ver, patch)]]))
  {
    var y1 := Do(loop, y, TickStamp);
    AfterStep(loop, y, TickStamp, [TickBuild(patch)] + [TickCopy, TickSend(c)]);
    AfterStep(loop, y1, TickBuild(patch), [TickCopy, TickSend(c)]);
    AfterTwo(loop, Do(loop, y1, TickBuild(patch)), TickCopy, TickSend(c));
  }

  /** A session that joins between the write of `curr_stats` and the making of the message gets the new
      document and then, with the same version, the patch that leads to it. It holds `curr_stats`
      afterwards exactly when the two documents have the same shape. */
  lemma JoinBeforeBuild(loop: AppendLoop, x: State, c: S.SessionId, id: string, stats: Value, patch: seq<Op>)
    requires x.tick.Wrote? && x.join.NoJoin? && c !in x.posted && c !in x.sessions
    requires Clean(x.prev) && S.Payload(x.curr) && S.Payload(stats) && IsDiff(loop, x.prev, x.curr, "", patch)
    ensures var end := After(loop, x, WholeJoin(c, id, stats) +
      ([TickStamp] + ([TickBuild(patch)] + [TickCopy, TickSend(c)])));
      && end.Some? && c in end.value.posted && c in end.value.sessions && end.value.curr == x.curr
      && end.value.posted[c] == [S.Snapshot(x.ver + 1, id, x.curr), S.Delta(x.ver + 1, patch)]
      && (S.Replay(end.value.posted[c]) == Some(x.curr) <==> SameShape(x.prev, x.curr))
  {
    AfterWholeJoin(loop, x, c, id, stats);
    var y := After(loop, x, WholeJoin(c, id, stats)).value;
    AfterConcat(loop, x, WholeJoin(c, id, stats), [TickStamp] + ([TickBuild(patch)] + [TickCopy, TickSend(c)]));
    AfterBuilt(loop, y, patch, c);
    var first, second := S.Snapshot(x.ver + 1, id, x.curr), S.Delta(x.ver + 1, patch);
    assert [first] + [second] == [first, second];
    ReplayTwo(first, second);
    CleanIsEnough(x.prev, x.curr);
    ReapplyIsHarmlessIff(loop, x.prev, x.curr, patch);
  }

  /** The same between the making of the message and the copy of the sessions; here the version the
      client sees even decreases. */
  lemma JoinBeforeCopy(loop: AppendLoop, x: State, c: S.SessionId, id: string, stats: Value)
    requires x.tick.Built? && x.join.NoJoin? && c !in x.posted && c !in x.sessions
    requires x.tick.m.Delta? && x.tick.m.version <= x.ver && IsDiff(loop, x.prev, x.curr, "", x.tick.m.patch)
    requires Clean(x.prev) && S.Payload(x.curr) && S.Payload(stats)
    ensures var end := After(loop, x, WholeJoin(c, id, stats) + [TickCopy, TickSend(c)]);
      && end.Some? && c in end.value.posted && c in end.value.sessions && end.value.curr == x.curr
      && end.value.posted[c] == [S.Snapshot(x.ver + 1, id, x.curr), x.tick.m]
      && x.tick.m.version < x.ver + 1
      && (S.Replay(end.value.posted[c]) == Some(x.curr) <==> SameShape(x.prev, x.curr))
  {
    AfterWholeJoin(loop, x, c, id, stats);
    var y := After(loop, x, WholeJoin(c, id, stats)).value;
    AfterConcat(loop, x, WholeJoin(c, id, stats), [TickCopy, TickSend(c)]);
    AfterTwo(loop, y, TickCopy, TickSend(c));
    var first := S.Snapshot(x.ver + 1, id, x.curr);
    assert [first] + [x.tick.m] == [first, x.tick.m];
    ReplayTwo(first, x.tick.m);
    CleanIsEnough(x.prev, x.curr);
    ReapplyIsHarmlessIff(loop, x.prev, x.curr, x.tick.m.patch);
  }

  /** Versions need not increase strictly: a session that joins between `sync_ver ++` and the write of
      `curr_stats` sees its snapshot's version again on the next delta. The window is not entered. */
  lemma VersionsMayTie(loop: AppendLoop, x: State, c: S.SessionId, id: string, stats: Value, patch: seq<Op>)
    requires x.tick.Numbered? && x.join.NoJoin? && c !in x.posted && c !in x.sessions
    requires S.Payload(stats) && IsDiff(loop, x.prev, stats, "", patch)
    ensures var end := After(loop, x, WholeJoin(c, id, stats) + ([TickWrite(stats)] +
        ([TickStamp] + ([TickBuild(patch)] + [TickCopy, TickSend(c)]))));
      && end.Some? && c in end.value.posted
      && |end.value.posted[c]| == 2 && end.value.posted[c][0].version == end.value.posted[c][1].version
  {
    AfterWholeJoin(loop, x, c, id, stats);
    var y := After(loop, x, WholeJoin(c, id, stats)).value;
    var rest := [TickStamp] + ([TickBuild(patch)] + [TickCopy, TickSend(c)]);
    AfterConcat(loop, x, WholeJoin(c, id, stats), [TickWrite(stats)] + rest);
    AfterStep(loop, y, TickWrite(stats), rest);
    AfterBuilt(loop, Do(loop, y, TickWrite(stats)), patch, c);
  }

  /** The very first session joins while the first tick is made: the tick writes `curr_stats` and makes its
      message between the null test of `join` and the assignment that follows it. */
  function NullTestRun(c: S.SessionId, id: string, a: Value, b: Value): seq<Step> {
    [JoinEnter(c)] + ([JoinBump] + ([JoinTest] + NullTestTick(c, id, a, b)))
  }

  function NullTestTick(c: S.SessionId, id: string, a: Value, b: Value): seq<Step> {
    [TickWake] + ([TickBump] + ([TickWrite(b)] +
      ([TickStamp] + ([TickBuild([Replace("", b)])] + NullTestFill(c, id, a)))))
  }

  function NullTestFill(c: S.SessionId, id: string, a: Value): seq<Step> {
    [JoinFill(a)] + ([JoinMark] + ([JoinBuild(id)] + ([JoinSend] + [TickCopy, TickSend(c)])))
  }

  lemma AfterNullTestFill(loop: AppendLoop, x: State, c: S.SessionId, id: string, a: Value)
    requires x.tick.Built? && x.join == Tested(c, true) && S.Payload(a) && x.sessions == {c} && x.posted == map[]
    ensures var end, snapshot := After(loop, x, NullTestFill(c, id, a)), S.Snapshot(x.ver, id, a);
      && end.Some? && end.value.past.late == x.past.late
      && end.value == x.(curr := a, join := NoJoin, posted := map[c := [snapshot, x.tick.m]],
                         tick := Sending(x.tick.m, x.tick.goal, {}), past := end.value.past)
  {
    var y := AfterTest(loop, x, c, id, a, [TickCopy, TickSend(c)]);
    AfterTwo(loop, y, TickCopy, TickSend(c));
    SentAfterSnapshot(c, S.Snapshot(x.ver, id, a), x.tick.m);
  }

  lemma SentAfterSnapshot(c: S.SessionId, snapshot: S.Message, m: S.Message)
    ensures map[c := [snapshot]][c := [snapshot] + [m]] == map[c := [snapshot, m]] && {c} - {c} == {}
  {
    assert [snapshot] + [m] == [snapshot, m];
  }

  /** A run from the start that ends badly, with either append loop: the client is left with the document of
      the tick, the server with that of the join, and the next patch will start from the latter. */
  lemma NullTestRunEndsBadly(loop: AppendLoop, c: S.SessionId, id: string, a: Value, b: Value)
    requires S.Payload(a) && S.Payload(b) && a != b
    ensures var end := After(loop, Start(), NullTestRun(c, id, a, b));
      && end.Some? && Possible(loop, end.value, TickEnd) && Connected(end.value, c)
      && S.Replay(end.value.posted[c]) == Some(b) && end.value.curr == a && !Verdict(loop, end.value, c)
  {
    var patch := [Replace("", b)];
    var x3 := UntilTest(loop, Start(), c, NullTestTick(c, id, a, b));
    var x4 := x3.(tick := Built(S.Delta(2, patch), b), curr := b, ver := 2);
    UntilBuilt(loop, x3, b, patch, NullTestFill(c, id, a));
    AfterNullTestFill(loop, x4, c, id, a);
    ReplayTwo(S.Snapshot(2, id, a), S.Delta(2, patch));
    ApplyOne(a, Replace("", b));
  }
}
