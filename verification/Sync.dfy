/** `httpCaller`: a full document for each new websocket session, then one patch per tick for all. */
module Sync {
  import opened Json
  import opened Patch
  import opened JsonDiff
  import opened DiffTheorems

  type SessionId = nat

  datatype Message =
    | Snapshot(version: nat, id: string, body: Value)
    | Delta(version: nat, patch: seq<Op>)

  /** `posted[c]` holds the messages handed to session c's `send`, in order; `log[v]` is what
      `curr_stats` was when the message with version v was made. */
  datatype Server = Server(
    ver: nat,
    prev: Value,
    curr: Value,
    sessions: set<SessionId>,
    posted: map<SessionId, seq<Message>>,
    log: map<nat, Value>)

  function Start(): Server {
    Server(0, Null, Null, {}, map[], map[])
  }

  /** What `getSyncStats` returns: an object whose keys need no escaping. */
  predicate Payload(v: Value) {
    v.Object? && Clean(v)
  }

  // ---- The steps of the server ----

  function Joined(s: Server, c: SessionId, id: string, stats: Value): Server {
    var ver, curr := s.ver + 1, if s.curr.Null? then stats else s.curr;
    var sent := if c in s.posted then s.posted[c] else [];
    Server(ver, s.prev, curr, s.sessions + {c}, s.posted[c := sent + [Snapshot(ver, id, curr)]], s.log[ver := curr])
  }

  function Left(s: Server, c: SessionId): Server {
    s.(sessions := s.sessions - {c})
  }

  function SentTo(posted: map<SessionId, seq<Message>>, targets: set<SessionId>, m: Message):
    map<SessionId, seq<Message>>
  {
    map c | c in posted :: if c in targets then posted[c] + [m] else posted[c]
  }

  function Ticked(s: Server, stats: Value, patch: seq<Op>): Server {
    var ver := s.ver + 1;
    Server(ver, stats, stats, s.sessions, SentTo(s.posted, s.sessions, Delta(ver, patch)), s.log[ver := stats])
  }

  datatype Step =
    | Join(c: SessionId, id: string, stats: Value)
    | Leave(c: SessionId)
    | Tick(stats: Value, patch: seq<Op>)

  /** A session joins once; a tick needs a session, and its patch is one that `json_diff` may return. */
  ghost predicate Possible(loop: AppendLoop, s: Server, step: Step) {
    match step
    case Join(c, _, stats) => c !in s.posted && Payload(stats)
    case Leave(c) => true
    case Tick(stats, patch) => s.sessions != {} && Payload(stats) && IsDiff(loop, s.prev, stats, "", patch)
  }

  function Do(s: Server, step: Step): Server {
    match step
    case Join(c, id, stats) => Joined(s, c, id, stats)
    case Leave(c) => Left(s, c)
    case Tick(stats, patch) => Ticked(s, stats, patch)
  }

  /** The patch of this tick leads from the previous document to the new one. */
  ghost predicate Exact(loop: AppendLoop, prev: Value, stats: Value) {
    loop.Repaired? || !GrowsByTwo(prev, stats)
  }

  // ---- Clients ----

  /** What a client holds after these messages; None before the first snapshot or after a failed patch. */
  function Replay(messages: seq<Message>): Option<Value> {
    if messages == [] then None
    else
      match messages[|messages| - 1]
      case Snapshot(_, _, body) => Some(body)
      case Delta(_, patch) =>
        match Replay(messages[..|messages| - 1])
        case None => None
        case Some(doc) => ApplyAll(doc, patch)
  }

  // ---- The invariant ----

  /** One snapshot first and only deltas after it, with strictly increasing versions. */
  ghost predicate Ordered(sent: seq<Message>, log: map<nat, Value>, ver: nat) {
    && (forall i :: 0 <= i < |sent| ==> (sent[i].Snapshot? <==> i == 0))
    && (forall i :: 0 <= i < |sent| ==> sent[i].version in log && sent[i].version <= ver)
    && (forall i, j :: 0 <= i < j < |sent| ==> sent[i].version < sent[j].version)
  }

  /** After message `i` a client that follows `sent` holds the document that the message stood for. */
  ghost predicate TrueAt(sent: seq<Message>, log: map<nat, Value>, i: nat)
    requires i < |sent|
  {
    sent[i].version in log && Replay(sent[..i + 1]) == Some(log[sent[i].version])
  }

  ghost predicate Truthful(sent: seq<Message>, log: map<nat, Value>) {
    forall i {:trigger TrueAt(sent, log, i)} :: 0 <= i < |sent| ==> TrueAt(sent, log, i)
  }

  ghost predicate Tracks(sent: seq<Message>, log: map<nat, Value>, ver: nat) {
    Ordered(sent, log, ver) && Truthful(sent, log)
  }

  /** A client's inbox is tracked, and a connected client that has drained it holds the current document. */
  ghost predicate ClientInvariant(s: Server, c: SessionId) {
    && c in s.posted && s.posted[c] != []
    && Tracks(s.posted[c], s.log, s.ver)
    && (c in s.sessions ==> Replay(s.posted[c]) == Some(s.curr))
  }

  /** Between steps the next delta starts from what every client holds, or replaces the whole document. */
  ghost predicate ServerInvariant(s: Server) {
    && (s.prev == s.curr || s.prev == Null)
    && (s.curr == Null || Payload(s.curr))
    && s.sessions <= s.posted.Keys
    && (s.curr == Null ==> s.posted == map[])
    && (forall c :: c in s.posted ==> ClientInvariant(s, c))
  }

  lemma ReplayLast(sent: seq<Message>, m: Message)
    ensures Replay(sent + [m]) ==
      if m.Snapshot? then Some(m.body)
      else match Replay(sent) case None => None case Some(doc) => ApplyAll(doc, m.patch)
  {
    assert (sent + [m])[..|sent|] == sent;
  }

  lemma TracksOneMore(sent: seq<Message>, log: map<nat, Value>, ver: nat, m: Message, doc: Value)
    requires Tracks(sent, log, ver) && m.version > ver && (m.Snapshot? <==> sent == [])
    requires Replay(sent + [m]) == Some(doc)
    ensures Tracks(sent + [m], log[m.version := doc], m.version)
  {
    TruthfulOneMore(sent, log, ver, m, doc);
  }

  lemma TruthfulOneMore(sent: seq<Message>, log: map<nat, Value>, ver: nat, m: Message, doc: Value)
    requires Tracks(sent, log, ver) && m.version > ver && Replay(sent + [m]) == Some(doc)
    ensures Truthful(sent + [m], log[m.version := doc])
  {
    var longer, newLog := sent + [m], log[m.version := doc];
    forall i | 0 <= i < |longer| ensures TrueAt(longer, newLog, i) {
      if i < |sent| {
        assert TrueAt(sent, log, i);
        assert longer[..i + 1] == sent[..i + 1];
      } else {
        assert longer[..i + 1] == longer;
      }
    }
  }

  lemma TracksLater(sent: seq<Message>, log: map<nat, Value>, ver: nat, doc: Value)
    requires Tracks(sent, log, ver)
    ensures Tracks(sent, log[ver + 1 := doc], ver + 1)
  {
    var newLog := log[ver + 1 := doc];
    forall i | 0 <= i < |sent| ensures TrueAt(sent, newLog, i) {
      assert TrueAt(sent, log, i);
    }
  }

  /** A tick's patch brings every client that holds the previous document to the new one; when there
      was none, the patch replaces any document. */
  lemma TickPatch(loop: AppendLoop, prev: Value, stats: Value, patch: seq<Op>, held: Value)
    requires IsDiff(loop, prev, stats, "", patch) && Payload(stats) && Exact(loop, prev, stats)
    requires prev == Null || (Payload(prev) && held == prev)
    ensures ApplyAll(held, patch) == Some(stats)
  {
    if prev == Null {
      ApplyOne(held, Replace("", stats));
    } else {
      CleanIsEnough(prev, stats);
      if loop.Repaired? {
        RepairedDiffRoundTrip(prev, stats, patch);
      } else {
        DiffAsWrittenIsExactIff(prev, stats, patch);
      }
    }
  }

  lemma JoinKeepsInvariant(loop: AppendLoop, s: Server, c: SessionId, id: string, stats: Value)
    requires ServerInvariant(s) && Possible(loop, s, Join(c, id, stats))
    ensures ServerInvariant(Joined(s, c, id, stats))
  {
    var next := Joined(s, c, id, stats);
    forall d | d in next.posted ensures ClientInvariant(next, d) {
      JoinKeepsClient(loop, s, c, id, stats, d);
    }
  }

  lemma JoinKeepsClient(loop: AppendLoop, s: Server, c: SessionId, id: string, stats: Value, d: SessionId)
    requires ServerInvariant(s) && Possible(loop, s, Join(c, id, stats)) && d in Joined(s, c, id, stats).posted
    ensures ClientInvariant(Joined(s, c, id, stats), d)
  {
    var next := Joined(s, c, id, stats);
    if d == c {
      FirstSnapshot(s.log, s.ver, id, next.curr);
      assert next.posted[c] == [Snapshot(next.ver, id, next.curr)];
    } else {
      ClientNotSentTo(s, next, d, next.curr);
    }
  }

  /** A step that sends nothing to a client. */
  lemma ClientNotSentTo(s: Server, next: Server, c: SessionId, doc: Value)
    requires ClientInvariant(s, c) && c in next.posted && next.posted[c] == s.posted[c]
    requires next.ver == s.ver + 1 && next.log == s.log[next.ver := doc]
    requires c in next.sessions ==> c in s.sessions && next.curr == s.curr
    ensures ClientInvariant(next, c)
  {
    TracksLater(s.posted[c], s.log, s.ver, doc);
  }

  /** A step that sends a client the message `m`, which brings it to the current document. */
  lemma ClientSentTo(s: Server, next: Server, c: SessionId, m: Message)
    requires ClientInvariant(s, c) && c in next.posted && next.posted[c] == s.posted[c] + [m]
    requires m.Delta? && m.version == next.ver == s.ver + 1 && next.log == s.log[next.ver := next.curr]
    requires c in s.sessions && ApplyAll(s.curr, m.patch) == Some(next.curr)
    ensures ClientInvariant(next, c)
  {
    ReplayLast(s.posted[c], m);
    TracksOneMore(s.posted[c], s.log, s.ver, m, next.curr);
  }

  lemma FirstSnapshot(log: map<nat, Value>, ver: nat, id: string, curr: Value)
    ensures var m := Snapshot(ver + 1, id, curr);
      Tracks([m], log[ver + 1 := curr], ver + 1) && Replay([m]) == Some(curr)
  {
    var m := Snapshot(ver + 1, id, curr);
    assert [] + [m] == [m];
    ReplayLast([], m);
    TracksOneMore([], log, ver, m, curr);
  }

  lemma TickKeepsClient(s: Server, stats: Value, patch: seq<Op>, c: SessionId)
    requires ClientInvariant(s, c) && ApplyAll(s.curr, patch) == Some(stats)
    ensures ClientInvariant(Ticked(s, stats, patch), c)
  {
    if c in s.sessions {
      ClientSentTo(s, Ticked(s, stats, patch), c, Delta(s.ver + 1, patch));
    } else {
      ClientNotSentTo(s, Ticked(s, stats, patch), c, stats);
    }
  }

  lemma TickKeepsInvariant(loop: AppendLoop, s: Server, stats: Value, patch: seq<Op>)
    requires ServerInvariant(s) && Possible(loop, s, Tick(stats, patch)) && Exact(loop, s.prev, stats)
    ensures ServerInvariant(Ticked(s, stats, patch))
  {
    var next := Ticked(s, stats, patch);
    TickPatch(loop, s.prev, stats, patch, s.curr);
    forall c | c in next.posted ensures ClientInvariant(next, c) {
      TickKeepsClient(s, stats, patch, c);
    }
  }

  /** Every step keeps the invariant, ticks under the condition that their diff is exact. */
  lemma StepKeepsInvariant(loop: AppendLoop, s: Server, step: Step)
    requires ServerInvariant(s) && Possible(loop, s, step) && (step.Tick? ==> Exact(loop, s.prev, step.stats))
    ensures ServerInvariant(Do(s, step))
  {
    match step
    case Join(c, id, stats) => JoinKeepsInvariant(loop, s, c, id, stats);
    case Leave(c) =>
    case Tick(stats, patch) => TickKeepsInvariant(loop, s, stats, patch);
  }

  /** The condition is exact: when a client is connected and there is a previous document, a tick brings
      its clients to the new document exactly when its diff is exact. */
  lemma TickReachesClientsIff(loop: AppendLoop, s: Server, stats: Value, patch: seq<Op>, c: SessionId)
    requires ServerInvariant(s) && Possible(loop, s, Tick(stats, patch)) && c in s.sessions
    ensures Replay(Ticked(s, stats, patch).posted[c]) == Some(stats) <==> Exact(loop, s.prev, stats)
  {
    assert ClientInvariant(s, c);
    ReplayLast(s.posted[c], Delta(s.ver + 1, patch));
    if Exact(loop, s.prev, stats) {
      TickPatch(loop, s.prev, stats, patch, s.curr);
    } else {
      assert s.prev == s.curr;
      CleanIsEnough(s.prev, stats);
      DiffAsWrittenIsExactIff(s.prev, stats, patch);
    }
  }

  // ---- The object ----

  class HttpCaller {
    var sessions: set<SessionId>
    var syncVer: nat
    var prevStats: Value
    var currStats: Value
    var posted: map<SessionId, seq<Message>>  // the calls of each session's `send`
    ghost var log: map<nat, Value>

    ghost function State(): Server
      reads this
    {
      Server(syncVer, prevStats, currStats, sessions, posted, log)
    }

    /** Every session in the set has been through `Join`. */
    ghost predicate Valid()
      reads this
    {
      sessions <= posted.Keys
    }

    constructor ()
      ensures Valid() && State() == Start()
    {
      sessions, syncVer, prevStats, currStats, posted, log := {}, 0, Null, Null, map[], map[];
    }

    method Send(c: SessionId, m: Message)
      modifies this`posted
      ensures posted == old(posted)[c := (if c in old(posted) then old(posted)[c] else []) + [m]]
    {
      var sent := if c in posted then posted[c] else [];
      posted := posted[c := sent + [m]];
    }

    /** `qid` is the id from the request; `random` is the id made for a session without one. */
    method Join(c: SessionId, qid: string, random: string, stats: Value)
      requires Valid()
      modifies this
      ensures Valid() && State() == Joined(old(State()), c, if qid == "" then random else qid, stats)
    {
      sessions := sessions + {c};
      syncVer := syncVer + 1;
      var id := if qid == "" then random else qid;
      if currStats.Null? {
        currStats := stats;
      }
      log := log[syncVer := currStats];
      Send(c, Snapshot(syncVer, id, currStats));
    }

    method Leave(c: SessionId)
      requires Valid()
      modifies this
      ensures Valid() && State() == Left(old(State()), c)
    {
      sessions := sessions - {c};
    }

    /** The local list of sessions, then one `send` for each. */
    method Broadcast(m: Message)
      requires Valid()
      modifies this`posted
      ensures Valid() && posted == SentTo(old(posted), sessions, m)
    {
      var vws := ListSessions();
      for i := 0 to |vws|
        invariant posted.Keys == old(posted).Keys
        invariant forall c :: c in posted ==>
          posted[c] == if c in vws[..i] then old(posted)[c] + [m] else old(posted)[c]
      {
        assert vws[i] !in vws[..i] && vws[i] in vws;
        Send(vws[i], m);
        assert vws[..i + 1] == vws[..i] + [vws[i]];
      }
      assert vws[..|vws|] == vws;
    }

    /** The sessions, each once, in some order. */
    method ListSessions() returns (vws: seq<SessionId>)
      ensures forall c :: c in vws <==> c in sessions
      ensures forall i, j :: 0 <= i < j < |vws| ==> vws[i] != vws[j]
    {
      vws := [];
      var rest := sessions;
      while rest != {}
        invariant rest <= sessions
        invariant forall c :: c in vws <==> c in sessions - rest
        invariant forall i, j :: 0 <= i < j < |vws| ==> vws[i] != vws[j]
      {
        var p :| p in rest;
        assert p !in vws;
        vws := vws + [p];
        rest := rest - {p};
      }
    }

    method DoLoop(loop: AppendLoop, stats: Value)
      requires Valid()
      modifies this
      ensures Valid()
      ensures old(sessions) == {} ==> State() == old(State())
      ensures old(sessions) != {} ==>
        exists patch :: IsDiff(loop, old(prevStats), stats, "", patch) && State() == Ticked(old(State()), stats, patch)
    {
      if sessions == {} {
        return;
      }
      syncVer := syncVer + 1;
      currStats := stats;
      log := log[syncVer := currStats];
      var patch := JsonDiff.JsonDiff(loop, prevStats, currStats, "");
      Broadcast(Delta(syncVer, patch));
      prevStats := currStats;
    }
  }
}
