/** `sheath`: the torrent index, the accounting of resume saves, and the drain at shutdown. */
module Sheath {
  import opened Json
  import opened Alerts
  import V = SessionValues
  import S = Sync

  /** What `get_torrent_status` sees of a torrent when it selects those to save. */
  datatype TorrentInfo = TorrentInfo(h: Handle, valid: bool, hasMetadata: bool, needSave: bool)

  predicate NeedsSave(t: TorrentInfo) {
    t.valid && t.hasMetadata && t.needSave
  }

  function Selected(torrents: seq<TorrentInfo>): seq<Handle> {
    if torrents == [] then []
    else (if NeedsSave(torrents[0]) then [torrents[0].h] else []) + Selected(torrents[1..])
  }

  /** Exactly the torrents that need a save are selected. */
  lemma {:induction false} SelectedNeedSave(torrents: seq<TorrentInfo>, h: Handle)
    ensures h in Selected(torrents) <==>
      exists i :: && 0 <= i < |torrents| && torrents[i].h == h
                  && torrents[i].valid && torrents[i].hasMetadata && torrents[i].needSave
  {
    if torrents != [] {
      SelectedNeedSave(torrents[1..], h);
      if i :| 0 <= i < |torrents| && NeedsSave(torrents[i]) && torrents[i].h == h {
        assert i > 0 ==> torrents[1..][i - 1] == torrents[i];
      }
      if j :| 0 <= j < |torrents[1..]| && NeedsSave(torrents[1..][j]) && torrents[1..][j].h == h {
        assert torrents[j + 1] == torrents[1..][j];
      }
    }
  }

  /** Each of them is selected once. */
  lemma {:induction false} SelectedOnce(torrents: seq<TorrentInfo>)
    requires forall i, j :: 0 <= i < j < |torrents| ==> torrents[i].h != torrents[j].h
    ensures forall i, j :: 0 <= i < j < |Selected(torrents)| ==> Selected(torrents)[i] != Selected(torrents)[j]
  {
    if torrents != [] {
      SelectedOnce(torrents[1..]);
      SelectedNeedSave(torrents[1..], torrents[0].h);
    }
  }

  lemma SelectedAreAnswered(torrents: seq<TorrentInfo>, before: multiset<Handle>, answered: multiset<Handle>)
    requires before + multiset(Selected(torrents)) <= answered
    ensures forall i :: 0 <= i < |torrents| && torrents[i].valid && torrents[i].hasMetadata && torrents[i].needSave ==>
      torrents[i].h in answered
  {
    forall i | 0 <= i < |torrents| && torrents[i].valid && torrents[i].hasMetadata && torrents[i].needSave
      ensures torrents[i].h in answered
    {
      var h := torrents[i].h;
      SelectedNeedSave(torrents, h);
      assert multiset(Selected(torrents))[h] > 0;
      assert (before + multiset(Selected(torrents)))[h] <= answered[h];
    }
  }

  /** A batch of alerts that the environment may queue. */
  predicate CanDeliver(batch: seq<Alert>, pending: multiset<Handle>, triggersLeft: nat, othersLeft: nat) {
    Answers(batch) <= pending && Triggers(batch) <= triggersLeft && Others(batch) <= othersLeft
  }

  /** The books of resume saves: the requests ever made, those answered by a handled alert, those that no
      alert answers yet, and the counter of the server. */
  datatype Books = Books(
    issued: multiset<Handle>,
    answered: multiset<Handle>,
    pending: multiset<Handle>,
    outstanding: int)

  /** Every request is answered, answered in `queue`, or pending; and the counter counts those not answered. */
  ghost predicate Balanced(b: Books, queue: seq<Alert>) {
    && b.issued == b.answered + Answers(queue) + b.pending
    && b.outstanding == |Answers(queue)| + |b.pending|
  }

  function Requested(b: Books, h: Handle): Books {
    Books(b.issued + multiset{h}, b.answered, b.pending + multiset{h}, b.outstanding + 1)
  }

  function Told(b: Books, h: Handle): Books {
    b.(answered := b.answered + multiset{h}, outstanding := b.outstanding - 1)
  }

  /** What handling an alert does to the books. */
  function Booked(b: Books, a: Alert): Books {
    match a
    case MetadataReceived(h) => Requested(b, h)
    case AddTorrent(h, failed) => if failed then b else Requested(b, h)
    case TorrentFinished(h) => Requested(b, h)
    case TorrentPaused(h) => Requested(b, h)
    case SaveResumeData(h) => Told(b, h)
    case SaveResumeDataFailed(h, _) => Told(b, h)
    case _ => b
  }

  lemma BookedByKind(b: Books, a: Alert)
    ensures Booked(b, a) == if IsTrigger(a) then Requested(b, a.h) else if IsAnswer(a) then Told(b, a.h) else b
  {
  }

  lemma RequestKeepsBalance(b: Books, queue: seq<Alert>, h: Handle)
    requires Balanced(b, queue)
    ensures Balanced(Requested(b, h), queue)
  {
  }

  lemma AnswerKeepsBalance(b: Books, h: Handle, rest: multiset<Handle>)
    requires b.issued == b.answered + (rest + multiset{h}) + b.pending
    requires b.outstanding == |rest + multiset{h}| + |b.pending|
    ensures Told(b, h).issued == Told(b, h).answered + rest + b.pending &&
      Told(b, h).outstanding == |rest| + |b.pending|
  {
    assert b.answered + (rest + multiset{h}) + b.pending == b.answered + multiset{h} + rest + b.pending;
  }

  /** Handling the first queued alert keeps the books balanced. */
  lemma BooksStayBalanced(b: Books, queue: seq<Alert>)
    requires Balanced(b, queue) && queue != []
    ensures var next := Booked(b, queue[0]);
      && Balanced(next, queue[1..])
      && b.issued <= next.issued
      && next.outstanding == b.outstanding + if IsTrigger(queue[0]) then 1 else if IsAnswer(queue[0]) then -1 else 0
  {
    var a, rest := queue[0], queue[1..];
    BookedByKind(b, a);
    if IsTrigger(a) {
      assert Answers(queue) == Answers(rest);
      RequestKeepsBalance(b, rest, a.h);
    } else if IsAnswer(a) {
      assert Answers(queue) == Answers(rest) + multiset{a.h};
      AnswerKeepsBalance(b, a.h, Answers(rest));
    } else {
      assert Answers(queue) == Answers(rest);
    }
  }

  /** Handling an alert books what the alert asks for or answers. */
  lemma BookedAsRecorded(b: Books, asked: multiset<Handle>, history: seq<Alert>, a: Alert)
    requires b.issued == asked + Requests(history) && b.answered == Answers(history)
    ensures var next := Booked(b, a);
      next.issued == asked + Requests(history + [a]) && next.answered == Answers(history + [a])
  {
    BookedByKind(b, a);
    CountsOneMore(history, a);
  }

  lemma ThirtySecond(i: nat)
    ensures (i + 1) / 32 == i / 32 + if (i + 1) % 32 == 0 then 1 else 0
  {
  }

  lemma MultisetOneMore(temp: seq<Handle>, i: nat)
    requires i < |temp|
    ensures multiset(temp[..i + 1]) == multiset(temp[..i]) + multiset{temp[i]}
  {
    assert temp[..i + 1] == temp[..i] + [temp[i]];
  }

  lemma DeliveringMoves(pending: multiset<Handle>, queued: multiset<Handle>, batch: multiset<Handle>)
    requires batch <= pending
    ensures (pending - batch) + (queued + batch) == pending + queued
  {
  }

  lemma SameSum(a: multiset<Handle>, b: multiset<Handle>)
    requires a + multiset{} == b + multiset{}
    ensures a == b
  {
    assert a + multiset{} == a && b + multiset{} == b;
  }

  /** Moving answers from pending to queued keeps the books balanced. */
  lemma DeliveryKeepsBalance(b: Books, queue: seq<Alert>, pendingNow: multiset<Handle>, queueNow: seq<Alert>)
    requires Balanced(b, queue) && pendingNow + Answers(queueNow) == b.pending + Answers(queue)
    ensures Balanced(b.(pending := pendingNow), queueNow)
  {
    assert b.answered + Answers(queue) + b.pending == b.answered + (b.pending + Answers(queue));
    assert b.answered + Answers(queueNow) + pendingNow == b.answered + (pendingNow + Answers(queueNow));
    assert |b.pending + Answers(queue)| == |b.pending| + |Answers(queue)|;
    assert |pendingNow + Answers(queueNow)| == |pendingNow| + |Answers(queueNow)|;
  }

  /** libtorrent, as the environment: it queues alerts of its own choosing, answers each save request with
      exactly one alert, and has only finitely many other alerts and empty waits left. */
  class Session {
    var alerts: seq<Alert>           // queued, not yet popped
    var pending: multiset<Handle>    // save requests that no alert answers yet
    var triggersLeft: nat            // alerts still to come that lead to a save request
    var othersLeft: nat              // alerts still to come that neither do that nor answer one
    var emptyWaitsLeft: nat
    ghost var issued: multiset<Handle>  // every save request ever made
    ghost var pops: nat                 // how often the alerts have been popped

    constructor (triggers: nat, others: nat, emptyWaits: nat)
      ensures alerts == [] && pending == multiset{} && issued == multiset{}
      ensures triggersLeft == triggers && othersLeft == others && emptyWaitsLeft == emptyWaits
    {
      alerts, pending, issued, pops := [], multiset{}, multiset{}, 0;
      triggersLeft, othersLeft, emptyWaitsLeft := triggers, others, emptyWaits;
    }

    method RequestResumeData(h: Handle)
      modifies this`pending, this`issued
      ensures pending == old(pending) + multiset{h} && issued == old(issued) + multiset{h}
    {
      pending := pending + multiset{h};
      issued := issued + multiset{h};
    }

    /** What queuing alerts keeps: requests are either pending or answered in the queue, and no alert
        comes out of nowhere. */
    twostate predicate OnlyDelivered()
      reads this
    {
      && pending + Answers(alerts) == old(pending) + Answers(old(alerts))
      && triggersLeft + Triggers(alerts) == old(triggersLeft) + Triggers(old(alerts))
      && othersLeft + Others(alerts) == old(othersLeft) + Others(old(alerts))
      && |alerts| >= |old(alerts)|
    }

    method Deliver()
      modifies this`alerts, this`pending, this`triggersLeft, this`othersLeft
      ensures OnlyDelivered()
    {
      assert CanDeliver([], pending, triggersLeft, othersLeft);
      var batch: seq<Alert> :| CanDeliver(batch, pending, triggersLeft, othersLeft);
      assert CanDeliver(batch, pending, triggersLeft, othersLeft);
      CountsConcat(alerts, batch);
      DeliveringMoves(pending, Answers(alerts), Answers(batch));
      alerts, pending, triggersLeft, othersLeft :=
        alerts + batch, pending - Answers(batch), triggersLeft - Triggers(batch), othersLeft - Others(batch);
    }

    method PopAlerts() returns (popped: seq<Alert>)
      modifies this`alerts, this`pending, this`triggersLeft, this`othersLeft, this`pops
      ensures alerts == [] && pops == old(pops) + 1
      ensures pending + Answers(popped) == old(pending) + Answers(old(alerts))
      ensures triggersLeft + Triggers(popped) == old(triggersLeft) + Triggers(old(alerts))
      ensures othersLeft + Others(popped) == old(othersLeft) + Others(old(alerts))
      ensures |popped| >= |old(alerts)|
    {
      Deliver();
      popped := alerts;
      alerts := [];
      pops := pops + 1;
    }

    /** Waits for an alert; an empty wait is possible only while some are left. */
    method WaitForAlert() returns (ready: bool)
      requires alerts != [] || pending != multiset{}
      modifies this`alerts, this`pending, this`triggersLeft, this`othersLeft, this`emptyWaitsLeft
      ensures OnlyDelivered()
      ensures ready ==> alerts != [] && emptyWaitsLeft == old(emptyWaitsLeft)
      ensures !ready ==> emptyWaitsLeft + 1 == old(emptyWaitsLeft)
    {
      Deliver();
      ready := true;
      if alerts == [] {
        assert alerts == old(alerts) && Answers(alerts) == multiset{};
        SameSum(pending, old(pending));
        assert |pending| > 0;
        var patient := *;
        if patient && emptyWaitsLeft > 0 {
          emptyWaitsLeft := emptyWaitsLeft - 1;
          ready := false;
        } else {
          var h :| h in pending;
          var answer;
          if * { answer := SaveResumeData(h); } else { answer := SaveResumeDataFailed(h, true); }
          assert [answer][1..] == [];
          alerts, pending := [answer], pending - multiset{h};
        }
      }
    }
  }

  class Sheath {
    const ses: Session
    const svs: V.Values
    var allHandles: Index
    var numOutstanding: int
    ghost var history: seq<Alert>           // the alerts handled so far
    ghost var answered: multiset<Handle>    // the answers among them
    ghost var asked: multiset<Handle>       // the save requests that no alert led to

    ghost function State(): Books
      reads this, ses
    {
      Books(ses.issued, answered, ses.pending, numOutstanding)
    }

    ghost predicate Valid()
      reads this, ses
    {
      Balanced(State(), ses.alerts) && Recorded()
    }

    /** The index and every request and answer are those of the alerts handled so far, beside the requests
        made otherwise. */
    ghost predicate Recorded()
      reads this, ses
    {
      && allHandles == IndexAfter(history)
      && ses.issued == asked + Requests(history)
      && answered == Answers(history)
    }

    /** The termination measure: each alert handled and each empty wait lowers it. */
    ghost function Work(): int
      reads this, ses
    {
      2 * (ses.triggersLeft + Triggers(ses.alerts)) + numOutstanding + ses.othersLeft + Others(ses.alerts) +
        ses.emptyWaitsLeft
    }

    constructor (session: Session, metrics: nat)
      requires session.alerts == [] && session.pending == multiset{} && session.issued == multiset{}
      ensures Valid() && ses == session && history == [] && answered == asked == multiset{}
      ensures fresh(svs) && svs.State() == V.Initial(metrics)
    {
      ses := session;
      svs := new V.Values(metrics);
      allHandles, numOutstanding := map[], 0;
      history, answered, asked := [], multiset{}, multiset{};
    }

    method RequestSave(h: Handle)
      modifies this`numOutstanding, ses`pending, ses`issued
      ensures State() == Requested(old(State()), h)
    {
      ses.RequestResumeData(h);
      numOutstanding := numOutstanding + 1;
    }

    method CountAnswer(h: Handle)
      modifies this`numOutstanding, this`answered
      ensures State() == Told(old(State()), h)
    {
      numOutstanding := numOutstanding - 1;
      answered := answered + multiset{h};
    }

    method SetAllTorrents(st: seq<Status>)
      modifies this`allHandles
      ensures allHandles == SetAll(old(allHandles), st) && State() == old(State())
    {
      for i := 0 to |st|
        invariant allHandles == SetAll(old(allHandles), st[..i])
      {
        assert st[..i + 1][..i] == st[..i];
        allHandles := allHandles[st[i].handle := st[i]];
      }
      assert st[..|st|] == st;
    }

    method RemoveTorrentWithHandle(h: Handle)
      modifies this`allHandles
      ensures allHandles == old(allHandles) - {h} && State() == old(State())
    {
      if h !in allHandles {
        return;
      }
      allHandles := allHandles - {h};
    }

    method HandleAlert(a: Alert) returns (quiet: bool)
      modifies this, svs, ses`pending, ses`issued
      ensures quiet <==>
        || a.SessionStats? || a.DhtStats? || a.PeerConnect? || a.IncomingConnection? || a.StateUpdate?
        || (a.PeerDisconnected? && a.uninteresting) || (a.SaveResumeDataFailed? && a.notModified)
      ensures history == old(history) + [a] && asked == old(asked)
      ensures allHandles == IndexStep(old(allHandles), a)
      ensures svs.State() ==
        if a.SessionStats? then V.Updated(old(svs.State()), V.Sample(a.counters, a.timestamp)) else old(svs.State())
      ensures State() == Booked(old(State()), a)
    {
      history := history + [a];
      match a
      case SessionStats(counters, timestamp) =>
        svs.UpdateCounters(counters, timestamp);
        quiet := true;
      case DhtStats => quiet := true;
      case PeerConnect => quiet := true;
      case IncomingConnection => quiet := true;
      case PeerDisconnected(uninteresting) => quiet := uninteresting;
      case _ => quiet := HandleTorrentAlert(a);
    }

    /** The second half of the alert's case distinction. */
    method HandleTorrentAlert(a: Alert) returns (quiet: bool)
      requires !a.SessionStats? && !a.DhtStats? && !a.PeerConnect? && !a.IncomingConnection? && !a.PeerDisconnected?
      modifies this`numOutstanding, this`answered, this`allHandles, ses`pending, ses`issued
      ensures quiet == IsQuiet(a)
      ensures allHandles == IndexStep(old(allHandles), a)
      ensures State() == Booked(old(State()), a)
    {
      quiet := false;
      match a
      case MetadataReceived(h) => RequestSave(h);
      case AddTorrent(h, failed) =>
        if !failed { RequestSave(h); }
      case TorrentFinished(h) => RequestSave(h);
      case SaveResumeData(h) => CountAnswer(h);
      case SaveResumeDataFailed(h, notModified) =>
        CountAnswer(h);
        quiet := notModified;
      case TorrentPaused(h) => RequestSave(h);
      case StateUpdate(statuses) =>
        SetAllTorrents(statuses);
        quiet := true;
      case TorrentRemoved(h) => RemoveTorrentWithHandle(h);
      case OtherAlert =>
    }

    method PopAlerts()
      requires Valid()
      modifies this, svs, ses
      ensures Valid() && asked == old(asked) && ses.pops == old(ses.pops) + 1
      ensures old(ses.issued) <= ses.issued
      ensures Work() <= old(Work()) - |old(ses.alerts)|
      ensures numOutstanding >= 0
    {
      var alerts := ses.PopAlerts();
      DeliveryKeepsBalance(old(State()), old(ses.alerts), ses.pending, alerts);
      HandleAll(alerts);
    }

    /** The loop over the popped alerts. */
    method HandleAll(alerts: seq<Alert>)
      requires Balanced(State(), alerts) && Recorded()
      modifies this, svs, ses`pending, ses`issued
      ensures Balanced(State(), []) && Recorded() && asked == old(asked)
      ensures history == old(history) + alerts
      ensures old(ses.issued) <= ses.issued
      ensures numOutstanding == old(numOutstanding) + 2 * Triggers(alerts) + Others(alerts) - |alerts|
    {
      for i := 0 to |alerts|
        invariant Balanced(State(), alerts[i..]) && Recorded() && asked == old(asked)
        invariant history + alerts[i..] == old(history) + alerts
        invariant old(ses.issued) <= ses.issued
        invariant 2 * Triggers(alerts[i..]) + Others(alerts[i..]) + numOutstanding
               == 2 * Triggers(alerts) + Others(alerts) + old(numOutstanding) - i
      {
        TakeFirst(alerts, i);
        MoveFirst(history, alerts, i);
        BooksStayBalanced(State(), alerts[i..]);
        BookedAsRecorded(State(), asked, history, alerts[i]);
        var quiet := HandleAlert(alerts[i]);
      }
    }

    method Wait() returns (ready: bool)
      requires Valid() && numOutstanding > 0
      modifies ses
      ensures Valid() && ses.issued == old(ses.issued)
      ensures ready ==> ses.alerts != [] && Work() == old(Work())
      ensures !ready ==> Work() == old(Work()) - 1
    {
      ready := ses.WaitForAlert();
      DeliveryKeepsBalance(old(State()), old(ses.alerts), ses.pending, ses.alerts);
    }

    /** Requests a save of every selected torrent and waits until all requests are answered. The loop ends
        because the environment answers each request once and has finitely much else to do. */
    method SaveAllResume(torrents: seq<TorrentInfo>)
      requires Valid()
      modifies this, svs, ses
      ensures Valid() && numOutstanding == 0
      ensures asked == old(asked) + multiset(Selected(torrents))
      ensures answered == ses.issued == asked + Requests(history)
      ensures old(ses.issued) + multiset(Selected(torrents)) <= answered
      ensures forall i :: 0 <= i < |torrents| ==>
        torrents[i].valid && torrents[i].hasMetadata && torrents[i].needSave ==> torrents[i].h in answered
    {
      var temp := Selected(torrents);
      RequestAll(temp);
      while numOutstanding > 0
        invariant Valid()
        invariant old(ses.issued) + multiset(temp) <= ses.issued
        invariant asked == old(asked) + multiset(temp)
        decreases Work()
      {
        var ready := Wait();
        if !ready {
          continue;
        }
        PopAlerts();
      }
      SelectedAreAnswered(torrents, old(ses.issued), answered);
    }

    method PopOnThirtySecond(idx: nat)
      requires Valid()
      modifies this, svs, ses
      ensures Valid() && asked == old(asked) && old(ses.issued) <= ses.issued
      ensures ses.pops == old(ses.pops) + if idx % 32 == 0 then 1 else 0
    {
      if idx % 32 == 0 {
        PopAlerts();
      }
    }

    /** A save request that no alert leads to. */
    method AskFor(h: Handle)
      requires Valid()
      modifies this`numOutstanding, this`asked, ses`pending, ses`issued
      ensures Valid() && asked == old(asked) + multiset{h} && ses.issued == old(ses.issued) + multiset{h}
    {
      RequestKeepsBalance(State(), ses.alerts, h);
      RequestSave(h);
      asked := asked + multiset{h};
    }

    /** The request loop; it handles alerts after every 32 requests. */
    method RequestAll(temp: seq<Handle>)
      requires Valid()
      modifies this, svs, ses
      ensures Valid() && old(ses.issued) + multiset(temp) <= ses.issued
      ensures asked == old(asked) + multiset(temp) && ses.pops == old(ses.pops) + |temp| / 32
    {
      var idx := 0;
      for i := 0 to |temp|
        invariant Valid() && idx == i
        invariant old(ses.issued) + multiset(temp[..i]) <= ses.issued
        invariant asked == old(asked) + multiset(temp[..i]) && ses.pops == old(ses.pops) + i / 32
      {
        AskFor(temp[i]);
        MultisetOneMore(temp, i);
        ThirtySecond(i);
        idx := idx + 1;
        PopOnThirtySecond(idx);
      }
      assert temp[..|temp|] == temp;
    }

    /** The rendered statuses of the index, each handle once, in the order of an enumeration. */
    method ListTorrents() returns (allstats: seq<Value>, ghost order: seq<Handle>)
      ensures forall h :: h in order <==> h in allHandles
      ensures forall i, j :: 0 <= i < j < |order| ==> order[i] != order[j]
      ensures |allstats| == |order| && forall i :: 0 <= i < |order| ==>
        order[i] in allHandles && allstats[i] == Object(allHandles[order[i]].fields)
    {
      allstats := [];
      order := [];
      var rest := allHandles.Keys;
      while rest != {}
        invariant rest <= allHandles.Keys
        invariant forall h :: h in order <==> h in allHandles && h !in rest
        invariant forall i, j :: 0 <= i < j < |order| ==> order[i] != order[j]
        invariant |allstats| == |order| && forall i :: 0 <= i < |order| ==>
          order[i] in allHandles && allstats[i] == Object(allHandles[order[i]].fields)
      {
        var h :| h in rest;
        allstats := allstats + [Object(allHandles[h].fields)];
        order := order + [h];
        rest := rest - {h};
      }
    }

    /** The sync document lists every torrent of the index exactly once; with clean fields it is a payload
        for the sync protocol. */
    method GetSyncStats(stats: Value) returns (doc: Value, ghost order: seq<Handle>)
      ensures forall h :: h in order <==> h in allHandles
      ensures forall i, j :: 0 <= i < j < |order| ==> order[i] != order[j]
      ensures IsSyncDocument(doc, stats, allHandles, order)
      ensures Valid() ==> ListsLastWords(order, allHandles, history)
      ensures Clean(stats) && AllClean(allHandles) ==> S.Payload(doc)
    {
      var allstats;
      allstats, order := ListTorrents();
      doc := Object(map["stats" := stats, "torrents" := Array(allstats)]);
      if Clean(stats) && AllClean(allHandles) {
        DocumentIsPayload(stats, allstats, allHandles, order);
      }
      if Valid() {
        IndexListsLastWords(order, history);
      }
    }
  }

  /** An object of the session statistics and, in the given order, the rendered torrents. */
  ghost predicate IsSyncDocument(doc: Value, stats: Value, index: Index, order: seq<Handle>) {
    && doc.Object? && doc.members.Keys == {"stats", "torrents"}
    && doc.members["stats"] == stats
    && doc.members["torrents"].Array? && |doc.members["torrents"].items| == |order|
    && forall i :: 0 <= i < |order| ==>
      order[i] in index && doc.members["torrents"].items[i] == Object(index[order[i]].fields)
  }

  /** Exactly the torrents on which some alert had the last word are listed, each with that status. */
  ghost predicate ListsLastWords(order: seq<Handle>, index: Index, history: seq<Alert>) {
    && (forall h :: h in order <==> exists st :: LastWord(history, h, st))
    && (forall h :: h in order ==> h in index && LastWord(history, h, index[h]))
  }

  lemma IndexListsLastWords(order: seq<Handle>, history: seq<Alert>)
    requires forall h :: h in order <==> h in IndexAfter(history)
    ensures ListsLastWords(order, IndexAfter(history), history)
  {
    forall h
      ensures h in order <==> exists st :: LastWord(history, h, st)
      ensures h in order ==> LastWord(history, h, IndexAfter(history)[h])
    {
      if h in order { IndexIsLastWord(history, h, IndexAfter(history)[h]); }
      if st :| LastWord(history, h, st) { IndexIsLastWord(history, h, st); }
    }
  }

  /** The rendered fields of every torrent of the index have clean keys. */
  ghost predicate AllClean(index: Index) {
    forall h :: h in index ==> Clean(Object(index[h].fields))
  }

  lemma DocumentIsPayload(stats: Value, allstats: seq<Value>, index: Index, order: seq<Handle>)
    requires Clean(stats) && AllClean(index) && |allstats| == |order|
    requires forall i :: 0 <= i < |order| ==> order[i] in index && allstats[i] == Object(index[order[i]].fields)
    ensures S.Payload(Object(map["stats" := stats, "torrents" := Array(allstats)]))
  {
    assert Clean(Array(allstats));
  }
}
