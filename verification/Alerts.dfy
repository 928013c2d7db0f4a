/** The alerts of libtorrent that `sheath` looks at, and what a history of them means. */
module Alerts {
  import opened Json

  type Handle = nat

  /** A torrent's status: its handle, and its fields as the server renders them. */
  datatype Status = Status(handle: Handle, fields: map<string, Value>)

  datatype Alert =
    | SessionStats(counters: seq<int>, timestamp: nat)
    | DhtStats
    | PeerConnect
    | IncomingConnection
    | PeerDisconnected(uninteresting: bool)
    | MetadataReceived(h: Handle)
    | AddTorrent(h: Handle, failed: bool)
    | TorrentFinished(h: Handle)
    | SaveResumeData(h: Handle)
    | SaveResumeDataFailed(h: Handle, notModified: bool)
    | TorrentPaused(h: Handle)
    | StateUpdate(statuses: seq<Status>)
    | TorrentRemoved(h: Handle)
    | OtherAlert

  /** What `handle_alert` returns: whether the alert stays out of the log. */
  predicate IsQuiet(a: Alert) {
    match a
    case SessionStats(_, _) => true
    case DhtStats => true
    case PeerConnect => true
    case IncomingConnection => true
    case PeerDisconnected(uninteresting) => uninteresting
    case SaveResumeDataFailed(_, notModified) => notModified
    case StateUpdate(_) => true
    case _ => false
  }

  /** Handling the alert asks for the torrent's resume data to be saved. */
  predicate IsTrigger(a: Alert) {
    a.MetadataReceived? || (a.AddTorrent? && !a.failed) || a.TorrentFinished? || a.TorrentPaused?
  }

  /** The alert answers a save request. */
  predicate IsAnswer(a: Alert) {
    a.SaveResumeData? || a.SaveResumeDataFailed?
  }

  // ---- Counting alerts ----

  function Triggers(alerts: seq<Alert>): nat {
    if alerts == [] then 0 else Triggers(alerts[1..]) + if IsTrigger(alerts[0]) then 1 else 0
  }

  function Others(alerts: seq<Alert>): nat {
    if alerts == [] then 0 else Others(alerts[1..]) + if IsTrigger(alerts[0]) || IsAnswer(alerts[0]) then 0 else 1
  }

  /** The handles whose save requests these alerts answer. */
  function Answers(alerts: seq<Alert>): multiset<Handle> {
    if alerts == [] then multiset{}
    else Answers(alerts[1..]) + if IsAnswer(alerts[0]) then multiset{alerts[0].h} else multiset{}
  }

  /** The handles whose resume data these alerts ask to be saved. */
  function Requests(alerts: seq<Alert>): multiset<Handle> {
    if alerts == [] then multiset{}
    else Requests(alerts[1..]) + if IsTrigger(alerts[0]) then multiset{alerts[0].h} else multiset{}
  }

  lemma {:induction false} CountsConcat(a: seq<Alert>, b: seq<Alert>)
    ensures Triggers(a + b) == Triggers(a) + Triggers(b)
    ensures Others(a + b) == Others(a) + Others(b)
    ensures Answers(a + b) == Answers(a) + Answers(b)
    ensures Requests(a + b) == Requests(a) + Requests(b)
  {
    if a == [] {
      assert a + b == b;
    } else {
      assert (a + b)[1..] == a[1..] + b;
      CountsConcat(a[1..], b);
    }
  }

  lemma CountsOneMore(before: seq<Alert>, a: Alert)
    ensures Requests(before + [a]) == Requests(before) + if IsTrigger(a) then multiset{a.h} else multiset{}
    ensures Answers(before + [a]) == Answers(before) + if IsAnswer(a) then multiset{a.h} else multiset{}
  {
    CountsConcat(before, [a]);
    assert [a][1..] == [];
  }

  lemma {:induction false} CountsAreNumbers(alerts: seq<Alert>, h: Handle)
    ensures Requests(alerts)[h] == |set i | 0 <= i < |alerts| && IsTrigger(alerts[i]) && alerts[i].h == h|
    ensures Answers(alerts)[h] == |set i | 0 <= i < |alerts| && IsAnswer(alerts[i]) && alerts[i].h == h|
  {
    if alerts != [] {
      var n := |alerts| - 1;
      var init, a := alerts[..n], alerts[n];
      CountsAreNumbers(init, h);
      CountsOneMore(init, a);
      assert alerts == init + [a];
      RequestsOneMore(alerts, h);
      AnswersOneMore(alerts, h);
    }
  }

  lemma RequestsOneMore(alerts: seq<Alert>, h: Handle)
    requires alerts != []
    ensures var n := |alerts| - 1;
      |set i | 0 <= i < |alerts| && IsTrigger(alerts[i]) && alerts[i].h == h|
      == |set i | 0 <= i < n && IsTrigger(alerts[..n][i]) && alerts[..n][i].h == h|
         + (if IsTrigger(alerts[n]) && alerts[n].h == h then 1 else 0)
  {
    var n := |alerts| - 1;
    var before := set i | 0 <= i < n && IsTrigger(alerts[..n][i]) && alerts[..n][i].h == h;
    assert (set i | 0 <= i < |alerts| && IsTrigger(alerts[i]) && alerts[i].h == h)
        == before + if IsTrigger(alerts[n]) && alerts[n].h == h then {n} else {};
  }

  lemma AnswersOneMore(alerts: seq<Alert>, h: Handle)
    requires alerts != []
    ensures var n := |alerts| - 1;
      |set i | 0 <= i < |alerts| && IsAnswer(alerts[i]) && alerts[i].h == h|
      == |set i | 0 <= i < n && IsAnswer(alerts[..n][i]) && alerts[..n][i].h == h|
         + (if IsAnswer(alerts[n]) && alerts[n].h == h then 1 else 0)
  {
    var n := |alerts| - 1;
    var before := set i | 0 <= i < n && IsAnswer(alerts[..n][i]) && alerts[..n][i].h == h;
    assert (set i | 0 <= i < |alerts| && IsAnswer(alerts[i]) && alerts[i].h == h)
        == before + if IsAnswer(alerts[n]) && alerts[n].h == h then {n} else {};
  }

  /** A torrent's resume data is asked for once for each alert that its metadata came, that it was added
      without an error, that it finished, or that it was paused; and for no other. */
  lemma RequestsByKind(alerts: seq<Alert>, h: Handle)
    ensures Requests(alerts)[h] == |set i | 0 <= i < |alerts| &&
      (alerts[i] == MetadataReceived(h) || alerts[i] == AddTorrent(h, false) ||
       alerts[i] == TorrentFinished(h) || alerts[i] == TorrentPaused(h))|
  {
    CountsAreNumbers(alerts, h);
    assert (set i | 0 <= i < |alerts| && IsTrigger(alerts[i]) && alerts[i].h == h) ==
      set i | 0 <= i < |alerts| &&
        (alerts[i] == MetadataReceived(h) || alerts[i] == AddTorrent(h, false) ||
         alerts[i] == TorrentFinished(h) || alerts[i] == TorrentPaused(h));
  }

  /** A request is answered once for each alert that the data is there or that there is none. */
  lemma AnswersByKind(alerts: seq<Alert>, h: Handle)
    ensures Answers(alerts)[h] == |set i | 0 <= i < |alerts| &&
      (alerts[i] == SaveResumeData(h) || (alerts[i].SaveResumeDataFailed? && alerts[i].h == h))|
  {
    CountsAreNumbers(alerts, h);
    assert (set i | 0 <= i < |alerts| && IsAnswer(alerts[i]) && alerts[i].h == h) ==
      set i | 0 <= i < |alerts| &&
        (alerts[i] == SaveResumeData(h) || (alerts[i].SaveResumeDataFailed? && alerts[i].h == h));
  }

  /** Taking the first of the remaining alerts off. */
  lemma TakeFirst(alerts: seq<Alert>, i: nat)
    requires i < |alerts|
    ensures alerts[i..] != [] && alerts[i..][0] == alerts[i] && alerts[i..][1..] == alerts[i + 1..]
    ensures 2 * Triggers(alerts[i..]) + Others(alerts[i..]) == 2 * Triggers(alerts[i + 1..]) + Others(alerts[i + 1..])
      + if IsTrigger(alerts[i]) then 2 else if IsAnswer(alerts[i]) then 0 else 1
  {
  }

  lemma MoveFirst(before: seq<Alert>, alerts: seq<Alert>, i: nat)
    requires i < |alerts|
    ensures before + [alerts[i]] + alerts[i + 1..] == before + alerts[i..]
    ensures (before + [alerts[i]])[..|before|] == before
  {
  }

  // ---- The torrent index ----

  type Index = map<Handle, Status>

  /** `set_all_torrents`: a later status of the same handle overwrites an earlier one. */
  function SetAll(index: Index, statuses: seq<Status>): Index {
    if statuses == [] then index
    else
      var last := statuses[|statuses| - 1];
      SetAll(index, statuses[..|statuses| - 1])[last.handle := last]
  }

  function IndexStep(index: Index, a: Alert): Index {
    match a
    case StateUpdate(statuses) => SetAll(index, statuses)
    case TorrentRemoved(h) => index - {h}
    case _ => index
  }

  function IndexAfter(history: seq<Alert>): Index {
    if history == [] then map[] else IndexStep(IndexAfter(history[..|history| - 1]), history[|history| - 1])
  }

  /** The alert is a state update or a removal that names the handle. */
  predicate Names(a: Alert, h: Handle) {
    (a.StateUpdate? && exists k :: 0 <= k < |a.statuses| && a.statuses[k].handle == h) ||
      (a.TorrentRemoved? && a.h == h)
  }

  /** `st` is the last status that the update reports for its handle. */
  ghost predicate LastReported(statuses: seq<Status>, h: Handle, st: Status) {
    exists k :: 0 <= k < |statuses| && statuses[k] == st && st.handle == h &&
      forall j :: k < j < |statuses| ==> statuses[j].handle != h
  }

  /** The last alert naming `h` is a state update, and `st` the last status it reports for `h`. */
  ghost predicate LastWord(history: seq<Alert>, h: Handle, st: Status) {
    exists i :: 0 <= i < |history| && history[i].StateUpdate? && LastReported(history[i].statuses, h, st) &&
      forall j :: i < j < |history| ==> !Names(history[j], h)
  }

  lemma {:induction false} SetAllIsLastReported(index: Index, statuses: seq<Status>, h: Handle)
    ensures var named := exists k :: 0 <= k < |statuses| && statuses[k].handle == h;
      && (named ==> h in SetAll(index, statuses) && LastReported(statuses, h, SetAll(index, statuses)[h]))
      && (!named ==> (h in SetAll(index, statuses) <==> h in index))
      && (!named && h in index ==> SetAll(index, statuses)[h] == index[h])
  {
    if statuses != [] {
      var init, last := statuses[..|statuses| - 1], statuses[|statuses| - 1];
      SetAllIsLastReported(index, init, h);
      if last.handle == h {
        assert statuses[|statuses| - 1] == last;
      } else if exists k :: 0 <= k < |statuses| && statuses[k].handle == h {
        var k :| 0 <= k < |statuses| && statuses[k].handle == h;
        assert init[k].handle == h;
        var st := SetAll(index, init)[h];
        var n :| 0 <= n < |init| && init[n] == st && st.handle == h &&
          forall j :: n < j < |init| ==> init[j].handle != h;
        assert statuses[n] == st;
        forall j | n < j < |statuses| ensures statuses[j].handle != h {
          if j < |init| { assert init[j] == statuses[j]; }
        }
      } else {
        forall k | 0 <= k < |init| ensures init[k].handle != h { assert init[k] == statuses[k]; }
      }
    }
  }

  lemma OnlyOneLastReported(statuses: seq<Status>, h: Handle, one: Status, two: Status)
    requires LastReported(statuses, h, one) && LastReported(statuses, h, two)
    ensures one == two
  {
  }

  /** After any history a handle is in the index, with status `st`, exactly when the last alert naming it
      was a state update whose last status for it was `st`. */
  lemma {:induction false} IndexIsLastWord(history: seq<Alert>, h: Handle, st: Status)
    ensures h in IndexAfter(history) && IndexAfter(history)[h] == st <==> LastWord(history, h, st)
  {
    if history != [] {
      var n := |history| - 1;
      var before, a := history[..n], history[n];
      IndexIsLastWord(before, h, st);
      if Names(a, h) {
        if a.StateUpdate? {
          SetAllIsLastReported(IndexAfter(before), a.statuses, h);
          var now := IndexAfter(history)[h];
          if LastWord(history, h, st) {
            var i :| 0 <= i < |history| && history[i].StateUpdate? && LastReported(history[i].statuses, h, st) &&
                     forall j :: i < j < |history| ==> !Names(history[j], h);
            assert i == n;
            OnlyOneLastReported(a.statuses, h, st, now);
          }
        } else {
          NoLastWordAfterRemoval(history, h, st);
        }
      } else {
        if a.StateUpdate? { SetAllIsLastReported(IndexAfter(before), a.statuses, h); }
        LastWordUnaffected(history, h, st);
      }
    }
  }

  lemma NoLastWordAfterRemoval(history: seq<Alert>, h: Handle, st: Status)
    requires history != [] && history[|history| - 1] == TorrentRemoved(h)
    ensures !LastWord(history, h, st)
  {
    assert Names(history[|history| - 1], h);
  }

  lemma LastWordUnaffected(history: seq<Alert>, h: Handle, st: Status)
    requires history != [] && !Names(history[|history| - 1], h)
    ensures LastWord(history, h, st) <==> LastWord(history[..|history| - 1], h, st)
  {
    var n := |history| - 1;
    var before := history[..n];
    if LastWord(before, h, st) {
      var i :| 0 <= i < n && before[i].StateUpdate? && LastReported(before[i].statuses, h, st) &&
        forall j :: i < j < n ==> !Names(before[j], h);
      assert history[i] == before[i];
      forall j | i < j < |history| ensures !Names(history[j], h) {
        if j < n { assert history[j] == before[j]; }
      }
    }
    if LastWord(history, h, st) {
      var i :| 0 <= i < |history| && history[i].StateUpdate? && LastReported(history[i].statuses, h, st) &&
               forall j :: i < j < |history| ==> !Names(history[j], h);
      ReportedIsNamed(history[i], h, st);
      assert i < n && before[i] == history[i];
      forall j | i < j < n ensures !Names(before[j], h) { assert before[j] == history[j]; }
    }
  }

  lemma ReportedIsNamed(a: Alert, h: Handle, st: Status)
    requires a.StateUpdate? && LastReported(a.statuses, h, st)
    ensures Names(a, h)
  {
  }
}
