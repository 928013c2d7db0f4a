/** `sessionValues`: two samples of the session counters, and the transfer rates between them. */
module SessionValues {
  const U64 := 0x1_0000_0000_0000_0000
  const MIN_AGE := 2000000 // microseconds

  datatype Sample = Sample(counters: seq<int>, t: nat)

  /** The current and the previous counters, each with its timestamp in microseconds. */
  datatype Window = Window(cnt0: seq<int>, cnt1: seq<int>, ts0: nat, ts1: nat)

  function Zeros(metrics: nat): seq<int> {
    seq(metrics, _ => 0)
  }

  function Initial(metrics: nat): Window {
    Window(Zeros(metrics), Zeros(metrics), 0, 0)
  }

  /** The age test subtracts unsigned 64-bit numbers, so it wraps around. */
  function Updated(w: Window, s: Sample): Window {
    var kept := if (s.t - w.ts1) % U64 > MIN_AGE then w.(cnt1 := w.cnt0, ts1 := w.ts0) else w;
    kept.(cnt0 := s.counters, ts0 := s.t)
  }

  /** Division of integers as C++ does it after exact arithmetic: toward zero. */
  function Truncated(a: int, b: int): int
    requires b > 0
  {
    if a >= 0 then a / b else -(-a / b)
  }

  /** Counts per second between the two samples, for the counter at `idx`. */
  function Rate(w: Window, idx: nat): int
    requires idx < |w.cnt0| && idx < |w.cnt1| && w.ts1 < w.ts0
  {
    Truncated((w.cnt0[idx] - w.cnt1[idx]) * 1000000, w.ts0 - w.ts1)
  }

  // ---- Runs ----

  function After(metrics: nat, samples: seq<Sample>): Window {
    if samples == [] then Initial(metrics)
    else Updated(After(metrics, samples[..|samples| - 1]), samples[|samples| - 1])
  }

  /** The sample before the first one is the zero vector at time zero. */
  function Nth(metrics: nat, samples: seq<Sample>, i: int): Sample
    requires -1 <= i < |samples|
  {
    if i < 0 then Sample(Zeros(metrics), 0) else samples[i]
  }

  ghost predicate StrictlyLater(samples: seq<Sample>) {
    && (forall i :: 0 <= i < |samples| ==> 0 < samples[i].t < U64)
    && (forall i, j :: 0 <= i < j < |samples| ==> samples[i].t < samples[j].t)
  }

  /** Each counter vector is the sample taken at its own timestamp; the window is positive, and at most
      two seconds long or exactly the last gap between samples. Returns which sample is the older one. */
  lemma {:induction false} WindowOverRun(metrics: nat, samples: seq<Sample>) returns (i: int)
    requires StrictlyLater(samples) && samples != []
    ensures -1 <= i < |samples| - 1
    ensures var w := After(metrics, samples);
      && Sample(w.cnt0, w.ts0) == samples[|samples| - 1]
      && Sample(w.cnt1, w.ts1) == Nth(metrics, samples, i)
      && 0 < w.ts0 - w.ts1
      && (w.ts0 - w.ts1 <= 2000000 || i == |samples| - 2)
  {
    var before, last := samples[..|samples| - 1], samples[|samples| - 1];
    if before == [] {
      i := -1;
    } else {
      var j := WindowOverRun(metrics, before);
      var w := After(metrics, before);
      assert before[|before| - 1] == samples[|samples| - 2];
      assert j >= 0 ==> before[j] == samples[j];
      i := if last.t - w.ts1 > MIN_AGE then |samples| - 2 else j;
    }
  }

  /** Whatever the clock does, the age is measured modulo 2^64: a clock that went back counts as very old
      unless it went back by almost the whole range. */
  lemma OlderSampleMovesIff(w: Window, s: Sample)
    requires s.t < 0x1_0000_0000_0000_0000 && w.ts1 < 0x1_0000_0000_0000_0000
    ensures var next := Updated(w, s);
      && Sample(next.cnt0, next.ts0) == s
      && Sample(next.cnt1, next.ts1) ==
         if w.ts1 <= s.t && s.t - w.ts1 <= 2000000 then Sample(w.cnt1, w.ts1)
         else if s.t < w.ts1 && w.ts1 - s.t >= 0x1_0000_0000_0000_0000 - 2000000 then Sample(w.cnt1, w.ts1)
         else Sample(w.cnt0, w.ts0)
  {
    if s.t < w.ts1 { assert (s.t - w.ts1) % U64 == s.t - w.ts1 + U64; }
  }

  /** When the older sample moves: a new sample at most two seconds after it leaves it where it is, a later
      one puts the last sample in its place. `i` and `j` tell which sample is the older one before and after. */
  lemma OlderSampleMoves(metrics: nat, samples: seq<Sample>, s: Sample) returns (i: int, j: int)
    requires StrictlyLater(samples + [s])
    ensures -1 <= i < |samples| && -1 <= j < |samples|
    ensures var w, next := After(metrics, samples), After(metrics, samples + [s]);
      && Sample(w.cnt1, w.ts1) == Nth(metrics, samples, i)
      && Sample(next.cnt0, next.ts0) == s && Sample(next.cnt1, next.ts1) == Nth(metrics, samples, j)
    ensures j == if s.t - Nth(metrics, samples, i).t <= 2000000 then i else |samples| - 1
  {
    i := -1;
    if samples != [] {
      LaterPrefix(samples, s);
      i := WindowOverRun(metrics, samples);
    }
    j := if s.t - Nth(metrics, samples, i).t <= 2000000 then i else |samples| - 1;
    AfterOneMore(metrics, samples, s);
    assert StrictlyLater([s]) by { assert (samples + [s])[|samples|] == s; }
    if i >= 0 { assert (samples + [s])[i] == samples[i] && (samples + [s])[|samples|] == s; }
    OlderSampleMovesIff(After(metrics, samples), s);
  }

  lemma LaterPrefix(samples: seq<Sample>, s: Sample)
    requires StrictlyLater(samples + [s])
    ensures StrictlyLater(samples)
  {
    assert forall k :: 0 <= k < |samples| ==> samples[k] == (samples + [s])[k];
  }

  lemma AfterOneMore(metrics: nat, samples: seq<Sample>, s: Sample)
    ensures After(metrics, samples + [s]) == Updated(After(metrics, samples), s)
  {
    assert (samples + [s])[..|samples + [s]| - 1] == samples;
  }

  ghost predicate NeverDecreases(samples: seq<Sample>, idx: nat) {
    && (forall i :: 0 <= i < |samples| ==> idx < |samples[i].counters| && samples[i].counters[idx] >= 0)
    && (forall i, j :: 0 <= i < j < |samples| ==> samples[i].counters[idx] <= samples[j].counters[idx])
  }

  /** A counter that never decreases has a rate that is never negative and that accounts for its growth
      over the window, up to less than one count per second. */
  lemma RateOfGrowingCounter(metrics: nat, samples: seq<Sample>, idx: nat)
    requires StrictlyLater(samples) && samples != [] && idx < metrics && NeverDecreases(samples, idx)
    ensures var w := After(metrics, samples);
      && w.ts1 < w.ts0 && idx < |w.cnt0| && idx < |w.cnt1|
      && AccountsFor(Rate(w, idx), (w.cnt0[idx] - w.cnt1[idx]) * 1000000, w.ts0 - w.ts1)
  {
    var i := WindowOverRun(metrics, samples);
    var w := After(metrics, samples);
    TruncatedAccountsFor((w.cnt0[idx] - w.cnt1[idx]) * 1000000, w.ts0 - w.ts1);
  }

  /** A non-negative rate that falls short of the growth over the span by less than one count per second. */
  predicate AccountsFor(rate: int, growth: int, span: int) {
    0 <= rate && rate * span <= growth < (rate + 1) * span
  }

  lemma TruncatedAccountsFor(growth: int, span: int)
    requires growth >= 0 && span > 0
    ensures AccountsFor(Truncated(growth, span), growth, span)
  {
  }

  /** The rate of any two samples: the change per second, cut off toward zero. */
  lemma RateIsCutTowardZero(w: Window, idx: nat)
    requires idx < |w.cnt0| && idx < |w.cnt1| && w.ts1 < w.ts0
    ensures var change := (w.cnt0[idx] - w.cnt1[idx]) * 1000000;
      if change >= 0 then AccountsFor(Rate(w, idx), change, w.ts0 - w.ts1)
      else AccountsFor(-Rate(w, idx), -change, w.ts0 - w.ts1)
  {
    var change := (w.cnt0[idx] - w.cnt1[idx]) * 1000000;
    if change >= 0 {
      TruncatedAccountsFor(change, w.ts0 - w.ts1);
    } else {
      TruncatedAccountsFor(-change, w.ts0 - w.ts1);
    }
  }

  // ---- The object ----

  class Values {
    var cnt0: seq<int>
    var cnt1: seq<int>
    var timestamp0: nat
    var timestamp1: nat

    ghost function State(): Window
      reads this
    {
      Window(cnt0, cnt1, timestamp0, timestamp1)
    }

    constructor (metrics: nat)
      ensures State() == Initial(metrics)
    {
      cnt0, cnt1, timestamp0, timestamp1 := Zeros(metrics), Zeros(metrics), 0, 0;
    }

    method UpdateCounters(sc: seq<int>, t: nat)
      modifies this
      ensures State() == Updated(old(State()), Sample(sc, t))
      ensures cnt0 == sc && timestamp0 == t
      ensures (t - old(timestamp1)) % 0x1_0000_0000_0000_0000 <= 2000000 ==>
        cnt1 == old(cnt1) && timestamp1 == old(timestamp1)
      ensures (t - old(timestamp1)) % 0x1_0000_0000_0000_0000 > 2000000 ==>
        cnt1 == old(cnt0) && timestamp1 == old(timestamp0)
    {
      if (t - timestamp1) % U64 > MIN_AGE {
        cnt1, cnt0 := cnt0, cnt1;
        timestamp1 := timestamp0;
      }
      cnt0 := sc;
      timestamp0 := t;
    }

    /** The receive and send rates of `getSessionStats`, for counters that exist in both samples. */
    method GetRates(recvIdx: nat, sentIdx: nat) returns (rateRecv: int, rateSent: int)
      requires recvIdx < |cnt0| && recvIdx < |cnt1| && sentIdx < |cnt0| && sentIdx < |cnt1| && timestamp1 < timestamp0
      ensures rateRecv == Rate(State(), recvIdx) && rateSent == Rate(State(), sentIdx)
    {
      var micros := timestamp0 - timestamp1;
      rateRecv := Truncated((cnt0[recvIdx] - cnt1[recvIdx]) * 1000000, micros);
      rateSent := Truncated((cnt0[sentIdx] - cnt1[sentIdx]) * 1000000, micros);
    }
  }
}
