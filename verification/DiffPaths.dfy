/** The paths of a patch: all below the path it was made for, and pairwise incomparable, except
    that one array's appends share the path that ends in "/-". */
module DiffPaths {
  import opened Json
  import opened Pointer
  import opened Patch
  import opened JsonDiff

  function PathOf(op: Op): Tokens {
    match ParsePointer(op.path)
    case Some(at) => at
    case None => []
  }

  predicate IsAppend(op: Op) {
    op.Add? && PathOf(op) != [] && PathOf(op)[|PathOf(op)| - 1] == "-"
  }

  /** Neither operation's place contains the other's, or both append to the same array. */
  predicate Apart(a: Op, b: Op) {
    Incomparable(PathOf(a), PathOf(b)) || (IsAppend(a) && IsAppend(b) && a.path == b.path)
  }

  ghost predicate Antichain(ops: seq<Op>) {
    forall i, j :: 0 <= i < j < |ops| ==> Apart(ops[i], ops[j])
  }

  /** The operation's path extends `at`. */
  predicate Under(op: Op, at: Tokens) {
    ParsePointer(op.path).Some? && IsPrefix(at, PathOf(op))
  }

  /** The operation's path extends `at` by at least one token, the first of them in `heads`. */
  predicate Below(op: Op, at: Tokens, heads: set<string>) {
    Under(op, at) && |PathOf(op)| > |at| && PathOf(op)[|at|] in heads
  }

  ghost predicate AllUnder(ops: seq<Op>, at: Tokens) {
    forall i :: 0 <= i < |ops| ==> Under(ops[i], at)
  }

  ghost predicate AllBelow(ops: seq<Op>, at: Tokens, heads: set<string>) {
    forall i :: 0 <= i < |ops| ==> Below(ops[i], at, heads)
  }

  function Indices(lo: nat, hi: nat): set<string> {
    set i | lo <= i < hi :: Decimal(i)
  }

  /** Every path extends the patch's own path, and the paths form an antichain. */
  lemma {:induction false} DiffPathsApart(loop: AppendLoop, s: Value, t: Value, path: string, ops: seq<Op>, at: Tokens)
    requires IsDiff(loop, s, t, path, ops) && TouchedKeysClean(s, t) && ParsePointer(path) == Some(at)
    ensures AllUnder(ops, at) && Antichain(ops)
    decreases s, 2, 0
  {
    if s == t {
    } else if s.Array? && t.Array? {
      var count := Min(|s.items|, |t.items|);
      var n: nat :| n <= |ops| && IsItemsDiff(loop, s, t, path, count, ops[..n]) &&
        ops[n..] == TailOps(loop, s, t, path);
      ItemsPathsApart(loop, s, t, path, count, ops[..n], at);
      TailPathsApart(loop, s, t, path, at);
      var tail := if |s.items| > |t.items| then Indices(|t.items|, |s.items|) else {"-"};
      HeadsDisjoint(0, count, |t.items|, |s.items|);
      Join(ops, n, at, Indices(0, count), tail);
    } else if s.Object? && t.Object? {
      var added := t.members.Keys - s.members.Keys;
      var n: nat :| n <= |ops| && IsMembersDiff(loop, s, t, path, s.members.Keys, ops[..n]) &&
                    IsAdditions(t.members, path, added, ops[n..]);
      MembersPathsApart(loop, s, t, path, s.members.Keys, ops[..n], at);
      AdditionsPathsApart(t.members, path, added, ops[n..], at);
      Join(ops, n, at, s.members.Keys, added);
    }
  }

  /** Two groups of operations that step into different children of one node. */
  lemma Join(ops: seq<Op>, n: nat, at: Tokens, heads: set<string>, more: set<string>)
    requires n <= |ops| && heads !! more
    requires AllBelow(ops[..n], at, heads) && AllBelow(ops[n..], at, more)
    requires Antichain(ops[..n]) && Antichain(ops[n..])
    ensures AllBelow(ops, at, heads + more) && AllUnder(ops, at) && Antichain(ops)
  {
    forall i | 0 <= i < |ops|
      ensures Below(ops[i], at, heads + more)
      ensures i < n ==> Below(ops[i], at, heads)
      ensures n <= i ==> Below(ops[i], at, more)
    {
      if i < n { assert ops[..n][i] == ops[i]; } else { assert ops[n..][i - n] == ops[i]; }
    }
    forall i, j | 0 <= i < j < |ops| ensures Apart(ops[i], ops[j]) {
      if j < n {
        assert ops[..n][i] == ops[i] && ops[..n][j] == ops[j];
      } else if n <= i {
        assert ops[n..][i - n] == ops[i] && ops[n..][j - n] == ops[j];
      } else {
        StepsIntoDifferentChildren(PathOf(ops[i]), PathOf(ops[j]), at);
      }
    }
  }

  lemma StepsIntoDifferentChildren(p: Tokens, q: Tokens, at: Tokens)
    requires |p| > |at| && |q| > |at| && p[|at|] != q[|at|]
    ensures Incomparable(p, q)
  {
    var n: nat := |at|;
    if IsPrefix(p, q) { PrefixAgrees(p, q, n); }
    if IsPrefix(q, p) { PrefixAgrees(q, p, n); }
  }

  lemma PrefixAgrees(a: Tokens, b: Tokens, i: nat)
    requires IsPrefix(a, b) && i < |a|
    ensures a[i] == b[i]
  {
    assert b[..|a|][i] == b[i];
  }

  lemma UnderChild(ops: seq<Op>, at: Tokens, token: string)
    requires AllUnder(ops, at + [token])
    ensures AllBelow(ops, at, {token})
  {
    forall i | 0 <= i < |ops| ensures Below(ops[i], at, {token}) {
      var p := PathOf(ops[i]);
      assert Under(ops[i], at + [token]);
      assert p[..|at| + 1] == at + [token];
      assert p[..|at|] == p[..|at| + 1][..|at|] == at;
      assert p[|at|] == p[..|at| + 1][|at|];
    }
  }

  lemma OneBelow(op: Op, path: string, token: string, at: Tokens)
    requires ParsePointer(path) == Some(at) && CleanKey(token) && op.path == path + "/" + token
    ensures AllBelow([op], at, {token}) && Antichain([op])
    ensures PathOf(op) == at + [token]
  {
    ParseExtended(path, token);
    assert (at + [token])[..|at|] == at;
  }

  lemma HeadsDisjoint(a: nat, b: nat, lo: nat, hi: nat)
    requires b <= lo
    ensures Indices(a, b) !! Indices(lo, hi) && "-" !in Indices(a, hi) && "-" !in Indices(a, b)
  {
    forall i: nat ensures Decimal(i) != "-" { DecimalIsCleanKey(i); }
    forall i: nat, j: nat | Decimal(i) == Decimal(j) ensures i == j { DecimalInjective(i, j); }
  }

  lemma {:induction false} ItemsPathsApart(loop: AppendLoop, s: Value, t: Value, path: string, count: nat,
          ops: seq<Op>, at: Tokens)
    requires s.Array? && t.Array? && count <= |s.items| && count <= |t.items|
    requires IsItemsDiff(loop, s, t, path, count, ops) && TouchedKeysClean(s, t) && ParsePointer(path) == Some(at)
    ensures AllBelow(ops, at, Indices(0, count)) && Antichain(ops)
    decreases s, 1, count
  {
    if count > 0 {
      var c := count - 1;
      var n: nat :| n <= |ops| && IsItemsDiff(loop, s, t, path, c, ops[..n]) &&
                    IsDiff(loop, s.items[c], t.items[c], IndexPath(path, c), ops[n..]);
      ItemsPathsApart(loop, s, t, path, c, ops[..n], at);
      DecimalIsCleanKey(c);
      ParseExtended(path, Decimal(c));
      DiffPathsApart(loop, s.items[c], t.items[c], IndexPath(path, c), ops[n..], at + [Decimal(c)]);
      UnderChild(ops[n..], at, Decimal(c));
      HeadsDisjoint(0, c, c, c + 1);
      assert Indices(c, c + 1) == {Decimal(c)};
      Join(ops, n, at, Indices(0, c), {Decimal(c)});
      assert Indices(0, c) + {Decimal(c)} == Indices(0, count);
    }
  }

  lemma TailPathsApart(loop: AppendLoop, s: Value, t: Value, path: string, at: Tokens)
    requires s.Array? && t.Array? && ParsePointer(path) == Some(at)
    ensures var ops := TailOps(loop, s, t, path);
      AllBelow(ops, at, if |s.items| > |t.items| then Indices(|t.items|, |s.items|) else {"-"}) && Antichain(ops)
  {
    var ops := TailOps(loop, s, t, path);
    if |s.items| > |t.items| {
      assert ops == RemovesDown(path, |t.items|, |s.items|);
      RemovesPathsApart(path, |t.items|, |s.items|, at);
    } else {
      var values := EveryNth(loop.Stride(), t.items, |s.items|);
      assert ops == Appends(path, values);
      AppendsPathsApart(path, values, at);
    }
  }

  lemma AppendsPathsApart(path: string, values: seq<Value>, at: Tokens)
    requires ParsePointer(path) == Some(at)
    ensures AllBelow(Appends(path, values), at, {"-"}) && Antichain(Appends(path, values))
  {
    var ops := Appends(path, values);
    assert path + "/-" == path + "/" + "-";
    forall i | 0 <= i < |ops| ensures Below(ops[i], at, {"-"}) && IsAppend(ops[i]) && ops[i].path == path + "/-" {
      OneBelow(ops[i], path, "-", at);
      assert Below([ops[i]][0], at, {"-"});
    }
  }

  lemma {:induction false} RemovesPathsApart(path: string, lo: nat, hi: nat, at: Tokens)
    requires lo <= hi && ParsePointer(path) == Some(at)
    ensures AllBelow(RemovesDown(path, lo, hi), at, Indices(lo, hi)) && Antichain(RemovesDown(path, lo, hi))
    decreases hi - lo
  {
    if lo < hi {
      var ops, c := RemovesDown(path, lo, hi), hi - 1;
      RemovesPathsApart(path, lo, c, at);
      DecimalIsCleanKey(c);
      OneBelow(ops[0], path, Decimal(c), at);
      assert ops[..1] == [ops[0]] && ops[1..] == RemovesDown(path, lo, c);
      HeadsDisjoint(lo, c, c, hi);
      assert Indices(c, hi) == {Decimal(c)};
      Join(ops, 1, at, {Decimal(c)}, Indices(lo, c));
      assert {Decimal(c)} + Indices(lo, c) == Indices(lo, hi);
    }
  }

  lemma {:induction false} MembersPathsApart(loop: AppendLoop, s: Value, t: Value, path: string, done: set<string>,
          ops: seq<Op>, at: Tokens)
    requires s.Object? && t.Object? && done <= s.members.Keys
    requires IsMembersDiff(loop, s, t, path, done, ops) && TouchedKeysClean(s, t) && ParsePointer(path) == Some(at)
    ensures AllBelow(ops, at, done) && Antichain(ops)
    decreases s, 1, |done|
  {
    if done != {} {
      var key, n: nat :| key in done && n <= |ops| &&
        IsMembersDiff(loop, s, t, path, done - {key}, ops[..n]) && IsMemberDiff(loop, s, t, path, key, ops[n..]);
      MembersPathsApart(loop, s, t, path, done - {key}, ops[..n], at);
      if !Touched(s.members, t.members, key) {
        assert IsDiff(loop, s.members[key], t.members[key], KeyPath(path, key), ops[n..]);
      } else if key in t.members {
        ParseExtended(path, key);
        DiffPathsApart(loop, s.members[key], t.members[key], KeyPath(path, key), ops[n..], at + [key]);
        UnderChild(ops[n..], at, key);
      } else {
        OneBelow(Remove(KeyPath(path, key)), path, key, at);
      }
      Join(ops, n, at, done - {key}, {key});
      PutBack(done, key);
    }
  }

  lemma {:induction false} AdditionsPathsApart(t: map<string, Value>, path: string, done: set<string>, ops: seq<Op>,
          at: Tokens)
    requires done <= t.Keys && IsAdditions(t, path, done, ops) && ParsePointer(path) == Some(at)
    requires forall key :: key in done ==> CleanKey(key)
    ensures AllBelow(ops, at, done) && Antichain(ops)
    decreases |done|
  {
    if done != {} {
      var key :| key in done && |ops| > 0 && IsAdditions(t, path, done - {key}, ops[..|ops| - 1]) &&
                 ops[|ops| - 1] == Add(KeyPath(path, key), t[key]);
      var last := |ops| - 1;
      AdditionsPathsApart(t, path, done - {key}, ops[..last], at);
      OneBelow(ops[last], path, key, at);
      LastAlone(ops);
      Join(ops, last, at, done - {key}, {key});
      PutBack(done, key);
    }
  }

  lemma PutBack(done: set<string>, key: string)
    requires key in done
    ensures done - {key} + {key} == done
  {
  }

  lemma LastAlone(ops: seq<Op>)
    requires ops != []
    ensures ops[|ops| - 1..] == [ops[|ops| - 1]]
  {
  }
}
