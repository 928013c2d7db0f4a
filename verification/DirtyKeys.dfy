/** Exactly when a patch leads to its target: also for documents with keys that would need escaping. */
module DirtyKeys {
  import opened Json
  import opened Pointer
  import opened Patch
  import opened JsonDiff
  import opened DiffMeaning
  import opened DiffTheorems
  import opened UnescapedPaths

  // ---- A patch with a dirty touched key never arrives ----

  /** If the patch succeeds, what it leaves at this place is not `t`. */
  predicate Misses(result: Option<Value>, at: Tokens, t: Value) {
    result.Some? ==> Get(result.value, at) != Some(t)
  }

  /** A document that lacks `t`'s child lacks `t`. */
  lemma MissesChild(result: Option<Value>, at: Tokens, k: string, t: Value)
    requires result.Some? ==> Get(result.value, at + [k]) != Child(t, k)
    ensures Misses(result, at, t)
  {
    if result.Some? && Get(result.value, at) == Some(t) {
      GetBelow(result.value, at, k);
    }
  }

  lemma {:induction false} DirtyNeverArrives(loop: AppendLoop, s: Value, t: Value, path: string, ops: seq<Op>,
          doc: Value, at: Tokens)
    requires IsDiff(loop, s, t, path, ops) && !TouchedKeysClean(s, t)
    requires ParsePointer(path) == Some(at) && Get(doc, at) == Some(s)
    ensures Misses(ApplyAll(doc, ops), at, t)
    decreases s, 2, 0
  {
    if s.Array? {
      DirtyElementMisses(loop, s, t, path, ops, doc, at);
    } else if k :| Touched(s.members, t.members, k) && !CleanKey(k) {
      DirtyMemberMisses(loop, s, t, path, ops, doc, at);
    } else {
      var k :| k in s.members && k in t.members && !TouchedKeysClean(s.members[k], t.members[k]);
      DirtyBelowMisses(loop, s, t, path, ops, doc, at, k);
    }
  }

  lemma {:induction false} LongestIn(keys: set<string>) returns (k: string)
    requires keys != {}
    ensures k in keys && forall j :: j in keys ==> |j| <= |k|
    decreases |keys|
  {
    k :| k in keys;
    if keys != {k} {
      var longest := LongestIn(keys - {k});
      k := if |longest| > |k| then longest else k;
    }
  }

  /** The longest dirty touched key of an object: whatever is read as this key was written longer, so no
      operation reaches the member. */
  lemma DirtyMemberMisses(loop: AppendLoop, s: Value, t: Value, path: string, ops: seq<Op>, doc: Value, at: Tokens)
    requires s.Object? && t.Object? && IsDiff(loop, s, t, path, ops)
    requires exists k :: Touched(s.members, t.members, k) && !CleanKey(k)
    requires ParsePointer(path) == Some(at) && Get(doc, at) == Some(s)
    ensures Misses(ApplyAll(doc, ops), at, t)
  {
    var heads := TouchedKeys(s.members, t.members);
    var some :| Touched(s.members, t.members, some) && !CleanKey(some);
    var dirty := set key | key in heads && !CleanKey(key);
    assert some in dirty;
    var k := LongestIn(dirty);
    ObjectViaTouched(loop, s, t, path, ops);
    forall i | 0 <= i < |ops| ensures Within(ops[i], at, true) && Aside(ops[i], at, k) {
      assert ViaChild(ops[i], path, heads);
      var h :| h in heads && Extends(ops[i].path, KeyPath(path, h));
      ViaMember(ops[i], path, at, h);
      FirstTokenShrinks(h);
      assert CleanKey(h) || h in dirty;
    }
    if ApplyAll(doc, ops).Some? { PatchAside(doc, at, k, ops); }
    GetBelow(doc, at, k);
    MissesChild(ApplyAll(doc, ops), at, k, t);
  }

  lemma ApplyAllCut(doc: Value, ops: seq<Op>, n: nat)
    requires n <= |ops|
    ensures ApplyAll(doc, ops) == AndThen(ApplyAll(doc, ops[..n]), ops[n..])
  {
    assert ops == ops[..n] + ops[n..];
    ApplyAllConcat(doc, ops[..n], ops[n..]);
  }

  /** Operations through clean members other than `k`. */
  lemma CleanMembersAside(ops: seq<Op>, path: string, at: Tokens, heads: set<string>, k: string)
    requires ParsePointer(path) == Some(at) && AllViaChildren(ops, path, heads)
    requires forall h :: h in heads ==> CleanKey(h)
    ensures AllWithin(ops, at, true) && (k !in heads ==> AllAside(ops, at, k))
  {
    forall i | 0 <= i < |ops| ensures Within(ops[i], at, true) && (k !in heads ==> Aside(ops[i], at, k)) {
      assert ViaChild(ops[i], path, heads);
      var h :| h in heads && Extends(ops[i].path, KeyPath(path, h));
      ViaMember(ops[i], path, at, h);
      FirstTokenShrinks(h);
    }
  }

  ghost predicate TouchedAreClean(s: Value, t: Value)
    requires s.Object? && t.Object?
  {
    forall key :: Touched(s.members, t.members, key) ==> CleanKey(key)
  }

  /** The dirty key is inside the common member `k`. */
  lemma {:induction false} DirtyBelowMisses(loop: AppendLoop, s: Value, t: Value, path: string, ops: seq<Op>,
          doc: Value, at: Tokens, k: string)
    requires s.Object? && t.Object? && s != t && IsDiff(loop, s, t, path, ops) && TouchedAreClean(s, t)
    requires k in s.members && k in t.members && !TouchedKeysClean(s.members[k], t.members[k])
    requires ParsePointer(path) == Some(at) && Get(doc, at) == Some(s)
    ensures Misses(ApplyAll(doc, ops), at, t)
    decreases s, 1, |s.members.Keys| + 1
  {
    var added := t.members.Keys - s.members.Keys;
    var n: nat :| n <= |ops| && IsMembersDiff(loop, s, t, path, s.members.Keys, ops[..n]) &&
                  IsAdditions(t.members, path, added, ops[n..]);
    MembersMiss(loop, s, t, path, s.members.Keys, ops[..n], doc, at, k);
    ApplyAllCut(doc, ops, n);
    if ApplyAll(doc, ops).Some? {
      AdditionsViaChildren(t.members, path, added, ops[n..]);
      CleanMembersAside(ops[n..], path, at, added, k);
      PatchAside(ApplyAll(doc, ops[..n]).value, at, k, ops[n..]);
    }
    MissesChild(ApplyAll(doc, ops), at, k, t);
  }

  /** The node is still an object, with `k` untouched or, once its turn has come, missed. */
  ghost predicate MemberMissed(s: Value, t: Value, done: set<string>, doc: Value, after: Value, at: Tokens, k: string)
    requires s.Object? && t.Object? && k in s.members && k in t.members && Get(doc, at).Some?
  {
    && KeepsKind(doc, after, at)
    && if k in done then Get(after, at + [k]) != Some(t.members[k]) else Get(after, at + [k]) == Some(s.members[k])
  }

  lemma {:induction false} MembersMiss(loop: AppendLoop, s: Value, t: Value, path: string, done: set<string>,
          ops: seq<Op>, doc: Value, at: Tokens, k: string)
    requires s.Object? && t.Object? && done <= s.members.Keys && IsMembersDiff(loop, s, t, path, done, ops)
    requires TouchedAreClean(s, t)
    requires k in s.members && k in t.members && !TouchedKeysClean(s.members[k], t.members[k])
    requires ParsePointer(path) == Some(at) && Get(doc, at) == Some(s)
    ensures ApplyAll(doc, ops).Some? ==> MemberMissed(s, t, done, doc, ApplyAll(doc, ops).value, at, k)
    decreases s, 1, |done|
  {
    if done == {} {
      GetBelow(doc, at, k);
    } else {
      var key, n: nat :| key in done && n <= |ops| &&
        IsMembersDiff(loop, s, t, path, done - {key}, ops[..n]) && IsMemberDiff(loop, s, t, path, key, ops[n..]);
      MembersMiss(loop, s, t, path, done - {key}, ops[..n], doc, at, k);
      ApplyAllCut(doc, ops, n);
      if ApplyAll(doc, ops).Some? {
        var mid := ApplyAll(doc, ops[..n]).value;
        var heads := TouchedKeys(s.members, t.members) * {key};
        MemberViaTouched(loop, s, t, path, key, ops[n..]);
        CleanMembersAside(ops[n..], path, at, heads, k);
        PatchAside(mid, at, k, ops[n..]);
        if key == k {
          ParseExtended(path, k);
          DirtyNeverArrives(loop, s.members[k], t.members[k], KeyPath(path, k), ops[n..], mid, at + [k]);
        }
      }
    }
  }

  /** The dirty key is inside a common element. */
  lemma {:induction false} DirtyElementMisses(loop: AppendLoop, s: Value, t: Value, path: string, ops: seq<Op>,
          doc: Value, at: Tokens)
    requires s.Array? && t.Array? && s != t && IsDiff(loop, s, t, path, ops) && !TouchedKeysClean(s, t)
    requires ParsePointer(path) == Some(at) && Get(doc, at) == Some(s)
    ensures Misses(ApplyAll(doc, ops), at, t)
    decreases s, 1, Min(|s.items|, |t.items|) + 1
  {
    var c: nat :| c < |s.items| && c < |t.items| && !TouchedKeysClean(s.items[c], t.items[c]);
    var count := Min(|s.items|, |t.items|);
    var n: nat :| n <= |ops| && IsItemsDiff(loop, s, t, path, count, ops[..n]) && ops[n..] == TailOps(loop, s, t, path);
    ItemsMiss(loop, s, t, path, count, ops[..n], doc, at, c);
    ApplyAllCut(doc, ops, n);
    if ApplyAll(doc, ops).Some? {
      TailMisses(loop, s, t, path, ApplyAll(doc, ops[..n]).value, at, c);
    }
  }

  /** Removes and appends leave the common elements alone. */
  lemma TailMisses(loop: AppendLoop, s: Value, t: Value, path: string, doc: Value, at: Tokens, c: nat)
    requires s.Array? && t.Array? && c < |s.items| && c < |t.items|
    requires ParsePointer(path) == Some(at) && Get(doc, at).Some? && SameKind(s, Get(doc, at).value)
    requires Get(doc, at + [Decimal(c)]) != Some(t.items[c])
    ensures Misses(ApplyAll(doc, TailOps(loop, s, t, path)), at, t)
  {
    var edited := Get(doc, at).value;
    TailPhase(loop, s, t, edited, path, doc, at);
    var r := TailEffect(loop, s, t, edited);
    GetBelow(doc, at, Decimal(c));
    IndexRoundTrip(c);
    if r.Some? {
      GetPut(doc, at, r.value);
      assert r.value.items[c] == edited.items[c];
    }
  }

  ghost predicate ElementMissed(s: Value, t: Value, count: nat, doc: Value, after: Value, at: Tokens, c: nat)
    requires s.Array? && t.Array? && c < |s.items| && c < |t.items| && Get(doc, at).Some?
  {
    && KeepsKind(doc, after, at)
    && var now := Get(after, at + [Decimal(c)]);
      if c < count then now != Some(t.items[c]) else now == Some(s.items[c])
  }

  lemma {:induction false} ItemsMiss(loop: AppendLoop, s: Value, t: Value, path: string, count: nat, ops: seq<Op>,
          doc: Value, at: Tokens, c: nat)
    requires s.Array? && t.Array? && count <= |s.items| && count <= |t.items|
    requires IsItemsDiff(loop, s, t, path, count, ops)
    requires c < |s.items| && c < |t.items| && !TouchedKeysClean(s.items[c], t.items[c])
    requires ParsePointer(path) == Some(at) && Get(doc, at) == Some(s)
    ensures ApplyAll(doc, ops).Some? ==> ElementMissed(s, t, count, doc, ApplyAll(doc, ops).value, at, c)
    decreases s, 1, count
  {
    if count == 0 {
      GetBelow(doc, at, Decimal(c));
      IndexRoundTrip(c);
    } else {
      var i := count - 1;
      var n: nat :| n <= |ops| && IsItemsDiff(loop, s, t, path, i, ops[..n]) &&
                    IsDiff(loop, s.items[i], t.items[i], IndexPath(path, i), ops[n..]);
      ItemsMiss(loop, s, t, path, i, ops[..n], doc, at, c);
      ApplyAllCut(doc, ops, n);
      if ApplyAll(doc, ops).Some? {
        var mid := ApplyAll(doc, ops[..n]).value;
        DiffStaysInside(loop, s.items[i], t.items[i], IndexPath(path, i), ops[n..]);
        ElementAside(ops[n..], path, at, i, c);
        PatchAside(mid, at, Decimal(c), ops[n..]);
        if i == c {
          DecimalIsCleanKey(c);
          ParseExtended(path, Decimal(c));
          DirtyNeverArrives(loop, s.items[c], t.items[c], IndexPath(path, c), ops[n..], mid, at + [Decimal(c)]);
        }
      }
    }
  }

  lemma ElementAside(ops: seq<Op>, path: string, at: Tokens, i: nat, c: nat)
    requires ParsePointer(path) == Some(at) && AllInside(ops, IndexPath(path, i))
    ensures AllWithin(ops, at, false) && (i != c ==> AllAside(ops, at, Decimal(c)))
  {
    if Decimal(i) == Decimal(c) { DecimalInjective(i, c); }
    forall j | 0 <= j < |ops| ensures Within(ops[j], at, false) && (i != c ==> Aside(ops[j], at, Decimal(c))) {
      ViaElement(ops[j], path, at, i);
    }
  }

  // ---- Exactly when a patch arrives ----

  /** For every patch and every document that holds its source at its path: the patch leads to the target
      if and only if every member name that enters a path is clean and, with the append loop as written, no
      array reached grows by two. */
  lemma DiffReachesTargetIff(loop: AppendLoop, s: Value, t: Value, path: string, ops: seq<Op>, doc: Value, at: Tokens)
    requires IsDiff(loop, s, t, path, ops) && ParsePointer(path) == Some(at) && Get(doc, at) == Some(s)
    ensures ApplyAll(doc, ops) == Some(Put(doc, at, t)) <==>
      TouchedKeysClean(s, t) && (loop.Repaired? || !GrowsByTwo(s, t))
  {
    GetPut(doc, at, t);
    if TouchedKeysClean(s, t) {
      DiffMeansExpected(loop, s, t, path, ops, doc, at);
      GetPut(doc, at, Expected(loop, s, t));
      if loop.Repaired? { ExpectedWhenRepaired(s, t); } else { ExpectedAsWritten(s, t); }
    } else {
      DirtyNeverArrives(loop, s, t, path, ops, doc, at);
    }
  }

  /** The same for whole documents: the round trip of `json_diff`. */
  lemma RoundTripIff(loop: AppendLoop, s: Value, t: Value, ops: seq<Op>)
    requires IsDiff(loop, s, t, "", ops)
    ensures ApplyAll(s, ops) == Some(t) <==> TouchedKeysClean(s, t) && (loop.Repaired? || !GrowsByTwo(s, t))
  {
    DiffReachesTargetIff(loop, s, t, "", ops, s, []);
  }

  // ---- What can go wrong otherwise: two keys that are read as one place ----

  function Nested(outer: int, inner: int): Value {
    Object(map["a/b" := Integer(outer), "a" := Object(map["b" := Integer(inner)])])
  }

  lemma MembersStep(loop: AppendLoop, s: Value, t: Value, path: string, done: set<string>, key: string, first: seq<Op>,
          second: seq<Op>)
    requires s.Object? && t.Object? && done <= s.members.Keys && key in done
    requires IsMembersDiff(loop, s, t, path, done - {key}, first) && IsMemberDiff(loop, s, t, path, key, second)
    ensures IsMembersDiff(loop, s, t, path, done, first + second)
  {
    var ops := first + second;
    assert ops[..|first|] == first && ops[|first|..] == second;
  }

  lemma DiffOfMembers(loop: AppendLoop, s: Value, t: Value, path: string, ops: seq<Op>)
    requires s.Object? && t.Object? && s != t && s.members.Keys == t.members.Keys
    requires IsMembersDiff(loop, s, t, path, s.members.Keys, ops)
    ensures IsDiff(loop, s, t, path, ops)
  {
    assert ops[..|ops|] == ops && ops[|ops|..] == [];
    assert t.members.Keys - s.members.Keys == {};
  }

  lemma DiffOfTwoMembers(loop: AppendLoop, s: Value, t: Value, path: string, one: string, two: string, first: Op,
          second: Op)
    requires s.Object? && t.Object? && s != t && s.members.Keys == t.members.Keys == {one, two} && one != two
    requires IsMemberDiff(loop, s, t, path, one, [first]) && IsMemberDiff(loop, s, t, path, two, [second])
    ensures IsDiff(loop, s, t, path, [first, second])
  {
    var none: seq<Op> := [];
    assert {one, two} - {two} == {one} && {one} - {one} == {};
    assert none + [first] == [first] && [first] + [second] == [first, second];
    MembersStep(loop, s, t, path, {one}, one, none, [first]);
    MembersStep(loop, s, t, path, {one, two}, two, [first], [second]);
    DiffOfMembers(loop, s, t, path, [first, second]);
  }

  lemma DiffOfOneMember(loop: AppendLoop, s: Value, t: Value, path: string, key: string, op: Op)
    requires s.Object? && t.Object? && s != t && s.members.Keys == t.members.Keys == {key}
    requires IsMemberDiff(loop, s, t, path, key, [op])
    ensures IsDiff(loop, s, t, path, [op])
  {
    var none: seq<Op> := [];
    assert {key} - {key} == {} && none + [op] == [op];
    MembersStep(loop, s, t, path, {key}, key, none, [op]);
    DiffOfMembers(loop, s, t, path, [op]);
  }

  /** The member "a/b" and the member "b" of "a" get operations with one path, so their order decides. */
  lemma OrderMattersWhenDirty(loop: AppendLoop) returns (one: seq<Op>, two: seq<Op>)
    ensures IsDiff(loop, Nested(1, 1), Nested(2, 3), "", one) && IsDiff(loop, Nested(1, 1), Nested(2, 3), "", two)
    ensures ApplyAll(Nested(1, 1), one) == Some(Nested(1, 3)) && ApplyAll(Nested(1, 1), two) == Some(Nested(1, 2))
  {
    var outer, inner := Replace("/a/b", Integer(2)), Replace("/a/b", Integer(3));
    one, two := [outer, inner], [inner, outer];
    NestedMembers(loop, outer, inner);
    DiffOfTwoMembers(loop, Nested(1, 1), Nested(2, 3), "", "a/b", "a", outer, inner);
    DiffOfTwoMembers(loop, Nested(1, 1), Nested(2, 3), "", "a", "a/b", inner, outer);
    ReplaceTwice(2, 3);
    ReplaceTwice(3, 2);
  }

  lemma NestedMembers(loop: AppendLoop, outer: Op, inner: Op)
    requires outer == Replace("/a/b", Integer(2)) && inner == Replace("/a/b", Integer(3))
    ensures IsMemberDiff(loop, Nested(1, 1), Nested(2, 3), "", "a/b", [outer])
    ensures IsMemberDiff(loop, Nested(1, 1), Nested(2, 3), "", "a", [inner])
    ensures Nested(1, 1).members.Keys == Nested(2, 3).members.Keys == {"a/b", "a"} && Nested(1, 1) != Nested(2, 3)
  {
    var s, t := Nested(1, 1), Nested(2, 3);
    assert KeyPath("", "a") == "/a" && KeyPath("/a", "b") == "/a/b" && KeyPath("", "a/b") == "/a/b";
    assert s.members["a/b"] == Integer(1) && t.members["a/b"] == Integer(2);
    var si, ti := s.members["a"], t.members["a"];
    assert si.members["b"] == Integer(1) && ti.members["b"] == Integer(3);
    DiffOfOneMember(loop, si, ti, "/a", "b", inner);
  }

  lemma ReplaceTwice(first: int, second: int)
    ensures ApplyAll(Nested(1, 1), [Replace("/a/b", Integer(first)), Replace("/a/b", Integer(second))]) ==
      Some(Nested(1, second))
  {
    var one, two := Replace("/a/b", Integer(first)), Replace("/a/b", Integer(second));
    ReplaceInner(1, first);
    ReplaceInner(first, second);
    assert [one, two][1..] == [two];
    ApplyOne(Nested(1, first), two);
  }

  lemma ReplaceInner(was: int, now: int)
    ensures Apply(Nested(1, was), Replace("/a/b", Integer(now))) == Some(Nested(1, now))
  {
    SlashSplitsToken();
    var doc := Nested(1, was);
    var none: Tokens := [];
    assert ["a", "b"][1..] == ["b"] && ["b"][1..] == none;
    var inner := Object(map["b" := Integer(was)]);
    assert Child(doc, "a") == Some(inner) && Child(inner, "b") == Some(Integer(was));
    assert Get(inner, ["b"]) == Get(Integer(was), none) == Some(Integer(was));
    assert Get(doc, ["a", "b"]) == Get(inner, ["b"]);
    assert Put(Integer(was), none, Integer(now)) == Integer(now);
    assert Put(inner, ["b"], Integer(now)) == Object(map["b" := Integer(now)]);
    assert Put(doc, ["a", "b"], Integer(now)).members == Nested(1, now).members;
  }
}
