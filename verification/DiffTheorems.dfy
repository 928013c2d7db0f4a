/** The promises of `json_diff`: where its patches lead, exactly when that is the target, which
    paths they touch, and when there is nothing to do. */
module DiffTheorems {
  import opened Json
  import opened Pointer
  import opened Patch
  import opened JsonDiff
  import opened DiffMeaning

  // ---- Where the patch leads from its source ----

  /** The target, except that an array grown under the recursion keeps only every stride-th of its new elements. */
  ghost function Expected(loop: AppendLoop, s: Value, t: Value): Value
    decreases s
  {
    if s == t then t
    else if s.Array? && t.Array? then
      Array(seq(Min(|s.items|, |t.items|),
        i requires 0 <= i < Min(|s.items|, |t.items|) => Expected(loop, s.items[i], t.items[i]))
            + EveryNth(loop.Stride(), t.items, |s.items|))
    else if s.Object? && t.Object? then
      Object(map key | key in t.members ::
        if key in s.members then Expected(loop, s.members[key], t.members[key]) else t.members[key])
    else t
  }

  /** Some array reached by the recursion grows by two elements or more. */
  ghost predicate GrowsByTwo(s: Value, t: Value)
    decreases s
  {
    if s.Array? && t.Array? then
      |t.items| >= |s.items| + 2 ||
      exists i :: 0 <= i < |s.items| && i < |t.items| && GrowsByTwo(s.items[i], t.items[i])
    else if s.Object? && t.Object? then
      exists key :: key in s.members && key in t.members && GrowsByTwo(s.members[key], t.members[key])
    else false
  }

  /** No array reached by the recursion changes its length and no object loses a member. */
  ghost predicate SameShape(s: Value, t: Value)
    decreases s
  {
    if s.Array? && t.Array? then
      |s.items| == |t.items| && forall i :: 0 <= i < |s.items| ==> SameShape(s.items[i], t.items[i])
    else if s.Object? && t.Object? then
      forall key :: key in s.members ==> key in t.members && SameShape(s.members[key], t.members[key])
    else true
  }

  lemma {:induction false} EffectOnSource(loop: AppendLoop, s: Value, t: Value)
    ensures Effect(loop, s, t, s) == Some(Expected(loop, s, t))
    decreases s
  {
    if s == t {
    } else if s.Array? && t.Array? {
      var count := Min(|s.items|, |t.items|);
      forall i | 0 <= i < count
        ensures Effect(loop, s.items[i], t.items[i], s.items[i]) == Some(Expected(loop, s.items[i], t.items[i]))
      {
        EffectOnSource(loop, s.items[i], t.items[i]);
      }
      var edited := ItemsEffect(loop, s, t, s, count).value;
      assert TailEffect(loop, s, t, edited).value.items == Expected(loop, s, t).items;
    } else if s.Object? && t.Object? {
      forall key | key in s.members && key in t.members
        ensures Effect(loop, s.members[key], t.members[key], s.members[key]) ==
          Some(Expected(loop, s.members[key], t.members[key]))
      {
        EffectOnSource(loop, s.members[key], t.members[key]);
      }
      assert forall key :: key in s.members ==> MemberSurvives(loop, s, t, s, key);
      var edited := MembersEffect(loop, s, t, s, s.members.Keys).value;
      assert edited.members + (t.members - s.members.Keys) == Expected(loop, s, t).members;
    }
  }

  lemma {:induction false} SameShapeAsItself(v: Value)
    ensures SameShape(v, v) && !GrowsByTwo(v, v)
    decreases v
  {
    match v
    case Array(items) =>
      forall i | 0 <= i < |items| ensures SameShape(items[i], items[i]) && !GrowsByTwo(items[i], items[i]) {
        SameShapeAsItself(items[i]);
      }
    case Object(members) =>
      forall key | key in members
        ensures SameShape(members[key], members[key]) && !GrowsByTwo(members[key], members[key])
      {
        SameShapeAsItself(members[key]);
      }
    case _ =>
  }

  /** On a document that is already the target, the patch works and changes nothing exactly for pairs of the same
      shape. */
  lemma {:induction false} EffectOnTarget(loop: AppendLoop, s: Value, t: Value)
    ensures Effect(loop, s, t, t) == Some(t) <==> SameShape(s, t)
    decreases s
  {
    if s == t {
      SameShapeAsItself(s);
    } else if s.Array? && t.Array? {
      EffectOnTargetArray(loop, s, t);
    } else if s.Object? && t.Object? {
      EffectOnTargetObject(loop, s, t);
    }
  }

  lemma {:induction false} EffectOnTargetArray(loop: AppendLoop, s: Value, t: Value)
    requires s != t && s.Array? && t.Array?
    ensures Effect(loop, s, t, t) == Some(t) <==> SameShape(s, t)
    decreases s, 0
  {
    var count := Min(|s.items|, |t.items|);
    forall i | 0 <= i < count
      ensures Effect(loop, s.items[i], t.items[i], t.items[i]) == Some(t.items[i]) <==>
        SameShape(s.items[i], t.items[i])
    {
      EffectOnTarget(loop, s.items[i], t.items[i]);
    }
    var edited := ItemsEffect(loop, s, t, t, count);
    if edited.Some? && |s.items| == |t.items| {
      assert TailEffect(loop, s, t, edited.value).value.items == edited.value.items;
      if SameShape(s, t) {
        assert edited.value.items == t.items;
      } else {
        var i :| 0 <= i < |s.items| && !SameShape(s.items[i], t.items[i]);
        assert edited.value.items[i] != t.items[i];
      }
    }
  }

  lemma {:induction false} EffectOnTargetObject(loop: AppendLoop, s: Value, t: Value)
    requires s != t && s.Object? && t.Object?
    ensures Effect(loop, s, t, t) == Some(t) <==> SameShape(s, t)
    decreases s, 0
  {
    forall key | key in s.members && key in t.members
      ensures Effect(loop, s.members[key], t.members[key], t.members[key]) == Some(t.members[key]) <==>
        SameShape(s.members[key], t.members[key])
    {
      EffectOnTarget(loop, s.members[key], t.members[key]);
    }
    var edited := MembersEffect(loop, s, t, t, s.members.Keys);
    if edited.Some? {
      assert forall key :: key in s.members ==> MemberSurvives(loop, s, t, t, key);
      var result := edited.value.members + (t.members - s.members.Keys);
      if SameShape(s, t) {
        assert result == t.members;
      } else {
        var key :| key in s.members && !(key in t.members && SameShape(s.members[key], t.members[key]));
        assert result[key] != t.members[key];
      }
    } else if SameShape(s, t) {
      var key :| key in s.members && !MemberSurvives(loop, s, t, t, key);
      assert false;
    }
  }

  // ---- Exactly when that is the target ----

  lemma {:induction false} ExpectedWhenRepaired(s: Value, t: Value)
    ensures Expected(Repaired, s, t) == t
    decreases s
  {
    if s == t {
    } else if s.Array? && t.Array? {
      var e := Expected(Repaired, s, t);
      if |s.items| <= |t.items| { EveryElement(t.items, |s.items|); }
      forall i | 0 <= i < |s.items| && i < |t.items| ensures e.items[i] == t.items[i] {
        ExpectedWhenRepaired(s.items[i], t.items[i]);
      }
      assert e.items == t.items;
    } else if s.Object? && t.Object? {
      forall key | key in s.members && key in t.members
        ensures Expected(Repaired, s.members[key], t.members[key]) == t.members[key]
      {
        ExpectedWhenRepaired(s.members[key], t.members[key]);
      }
      assert Expected(Repaired, s, t).members == t.members;
    }
  }

  lemma {:induction false} ExpectedAsWritten(s: Value, t: Value)
    ensures Expected(AsWritten, s, t) == t <==> !GrowsByTwo(s, t)
    decreases s
  {
    var e := Expected(AsWritten, s, t);
    if s == t {
      SameShapeAsItself(s);
    } else if s.Array? && t.Array? {
      var tail := EveryNth(2, t.items, |s.items|);
      forall i | 0 <= i < |s.items| && i < |t.items|
        ensures e.items[i] == t.items[i] <==> !GrowsByTwo(s.items[i], t.items[i])
      {
        ExpectedAsWritten(s.items[i], t.items[i]);
      }
      if |t.items| >= |s.items| + 2 {
        assert |e.items| < |t.items|;
      } else {
        assert |e.items| == |t.items|;
        assert |t.items| > |s.items| ==> e.items[|s.items|] == t.items[|s.items|];
        assert e.items == t.items <==> forall i :: 0 <= i < |s.items| && i < |t.items| ==> e.items[i] == t.items[i];
      }
    } else if s.Object? && t.Object? {
      forall key | key in s.members && key in t.members
        ensures e.members[key] == t.members[key] <==> !GrowsByTwo(s.members[key], t.members[key])
      {
        ExpectedAsWritten(s.members[key], t.members[key]);
      }
      assert e.members == t.members <==>
        forall key :: key in s.members && key in t.members ==> e.members[key] == t.members[key];
    }
  }

  // ---- The theorems about whole patches ----

  /** The patch succeeds on every document holding `s` at its path, whatever the enumeration order of
      members was, and rewrites that subtree to `Expected(s, t)`; incomparable places keep their content. */
  lemma DiffMeansExpected(loop: AppendLoop, s: Value, t: Value, path: string, ops: seq<Op>, doc: Value, at: Tokens)
    requires IsDiff(loop, s, t, path, ops) && TouchedKeysClean(s, t)
    requires ParsePointer(path) == Some(at) && Get(doc, at) == Some(s)
    ensures ApplyAll(doc, ops) == Some(Put(doc, at, Expected(loop, s, t)))
    ensures forall other :: Incomparable(at, other) ==> Get(ApplyAll(doc, ops).value, other) == Get(doc, other)
  {
    PatchEffect(loop, s, t, s, path, ops, doc, at);
    EffectOnSource(loop, s, t);
    forall other | Incomparable(at, other)
      ensures Get(Put(doc, at, Expected(loop, s, t)), other) == Get(doc, other)
    {
      PutElsewhere(doc, at, Expected(loop, s, t), other);
    }
  }

  /** The same for the whole document. */
  lemma DiffAtRoot(loop: AppendLoop, s: Value, t: Value, ops: seq<Op>)
    requires IsDiff(loop, s, t, "", ops) && TouchedKeysClean(s, t)
    ensures ApplyAll(s, ops) == Some(Expected(loop, s, t))
  {
    DiffMeansExpected(loop, s, t, "", ops, s, []);
  }

  /** Two runs that enumerate members in different orders emit different patches, with one and the same result. */
  lemma EnumerationOrderIsIrrelevant(loop: AppendLoop, s: Value, t: Value, path: string, one: seq<Op>, two: seq<Op>,
          doc: Value, at: Tokens)
    requires IsDiff(loop, s, t, path, one) && IsDiff(loop, s, t, path, two) && TouchedKeysClean(s, t)
    requires ParsePointer(path) == Some(at) && (Get(doc, at) == Some(s) || Get(doc, at) == Some(t))
    ensures ApplyAll(doc, one) == ApplyAll(doc, two)
  {
    var x := Get(doc, at).value;
    PatchEffect(loop, s, t, x, path, one, doc, at);
    PatchEffect(loop, s, t, x, path, two, doc, at);
  }

  /** As written, a patch for the whole document leads to the target exactly when no array reached grows by two. */
  lemma DiffAsWrittenIsExactIff(s: Value, t: Value, ops: seq<Op>)
    requires IsDiff(AsWritten, s, t, "", ops) && TouchedKeysClean(s, t)
    ensures ApplyAll(s, ops) == Some(t) <==> !GrowsByTwo(s, t)
  {
    DiffAtRoot(AsWritten, s, t, ops);
    ExpectedAsWritten(s, t);
  }

  /** With one increment per round, the round trip always holds. */
  lemma RepairedDiffRoundTrip(s: Value, t: Value, ops: seq<Op>)
    requires IsDiff(Repaired, s, t, "", ops) && TouchedKeysClean(s, t)
    ensures ApplyAll(s, ops) == Some(t)
  {
    DiffAtRoot(Repaired, s, t, ops);
    ExpectedWhenRepaired(s, t);
  }

  /** Applying a patch to a document that already is the target is harmless exactly for pairs of the same shape. */
  lemma ReapplyIsHarmlessIff(loop: AppendLoop, s: Value, t: Value, ops: seq<Op>)
    requires IsDiff(loop, s, t, "", ops) && TouchedKeysClean(s, t)
    ensures ApplyAll(t, ops) == Some(t) <==> SameShape(s, t)
  {
    PatchEffect(loop, s, t, t, "", ops, t, []);
    EffectOnTarget(loop, s, t);
  }

  /** The smallest loss: of two elements added to any array between two ticks, the clients get one. */
  lemma TwoNewElementsLoseOne(items: seq<Value>, a: Value, b: Value, ops: seq<Op>)
    requires IsDiff(AsWritten, Array(items), Array(items + [a, b]), "", ops)
    ensures ApplyAll(Array(items), ops) == Some(Array(items + [a]))
  {
    var picked := AsWrittenAppendsEverySecond(items, [a, b], ops);
    assert picked == [a];
  }

  /** As written, of any elements added to any array between two ticks the clients get the first, the third
      and so on: half of them, rounded up. */
  lemma AsWrittenAppendsEverySecond(items: seq<Value>, more: seq<Value>, ops: seq<Op>) returns (picked: seq<Value>)
    requires IsDiff(AsWritten, Array(items), Array(items + more), "", ops)
    ensures |picked| == (|more| + 1) / 2 && forall j :: 0 <= j < |picked| ==> picked[j] == more[2 * j]
    ensures ApplyAll(Array(items), ops) == Some(Array(items + picked))
  {
    picked := ExpectedOfAppended(AsWritten, items, more, ops);
    EverySecondElement(items + more, |items|);
  }

  /** With one increment per round they get all of them. */
  lemma RepairedAppendsAll(items: seq<Value>, more: seq<Value>, ops: seq<Op>)
    requires IsDiff(Repaired, Array(items), Array(items + more), "", ops)
    ensures ApplyAll(Array(items), ops) == Some(Array(items + more))
  {
    var picked := ExpectedOfAppended(Repaired, items, more, ops);
    EveryElement(items + more, |items|);
    assert (items + more)[|items|..] == more;
  }

  lemma ExpectedOfAppended(loop: AppendLoop, items: seq<Value>, more: seq<Value>, ops: seq<Op>)
      returns (picked: seq<Value>)
    requires IsDiff(loop, Array(items), Array(items + more), "", ops)
    ensures picked == EveryNth(loop.Stride(), items + more, |items|)
    ensures ApplyAll(Array(items), ops) == Some(Array(items + picked))
  {
    picked := EveryNth(loop.Stride(), items + more, |items|);
    AppendedKeysClean(items, more);
    DiffAtRoot(loop, Array(items), Array(items + more), ops);
    ExpectedAfterAppending(loop, items, more);
  }

  lemma AppendedKeysClean(items: seq<Value>, more: seq<Value>)
    ensures TouchedKeysClean(Array(items), Array(items + more))
  {
    var longer := items + more;
    forall i | 0 <= i < |items| ensures TouchedKeysClean(items[i], longer[i]) { assert longer[i] == items[i]; }
  }

  lemma ExpectedAfterAppending(loop: AppendLoop, items: seq<Value>, more: seq<Value>)
    ensures Expected(loop, Array(items), Array(items + more)) ==
      Array(items + EveryNth(loop.Stride(), items + more, |items|))
  {
    var longer := items + more;
    if more == [] {
      assert longer == items && items + EveryNth(loop.Stride(), longer, |items|) == items;
    } else {
      assert |longer| != |items|;
      var s, t := Array(items), Array(longer);
      var e := Expected(loop, s, t);
      forall i | 0 <= i < |items| ensures e.items[i] == items[i] {
        assert s.items[i] == t.items[i] == items[i];
        assert Expected(loop, s.items[i], t.items[i]) == t.items[i];
      }
      assert e.items == items + EveryNth(loop.Stride(), longer, |items|);
    }
  }

  /** A changed member whose name contains '/': the emitted path names a place that does not exist in this document. */
  lemma UnescapedKeyFails(loop: AppendLoop, ops: seq<Op>)
    requires IsDiff(loop, Object(map["a/b" := Integer(1)]), Object(map["a/b" := Integer(2)]), "", ops)
    ensures ApplyAll(Object(map["a/b" := Integer(1)]), ops) == None
  {
    var s, t := Object(map["a/b" := Integer(1)]), Object(map["a/b" := Integer(2)]);
    SingleMemberDiff(loop, s, t, "a/b", ops);
    SlashSplitsToken();
    assert "" + "/" + "a/b" == "/a/b";
    ApplyOne(s, ops[0]);
    assert Child(s, "a") == None;
  }

  lemma SlashSplitsToken()
    ensures ParsePointer("/a/b") == Some(["a", "b"])
  {
    var none: Tokens := [];
    assert ParsePointer("") == Some(none);
    assert none + ["a"] == ["a"] && ["a"] + ["b"] == ["a", "b"];
    assert "" + "/" + "a" == "/a" && "/a" + "/" + "b" == "/a/b";
    ParseExtended("", "a");
    ParseExtended("/a", "b");
  }

  lemma SingleMemberDiff(loop: AppendLoop, s: Value, t: Value, key: string, ops: seq<Op>)
    requires s.Object? && t.Object? && s.members.Keys == t.members.Keys == {key} && s.members[key] != t.members[key]
    requires !s.members[key].Array? && !s.members[key].Object?
    requires IsDiff(loop, s, t, "", ops)
    ensures ops == [Replace("" + "/" + key, t.members[key])]
  {
    var n: nat :| n <= |ops| && IsMembersDiff(loop, s, t, "", s.members.Keys, ops[..n]) &&
                  IsAdditions(t.members, "", t.members.Keys - s.members.Keys, ops[n..]);
    assert t.members.Keys - s.members.Keys == {};
    var edits := ops[..n];
    assert edits == ops;
    var k, m: nat :| k in s.members.Keys && m <= |edits| &&
      IsMembersDiff(loop, s, t, "", s.members.Keys - {k}, edits[..m]) &&
      IsMemberDiff(loop, s, t, "", k, edits[m..]);
    assert k == key && s.members.Keys - {k} == {};
    assert edits[..m] == [];
    assert edits[m..] == edits;
    assert IsDiff(loop, s.members[key], t.members[key], KeyPath("", key), edits);
  }

  /** There is nothing to do exactly when source and target are equal. */
  lemma {:induction false} DiffIsEmptyIff(loop: AppendLoop, s: Value, t: Value, path: string, ops: seq<Op>)
    requires IsDiff(loop, s, t, path, ops)
    ensures ops == [] <==> s == t
    decreases s, 2
  {
    if s != t && ops == [] {
      assert ops[..0] == ops && ops[0..] == ops;
      if s.Array? && t.Array? {
        NoArrayEdits(loop, s, t, path);
      } else if s.Object? && t.Object? {
        NoObjectEdits(loop, s, t, path);
      }
    }
  }

  lemma {:induction false} NoArrayEdits(loop: AppendLoop, s: Value, t: Value, path: string)
    requires s.Array? && t.Array?
    requires IsItemsDiff(loop, s, t, path, Min(|s.items|, |t.items|), []) && TailOps(loop, s, t, path) == []
    ensures s == t
    decreases s, 1, Min(|s.items|, |t.items|) + 1
  {
    var count := Min(|s.items|, |t.items|);
    NoItemEdits(loop, s, t, path, count);
    assert RemovesDown(path, |t.items|, |s.items|) == [] && |EveryNth(loop.Stride(), t.items, |s.items|)| == 0;
    assert |s.items| == |t.items|;
    assert s.items == s.items[..count] && t.items == t.items[..count];
  }

  lemma {:induction false} NoObjectEdits(loop: AppendLoop, s: Value, t: Value, path: string)
    requires s.Object? && t.Object?
    requires IsMembersDiff(loop, s, t, path, s.members.Keys, [])
    requires IsAdditions(t.members, path, t.members.Keys - s.members.Keys, [])
    ensures s == t
    decreases s, 1, |s.members.Keys| + 1
  {
    NoMemberEdits(loop, s, t, path, s.members.Keys);
    assert t.members.Keys - s.members.Keys == {};
    assert forall key :: key in t.members ==> key in s.members by {
      forall key | key in t.members ensures key in s.members {
        assert key !in t.members.Keys - s.members.Keys;
      }
    }
    assert s.members.Keys == t.members.Keys;
    assert s.members == t.members;
  }

  lemma {:induction false} NoItemEdits(loop: AppendLoop, s: Value, t: Value, path: string, count: nat)
    requires s.Array? && t.Array? && count <= |s.items| && count <= |t.items|
    requires IsItemsDiff(loop, s, t, path, count, [])
    ensures s.items[..count] == t.items[..count]
    decreases s, 1, count
  {
    if count > 0 {
      var none: seq<Op> := [];
      assert none[..0] == none && none[0..] == none;
      NoItemEdits(loop, s, t, path, count - 1);
      DiffIsEmptyIff(loop, s.items[count - 1], t.items[count - 1], IndexPath(path, count - 1), none);
    }
  }

  lemma {:induction false} NoMemberEdits(loop: AppendLoop, s: Value, t: Value, path: string, done: set<string>)
    requires s.Object? && t.Object? && done <= s.members.Keys
    requires IsMembersDiff(loop, s, t, path, done, [])
    ensures forall key :: key in done ==> key in t.members && s.members[key] == t.members[key]
    decreases s, 1, |done|
  {
    if done != {} {
      var none: seq<Op> := [];
      assert none[..0] == none && none[0..] == none;
      var key :| key in done && IsMembersDiff(loop, s, t, path, done - {key}, none[..0]) &&
        IsMemberDiff(loop, s, t, path, key, none[0..]);
      NoMemberEdits(loop, s, t, path, done - {key});
      if key in t.members {
        DiffIsEmptyIff(loop, s.members[key], t.members[key], KeyPath(path, key), none);
      }
    }
  }
}
