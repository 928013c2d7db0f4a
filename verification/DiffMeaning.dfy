/** What applying a patch made by `json_diff(s, t)` does, to a document that holds `s` at the
    patch's path, and to one that already holds `t` there. */
module DiffMeaning {
  import opened Json
  import opened Pointer
  import opened Patch
  import opened JsonDiff

  // ---- The effect, computed on the documents alone: no paths, no operations ----

  /** What the patch from `s` to `t` makes of `x`, where `x` is `s` or `t`; None when an operation fails. */
  ghost function Effect(loop: AppendLoop, s: Value, t: Value, x: Value): Option<Value>
    requires x == s || x == t
    decreases s, 2
  {
    if s == t then Some(x)
    else if s.Array? && t.Array? then
      match ItemsEffect(loop, s, t, x, Min(|s.items|, |t.items|))
      case None => None
      case Some(edited) => TailEffect(loop, s, t, edited)
    else if s.Object? && t.Object? then
      match MembersEffect(loop, s, t, x, s.members.Keys)
      case None => None
      case Some(edited) => Some(Object(edited.members + (t.members - s.members.Keys)))
    else Some(t)
  }

  /** After the in-place edits of the first `count` elements. */
  ghost function ItemsEffect(loop: AppendLoop, s: Value, t: Value, x: Value, count: nat): (r: Option<Value>)
    requires s.Array? && t.Array? && count <= |s.items| && count <= |t.items| && (x == s || x == t)
    ensures r.Some? ==> r.value.Array? && |r.value.items| == |x.items|
    decreases s, 1
  {
    if forall i :: 0 <= i < count ==> Effect(loop, s.items[i], t.items[i], x.items[i]).Some? then
      Some(Array(seq(|x.items|, i requires 0 <= i < |x.items| =>
        if i < count then Effect(loop, s.items[i], t.items[i], x.items[i]).value else x.items[i])))
    else None
  }

  /** After the removes or the appends: a remove fails on an array that is already short. */
  ghost function TailEffect(loop: AppendLoop, s: Value, t: Value, edited: Value): Option<Value>
    requires s.Array? && t.Array? && edited.Array?
  {
    if |s.items| > |t.items| then
      if |edited.items| == |s.items| then Some(Array(edited.items[..|t.items|])) else None
    else Some(Array(edited.items + EveryNth(loop.Stride(), t.items, |s.items|)))
  }

  /** After the operations for the source members in `done`. */
  ghost function MembersEffect(loop: AppendLoop, s: Value, t: Value, x: Value, done: set<string>): (r: Option<Value>)
    requires s.Object? && t.Object? && done <= s.members.Keys && (x == s || x == t)
    ensures r.Some? ==> r.value.Object?
    decreases s, 1
  {
    if forall key :: key in done ==> MemberSurvives(loop, s, t, x, key) then
      Some(Object(map key | key in x.members && (key in done ==> key in t.members) ::
        if key in done then Effect(loop, s.members[key], t.members[key], x.members[key]).value
        else x.members[key]))
    else None
  }

  /** The operations for one source member all succeed: a remove finds its member only in `s`. */
  ghost predicate MemberSurvives(loop: AppendLoop, s: Value, t: Value, x: Value, key: string)
    requires s.Object? && t.Object? && key in s.members && (x == s || x == t)
    decreases s, 0
  {
    if key in t.members then Effect(loop, s.members[key], t.members[key], x.members[key]).Some?
    else key in x.members
  }

  // ---- The patch has that effect, at its path, and touches nothing else ----

  /** The main theorem. For every document holding `x` at the patch's path, the patch fails or rewrites
      exactly that subtree, to `Effect(s, t, x)`. */
  lemma {:induction false} PatchEffect(loop: AppendLoop, s: Value, t: Value, x: Value, path: string, ops: seq<Op>,
          doc: Value, at: Tokens)
    requires IsDiff(loop, s, t, path, ops) && TouchedKeysClean(s, t) && (x == s || x == t)
    requires ParsePointer(path) == Some(at) && Get(doc, at) == Some(x)
    ensures ApplyAll(doc, ops) == PutResult(doc, at, Effect(loop, s, t, x))
    decreases s, 2, 0
  {
    if s == t {
      PutSame(doc, at);
    } else if s.Array? && t.Array? {
      ArrayPatchEffect(loop, s, t, x, path, ops, doc, at);
    } else if s.Object? && t.Object? {
      ObjectPatchEffect(loop, s, t, x, path, ops, doc, at);
    } else {
      ApplyOne(doc, Replace(path, t));
    }
  }

  lemma {:induction false} ArrayPatchEffect(loop: AppendLoop, s: Value, t: Value, x: Value, path: string, ops: seq<Op>,
          doc: Value, at: Tokens)
    requires s.Array? && t.Array? && s != t
    requires IsDiff(loop, s, t, path, ops) && TouchedKeysClean(s, t) && (x == s || x == t)
    requires ParsePointer(path) == Some(at) && Get(doc, at) == Some(x)
    ensures ApplyAll(doc, ops) == PutResult(doc, at, Effect(loop, s, t, x))
    decreases s, 1, Min(|s.items|, |t.items|) + 1
  {
    var count := Min(|s.items|, |t.items|);
    var n: nat :| n <= |ops| && IsItemsDiff(loop, s, t, path, count, ops[..n]) && ops[n..] == TailOps(loop, s, t, path);
    ItemsPhase(loop, s, t, x, path, count, ops[..n], doc, at);
    var r1, r2 := ItemsEffect(loop, s, t, x, count), Effect(loop, s, t, x);
    if r1.Some? {
      GetPut(doc, at, r1.value);
      TailPhase(loop, s, t, r1.value, path, Put(doc, at, r1.value), at);
    }
    PatchCut(doc, at, ops, n, r1, r2);
  }

  lemma {:induction false} ObjectPatchEffect(loop: AppendLoop, s: Value, t: Value, x: Value, path: string,
          ops: seq<Op>, doc: Value, at: Tokens)
    requires s.Object? && t.Object? && s != t
    requires IsDiff(loop, s, t, path, ops) && TouchedKeysClean(s, t) && (x == s || x == t)
    requires ParsePointer(path) == Some(at) && Get(doc, at) == Some(x)
    ensures ApplyAll(doc, ops) == PutResult(doc, at, Effect(loop, s, t, x))
    decreases s, 1, |s.members| + 1
  {
    var n: nat :| n <= |ops| && IsMembersDiff(loop, s, t, path, s.members.Keys, ops[..n]) &&
                  IsAdditions(t.members, path, t.members.Keys - s.members.Keys, ops[n..]);
    MembersPhase(loop, s, t, x, path, s.members.Keys, ops[..n], doc, at);
    var r1, r2 := MembersEffect(loop, s, t, x, s.members.Keys), Effect(loop, s, t, x);
    var added := t.members.Keys - s.members.Keys;
    if r1.Some? {
      GetPut(doc, at, r1.value);
      AdditionsPhase(t.members, path, added, ops[n..], r1.value.members, Put(doc, at, r1.value), at);
      RestrictIsRemoval(t.members, s.members.Keys);
    }
    PatchCut(doc, at, ops, n, r1, r2);
  }

  lemma {:induction false} ItemsPhase(loop: AppendLoop, s: Value, t: Value, x: Value, path: string, count: nat,
          ops: seq<Op>, doc: Value, at: Tokens)
    requires s.Array? && t.Array? && count <= |s.items| && count <= |t.items| && (x == s || x == t)
    requires IsItemsDiff(loop, s, t, path, count, ops) && TouchedKeysClean(s, t)
    requires ParsePointer(path) == Some(at) && Get(doc, at) == Some(x)
    ensures ApplyAll(doc, ops) == PutResult(doc, at, ItemsEffect(loop, s, t, x, count))
    decreases s, 1, count
  {
    if count == 0 {
      PutSame(doc, at);
      assert ItemsEffect(loop, s, t, x, 0).value.items == x.items;
    } else {
      var c := count - 1;
      var n: nat :| n <= |ops| && IsItemsDiff(loop, s, t, path, c, ops[..n]) &&
                    IsDiff(loop, s.items[c], t.items[c], IndexPath(path, c), ops[n..]);
      ItemsPhase(loop, s, t, x, path, c, ops[..n], doc, at);
      var r1, r2 := ItemsEffect(loop, s, t, x, c), ItemsEffect(loop, s, t, x, count);
      assert r1.None? ==> r2.None?;
      if r1.Some? {
        GetPut(doc, at, r1.value);
        ItemPhase(loop, s, t, x, path, c, r1.value, ops[n..], Put(doc, at, r1.value), at);
      }
      PatchCut(doc, at, ops, n, r1, r2);
    }
  }

  /** The pair of elements at index `c`, after those before it. */
  lemma {:induction false} ItemPhase(loop: AppendLoop, s: Value, t: Value, x: Value, path: string, c: nat,
          edited: Value, ops: seq<Op>, doc: Value, at: Tokens)
    requires s.Array? && t.Array? && c < |s.items| && c < |t.items| && (x == s || x == t)
    requires ItemsEffect(loop, s, t, x, c) == Some(edited)
    requires IsDiff(loop, s.items[c], t.items[c], IndexPath(path, c), ops) && TouchedKeysClean(s, t)
    requires ParsePointer(path) == Some(at) && Get(doc, at) == Some(edited)
    ensures ApplyAll(doc, ops) == PutResult(doc, at, ItemsEffect(loop, s, t, x, c + 1))
    decreases s, 1, 0
  {
    var token := Decimal(c);
    ItemsEffectStep(loop, s, t, x, c, edited);
    DecimalIsCleanKey(c);
    ParseExtended(path, token);
    GetBelow(doc, at, token);
    PatchEffect(loop, s.items[c], t.items[c], x.items[c], IndexPath(path, c), ops, doc, at + [token]);
    PatchBelow(doc, at, token, ops, Effect(loop, s.items[c], t.items[c], x.items[c]));
  }

  lemma ItemsEffectStep(loop: AppendLoop, s: Value, t: Value, x: Value, c: nat, edited: Value)
    requires s.Array? && t.Array? && c < |s.items| && c < |t.items| && (x == s || x == t)
    requires ItemsEffect(loop, s, t, x, c) == Some(edited)
    ensures Child(edited, Decimal(c)) == Some(x.items[c])
    ensures ItemsEffect(loop, s, t, x, c + 1) ==
            SetChildResult(edited, Decimal(c), Effect(loop, s.items[c], t.items[c], x.items[c]))
  {
    IndexRoundTrip(c);
    var r := Effect(loop, s.items[c], t.items[c], x.items[c]);
    if r.Some? {
      assert ItemsEffect(loop, s, t, x, c + 1).value.items == edited.items[c := r.value];
    }
  }

  // ---- Array tails ----

  lemma TailPhase(loop: AppendLoop, s: Value, t: Value, edited: Value, path: string, doc: Value, at: Tokens)
    requires s.Array? && t.Array? && edited.Array?
    requires |edited.items| == |s.items| || |edited.items| == |t.items|
    requires ParsePointer(path) == Some(at) && Get(doc, at) == Some(edited)
    ensures ApplyAll(doc, TailOps(loop, s, t, path)) == PutResult(doc, at, TailEffect(loop, s, t, edited))
  {
    var ops := TailOps(loop, s, t, path);
    if |s.items| > |t.items| {
      assert ops == RemovesDown(path, |t.items|, |s.items|);
      RemovesPhase(path, |t.items|, |s.items|, edited.items, doc, at);
    } else {
      var values := EveryNth(loop.Stride(), t.items, |s.items|);
      assert ops == Appends(path, values);
      AppendsPhase(path, values, edited.items, doc, at);
    }
  }

  /** Removing from the highest index down finds every index; on a shorter array the first remove fails. */
  lemma {:induction false} RemovesPhase(path: string, lo: nat, hi: nat, items: seq<Value>, doc: Value, at: Tokens)
    requires lo <= hi && (|items| == hi || |items| == lo)
    requires ParsePointer(path) == Some(at) && Get(doc, at) == Some(Array(items))
    ensures ApplyAll(doc, RemovesDown(path, lo, hi)) ==
            PutResult(doc, at, if |items| == hi then Some(Array(items[..lo])) else None)
    decreases hi - lo
  {
    if lo == hi {
      PutSame(doc, at);
      assert items[..lo] == items;
    } else {
      var first, rest := [Remove(IndexPath(path, hi - 1))], RemovesDown(path, lo, hi - 1);
      RemoveIndex(path, hi - 1, items, doc, at);
      assert RemovesDown(path, lo, hi) == first + rest;
      if |items| == hi {
        var shorter := items[..hi - 1];
        GetPut(doc, at, Array(shorter));
        RemovesPhase(path, lo, hi - 1, shorter, Put(doc, at, Array(shorter)), at);
        assert shorter[..lo] == items[..lo];
        PatchTwice(doc, at, first, Some(Array(shorter)), rest, Some(Array(items[..lo])));
      } else {
        PatchTwice(doc, at, first, None, rest, None);
      }
    }
  }

  lemma RemoveIndex(path: string, i: nat, items: seq<Value>, doc: Value, at: Tokens)
    requires ParsePointer(path) == Some(at) && Get(doc, at) == Some(Array(items)) && i + 1 >= |items|
    ensures ApplyAll(doc, [Remove(IndexPath(path, i))]) ==
            PutResult(doc, at, if i < |items| then Some(Array(items[..i])) else None)
  {
    DecimalIsCleanKey(i);
    IndexRoundTrip(i);
    ApplyBelow(doc, at, path, Decimal(i), Remove(IndexPath(path, i)));
    if i < |items| { assert items[..i] + items[i + 1..] == items[..i]; }
  }

  lemma {:induction false} AppendsPhase(path: string, values: seq<Value>, items: seq<Value>, doc: Value, at: Tokens)
    requires ParsePointer(path) == Some(at) && Get(doc, at) == Some(Array(items))
    ensures ApplyAll(doc, Appends(path, values)) == Some(Put(doc, at, Array(items + values)))
    decreases |values|
  {
    var ops := Appends(path, values);
    if values == [] {
      PutSame(doc, at);
      assert items + values == items;
    } else {
      var first, longer := Add(path + "/-", values[0]), items + [values[0]];
      assert ops == [first] + Appends(path, values[1..]);
      assert path + "/-" == path + "/" + "-";
      ApplyBelow(doc, at, path, "-", first);
      GetPut(doc, at, Array(longer));
      AppendsPhase(path, values[1..], longer, Put(doc, at, Array(longer)), at);
      AppendFirst(items, values);
      PatchTwice(doc, at, [first], Some(Array(longer)), Appends(path, values[1..]), Some(Array(items + values)));
    }
  }

  lemma AppendFirst(items: seq<Value>, values: seq<Value>)
    requires values != []
    ensures items + [values[0]] + values[1..] == items + values
  {
  }

  // ---- Object members ----

  lemma {:induction false} MembersPhase(loop: AppendLoop, s: Value, t: Value, x: Value, path: string,
          done: set<string>, ops: seq<Op>, doc: Value, at: Tokens)
    requires s.Object? && t.Object? && done <= s.members.Keys && (x == s || x == t)
    requires IsMembersDiff(loop, s, t, path, done, ops) && TouchedKeysClean(s, t)
    requires ParsePointer(path) == Some(at) && Get(doc, at) == Some(x)
    ensures ApplyAll(doc, ops) == PutResult(doc, at, MembersEffect(loop, s, t, x, done))
    decreases s, 1, |done|
  {
    if done == {} {
      PutSame(doc, at);
      NoMembersEffect(loop, s, t, x);
    } else {
      var key, n: nat :| key in done && n <= |ops| &&
        IsMembersDiff(loop, s, t, path, done - {key}, ops[..n]) && IsMemberDiff(loop, s, t, path, key, ops[n..]);
      MembersPhase(loop, s, t, x, path, done - {key}, ops[..n], doc, at);
      var r1, r2 := MembersEffect(loop, s, t, x, done - {key}), MembersEffect(loop, s, t, x, done);
      if r1.Some? {
        GetPut(doc, at, r1.value);
        MemberPhase(loop, s, t, x, path, done, key, r1.value, ops[n..], Put(doc, at, r1.value), at);
      } else {
        MembersEffectFails(loop, s, t, x, done, key);
      }
      PatchCut(doc, at, ops, n, r1, r2);
    }
  }

  /** One more source member, after those in `done - {key}`. */
  lemma {:induction false} MemberPhase(loop: AppendLoop, s: Value, t: Value, x: Value, path: string, done: set<string>,
          key: string, edited: Value, ops: seq<Op>, doc: Value, at: Tokens)
    requires s.Object? && t.Object? && done <= s.members.Keys && (x == s || x == t) && key in done
    requires MembersEffect(loop, s, t, x, done - {key}) == Some(edited)
    requires IsMemberDiff(loop, s, t, path, key, ops) && TouchedKeysClean(s, t)
    requires ParsePointer(path) == Some(at) && Get(doc, at) == Some(edited)
    ensures ApplyAll(doc, ops) == PutResult(doc, at, MembersEffect(loop, s, t, x, done))
    decreases s, 1, 0
  {
    MembersEffectStep(loop, s, t, x, done, key, edited);
    if !Touched(s.members, t.members, key) {
      PutSame(doc, at);
      assert SetChild(edited, key, x.members[key]) == edited;
    } else if key in t.members {
      ParseExtended(path, key);
      GetBelow(doc, at, key);
      PatchEffect(loop, s.members[key], t.members[key], x.members[key], KeyPath(path, key), ops, doc, at + [key]);
      PatchBelow(doc, at, key, ops, Effect(loop, s.members[key], t.members[key], x.members[key]));
    } else {
      ApplyBelow(doc, at, path, key, Remove(KeyPath(path, key)));
    }
  }

  lemma NoMembersEffect(loop: AppendLoop, s: Value, t: Value, x: Value)
    requires s.Object? && t.Object? && (x == s || x == t)
    ensures MembersEffect(loop, s, t, x, {}) == Some(x)
  {
    assert MembersEffect(loop, s, t, x, {}).value.members == x.members;
  }

  lemma MembersEffectFails(loop: AppendLoop, s: Value, t: Value, x: Value, done: set<string>, key: string)
    requires s.Object? && t.Object? && done <= s.members.Keys && (x == s || x == t)
    requires MembersEffect(loop, s, t, x, done - {key}).None?
    ensures MembersEffect(loop, s, t, x, done).None?
  {
  }

  lemma MembersEffectStep(loop: AppendLoop, s: Value, t: Value, x: Value, done: set<string>, key: string, edited: Value)
    requires s.Object? && t.Object? && done <= s.members.Keys && (x == s || x == t) && key in done
    requires MembersEffect(loop, s, t, x, done - {key}) == Some(edited)
    ensures Child(edited, key) == if key in x.members then Some(x.members[key]) else None
    ensures MembersEffect(loop, s, t, x, done) ==
            if key in t.members
            then SetChildResult(edited, key, Effect(loop, s.members[key], t.members[key], x.members[key]))
            else RemoveChild(edited, key)
  {
    var next := MembersEffect(loop, s, t, x, done);
    assert next.Some? == MemberSurvives(loop, s, t, x, key);
    if next.Some? {
      if key in t.members {
        var r := Effect(loop, s.members[key], t.members[key], x.members[key]);
        assert next.value.members == edited.members[key := r.value];
      } else {
        assert next.value.members == edited.members - {key};
      }
    }
  }

  ghost function Restrict(m: map<string, Value>, keys: set<string>): map<string, Value> {
    map key | key in m && key in keys :: m[key]
  }

  lemma {:induction false} AdditionsPhase(t: map<string, Value>, path: string, done: set<string>, ops: seq<Op>,
          m: map<string, Value>, doc: Value, at: Tokens)
    requires done <= t.Keys && IsAdditions(t, path, done, ops)
    requires forall key :: key in done ==> CleanKey(key)
    requires ParsePointer(path) == Some(at) && Get(doc, at) == Some(Object(m))
    ensures ApplyAll(doc, ops) == Some(Put(doc, at, Object(m + Restrict(t, done))))
    decreases |done|
  {
    if done == {} {
      PutSame(doc, at);
      assert m + Restrict(t, done) == m;
    } else {
      var key :| key in done && |ops| > 0 && IsAdditions(t, path, done - {key}, ops[..|ops| - 1]) &&
                 ops[|ops| - 1] == Add(KeyPath(path, key), t[key]);
      var before, last := ops[..|ops| - 1], ops[|ops| - 1];
      AdditionsPhase(t, path, done - {key}, before, m, doc, at);
      var most, all := m + Restrict(t, done - {key}), m + Restrict(t, done);
      RestrictStep(m, t, done, key);
      GetPut(doc, at, Object(most));
      AddMember(path, key, t[key], most, Put(doc, at, Object(most)), at);
      assert ops[|ops| - 1..] == [last];
      PatchCut(doc, at, ops, |ops| - 1, Some(Object(most)), Some(Object(all)));
    }
  }

  lemma RestrictIsRemoval(t: map<string, Value>, keys: set<string>)
    ensures t - keys == Restrict(t, t.Keys - keys)
  {
  }

  lemma RestrictStep(m: map<string, Value>, t: map<string, Value>, done: set<string>, key: string)
    requires key in done && key in t
    ensures (m + Restrict(t, done - {key}))[key := t[key]] == m + Restrict(t, done)
  {
  }

  lemma AddMember(path: string, key: string, v: Value, m: map<string, Value>, doc: Value, at: Tokens)
    requires ParsePointer(path) == Some(at) && Get(doc, at) == Some(Object(m)) && CleanKey(key)
    ensures ApplyAll(doc, [Add(KeyPath(path, key), v)]) == Some(Put(doc, at, Object(m[key := v])))
  {
    ApplyBelow(doc, at, path, key, Add(KeyPath(path, key), v));
  }
}
