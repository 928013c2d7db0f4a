/** `json_diff`: from two documents to a JSON Patch. */
module JsonDiff {
  import opened Json
  import opened Pointer
  import opened Patch

  /** The append loop as written advances its index twice per round; the repaired one once. */
  datatype AppendLoop = AsWritten | Repaired {
    function Stride(): nat {
      if AsWritten? then 2 else 1
    }
  }

  function IndexPath(path: string, i: nat): string {
    path + "/" + Decimal(i)
  }

  function KeyPath(path: string, key: string): string {
    path + "/" + key
  }

  // ---- Which patches may result, whatever order object members are enumerated in ----

  /** Removes of the indices `lo` to `hi`, the highest first. */
  function RemovesDown(path: string, lo: nat, hi: nat): seq<Op> {
    if hi <= lo then [] else [Remove(IndexPath(path, hi - 1))] + RemovesDown(path, lo, hi - 1)
  }

  /** Every stride-th element from index `from` on. */
  function EveryNth(stride: nat, items: seq<Value>, from: nat): (picked: seq<Value>)
    requires stride > 0
    ensures from < |items| ==> 0 < |picked| <= |items| - from && picked[0] == items[from]
    ensures stride > 1 && from + 1 < |items| ==> |picked| < |items| - from
    ensures from >= |items| ==> picked == []
    decreases |items| - from
  {
    if from >= |items| then [] else [items[from]] + EveryNth(stride, items, from + stride)
  }

  lemma {:induction false} EveryElement(items: seq<Value>, from: nat)
    requires from <= |items|
    ensures EveryNth(Repaired.Stride(), items, from) == items[from..]
    decreases |items| - from
  {
    if from < |items| {
      EveryElement(items, from + 1);
    }
  }

  /** As written, the appended elements are those at n, n+2, n+4, ...: half of them, rounded up. */
  lemma {:induction false} EverySecondElement(items: seq<Value>, from: nat)
    requires from <= |items|
    ensures var picked := EveryNth(AsWritten.Stride(), items, from);
      |picked| == (|items| - from + 1) / 2 && forall j :: 0 <= j < |picked| ==> picked[j] == items[from + 2 * j]
    decreases |items| - from
  {
    if from + 2 <= |items| {
      EverySecondElement(items, from + 2);
    }
  }

  function Appends(path: string, values: seq<Value>): (ops: seq<Op>)
    ensures |ops| == |values|
    ensures forall i :: 0 <= i < |ops| ==> ops[i] == Add(path + "/-", values[i])
  {
    seq(|values|, i requires 0 <= i < |values| => Add(path + "/-", values[i]))
  }

  /** The patches `json_diff(s, t, path)` may return. Only the enumeration order of object members
      is left open. */
  ghost predicate IsDiff(loop: AppendLoop, s: Value, t: Value, path: string, ops: seq<Op>)
    decreases s, 1, 0
  {
    if s == t then ops == []
    else if s.Array? && t.Array? then
      exists n: nat :: n <= |ops| &&
        IsItemsDiff(loop, s, t, path, Min(|s.items|, |t.items|), ops[..n]) &&
        ops[n..] == TailOps(loop, s, t, path)
    else if s.Object? && t.Object? then
      exists n: nat :: n <= |ops| &&
        IsMembersDiff(loop, s, t, path, s.members.Keys, ops[..n]) &&
        IsAdditions(t.members, path, t.members.Keys - s.members.Keys, ops[n..])
    else ops == [Replace(path, t)]
  }

  /** What follows the in-place edits of an array: removes, or appends. */
  function TailOps(loop: AppendLoop, s: Value, t: Value, path: string): seq<Op>
    requires s.Array? && t.Array?
  {
    RemovesDown(path, |t.items|, |s.items|) + Appends(path, EveryNth(loop.Stride(), t.items, |s.items|))
  }

  /** The diffs of the first `count` pairs of elements, in order. */
  ghost predicate IsItemsDiff(loop: AppendLoop, s: Value, t: Value, path: string, count: nat, ops: seq<Op>)
    requires s.Array? && t.Array? && count <= |s.items| && count <= |t.items|
    decreases s, 0, count
  {
    if count == 0 then ops == []
    else
      exists n: nat :: n <= |ops| &&
        IsItemsDiff(loop, s, t, path, count - 1, ops[..n]) &&
        IsDiff(loop, s.items[count - 1], t.items[count - 1], IndexPath(path, count - 1), ops[n..])
  }

  /** The operations for the source members in `done`, in some order. */
  ghost predicate IsMembersDiff(loop: AppendLoop, s: Value, t: Value, path: string, done: set<string>, ops: seq<Op>)
    requires s.Object? && t.Object? && done <= s.members.Keys
    decreases s, 0, |done|
  {
    if done == {} then ops == []
    else
      exists key, n: nat :: key in done && n <= |ops| &&
        IsMembersDiff(loop, s, t, path, done - {key}, ops[..n]) &&
        IsMemberDiff(loop, s, t, path, key, ops[n..])
  }

  ghost predicate IsMemberDiff(loop: AppendLoop, s: Value, t: Value, path: string, key: string, ops: seq<Op>)
    requires s.Object? && t.Object? && key in s.members
    decreases s, 0, 0
  {
    if key in t.members then IsDiff(loop, s.members[key], t.members[key], KeyPath(path, key), ops)
    else ops == [Remove(KeyPath(path, key))]
  }

  /** One add for each key in `done`, in some order. */
  ghost predicate IsAdditions(t: map<string, Value>, path: string, done: set<string>, ops: seq<Op>)
    requires done <= t.Keys
    decreases |done|
  {
    if done == {} then ops == []
    else
      exists key :: key in done && |ops| > 0 &&
        IsAdditions(t, path, done - {key}, ops[..|ops| - 1]) &&
        ops[|ops| - 1] == Add(KeyPath(path, key), t[key])
  }

  // ---- Which member names enter a path ----

  /** A member that is new, lost or changed: the only ones whose names are put into paths. */
  predicate Touched(s: map<string, Value>, t: map<string, Value>, key: string) {
    (key in s || key in t) && !(key in s && key in t && s[key] == t[key])
  }

  /** Every member name that enters a path of the patch can stand there as it is. */
  ghost predicate TouchedKeysClean(s: Value, t: Value)
    decreases s
  {
    if s == t then true
    else if s.Array? && t.Array? then
      forall i :: 0 <= i < |s.items| && i < |t.items| ==> TouchedKeysClean(s.items[i], t.items[i])
    else if s.Object? && t.Object? then
      && (forall key :: Touched(s.members, t.members, key) ==> CleanKey(key))
      && (forall key :: key in s.members && key in t.members ==> TouchedKeysClean(s.members[key], t.members[key]))
    else true
  }

  lemma {:induction false} CleanIsEnough(s: Value, t: Value)
    requires Clean(s) && Clean(t)
    ensures TouchedKeysClean(s, t)
    decreases s
  {
    if s.Array? && t.Array? {
      forall i | 0 <= i < |s.items| && i < |t.items| ensures TouchedKeysClean(s.items[i], t.items[i]) {
        CleanIsEnough(s.items[i], t.items[i]);
      }
    } else if s.Object? && t.Object? {
      forall key | key in s.members && key in t.members ensures TouchedKeysClean(s.members[key], t.members[key]) {
        CleanIsEnough(s.members[key], t.members[key]);
      }
    }
  }

  // ---- The algorithm ----

  method JsonDiff(loop: AppendLoop, source: Value, target: Value, path: string) returns (result: seq<Op>)
    ensures IsDiff(loop, source, target, path, result)
    decreases source, 1
  {
    result := [];
    if source == target {
      return;
    }
    match (source, target)
    case (Array(_), Array(_)) =>
      result := DiffArrays(loop, source, target, path);
    case (Object(_), Object(_)) =>
      result := DiffObjects(loop, source, target, path);
    case (_, _) =>
      result := [Replace(path, target)];
  }

  method DiffArrays(loop: AppendLoop, source: Value, target: Value, path: string) returns (result: seq<Op>)
    requires source.Array? && target.Array? && source != target
    ensures IsDiff(loop, source, target, path, result)
    decreases source, 0
  {
    var src, tgt := source.items, target.items;
    result := [];
    var i := 0;
    while i < |src| && i < |tgt|
      invariant 0 <= i <= |src| && i <= |tgt|
      invariant IsItemsDiff(loop, source, target, path, i, result)
    {
      var tempDiff := JsonDiff(loop, src[i], tgt[i], IndexPath(path, i));
      ghost var before := result;
      result := result + tempDiff;
      assert result[..|before|] == before && result[|before|..] == tempDiff;
      i := i + 1;
    }
    ghost var edits := result;
    var removes := RemoveSurplus(path, |src|, |tgt|);
    var appends := AppendMissing(loop, tgt, path, |src|);
    result := result + (removes + appends);
    assert result[..|edits|] == edits && result[|edits|..] == TailOps(loop, source, target, path);
  }

  /** The remove loop: `for (i = size; i-- > newSize;)`. */
  method RemoveSurplus(path: string, size: nat, newSize: nat) returns (result: seq<Op>)
    ensures result == RemovesDown(path, newSize, size)
  {
    result := [];
    var i := size;
    while i > newSize
      invariant 0 <= i <= size
      invariant result + RemovesDown(path, newSize, i) == RemovesDown(path, newSize, size)
    {
      i := i - 1;
      Regroup(result, Remove(IndexPath(path, i)), RemovesDown(path, newSize, i));
      result := result + [Remove(IndexPath(path, i))];
    }
  }

  lemma Regroup<T>(a: seq<T>, x: T, b: seq<T>)
    ensures a + [x] + b == a + ([x] + b)
  {
  }

  /** The append loop; as written, its body also advances the index. */
  method AppendMissing(loop: AppendLoop, tgt: seq<Value>, path: string, size: nat) returns (result: seq<Op>)
    ensures result == Appends(path, EveryNth(loop.Stride(), tgt, size))
    ensures size >= |tgt| ==> result == []
    ensures size < |tgt| ==> |result| == if loop.AsWritten? then (|tgt| - size + 1) / 2 else |tgt| - size
    ensures forall j {:trigger result[j]} :: 0 <= j < |result| ==>
      var from := size + if loop.AsWritten? then 2 * j else j;
      from < |tgt| && result[j] == Add(path + "/-", tgt[from])
  {
    result := [];
    ghost var picked: seq<Value> := [];
    var i := size;
    while i < |tgt|
      invariant size <= i
      invariant picked + EveryNth(loop.Stride(), tgt, i) == EveryNth(loop.Stride(), tgt, size)
      invariant result == Appends(path, picked)
    {
      Regroup(picked, tgt[i], EveryNth(loop.Stride(), tgt, i + loop.Stride()));
      AppendsOneMore(path, picked, tgt[i]);
      result := result + [Add(path + "/-", tgt[i])];
      picked := picked + [tgt[i]];
      if loop.AsWritten? {
        i := i + 1;
      }
      i := i + 1;
    }
    if size < |tgt| {
      if loop.AsWritten? { EverySecondElement(tgt, size); } else { EveryElement(tgt, size); }
    }
  }

  lemma AppendsOneMore(path: string, values: seq<Value>, v: Value)
    ensures Appends(path, values + [v]) == Appends(path, values) + [Add(path + "/-", v)]
  {
  }

  method DiffObjects(loop: AppendLoop, source: Value, target: Value, path: string) returns (result: seq<Op>)
    requires source.Object? && target.Object? && source != target
    ensures IsDiff(loop, source, target, path, result)
    decreases source, 0
  {
    var src, tgt := source.members, target.members;
    result := [];
    var rest := src.Keys;
    while rest != {}
      invariant rest <= src.Keys
      invariant IsMembersDiff(loop, source, target, path, src.Keys - rest, result)
    {
      var key :| key in rest;
      ghost var done, before := src.Keys - rest, result;
      var tempDiff;
      if key in tgt {
        tempDiff := JsonDiff(loop, src[key], tgt[key], KeyPath(path, key));
      } else {
        tempDiff := [Remove(KeyPath(path, key))];
      }
      result := result + tempDiff;
      rest := rest - {key};
      assert src.Keys - rest - {key} == done;
      assert result[..|before|] == before && result[|before|..] == tempDiff;
      assert IsMemberDiff(loop, source, target, path, key, tempDiff);
    }
    assert src.Keys - rest == src.Keys;
    ghost var edits := result;

    rest := tgt.Keys;
    ghost var added: seq<Op> := [];
    while rest != {}
      invariant rest <= tgt.Keys
      invariant result == edits + added
      invariant IsAdditions(tgt, path, tgt.Keys - rest - src.Keys, added)
    {
      var key :| key in rest;
      ghost var done, before := tgt.Keys - rest - src.Keys, added;
      rest := rest - {key};
      if key !in src {
        result := result + [Add(KeyPath(path, key), tgt[key])];
        added := added + [Add(KeyPath(path, key), tgt[key])];
        assert tgt.Keys - rest - src.Keys - {key} == done;
        assert added[..|added| - 1] == before;
        assert key in tgt.Keys - rest - src.Keys;
      } else {
        assert tgt.Keys - rest - src.Keys == done;
      }
    }
    assert tgt.Keys - rest - src.Keys == tgt.Keys - src.Keys;
    assert result[..|edits|] == edits && result[|edits|..] == added;
  }
}
