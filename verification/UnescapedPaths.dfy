/** Member names are put into paths unescaped: what a client reads out of such a path, and what the
    operations of a patch leave alone whatever its keys are. */
module UnescapedPaths {
  import opened Json
  import opened Pointer
  import opened Patch
  import opened JsonDiff
  import DiffPaths

  // ---- What a client reads out of an unescaped key ----

  /** The first token that a client decodes from "/" and `key`. */
  function FirstToken(key: string): Option<string> {
    Unescape(key[..TokenEnd(key, 0)])
  }

  lemma {:induction false} UnescapeShrinks(token: string)
    ensures var r := Unescape(token);
      r.Some? ==> |r.value| < |token| || (r.value == token && '~' !in token)
    decreases |token|
  {
    if token != "" {
      UnescapeShrinks(token[1..]);
      if |token| > 1 { UnescapeShrinks(token[2..]); }
      assert token == [token[0]] + token[1..];
    }
  }

  /** A clean key is read as itself; any other is read as something shorter, or not at all. */
  lemma FirstTokenShrinks(key: string)
    ensures CleanKey(key) ==> FirstToken(key) == Some(key)
    ensures !CleanKey(key) && FirstToken(key).Some? ==> |FirstToken(key).value| < |key|
  {
    var end := TokenEnd(key, 0);
    UnescapeShrinks(key[..end]);
    if CleanKey(key) {
      TokenEndIs(key, 0, |key|);
      assert key[..end] == key;
      UnescapeClean(key);
    } else if end == |key| {
      assert key[..end] == key;
    }
  }

  lemma ParseHeadAtRoot(tail: string)
    requires ParsePointer("/" + tail).Some?
    ensures var q := ParsePointer("/" + tail).value; q != [] && FirstToken(tail) == Some(q[0])
  {
    var longer, end := "/" + tail, TokenEnd(tail, 0);
    TokenEndIs(longer, 1, end + 1);
    assert longer[1..end + 1] == tail[..end];
  }

  /** Extending a pointer leaves its first token as it is. */
  lemma CutFirstToken(path: string, tail: string)
    requires path != ""
    ensures var longer, end := path + "/" + tail, TokenEnd(path, 1);
      && longer != "" && longer[0] == path[0] && TokenEnd(longer, 1) == end && 0 < end
      && longer[1..end] == path[1..end] && longer[end..] == path[end..] + "/" + tail
  {
    TokenEndIs(path + "/" + tail, 1, TokenEnd(path, 1));
  }

  /** What follows `path` and "/" is read token by token, the first one being `FirstToken`. */
  lemma {:induction false} ParseHead(path: string, tail: string)
    requires ParsePointer(path).Some? && ParsePointer(path + "/" + tail).Some?
    ensures var at, q := ParsePointer(path).value, ParsePointer(path + "/" + tail).value;
      |at| < |q| && q[..|at|] == at && FirstToken(tail) == Some(q[|at|])
    decreases |path|
  {
    if path == "" {
      assert path + "/" + tail == "/" + tail;
      ParseHeadAtRoot(tail);
    } else {
      CutFirstToken(path, tail);
      var end := TokenEnd(path, 1);
      ParseHead(path[end..], tail);
      PrependToken(Unescape(path[1..end]).value, ParsePointer(path[end..]).value,
        ParsePointer(path[end..] + "/" + tail).value);
    }
  }

  lemma PrependToken(token: string, at: Tokens, q: Tokens)
    requires |at| < |q| && q[..|at|] == at
    ensures ([token] + q)[..|[token] + at|] == [token] + at && ([token] + q)[|[token] + at|] == q[|at|]
  {
  }

  // ---- Every operation of a patch stays inside the path it was made for, as a string ----

  predicate Extends(longer: string, path: string) {
    |path| <= |longer| && longer[..|path|] == path && (|longer| > |path| ==> longer[|path|] == '/')
  }

  /** Only a replace has the path itself. */
  predicate Inside(op: Op, path: string) {
    Extends(op.path, path) && (op.path == path ==> op.Replace?)
  }

  ghost predicate AllInside(ops: seq<Op>, path: string) {
    forall i :: 0 <= i < |ops| ==> Inside(ops[i], path)
  }

  /** The operation's path extends that of a child named in `heads`. */
  ghost predicate ViaChild(op: Op, path: string, heads: set<string>) {
    exists h :: h in heads && Extends(op.path, KeyPath(path, h))
  }

  ghost predicate AllViaChildren(ops: seq<Op>, path: string, heads: set<string>) {
    forall i :: 0 <= i < |ops| ==> ViaChild(ops[i], path, heads)
  }

  lemma InsideChild(op: Op, path: string, h: string)
    requires Extends(op.path, KeyPath(path, h))
    ensures Inside(op, path)
  {
    var child := KeyPath(path, h);
    assert op.path[..|path|] == op.path[..|child|][..|path|] == path;
    assert op.path[|path|] == op.path[..|child|][|path|] == '/';
  }

  lemma ViaChildrenInside(ops: seq<Op>, path: string, heads: set<string>)
    requires AllViaChildren(ops, path, heads)
    ensures AllInside(ops, path)
  {
    forall i | 0 <= i < |ops| ensures Inside(ops[i], path) {
      assert ViaChild(ops[i], path, heads);
      var h :| h in heads && Extends(ops[i].path, KeyPath(path, h));
      InsideChild(ops[i], path, h);
    }
  }

  lemma ViaOneChild(ops: seq<Op>, path: string, h: string)
    requires forall i :: 0 <= i < |ops| ==> Extends(ops[i].path, KeyPath(path, h))
    ensures AllViaChildren(ops, path, {h})
  {
    forall i | 0 <= i < |ops| ensures ViaChild(ops[i], path, {h}) {
      assert h in {h} && Extends(ops[i].path, KeyPath(path, h));
    }
  }

  lemma ViaMore(op: Op, path: string, heads: set<string>, more: set<string>)
    requires ViaChild(op, path, heads) && heads <= more
    ensures ViaChild(op, path, more)
  {
    var h :| h in heads && Extends(op.path, KeyPath(path, h));
    assert h in more;
  }

  lemma JoinVia(ops: seq<Op>, n: nat, path: string, one: set<string>, two: set<string>, heads: set<string>)
    requires n <= |ops| && AllViaChildren(ops[..n], path, one) && AllViaChildren(ops[n..], path, two)
    requires one <= heads && two <= heads
    ensures AllViaChildren(ops, path, heads)
  {
    forall i | 0 <= i < |ops| ensures ViaChild(ops[i], path, heads) {
      if i < n {
        assert ops[..n][i] == ops[i];
        ViaMore(ops[i], path, one, heads);
      } else {
        assert ops[n..][i - n] == ops[i];
        ViaMore(ops[i], path, two, heads);
      }
    }
  }

  lemma {:induction false} DiffStaysInside(loop: AppendLoop, s: Value, t: Value, path: string, ops: seq<Op>)
    requires IsDiff(loop, s, t, path, ops)
    ensures AllInside(ops, path)
    decreases s, 2, 0
  {
    if s == t {
    } else if s.Array? && t.Array? {
      var count := Min(|s.items|, |t.items|);
      var n: nat :| n <= |ops| && IsItemsDiff(loop, s, t, path, count, ops[..n]) &&
        ops[n..] == TailOps(loop, s, t, path);
      ItemsViaChildren(loop, s, t, path, count, ops[..n]);
      var heads := TailViaChildren(loop, s, t, path);
      JoinVia(ops, n, path, Indices(count), heads, Indices(count) + heads);
      ViaChildrenInside(ops, path, Indices(count) + heads);
    } else if s.Object? && t.Object? {
      ObjectViaTouched(loop, s, t, path, ops);
      ViaChildrenInside(ops, path, TouchedKeys(s.members, t.members));
    }
  }

  function Indices(count: nat): set<string> {
    set i | 0 <= i < count :: Decimal(i)
  }

  lemma {:induction false} ItemsViaChildren(loop: AppendLoop, s: Value, t: Value, path: string, count: nat,
          ops: seq<Op>)
    requires s.Array? && t.Array? && count <= |s.items| && count <= |t.items|
    requires IsItemsDiff(loop, s, t, path, count, ops)
    ensures AllViaChildren(ops, path, Indices(count))
    decreases s, 1, count
  {
    if count > 0 {
      var c := count - 1;
      var n: nat :| n <= |ops| && IsItemsDiff(loop, s, t, path, c, ops[..n]) &&
                    IsDiff(loop, s.items[c], t.items[c], IndexPath(path, c), ops[n..]);
      ItemsViaChildren(loop, s, t, path, c, ops[..n]);
      DiffStaysInside(loop, s.items[c], t.items[c], IndexPath(path, c), ops[n..]);
      ViaOneChild(ops[n..], path, Decimal(c));
      JoinVia(ops, n, path, Indices(c), {Decimal(c)}, Indices(count));
    }
  }

  lemma TailViaChildren(loop: AppendLoop, s: Value, t: Value, path: string) returns (heads: set<string>)
    requires s.Array? && t.Array?
    ensures AllViaChildren(TailOps(loop, s, t, path), path, heads)
  {
    var removes, appends := RemovesDown(path, |t.items|, |s.items|),
      Appends(path, EveryNth(loop.Stride(), t.items, |s.items|));
    RemovesViaChildren(path, |t.items|, |s.items|);
    assert path + "/-" == KeyPath(path, "-");
    ViaOneChild(appends, path, "-");
    heads := Indices(|s.items|) + {"-"};
    assert (removes + appends)[..|removes|] == removes && (removes + appends)[|removes|..] == appends;
    JoinVia(removes + appends, |removes|, path, Indices(|s.items|), {"-"}, heads);
  }

  lemma {:induction false} RemovesViaChildren(path: string, lo: nat, hi: nat)
    ensures AllViaChildren(RemovesDown(path, lo, hi), path, Indices(hi))
    decreases hi
  {
    if lo < hi {
      var ops := RemovesDown(path, lo, hi);
      RemovesViaChildren(path, lo, hi - 1);
      assert ops[..1] == [Remove(IndexPath(path, hi - 1))] && ops[1..] == RemovesDown(path, lo, hi - 1);
      ViaOneChild(ops[..1], path, Decimal(hi - 1));
      JoinVia(ops, 1, path, {Decimal(hi - 1)}, Indices(hi - 1), Indices(hi));
    }
  }

  ghost function TouchedKeys(s: map<string, Value>, t: map<string, Value>): set<string> {
    set key | key in s.Keys + t.Keys && Touched(s, t, key)
  }

  /** The operations for an object go through the touched members. */
  lemma {:induction false} ObjectViaTouched(loop: AppendLoop, s: Value, t: Value, path: string, ops: seq<Op>)
    requires s != t && s.Object? && t.Object? && IsDiff(loop, s, t, path, ops)
    ensures AllViaChildren(ops, path, TouchedKeys(s.members, t.members))
    decreases s, 1, |s.members.Keys| + 1
  {
    var added := t.members.Keys - s.members.Keys;
    var n: nat :| n <= |ops| && IsMembersDiff(loop, s, t, path, s.members.Keys, ops[..n]) &&
                  IsAdditions(t.members, path, added, ops[n..]);
    MembersViaTouched(loop, s, t, path, s.members.Keys, ops[..n]);
    AdditionsViaChildren(t.members, path, added, ops[n..]);
    JoinVia(ops, n, path, TouchedKeys(s.members, t.members), added, TouchedKeys(s.members, t.members));
  }

  lemma {:induction false} MembersViaTouched(loop: AppendLoop, s: Value, t: Value, path: string, done: set<string>,
          ops: seq<Op>)
    requires s.Object? && t.Object? && done <= s.members.Keys && IsMembersDiff(loop, s, t, path, done, ops)
    ensures AllViaChildren(ops, path, TouchedKeys(s.members, t.members))
    decreases s, 1, |done|
  {
    if done != {} {
      var key, n: nat :| key in done && n <= |ops| &&
        IsMembersDiff(loop, s, t, path, done - {key}, ops[..n]) && IsMemberDiff(loop, s, t, path, key, ops[n..]);
      var heads := TouchedKeys(s.members, t.members);
      MembersViaTouched(loop, s, t, path, done - {key}, ops[..n]);
      MemberViaTouched(loop, s, t, path, key, ops[n..]);
      JoinVia(ops, n, path, heads, heads * {key}, heads);
    }
  }

  lemma {:induction false} MemberViaTouched(loop: AppendLoop, s: Value, t: Value, path: string, key: string,
          ops: seq<Op>)
    requires s.Object? && t.Object? && key in s.members && IsMemberDiff(loop, s, t, path, key, ops)
    ensures AllViaChildren(ops, path, TouchedKeys(s.members, t.members) * {key})
    decreases s, 1, 0
  {
    var heads := TouchedKeys(s.members, t.members);
    if key in t.members {
      assert IsDiff(loop, s.members[key], t.members[key], KeyPath(path, key), ops);
      if s.members[key] != t.members[key] {
        DiffStaysInside(loop, s.members[key], t.members[key], KeyPath(path, key), ops);
        ViaOneChild(ops, path, key);
        assert heads * {key} == {key};
      }
    } else {
      ViaOneChild(ops, path, key);
      assert heads * {key} == {key};
    }
  }

  lemma {:induction false} AdditionsViaChildren(t: map<string, Value>, path: string, done: set<string>, ops: seq<Op>)
    requires done <= t.Keys && IsAdditions(t, path, done, ops)
    ensures AllViaChildren(ops, path, done)
    decreases |done|
  {
    if done != {} {
      var key :| key in done && |ops| > 0 && IsAdditions(t, path, done - {key}, ops[..|ops| - 1]) &&
                 ops[|ops| - 1] == Add(KeyPath(path, key), t[key]);
      var last := |ops| - 1;
      AdditionsViaChildren(t, path, done - {key}, ops[..last]);
      assert ops[last..] == [ops[last]];
      ViaOneChild(ops[last..], path, key);
      JoinVia(ops, last, path, done - {key}, {key}, done);
    }
  }

  // ---- What such operations leave alone ----

  /** If the path can be read at all, it leads below `at`; a child of an array is only replaced. */
  predicate Within(op: Op, at: Tokens, inObject: bool) {
    match ParsePointer(op.path)
    case None => true
    case Some(q) => |at| < |q| && q[..|at|] == at && (inObject || op.Replace? || |at| + 1 < |q|)
  }

  /** It does not lead into the child named `k`. */
  predicate Aside(op: Op, at: Tokens, k: string) {
    match ParsePointer(op.path)
    case None => true
    case Some(q) => |at| < |q| && q[|at|] != k
  }

  ghost predicate AllWithin(ops: seq<Op>, at: Tokens, inObject: bool) {
    forall i :: 0 <= i < |ops| ==> Within(ops[i], at, inObject)
  }

  ghost predicate AllAside(ops: seq<Op>, at: Tokens, k: string) {
    forall i :: 0 <= i < |ops| ==> Aside(ops[i], at, k)
  }

  /** Both objects, or both arrays of one length. */
  predicate SameKind(a: Value, b: Value) {
    (a.Object? && b.Object?) || (a.Array? && b.Array? && |a.items| == |b.items|)
  }

  ghost predicate KeepsKind(doc: Value, after: Value, at: Tokens)
    requires Get(doc, at).Some?
  {
    Get(after, at).Some? && SameKind(Get(doc, at).value, Get(after, at).value)
  }

  lemma {:induction false} PutKeepsKind(doc: Value, at: Tokens, q: Tokens, v: Value)
    requires |at| < |q| && q[..|at|] == at && Get(doc, q).Some?
    ensures Get(doc, at).Some? && KeepsKind(doc, Put(doc, q, v), at)
    decreases |at|
  {
    var c := Child(doc, q[0]).value;
    SetChildTwice(doc, q[0], Put(c, q[1..], v), v);
    if at != [] {
      assert q[1..][..|at| - 1] == at[1..] && q[0] == at[0];
      PutKeepsKind(c, at[1..], q[1..], v);
    }
  }

  /** Rewriting something below `at` but not in the child `k`. */
  lemma PutAside(doc: Value, at: Tokens, k: string, q: Tokens, v: Value)
    requires |at| < |q| && q[..|at|] == at && Get(doc, q).Some?
    ensures Get(doc, at).Some? && KeepsKind(doc, Put(doc, q, v), at)
    ensures q[|at|] != k ==> Get(Put(doc, q, v), at + [k]) == Get(doc, at + [k])
  {
    PutKeepsKind(doc, at, q, v);
    if q[|at|] != k {
      DiffPaths.StepsIntoDifferentChildren(q, at + [k], at);
      PutElsewhere(doc, q, v, at + [k]);
    }
  }

  lemma ChangeAside(doc: Value, at: Tokens, k: string, op: Op, q: Tokens)
    requires ParsePointer(op.path) == Some(q) && |q| == |at| + 1 && q[..|at|] == at && !op.Replace?
    requires Get(doc, at).Some? && Get(doc, at).value.Object? && Apply(doc, op).Some?
    ensures KeepsKind(doc, Apply(doc, op).value, at)
    ensures q[|at|] != k ==> Get(Apply(doc, op).value, at + [k]) == Get(doc, at + [k])
  {
    var node, token := Get(doc, at).value, q[|at|];
    assert q[..|q| - 1] == at;
    var changed := if op.Add? then AddChild(node, token, op.value) else RemoveChild(node, token);
    assert Apply(doc, op) == Some(Put(doc, at, changed.value));
    GetPut(doc, at, changed.value);
    GetBelow(doc, at, k);
    GetBelow(Put(doc, at, changed.value), at, k);
  }

  lemma StepAside(doc: Value, at: Tokens, k: string, op: Op)
    requires Get(doc, at).Some? && Apply(doc, op).Some?
    requires Within(op, at, Get(doc, at).value.Object?)
    ensures KeepsKind(doc, Apply(doc, op).value, at)
    ensures Aside(op, at, k) ==> Get(Apply(doc, op).value, at + [k]) == Get(doc, at + [k])
  {
    var q := ParsePointer(op.path).value;
    if op.Replace? {
      PutAside(doc, at, k, q, op.value);
    } else if |q| == |at| + 1 {
      ChangeAside(doc, at, k, op, q);
    } else {
      var parent, token := q[..|q| - 1], q[|q| - 1];
      var node := Get(doc, parent).value;
      var changed := if op.Add? then AddChild(node, token, op.value) else RemoveChild(node, token);
      assert Apply(doc, op) == Some(Put(doc, parent, changed.value));
      assert parent[..|at|] == q[..|at|] && parent[|at|] == q[|at|];
      PutAside(doc, at, k, parent, changed.value);
    }
  }

  lemma {:induction false} PatchAside(doc: Value, at: Tokens, k: string, ops: seq<Op>)
    requires Get(doc, at).Some? && (Get(doc, at).value.Object? || Get(doc, at).value.Array?)
    requires AllWithin(ops, at, Get(doc, at).value.Object?) && ApplyAll(doc, ops).Some?
    ensures KeepsKind(doc, ApplyAll(doc, ops).value, at)
    ensures AllAside(ops, at, k) ==> Get(ApplyAll(doc, ops).value, at + [k]) == Get(doc, at + [k])
    decreases |ops|
  {
    if ops != [] {
      var next := Apply(doc, ops[0]).value;
      StepAside(doc, at, k, ops[0]);
      assert AllWithin(ops[1..], at, Get(next, at).value.Object?);
      PatchAside(next, at, k, ops[1..]);
      if AllAside(ops, at, k) { assert AllAside(ops[1..], at, k); }
    }
  }

  // ---- The operations of one child ----

  lemma SplitAt(longer: string, path: string)
    requires Extends(longer, path) && longer != path
    ensures |path| < |longer| && longer == path + "/" + longer[|path| + 1..]
  {
  }

  lemma SplitAtChild(longer: string, path: string, h: string) returns (tail: string)
    requires Extends(longer, KeyPath(path, h))
    ensures longer == path + "/" + tail && FirstToken(tail) == FirstToken(h)
  {
    var end := TokenEnd(h, 0);
    tail := longer[|path| + 1..];
    assert KeyPath(path, h)[|path| + 1..] == h;
    assert tail[..|h|] == longer[..|KeyPath(path, h)|][|path| + 1..] == h;
    assert |tail| > |h| ==> tail[|h|] == longer[|KeyPath(path, h)|] == '/';
    TokenEndIs(tail, 0, end);
    assert tail[..end] == h[..end];
  }

  /** An operation that goes through the child `h` of an object. */
  lemma ViaMember(op: Op, path: string, at: Tokens, h: string)
    requires ParsePointer(path) == Some(at) && Extends(op.path, KeyPath(path, h))
    ensures Within(op, at, true)
    ensures forall k :: FirstToken(h) != Some(k) ==> Aside(op, at, k)
  {
    var tail := SplitAtChild(op.path, path, h);
    if ParsePointer(op.path).Some? {
      ParseHead(path, tail);
    }
  }

  /** An operation of the diff of the element at index `c`. */
  lemma ViaElement(op: Op, path: string, at: Tokens, c: nat)
    requires ParsePointer(path) == Some(at) && Inside(op, IndexPath(path, c))
    ensures Within(op, at, false)
    ensures forall k :: k != Decimal(c) ==> Aside(op, at, k)
  {
    DecimalIsCleanKey(c);
    FirstTokenShrinks(Decimal(c));
    ViaMember(op, path, at, Decimal(c));
    if !op.Replace? && ParsePointer(op.path).Some? {
      ParseExtended(path, Decimal(c));
      SplitAt(op.path, IndexPath(path, c));
      ParseHead(IndexPath(path, c), op.path[|IndexPath(path, c)| + 1..]);
    }
  }
}
