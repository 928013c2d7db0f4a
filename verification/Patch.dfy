/** JSON Patch (RFC 6902): the three operations the server emits, and what a client does with them. */
module Patch {
  import opened Json
  import opened Pointer

  datatype Op =
    | Add(path: string, value: Value)
    | Remove(path: string)
    | Replace(path: string, value: Value)

  // ---- Looking up and rewriting the subtree at a token list ----

  /** One step of pointer evaluation (section 4 of RFC 6901); "-" never names an existing element. */
  function Child(v: Value, token: string): Option<Value> {
    match v
    case Object(members) => if token in members then Some(members[token]) else None
    case Array(items) =>
      (match ParseIndex(token)
       case Some(i) => if i < |items| then Some(items[i]) else None
       case None => None)
    case _ => None
  }

  function SetChild(v: Value, token: string, c: Value): Value
    requires Child(v, token).Some?
  {
    match v
    case Object(members) => Object(members[token := c])
    case Array(items) => Array(items[ParseIndex(token).value := c])
  }

  function Get(doc: Value, at: Tokens): Option<Value> {
    if at == [] then Some(doc)
    else
      match Child(doc, at[0])
      case Some(c) => Get(c, at[1..])
      case None => None
  }

  function Put(doc: Value, at: Tokens, v: Value): Value
    requires Get(doc, at).Some?
    decreases |at|
  {
    if at == [] then v
    else SetChild(doc, at[0], Put(Child(doc, at[0]).value, at[1..], v))
  }

  // ---- Operations ----

  /** Adding below an existing node: set a member, insert an element, or append for "-". */
  function AddChild(v: Value, token: string, c: Value): Option<Value> {
    match v
    case Object(members) => Some(Object(members[token := c]))
    case Array(items) =>
      if token == "-" then Some(Array(items + [c]))
      else
        (match ParseIndex(token)
         case Some(i) => if i <= |items| then Some(Array(items[..i] + [c] + items[i..])) else None
         case None => None)
    case _ => None
  }

  /** The node without the named member or element, which must exist. */
  function RemoveChild(v: Value, token: string): Option<Value> {
    if Child(v, token).None? then None
    else
      match v
      case Object(members) => Some(Object(members - {token}))
      case Array(items) => var i := ParseIndex(token).value; Some(Array(items[..i] + items[i + 1..]))
  }

  /** Applies one operation (sections 4.1 to 4.3 of RFC 6902); None is the error outcome.
      Removing the whole document is an error here: there is no document left to hold. */
  function Apply(doc: Value, op: Op): Option<Value> {
    match ParsePointer(op.path)
    case None => None
    case Some(at) =>
      if op.Replace? then
        if Get(doc, at).Some? then Some(Put(doc, at, op.value)) else None
      else if at == [] then
        if op.Add? then Some(op.value) else None
      else
        var parent, token := at[..|at| - 1], at[|at| - 1];
        match Get(doc, parent)
        case None => None
        case Some(node) =>
          match if op.Add? then AddChild(node, token, op.value) else RemoveChild(node, token)
          case None => None
          case Some(changed) => Some(Put(doc, parent, changed))
  }

  /** Applies a whole patch in order; one failing operation fails the patch (section 5 of RFC 6902). */
  function ApplyAll(doc: Value, ops: seq<Op>): Option<Value>
    decreases |ops|
  {
    if ops == [] then Some(doc)
    else
      match Apply(doc, ops[0])
      case None => None
      case Some(next) => ApplyAll(next, ops[1..])
  }

  /** Continuing with more operations after a patch that may have failed. */
  function AndThen(doc: Option<Value>, ops: seq<Op>): Option<Value> {
    match doc
    case None => None
    case Some(d) => ApplyAll(d, ops)
  }

  lemma {:induction false} ApplyAllConcat(doc: Value, first: seq<Op>, second: seq<Op>)
    ensures ApplyAll(doc, first + second) == AndThen(ApplyAll(doc, first), second)
    decreases |first|
  {
    if first == [] {
      assert first + second == second;
    } else {
      assert (first + second)[1..] == first[1..] + second;
      if Apply(doc, first[0]).Some? {
        ApplyAllConcat(Apply(doc, first[0]).value, first[1..], second);
      }
    }
  }

  lemma ApplyOne(doc: Value, op: Op)
    ensures ApplyAll(doc, [op]) == Apply(doc, op)
  {
    match Apply(doc, op)
    case None =>
    case Some(next) => assert [op][1..] == []; assert ApplyAll(next, []) == Some(next);
  }

  // ---- The algebra of Get and Put ----

  lemma {:induction false} GetPut(doc: Value, at: Tokens, v: Value)
    requires Get(doc, at).Some?
    ensures Get(Put(doc, at, v), at) == Some(v)
    decreases |at|
  {
    if at != [] {
      GetPut(Child(doc, at[0]).value, at[1..], v);
    }
  }

  lemma {:induction false} PutPut(doc: Value, at: Tokens, v: Value, w: Value)
    requires Get(doc, at).Some?
    ensures Get(Put(doc, at, v), at).Some?
    ensures Put(Put(doc, at, v), at, w) == Put(doc, at, w)
    decreases |at|
  {
    if at != [] {
      var c := Child(doc, at[0]).value;
      PutPut(c, at[1..], v, w);
      SetChildTwice(doc, at[0], Put(c, at[1..], v), Put(c, at[1..], w));
    }
  }

  lemma SetChildTwice(v: Value, token: string, a: Value, b: Value)
    requires Child(v, token).Some?
    ensures Child(SetChild(v, token, a), token) == Some(a)
    ensures SetChild(SetChild(v, token, a), token, b) == SetChild(v, token, b)
  {
    if v.Object? {
      assert v.members[token := a][token := b] == v.members[token := b];
    }
  }

  lemma {:induction false} PutSame(doc: Value, at: Tokens)
    requires Get(doc, at).Some?
    ensures Put(doc, at, Get(doc, at).value) == doc
    decreases |at|
  {
    if at != [] {
      var c := Child(doc, at[0]).value;
      PutSame(c, at[1..]);
      match doc
      case Object(members) => assert members[at[0] := c] == members;
      case Array(items) => assert items[ParseIndex(at[0]).value := c] == items;
    }
  }

  lemma {:induction false} GetBelow(doc: Value, at: Tokens, token: string)
    requires Get(doc, at).Some?
    ensures Get(doc, at + [token]) == Child(Get(doc, at).value, token)
    decreases |at|
  {
    if at == [] {
      assert (at + [token])[1..] == [];
      if Child(doc, token).Some? {
        assert Get(Child(doc, token).value, []) == Child(doc, token);
      }
    } else {
      assert (at + [token])[1..] == at[1..] + [token];
      GetBelow(Child(doc, at[0]).value, at[1..], token);
    }
  }

  lemma {:induction false} PutBelow(doc: Value, at: Tokens, token: string, v: Value)
    requires Get(doc, at).Some? && Child(Get(doc, at).value, token).Some?
    ensures Get(doc, at + [token]).Some?
    ensures Put(doc, at + [token], v) == Put(doc, at, SetChild(Get(doc, at).value, token, v))
    decreases |at|
  {
    GetBelow(doc, at, token);
    if at == [] {
      assert (at + [token])[1..] == [];
      assert Put(Child(doc, token).value, [], v) == v;
    } else {
      assert (at + [token])[1..] == at[1..] + [token];
      PutBelow(Child(doc, at[0]).value, at[1..], token, v);
    }
  }

  // ---- Patches that work inside one subtree ----

  function PutResult(doc: Value, at: Tokens, r: Option<Value>): Option<Value>
    requires Get(doc, at).Some?
  {
    match r
    case None => None
    case Some(v) => Some(Put(doc, at, v))
  }

  /** An add or a remove below the node at `at` rewrites that node. */
  lemma ApplyBelow(doc: Value, at: Tokens, path: string, token: string, op: Op)
    requires ParsePointer(path) == Some(at) && Get(doc, at).Some? && CleanKey(token)
    requires op.path == path + "/" + token && !op.Replace?
    ensures var node := Get(doc, at).value;
      ApplyAll(doc, [op]) == PutResult(doc, at,
        if op.Add? then AddChild(node, token, op.value) else RemoveChild(node, token))
  {
    ParseExtended(path, token);
    assert (at + [token])[..|at + [token]| - 1] == at;
    ApplyOne(doc, op);
  }

  /** A patch that rewrites a child of a node rewrites the node. */
  lemma PatchBelow(doc: Value, at: Tokens, token: string, ops: seq<Op>, r: Option<Value>)
    requires Get(doc, at).Some? && Child(Get(doc, at).value, token).Some? && Get(doc, at + [token]).Some?
    requires ApplyAll(doc, ops) == PutResult(doc, at + [token], r)
    ensures ApplyAll(doc, ops) == PutResult(doc, at, SetChildResult(Get(doc, at).value, token, r))
  {
    if r.Some? { PutBelow(doc, at, token, r.value); }
  }

  function SetChildResult(node: Value, token: string, r: Option<Value>): Option<Value>
    requires Child(node, token).Some?
  {
    match r
    case None => None
    case Some(v) => Some(SetChild(node, token, v))
  }

  /** One patch after another at the same place: the first makes `r1` of the node there, the second `r2`. */
  lemma PatchTwice(doc: Value, at: Tokens, first: seq<Op>, r1: Option<Value>, second: seq<Op>, r2: Option<Value>)
    requires Get(doc, at).Some? && ApplyAll(doc, first) == PutResult(doc, at, r1)
    requires r1.None? ==> r2.None?
    requires r1.Some? ==>
      var next := Put(doc, at, r1.value);
      Get(next, at).Some? && ApplyAll(next, second) == PutResult(next, at, r2)
    ensures ApplyAll(doc, first + second) == PutResult(doc, at, r2)
  {
    ApplyAllConcat(doc, first, second);
    if r1.Some? && r2.Some? { PutPut(doc, at, r1.value, r2.value); }
  }

  /** The same, for a patch cut in two at `n`. */
  lemma PatchCut(doc: Value, at: Tokens, ops: seq<Op>, n: nat, r1: Option<Value>, r2: Option<Value>)
    requires n <= |ops| && Get(doc, at).Some? && ApplyAll(doc, ops[..n]) == PutResult(doc, at, r1)
    requires r1.None? ==> r2.None?
    requires r1.Some? ==>
      var next := Put(doc, at, r1.value);
      Get(next, at).Some? && ApplyAll(next, ops[n..]) == PutResult(next, at, r2)
    ensures ApplyAll(doc, ops) == PutResult(doc, at, r2)
  {
    assert ops == ops[..n] + ops[n..];
    PatchTwice(doc, at, ops[..n], r1, ops[n..], r2);
  }

  // ---- Frame: what a rewrite leaves alone ----

  predicate IsPrefix(a: Tokens, b: Tokens) {
    |a| <= |b| && b[..|a|] == a
  }

  predicate Incomparable(a: Tokens, b: Tokens) {
    !IsPrefix(a, b) && !IsPrefix(b, a)
  }

  lemma PrefixOfTails(a: Tokens, b: Tokens)
    requires a != [] && b != [] && a[0] == b[0]
    ensures IsPrefix(a, b) == IsPrefix(a[1..], b[1..])
  {
    if |a| <= |b| {
      assert a == [a[0]] + a[1..] && b[..|a|] == [b[0]] + b[1..][..|a| - 1];
    }
  }

  /** Rewriting the subtree at `at` leaves everything at an incomparable place as it was. */
  lemma {:induction false} PutElsewhere(doc: Value, at: Tokens, v: Value, other: Tokens)
    requires Get(doc, at).Some? && Incomparable(at, other)
    ensures Get(Put(doc, at, v), other) == Get(doc, other)
    decreases |at|
  {
    assert at != [] && other != [];
    var c := Child(doc, at[0]).value;
    if at[0] == other[0] {
      PrefixOfTails(at, other);
      PrefixOfTails(other, at);
      PutElsewhere(c, at[1..], v, other[1..]);
      SetChildTwice(doc, at[0], Put(c, at[1..], v), v);
    } else if doc.Array? && ParseIndex(other[0]).Some? {
      IndexTokenIsCanonical(at[0]);
      IndexTokenIsCanonical(other[0]);
    }
  }
}
