/** The file listing of `get_torrent`: one pass over the files, with a cursor into the open files. */
module FileListing {
  import opened Json

  /** The read-write bits of an open mode, and its two flags. */
  datatype RwMode = ReadOnly | WriteOnly | ReadWrite | BothBits
  datatype OpenFile = OpenFile(fileIndex: int, rw: RwMode, randomAccess: bool, sparse: bool)

  datatype Row = Row(name: string, size: nat, progress: int, complete: bool, priority: int, state: Option<string>)

  /** `emplace` keeps the value that is already there. */
  function Emplace(state: Option<string>, s: string): Option<string> {
    if state.Some? then state else Some(s)
  }

  /** The flags show only when the read-write bits name no mode, and of the two the first one shows. */
  function StateOf(f: OpenFile): (r: Option<string>)
    ensures f.rw.ReadOnly? ==> r == Some("read")
    ensures f.rw.WriteOnly? ==> r == Some("write")
    ensures f.rw.ReadWrite? ==> r == Some("read/write")
    ensures r == Some("random_access") <==> f.rw.BothBits? && f.randomAccess
    ensures r == Some("sparse") <==> f.rw.BothBits? && !f.randomAccess && f.sparse
    ensures r == None <==> f.rw.BothBits? && !f.randomAccess && !f.sparse
  {
    var rw := match f.rw
      case ReadWrite => Some("read/write")
      case ReadOnly => Some("read")
      case WriteOnly => Some("write")
      case BothBits => None;
    var random := if f.randomAccess then Emplace(rw, "random_access") else rw;
    if f.sparse then Emplace(random, "sparse") else random
  }

  /** Thousandths done; an empty file is done. */
  function Progress(done: nat, size: nat): int {
    if size > 0 then done * 1000 / size else 1000
  }

  /** Progress stays within 0 and 1000, and is 1000 exactly for complete files. */
  lemma ProgressIsFullIff(done: nat, size: nat)
    requires done <= size
    ensures 0 <= Progress(done, size) <= 1000
    ensures Progress(done, size) == 1000 <==> done == size
  {
  }

  /** Progress is the number of thousandths done, cut off; an empty file counts as done. */
  lemma ProgressIsThousandths(done: nat, size: nat)
    ensures size == 0 ==> Progress(done, size) == 1000
    ensures size > 0 ==> Progress(done, size) * size <= done * 1000 < (Progress(done, size) + 1) * size
  {
    if size > 0 { DivisionBounds(done * 1000, size); }
  }

  lemma DivisionBounds(a: nat, b: nat)
    requires b > 0
    ensures a / b * b <= a < (a / b + 1) * b
  {
    assert a == a / b * b + a % b;
  }

  ghost predicate Ascending(open: seq<OpenFile>, files: nat) {
    && (forall k :: 0 <= k < |open| ==> 0 <= open[k].fileIndex < files)
    && (forall j, k :: 0 <= j < k < |open| ==> open[j].fileIndex < open[k].fileIndex)
  }

  /** The cursor before file `i`: it moves only past an entry whose index is the file at hand. */
  function Cursor(open: seq<OpenFile>, i: nat): (f: nat)
    ensures f <= |open|
  {
    if i == 0 then 0
    else
      var f := Cursor(open, i - 1);
      if f < |open| && open[f].fileIndex == i - 1 then f + 1 else f
  }

  /** The entries the cursor has passed are strictly ascending and belong to files already listed. */
  lemma {:induction false} PassedEntries(open: seq<OpenFile>, i: nat)
    ensures Ascending(open[..Cursor(open, i)], i)
  {
    if i > 0 {
      PassedEntries(open, i - 1);
      var f := Cursor(open, i - 1);
      if f < |open| && open[f].fileIndex == i - 1 {
        assert open[..f + 1] == open[..f] + [open[f]];
      }
    }
  }

  /** On ascending entries the cursor stands on the first entry that is not behind. */
  lemma {:induction false} CursorIsFirstAhead(open: seq<OpenFile>, files: nat, i: nat)
    requires Ascending(open, files) && i <= files
    ensures var f := Cursor(open, i);
      && (forall k :: 0 <= k < f ==> open[k].fileIndex < i)
      && (forall k :: f <= k < |open| ==> open[k].fileIndex >= i)
      && (f < |open| ==> open[f].fileIndex >= i)
  {
    if i > 0 {
      CursorIsFirstAhead(open, files, i - 1);
    }
  }

  /** One pass consumes every entry exactly when they are strictly ascending and name existing files. */
  lemma AllConsumedIff(open: seq<OpenFile>, files: nat)
    ensures Cursor(open, files) == |open| <==> Ascending(open, files)
  {
    PassedEntries(open, files);
    if Cursor(open, files) == |open| {
      assert open[..|open|] == open;
    }
    if Ascending(open, files) {
      CursorIsFirstAhead(open, files, files);
    }
  }

  /** The state that row `i` shows. */
  function ShownState(open: seq<OpenFile>, i: nat): Option<string> {
    var f := Cursor(open, i);
    if f < |open| && open[f].fileIndex == i then StateOf(open[f]) else None
  }

  /** On ascending entries each row shows the state of its own entry, and none when it has no entry. */
  lemma ShownStateIsOwn(open: seq<OpenFile>, files: nat, i: nat)
    requires Ascending(open, files) && i < files
    ensures forall k :: 0 <= k < |open| && open[k].fileIndex == i ==> ShownState(open, i) == StateOf(open[k])
    ensures (forall k :: 0 <= k < |open| ==> open[k].fileIndex != i) ==> ShownState(open, i) == None
  {
    CursorIsFirstAhead(open, files, i);
    var f := Cursor(open, i);
    assert f < |open| ==> open[f].fileIndex >= i;
    forall k | 0 <= k < |open| && open[k].fileIndex == i ensures k == f {
    }
  }

  /** The listing of all files. */
  method ListFiles(names: seq<string>, sizes: seq<nat>, done: seq<nat>, priorities: seq<int>, open: seq<OpenFile>)
      returns (data: seq<Row>)
    requires |names| == |sizes| == |done| == |priorities|
    requires forall i :: 0 <= i < |sizes| ==> done[i] <= sizes[i]
    ensures |data| == |sizes|
    ensures forall i :: 0 <= i < |data| ==>
      data[i] == Row(names[i], sizes[i], Progress(done[i], sizes[i]),
                     done[i] == sizes[i], priorities[i], ShownState(open, i))
    ensures forall i :: 0 <= i < |data| ==>
      0 <= data[i].progress <= 1000 && (data[i].progress == 1000 <==> data[i].complete)
    ensures forall i :: 0 <= i < |data| && sizes[i] > 0 ==>
      data[i].progress * sizes[i] <= done[i] * 1000 < (data[i].progress + 1) * sizes[i]
  {
    data := [];
    var f := 0;
    for i := 0 to |sizes|
      invariant |data| == i
      invariant f == Cursor(open, i)
      invariant forall k :: 0 <= k < i ==>
        data[k] == Row(names[k], sizes[k], Progress(done[k], sizes[k]),
                       done[k] == sizes[k], priorities[k], ShownState(open, k))
      invariant forall k :: 0 <= k < i ==>
        0 <= data[k].progress <= 1000 && (data[k].progress == 1000 <==> data[k].complete)
    {
      var progress := if sizes[i] > 0 then done[i] * 1000 / sizes[i] else 1000;
      var complete := done[i] == sizes[i];
      ProgressIsFullIff(done[i], sizes[i]);
      var state: Option<string> := None;
      if f < |open| && open[f].fileIndex == i {
        match open[f].rw {
          case ReadWrite => state := Emplace(state, "read/write");
          case ReadOnly => state := Emplace(state, "read");
          case WriteOnly => state := Emplace(state, "write");
          case BothBits =>
        }
        if open[f].randomAccess { state := Emplace(state, "random_access"); }
        if open[f].sparse { state := Emplace(state, "sparse"); }
        f := f + 1;
      }
      data := data + [Row(names[i], sizes[i], progress, complete, priorities[i], state)];
    }
    forall i | 0 <= i < |data| && sizes[i] > 0
      ensures data[i].progress * sizes[i] <= done[i] * 1000 < (data[i].progress + 1) * sizes[i]
    {
      ProgressIsThousandths(done[i], sizes[i]);
    }
  }
}
