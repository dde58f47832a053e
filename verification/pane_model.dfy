/** The model behind the tabbed editor: an ordered list of panes, each
    showing one buffer, and a bounded history of closed buffers that can be
    reopened. Panes are identified by number; a buffer is reduced to the
    state the model reads. */
module PaneModels {
  import opened Wrappers

  /** The most closed buffers remembered. */
  const CLOSED_LIMIT := 20

  /** The text codec a new buffer reads and writes with. */
  const DEFAULT_CODEC := "UTF-8"

  /** What is needed to open a file again: its path and its text codec. */
  datatype FileDescriptor = FileDescriptor(fileName: string, textCodec: string)

  /** A closed buffer: its file and where its cursor was. */
  datatype ClosedBuffer = ClosedBuffer(file: FileDescriptor, cursorPosition: int)

  /** A pane and the buffer state the model consults: the path (empty for
      an untitled buffer), the text codec, whether it has unsaved edits, and
      the cursor position. */
  datatype Pane = Pane(id: nat, path: string, codec: string, modified: bool, cursor: int)

  /** `hasBeenSaved`: a buffer counts as saved exactly when it has a path. */
  predicate HasBeenSaved(p: Pane) {
    p.path != ""
  }

  /** `getFileDescriptor`: the buffer's path and codec. */
  function DescriptorOf(p: Pane): (d: FileDescriptor)
    ensures d.fileName == p.path && d.textCodec == p.codec
  {
    FileDescriptor(p.path, p.codec)
  }

  datatype PaneModel = PaneModel(panes: seq<Pane>, closed: seq<ClosedBuffer>, nextId: nat)

  /** Every pane has its own number, below the next one to hand out, and the
      closed history respects its bound. */
  predicate Valid(m: PaneModel) {
    && (forall i, j | 0 <= i < j < |m.panes| :: m.panes[i].id != m.panes[j].id)
    && (forall i | 0 <= i < |m.panes| :: m.panes[i].id < m.nextId)
    && |m.closed| <= CLOSED_LIMIT
  }

  function Empty(): (m: PaneModel)
    ensures Valid(m) && m.panes == [] && m.closed == []
  {
    PaneModel([], [], 0)
  }

  /** `paneAt`: the pane at `i`, or nothing (a null pointer) past the end. */
  function PaneAt(m: PaneModel, i: nat): (r: Option<Pane>)
    ensures r.None? <==> i >= |m.panes|
    ensures r.Some? ==> r.value == m.panes[i]
  {
    if i >= |m.panes| then None else Some(m.panes[i])
  }

  /** `newPane`: a fresh untitled pane appended at the end; the index it is
      announced with is the last one. */
  function NewPane(m: PaneModel): (r: (PaneModel, Pane, nat))
    requires Valid(m)
    ensures Valid(r.0)
    ensures r.0.panes == m.panes + [r.1] && r.0.closed == m.closed
    ensures r.2 == |r.0.panes| - 1
    ensures !HasBeenSaved(r.1) && !r.1.modified && r.1.codec == DEFAULT_CODEC
    ensures forall i | 0 <= i < |m.panes| :: m.panes[i].id != r.1.id
  {
    var p := Pane(m.nextId, "", DEFAULT_CODEC, false, 0);
    (PaneModel(m.panes + [p], m.closed, m.nextId + 1), p, |m.panes|)
  }

  /** The closed history after pushing `c` at the back and dropping from
      the front down to the limit. */
  function PushClosed(closed: seq<ClosedBuffer>, c: ClosedBuffer): (r: seq<ClosedBuffer>)
    requires |closed| <= CLOSED_LIMIT
    ensures 1 <= |r| <= CLOSED_LIMIT && r[|r| - 1] == c
    ensures |r| == if |closed| < CLOSED_LIMIT then |closed| + 1 else CLOSED_LIMIT
    ensures r[..|r| - 1] == closed[|closed| + 1 - |r|..]
  {
    var pushed := closed + [c];
    if |pushed| > CLOSED_LIMIT then pushed[1..] else pushed
  }

  /** `removePane(i)`: the pane at `i` leaves, the others keep their order,
      and its buffer goes onto the closed history. */
  function RemovePaneAt(m: PaneModel, i: nat): (r: PaneModel)
    requires Valid(m) && i < |m.panes|
    ensures Valid(r) && r.nextId == m.nextId
    ensures |r.panes| == |m.panes| - 1
    ensures forall k | 0 <= k < |r.panes| :: r.panes[k] == m.panes[if k < i then k else k + 1]
    ensures r.closed == PushClosed(m.closed, ClosedBuffer(DescriptorOf(m.panes[i]), m.panes[i].cursor))
  {
    var p := m.panes[i];
    var panes := m.panes[..i] + m.panes[i + 1..];
    var r := PaneModel(panes, PushClosed(m.closed, ClosedBuffer(DescriptorOf(p), p.cursor)), m.nextId);
    assert forall k | 0 <= k < |panes| :: panes[k] == m.panes[if k < i then k else k + 1];
    r
  }

  /** The position of the pane numbered `id`, or the count when absent. */
  function IndexOf(panes: seq<Pane>, id: nat): (i: nat)
    ensures i <= |panes|
    ensures forall k | 0 <= k < i :: panes[k].id != id
    ensures i < |panes| ==> panes[i].id == id
  {
    if |panes| == 0 then 0
    else if panes[0].id == id then 0
    else 1 + IndexOf(panes[1..], id)
  }

  /** `removePane(p)`: removes the pane if the model has it, and otherwise
      does nothing. */
  function RemovePane(m: PaneModel, id: nat): (r: PaneModel)
    requires Valid(m)
    ensures Valid(r)
    ensures (forall k | 0 <= k < |m.panes| :: m.panes[k].id != id) ==> r == m
    ensures forall k | 0 <= k < |r.panes| :: r.panes[k].id != id
  {
    var i := IndexOf(m.panes, id);
    if i == |m.panes| then m
    else
      var r := RemovePaneAt(m, i);
      forall k | 0 <= k < |r.panes| ensures r.panes[k].id != id {
        assert r.panes[k] == m.panes[if k < i then k else k + 1];
      }
      r
  }

  /** `QFileInfo` equality on two path strings: an empty path names no
      file and equals nothing; otherwise equal strings name the same file. */
  predicate SameFile(a: string, b: string) {
    a != "" && b != "" && a == b
  }

  /** `findPaneWithPath`: the position of the first pane whose path names
      the file `path` names, or the count. */
  function FindPath(panes: seq<Pane>, path: string): (i: nat)
    ensures i <= |panes|
    ensures forall k | 0 <= k < i :: !SameFile(path, panes[k].path)
    ensures i < |panes| ==> panes[i].path == path && HasBeenSaved(panes[i])
    ensures path == "" ==> i == |panes|
  {
    if |panes| == 0 then 0
    else if SameFile(path, panes[0].path) then 0
    else 1 + FindPath(panes[1..], path)
  }

  /** A lone pane that was never saved and has no edits: the placeholder
      that opening a file replaces. */
  predicate LoneUntitled(m: PaneModel) {
    |m.panes| == 1 && !HasBeenSaved(m.panes[0]) && !m.panes[0].modified
  }

  /** The first step of `openDescriptor`: drop the placeholder pane. */
  function DropPlaceholder(m: PaneModel): (r: PaneModel)
    requires Valid(m)
    ensures Valid(r) && r.nextId == m.nextId
    ensures LoneUntitled(m) ==> r.panes == [] && r.closed == PushClosed(m.closed, ClosedBuffer(DescriptorOf(m.panes[0]), m.panes[0].cursor))
    ensures !LoneUntitled(m) ==> r == m
  {
    if LoneUntitled(m) then RemovePaneAt(m, 0) else m
  }

  /** `openDescriptor`: after dropping the placeholder, a pane already
      showing the file is returned as it is; otherwise exactly one pane is
      appended. Opening a named file gives the buffer that path and codec,
      so it counts as saved; an empty name is refused by `setPath`, and the
      new pane stays untitled. */
  function OpenDescriptor(m: PaneModel, d: FileDescriptor): (r: (PaneModel, Pane))
    requires Valid(m)
    ensures Valid(r.0)
    ensures r.1 in r.0.panes && r.1.path == d.fileName
    ensures var base := DropPlaceholder(m);
      && r.0.closed == base.closed
      && (FindPath(base.panes, d.fileName) < |base.panes| ==> r.0 == base && r.1 == base.panes[FindPath(base.panes, d.fileName)])
      && (FindPath(base.panes, d.fileName) == |base.panes| ==>
            && r.0.panes == base.panes + [r.1] && !r.1.modified
            && (HasBeenSaved(r.1) <==> d.fileName != "")
            && r.1.codec == if d.fileName != "" then d.textCodec else DEFAULT_CODEC)
  {
    var base := DropPlaceholder(m);
    var i := FindPath(base.panes, d.fileName);
    if i < |base.panes| then (base, base.panes[i])
    else
      var (added, p, _) := NewPane(base);
      var shown := if d.fileName == "" then p else p.(path := d.fileName, codec := d.textCodec);
      var panes := added.panes[|added.panes| - 1 := shown];
      assert panes == base.panes + [shown];
      (added.(panes := panes), shown)
  }

  /** Opening never loses a pane other than the placeholder, and never adds
      more than one. */
  lemma OpenDescriptorCounts(m: PaneModel, d: FileDescriptor)
    requires Valid(m)
    ensures var n := |OpenDescriptor(m, d).0.panes|;
      && (LoneUntitled(m) ==> n == 1)
      && (!LoneUntitled(m) ==> |m.panes| <= n <= |m.panes| + 1)
      && (!LoneUntitled(m) && (exists k | 0 <= k < |m.panes| :: SameFile(d.fileName, m.panes[k].path)) ==> n == |m.panes|)
  {
    if !LoneUntitled(m) && (exists k | 0 <= k < |m.panes| :: SameFile(d.fileName, m.panes[k].path)) {
      var k :| 0 <= k < |m.panes| && SameFile(d.fileName, m.panes[k].path);
      assert FindPath(m.panes, d.fileName) <= k;
    }
  }

  /** `reopen`: nothing when the history is empty; otherwise the newest
      closed file is shown, the back of the history is popped, and the
      pane's cursor goes where the closed one was. */
  function Reopen(m: PaneModel): (r: Option<(PaneModel, Pane)>)
    requires Valid(m)
    ensures r.None? <==> m.closed == []
    ensures r.Some? ==> Valid(r.value.0) && r.value.1 in r.value.0.panes
    ensures r.Some? ==> r.value.1.path == m.closed[|m.closed| - 1].file.fileName
    ensures r.Some? ==> r.value.1.cursor == m.closed[|m.closed| - 1].cursorPosition
  {
    if m.closed == [] then None
    else
      var d := m.closed[|m.closed| - 1];
      var (shown, p) := OpenDescriptor(m, d.file);
      var closed := shown.closed[..|shown.closed| - 1];
      var i := IndexOf(shown.panes, p.id);
      assert i < |shown.panes| by {
        var k :| 0 <= k < |shown.panes| && shown.panes[k] == p;
      }
      var moved := p.(cursor := d.cursorPosition);
      var r := shown.(panes := shown.panes[i := moved], closed := closed);
      ReplaceKeepsValid(shown, i, moved);
      assert r.panes[i] == moved;
      Some((r, moved))
  }

  lemma ReplaceKeepsValid(m: PaneModel, i: nat, p: Pane)
    requires Valid(m) && i < |m.panes| && p.id == m.panes[i].id && m.closed != []
    ensures Valid(m.(panes := m.panes[i := p], closed := m.closed[..|m.closed| - 1]))
  {}

  /** When reopening replaces the placeholder pane, the entry popped from
      the history is the placeholder's own, so the reopened file stays in
      the history; otherwise the reopened entry is the one removed. */
  lemma ReopenPopsBack(m: PaneModel)
    requires Valid(m) && m.closed != []
    ensures var d := m.closed[|m.closed| - 1];
      && (LoneUntitled(m) ==> Reopen(m).value.0.closed == PushClosed(m.closed, ClosedBuffer(DescriptorOf(m.panes[0]), m.panes[0].cursor))[..|PushClosed(m.closed, ClosedBuffer(DescriptorOf(m.panes[0]), m.panes[0].cursor))| - 1])
      && (LoneUntitled(m) ==> d in Reopen(m).value.0.closed)
      && (!LoneUntitled(m) ==> Reopen(m).value.0.closed == m.closed[..|m.closed| - 1])
  {
    if LoneUntitled(m) {
      var c := PushClosed(m.closed, ClosedBuffer(DescriptorOf(m.panes[0]), m.panes[0].cursor));
      var d := m.closed[|m.closed| - 1];
      assert c[..|c| - 1] == m.closed[|m.closed| + 1 - |c|..];
      assert c[|c| - 2] == d;
    }
  }

  /** The paths of the panes that have one, in pane order. */
  function PathsOf(panes: seq<Pane>): (r: seq<string>)
    ensures forall k | 0 <= k < |r| :: r[k] != ""
    ensures forall x :: x in r <==> x != "" && exists p | p in panes :: p.path == x
    ensures |r| <= |panes|
  {
    if |panes| == 0 then []
    else
      var rest := PathsOf(panes[1..]);
      assert forall p :: p in panes <==> p == panes[0] || p in panes[1..];
      if panes[0].path == "" then rest else [panes[0].path] + rest
  }

  /** `getOpenPaths`: walks the panes in order and keeps every non-empty
      path. */
  method GetOpenPaths(m: PaneModel) returns (paths: seq<string>)
    ensures paths == PathsOf(m.panes)
  {
    paths := [];
    var i := |m.panes|;
    while i > 0
      invariant 0 <= i <= |m.panes|
      invariant paths == PathsOf(m.panes[i..])
    {
      i := i - 1;
      assert m.panes[i..][1..] == m.panes[i + 1..];
      if m.panes[i].path != "" {
        paths := [m.panes[i].path] + paths;
      }
    }
  }

  // Moving a pane.

  /** The documented effect of `movePane(f, t)`: the element at `f` ends at
      `t` and the others keep their relative order. */
  function Moved<T>(s: seq<T>, f: nat, t: nat): (r: seq<T>)
    requires f < |s| && t < |s|
    ensures |r| == |s| && r[t] == s[f]
  {
    var rest := s[..f] + s[f + 1..];
    rest[..t] + [s[f]] + rest[t..]
  }

  /** Where the element at position `k` of the moved sequence came from. */
  function MovedFrom(f: nat, t: nat, k: nat): nat {
    if k == t then f
    else if f < t && f <= k < t then k + 1
    else if t < f && t < k <= f then k - 1
    else k
  }

  /** `Moved`, position by position. */
  lemma MovedAt<T>(s: seq<T>, f: nat, t: nat, k: nat)
    requires f < |s| && t < |s| && k < |s|
    ensures MovedFrom(f, t, k) < |s| && Moved(s, f, t)[k] == s[MovedFrom(f, t, k)]
  {
    var rest := s[..f] + s[f + 1..];
    assert forall j | 0 <= j < |rest| :: rest[j] == s[if j < f then j else j + 1];
  }

  /** `movePane` as the loop evidently intends: step from `f` toward `t`,
      shifting each element one place toward `f`, then put the moved
      element at `t`. */
  method MovePane<T>(s: seq<T>, f: nat, t: nat) returns (r: seq<T>)
    requires f < |s| && t < |s|
    ensures |r| == |s|
    ensures forall k | 0 <= k < |s| :: r[k] == s[MovedFrom(f, t, k)]
  {
    if f == t {
      return s;
    }
    var p := s[f];
    r := s;
    var idx := f;
    if f < t {
      while idx != t
        invariant f <= idx <= t && |r| == |s|
        invariant forall k {:trigger r[k]} | 0 <= k < |s| :: r[k] == (if f <= k < idx then s[k + 1] else s[k])
      {
        r := r[idx := r[idx + 1]];
        idx := idx + 1;
      }
    } else {
      while idx != t
        invariant t <= idx <= f && |r| == |s|
        invariant forall k {:trigger r[k]} | 0 <= k < |s| :: r[k] == (if idx < k <= f then s[k - 1] else s[k])
      {
        r := r[idx := r[idx - 1]];
        idx := idx - 1;
      }
    }
    r := r[t := p];
  }

  /** The corrected loop meets the documented effect. */
  lemma MovePaneIsMoved<T>(s: seq<T>, f: nat, t: nat, r: seq<T>)
    requires f < |s| && t < |s| && |r| == |s|
    requires forall k | 0 <= k < |s| :: r[k] == s[MovedFrom(f, t, k)]
    ensures r == Moved(s, f, t)
  {
    forall k | 0 <= k < |s| ensures r[k] == Moved(s, f, t)[k] {
      MovedAt(s, f, t, k);
    }
  }

  /** `movePane` as written: the direction is negated, so the index starts
      on the far side of `f` and walks away from `t`. `None` stands for an
      access outside the vector, which is undefined behaviour. */
  function MovePaneAsWritten<T>(s: seq<T>, f: nat, t: nat): (r: Option<seq<T>>)
    requires f < |s| && t < |s|
    ensures r.Some? ==> |r.value| == |s|
  {
    if f == t then Some(s)
    else
      var direction := if f < t then -1 else 1;
      match ShiftAsWritten(s, f - direction, t, direction)
      case None => None
      case Some(shifted) => Some(shifted[t := s[f]])
  }

  /** The loop of `movePane` as written, from index `idx` on. */
  function ShiftAsWritten<T>(s: seq<T>, idx: int, t: nat, direction: int): (r: Option<seq<T>>)
    requires direction == 1 || direction == -1
    ensures r.Some? ==> |r.value| == |s|
    decreases if direction < 0 then idx + 1 else |s| - idx
  {
    if idx == t then Some(s)
    else if !(0 <= idx < |s|) || !(0 <= idx + direction < |s|) then None
    else ShiftAsWritten(s[idx + direction := s[idx]], idx + direction, t, direction)
  }

  /** Moving one place right copies the moved element over its neighbour
      instead of swapping them. */
  lemma MovePaneAsWrittenDuplicates<T>(s: seq<T>, f: nat)
    requires f + 1 < |s|
    ensures MovePaneAsWritten(s, f, f + 1) == Some(s[f + 1 := s[f]])
  {}

  /** Moving two places right runs the index off the front of the vector. */
  lemma MovePaneAsWrittenOutOfRange()
    ensures MovePaneAsWritten([0, 1, 2], 0, 2) == None
    ensures Moved([0, 1, 2], 0, 2) == [1, 2, 0]
  {
    assert ShiftAsWritten([0, 1, 2], 1, 2, -1) == ShiftAsWritten([1, 1, 2], 0, 2, -1);
  }
}
