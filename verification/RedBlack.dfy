/** The shape behind the memtable arena (src/memtable/inner.rs): the tree that the integer
    links spell out, the path from a node up to the root, and what pointer surgery on the
    arena does to them. */
module RedBlack {
  import opened Bytes
  import opened RecordBuffers
  import opened Records

  datatype Color = Red | Black

  /** An arena node, as the source stores it. */
  datatype Node = Node(record: Record, left: Option<nat>, right: Option<nat>, parent: Option<nat>, color: Color)

  type Arena = seq<Node>

  /** A node of the tree: its arena index and what the arena holds there. */
  datatype Slot = Slot(idx: nat, key: Blob, stored: Stored, color: Color)

  datatype Tree = Leaf | Branch(left: Tree, slot: Slot, right: Tree)

  /** The way up from a subtree: whether it is a left or a right child, of which node, and that
      node's other child. */
  datatype Path =
    | Top
    | InLeft(up: Path, slot: Slot, right: Tree)
    | InRight(up: Path, left: Tree, slot: Slot)

  function Ptr(t: Tree): (r: Option<nat>)
  {
    if t.Leaf? then None else Some(t.slot.idx)
  }

  function ParentOf(p: Path): (r: Option<nat>)
  {
    if p.Top? then None else Some(p.slot.idx)
  }

  function Depth(p: Path): (n: nat)
  {
    if p.Top? then 0 else 1 + Depth(p.up)
  }

  function Plug(p: Path, t: Tree): (r: Tree)
    decreases p
  {
    match p
    case Top => t
    case InLeft(up, s, r) => Plug(up, Branch(t, s, r))
    case InRight(up, l, s) => Plug(up, Branch(l, s, t))
  }

  // -------------------------------------------------------- links and indices

  function Indices(t: Tree): (r: set<nat>)
  {
    if t.Leaf? then {} else Indices(t.left) + {t.slot.idx} + Indices(t.right)
  }

  function PathIndices(p: Path): (r: set<nat>)
  {
    match p
    case Top => {}
    case InLeft(up, s, r) => PathIndices(up) + {s.idx} + Indices(r)
    case InRight(up, l, s) => PathIndices(up) + {s.idx} + Indices(l)
  }

  /** No index occurs twice. */
  ghost predicate Distinct(t: Tree)
  {
    t.Branch? ==>
      && t.slot.idx !in Indices(t.left) && t.slot.idx !in Indices(t.right)
      && Indices(t.left) !! Indices(t.right)
      && Distinct(t.left) && Distinct(t.right)
  }

  function Sibling(p: Path): (t: Tree)
  {
    if p.InLeft? then p.right else if p.InRight? then p.left else Leaf
  }

  ghost predicate DistinctPath(p: Path)
  {
    !p.Top? ==>
      && p.slot.idx !in PathIndices(p.up) && p.slot.idx !in Indices(Sibling(p))
      && Indices(Sibling(p)) !! PathIndices(p.up)
      && Distinct(Sibling(p)) && DistinctPath(p.up)
  }

  /** The arena's fields spell out exactly this node. */
  ghost predicate Cell(a: Arena, s: Slot, left: Option<nat>, right: Option<nat>, parent: Option<nat>)
  {
    s.idx < |a| && a[s.idx] == Node(RecordOf(s.key, s.stored), left, right, parent, s.color)
  }

  /** The links below `parent` spell out `t`; child and parent links agree throughout. */
  ghost predicate Linked(a: Arena, t: Tree, parent: Option<nat>)
  {
    t.Branch? ==>
      && Cell(a, t.slot, Ptr(t.left), Ptr(t.right), parent)
      && Linked(a, t.left, Some(t.slot.idx)) && Linked(a, t.right, Some(t.slot.idx))
  }

  ghost predicate LinkedPath(a: Arena, p: Path, child: Option<nat>, root: Option<nat>)
    decreases p
  {
    match p
    case Top => root == child
    case InLeft(up, s, r) =>
      && Cell(a, s, child, Ptr(r), ParentOf(up))
      && Linked(a, r, Some(s.idx)) && LinkedPath(a, up, Some(s.idx), root)
    case InRight(up, l, s) =>
      && Cell(a, s, Ptr(l), child, ParentOf(up))
      && Linked(a, l, Some(s.idx)) && LinkedPath(a, up, Some(s.idx), root)
  }

  /** The arena and its root link spell out the tree Plug(p, t), seen from the subtree t. */
  ghost predicate Focus(a: Arena, root: Option<nat>, p: Path, t: Tree)
  {
    && Linked(a, t, ParentOf(p)) && LinkedPath(a, p, Ptr(t), root)
    && Distinct(t) && DistinctPath(p) && Indices(t) !! PathIndices(p)
  }

  lemma FocusUp(a: Arena, root: Option<nat>, p: Path, t: Tree)
    requires Focus(a, root, p, t) && !p.Top?
    ensures p.InLeft? ==> Focus(a, root, p.up, Branch(t, p.slot, p.right))
    ensures p.InRight? ==> Focus(a, root, p.up, Branch(p.left, p.slot, t))
  {
  }

  lemma FocusDown(a: Arena, root: Option<nat>, p: Path, t: Tree)
    requires Focus(a, root, p, t) && t.Branch?
    ensures Focus(a, root, InLeft(p, t.slot, t.right), t.left)
    ensures Focus(a, root, InRight(p, t.left, t.slot), t.right)
  {
  }

  /** Seen from the root, a focus is the whole tree. */
  lemma {:induction false} Unfocus(a: Arena, root: Option<nat>, p: Path, t: Tree)
    requires Focus(a, root, p, t)
    ensures Focus(a, root, Top, Plug(p, t))
    ensures Indices(Plug(p, t)) == PathIndices(p) + Indices(t)
    decreases p
  {
    if !p.Top? {
      FocusUp(a, root, p, t);
      var t' := if p.InLeft? then Branch(t, p.slot, p.right) else Branch(p.left, p.slot, t);
      Unfocus(a, root, p.up, t');
    }
  }

  ghost predicate Agree(a: Arena, b: Arena, s: set<nat>)
  {
    |a| <= |b| && forall i :: i in s && i < |a| ==> b[i] == a[i]
  }

  /** Links survive changes elsewhere. */
  lemma {:induction false} LinkedFrame(a: Arena, b: Arena, t: Tree, parent: Option<nat>)
    requires Linked(a, t, parent) && Agree(a, b, Indices(t))
    ensures Linked(b, t, parent)
  {
    if t.Branch? {
      LinkedFrame(a, b, t.left, Some(t.slot.idx));
      LinkedFrame(a, b, t.right, Some(t.slot.idx));
    }
  }

  /** A subtree whose root was given another parent. */
  lemma Reparent(a: Arena, b: Arena, t: Tree, parent: Option<nat>, parent': Option<nat>)
    requires Linked(a, t, parent) && Distinct(t) && |a| <= |b|
    requires t.Branch? ==> b[t.slot.idx] == a[t.slot.idx].(parent := parent')
    requires forall i :: i in Indices(t) && i < |a| && Some(i) != Ptr(t) ==> b[i] == a[i]
    ensures Linked(b, t, parent')
  {
    if t.Branch? {
      LinkedFrame(a, b, t.left, Some(t.slot.idx));
      LinkedFrame(a, b, t.right, Some(t.slot.idx));
    }
  }

  lemma {:induction false} PathFrame(a: Arena, b: Arena, p: Path, child: Option<nat>, root: Option<nat>)
    requires LinkedPath(a, p, child, root) && Agree(a, b, PathIndices(p))
    ensures LinkedPath(b, p, child, root)
    decreases p
  {
    if !p.Top? {
      LinkedFrame(a, b, Sibling(p), Some(p.slot.idx));
      PathFrame(a, b, p.up, Some(p.slot.idx), root);
    }
  }

  /** The arena change that hangs `child'` under the path. */
  ghost predicate ChildSet(a: Arena, b: Arena, p: Path, child': Option<nat>, root: Option<nat>, root': Option<nat>)
  {
    && |a| <= |b|
    && (p.Top? ==> root' == child')
    && (!p.Top? ==>
          && root' == root && p.slot.idx < |a|
          && b[p.slot.idx] == if p.InLeft? then a[p.slot.idx].(left := child') else a[p.slot.idx].(right := child'))
    && (forall i :: i in PathIndices(p) && i < |a| && Some(i) != ParentOf(p) ==> b[i] == a[i])
  }

  lemma PathChild(a: Arena, b: Arena, p: Path, child: Option<nat>, child': Option<nat>, root: Option<nat>,
                  root': Option<nat>)
    requires LinkedPath(a, p, child, root) && DistinctPath(p)
    requires ChildSet(a, b, p, child', root, root')
    ensures LinkedPath(b, p, child', root')
  {
    if !p.Top? {
      LinkedFrame(a, b, Sibling(p), Some(p.slot.idx));
      PathFrame(a, b, p.up, Some(p.slot.idx), root);
    }
  }

  /** Every index the tree uses is an arena index. */
  lemma {:induction false} IndicesBounded(a: Arena, t: Tree, parent: Option<nat>)
    requires Linked(a, t, parent)
    ensures forall i :: i in Indices(t) ==> i < |a|
  {
    if t.Branch? {
      IndicesBounded(a, t.left, Some(t.slot.idx));
      IndicesBounded(a, t.right, Some(t.slot.idx));
    }
  }

  // ---------------------------------------------------------------- rotations

  /** The arena writes of left_rotate(n), as one change. */
  ghost predicate RotatedLeft(a: Arena, b: Arena, p: Path, t: Tree, root: Option<nat>, root': Option<nat>)
    requires t.Branch? && t.right.Branch?
  {
    var n, r, mid := t.slot.idx, t.right.slot.idx, t.right.left;
    && |b| == |a| && n < |a| && r < |a|
    && b[n] == a[n].(right := Ptr(mid), parent := Some(r))
    && b[r] == a[r].(left := Some(n), parent := a[n].parent)
    && (mid.Branch? ==> mid.slot.idx < |a| && b[mid.slot.idx] == a[mid.slot.idx].(parent := Some(n)))
    && ChildSet(a, b, p, Some(r), root, root')
    && forall i :: 0 <= i < |a| && i != n && i != r && Some(i) != Ptr(mid) && Some(i) != ParentOf(p) ==> b[i] == a[i]
  }

  function SetLeft(a: Arena, i: nat, link: Option<nat>): (b: Arena)
    requires i < |a|
    ensures |b| == |a|
  {
    a[i := a[i].(left := link)]
  }

  function SetRight(a: Arena, i: nat, link: Option<nat>): (b: Arena)
    requires i < |a|
    ensures |b| == |a|
  {
    a[i := a[i].(right := link)]
  }

  function SetParent(a: Arena, i: nat, link: Option<nat>): (b: Arena)
    requires i < |a|
    ensures |b| == |a|
  {
    a[i := a[i].(parent := link)]
  }

  predicate InArena(a: Arena, link: Option<nat>)
  {
    link.Some? ==> link.value < |a|
  }

  function Adopted(a: Arena, child: Option<nat>, n: nat): (b: Arena)
    requires InArena(a, child)
    ensures |b| == |a|
  {
    if child.Some? then SetParent(a, child.value, Some(n)) else a
  }

  /** `c` takes the place of `n` under `up`. */
  function Replaced(a: Arena, up: Option<nat>, n: nat, c: nat): (b: Arena)
    requires InArena(a, up)
    ensures |b| == |a|
  {
    if up.None? then a
    else if a[up.value].left == Some(n) then SetLeft(a, up.value, Some(c))
    else SetRight(a, up.value, Some(c))
  }

  /** The nodes that a rotation of `n` over its child `c` touches are distinct. */
  ghost predicate Sites(a: Arena, n: nat, c: nat, mid: Option<nat>, up: Option<nat>)
  {
    && n < |a| && c < |a| && n != c && InArena(a, mid) && InArena(a, up)
    && mid != Some(n) && mid != Some(c) && up != Some(n) && up != Some(c) && (mid.Some? ==> mid != up)
  }

  /** The six writes of left_rotate, one after the other. */
  function LeftWrites(a: Arena, n: nat, r: nat, mid: Option<nat>, up: Option<nat>): (b: Arena)
    requires n < |a| && r < |a| && InArena(a, mid) && InArena(a, up)
    ensures |b| == |a|
  {
    var turned := SetParent(Adopted(SetRight(a, n, mid), mid, n), r, up);
    SetParent(SetLeft(Replaced(turned, up, n, r), r, Some(n)), n, Some(r))
  }

  function RightWrites(a: Arena, n: nat, l: nat, mid: Option<nat>, up: Option<nat>): (b: Arena)
    requires n < |a| && l < |a| && InArena(a, mid) && InArena(a, up)
    ensures |b| == |a|
  {
    var turned := SetParent(Adopted(SetLeft(a, n, mid), mid, n), l, up);
    SetParent(SetRight(Replaced(turned, up, n, l), l, Some(n)), n, Some(l))
  }

  /** What they leave at each node. */
  lemma LeftWritesAt(a: Arena, n: nat, r: nat, mid: Option<nat>, up: Option<nat>, i: nat)
    requires Sites(a, n, r, mid, up) && i < |a|
    ensures LeftWrites(a, n, r, mid, up)[i] ==
              if i == n then a[n].(right := mid, parent := Some(r))
              else if i == r then a[r].(left := Some(n), parent := up)
              else if mid == Some(i) then a[i].(parent := Some(n))
              else if up == Some(i) then Replaced(a, up, n, r)[i]
              else a[i]
  {
  }

  lemma RightWritesAt(a: Arena, n: nat, l: nat, mid: Option<nat>, up: Option<nat>, i: nat)
    requires Sites(a, n, l, mid, up) && i < |a|
    ensures RightWrites(a, n, l, mid, up)[i] ==
              if i == n then a[n].(left := mid, parent := Some(l))
              else if i == l then a[l].(right := Some(n), parent := up)
              else if mid == Some(i) then a[i].(parent := Some(n))
              else if up == Some(i) then Replaced(a, up, n, l)[i]
              else a[i]
  {
  }

  function RotateLeft(t: Tree): (r: Tree)
    requires t.Branch? && t.right.Branch?
  {
    Branch(Branch(t.left, t.slot, t.right.left), t.right.slot, t.right.right)
  }

  lemma LeftDistinct(t: Tree)
    requires t.Branch? && t.right.Branch? && Distinct(t)
    ensures Distinct(RotateLeft(t)) && Indices(RotateLeft(t)) == Indices(t)
  {
    assert Distinct(t.right);
    assert Distinct(Branch(t.left, t.slot, t.right.left));
  }

  /** Outside the three nodes it relinks, a rotation leaves the subtrees as they were. */
  lemma LeftFrames(a: Arena, b: Arena, p: Path, t: Tree, root: Option<nat>, root': Option<nat>)
    requires t.Branch? && t.right.Branch? && Distinct(t) && Indices(t) !! PathIndices(p)
    requires RotatedLeft(a, b, p, t, root, root')
    ensures Agree(a, b, Indices(t.left)) && Agree(a, b, Indices(t.right.right))
    ensures t.right.left.Branch? ==>
              && t.right.left.slot.idx < |a|
              && b[t.right.left.slot.idx] == a[t.right.left.slot.idx].(parent := Some(t.slot.idx))
    ensures forall i :: i in Indices(t.right.left) && i < |a| && Some(i) != Ptr(t.right.left) ==> b[i] == a[i]
  {
    hide ChildSet;
    ParentOutside(p, t);
    assert Distinct(t.right);
  }

  lemma LeftLinked(a: Arena, b: Arena, p: Path, t: Tree, root: Option<nat>, root': Option<nat>)
    requires t.Branch? && t.right.Branch? && Linked(a, t, ParentOf(p)) && Distinct(t) && Indices(t) !! PathIndices(p)
    requires RotatedLeft(a, b, p, t, root, root')
    ensures Linked(b, RotateLeft(t), ParentOf(p))
  {
    var n, r := t.slot.idx, t.right.slot.idx;
    assert b[n] == a[n].(right := Ptr(t.right.left), parent := Some(r));
    assert b[r] == a[r].(left := Some(n), parent := a[n].parent);
    LeftFrames(a, b, p, t, root, root');
    hide RotatedLeft, Indices, PathIndices;
    assert Linked(a, t.right, Some(n)) && Distinct(t.right);
    LinkedFrame(a, b, t.left, Some(n));
    Reparent(a, b, t.right.left, Some(r), Some(n));
    LinkedFrame(a, b, t.right.right, Some(r));
    assert Linked(b, Branch(t.left, t.slot, t.right.left), Some(r));
  }
  lemma ParentOutside(p: Path, t: Tree)
    requires Indices(t) !! PathIndices(p)
    ensures !p.Top? ==> p.slot.idx in PathIndices(p) && p.slot.idx !in Indices(t)
  {
  }

  /** Rotating left at the focus, link by link, turns the tree and nothing else. */
  lemma LeftRotation(a: Arena, b: Arena, p: Path, t: Tree, root: Option<nat>, root': Option<nat>)
    requires t.Branch? && t.right.Branch? && Focus(a, root, p, t)
    requires RotatedLeft(a, b, p, t, root, root')
    ensures Focus(b, root', p, RotateLeft(t))
  {
    hide Linked, LinkedPath, DistinctPath, PathIndices;
    LeftLinked(a, b, p, t, root, root');
    PathChild(a, b, p, Some(t.slot.idx), Some(t.right.slot.idx), root, root');
    LeftDistinct(t);
  }

  ghost predicate RotatedRight(a: Arena, b: Arena, p: Path, t: Tree, root: Option<nat>, root': Option<nat>)
    requires t.Branch? && t.left.Branch?
  {
    var n, l, mid := t.slot.idx, t.left.slot.idx, t.left.right;
    && |b| == |a| && n < |a| && l < |a|
    && b[n] == a[n].(left := Ptr(mid), parent := Some(l))
    && b[l] == a[l].(right := Some(n), parent := a[n].parent)
    && (mid.Branch? ==> mid.slot.idx < |a| && b[mid.slot.idx] == a[mid.slot.idx].(parent := Some(n)))
    && ChildSet(a, b, p, Some(l), root, root')
    && forall i :: 0 <= i < |a| && i != n && i != l && Some(i) != Ptr(mid) && Some(i) != ParentOf(p) ==> b[i] == a[i]
  }

  function RotateRight(t: Tree): (r: Tree)
    requires t.Branch? && t.left.Branch?
  {
    Branch(t.left.left, t.left.slot, Branch(t.left.right, t.slot, t.right))
  }

  lemma RightDistinct(t: Tree)
    requires t.Branch? && t.left.Branch? && Distinct(t)
    ensures Distinct(RotateRight(t)) && Indices(RotateRight(t)) == Indices(t)
  {
    assert Distinct(t.left);
    assert Distinct(Branch(t.left.right, t.slot, t.right));
  }

  /** Outside the three nodes it relinks, a rotation leaves the subtrees as they were. */
  lemma RightFrames(a: Arena, b: Arena, p: Path, t: Tree, root: Option<nat>, root': Option<nat>)
    requires t.Branch? && t.left.Branch? && Distinct(t) && Indices(t) !! PathIndices(p)
    requires RotatedRight(a, b, p, t, root, root')
    ensures Agree(a, b, Indices(t.right)) && Agree(a, b, Indices(t.left.left))
    ensures t.left.right.Branch? ==>
              && t.left.right.slot.idx < |a|
              && b[t.left.right.slot.idx] == a[t.left.right.slot.idx].(parent := Some(t.slot.idx))
    ensures forall i :: i in Indices(t.left.right) && i < |a| && Some(i) != Ptr(t.left.right) ==> b[i] == a[i]
  {
    hide ChildSet;
    ParentOutside(p, t);
    assert Distinct(t.left);
  }

  lemma RightLinked(a: Arena, b: Arena, p: Path, t: Tree, root: Option<nat>, root': Option<nat>)
    requires t.Branch? && t.left.Branch? && Linked(a, t, ParentOf(p)) && Distinct(t) && Indices(t) !! PathIndices(p)
    requires RotatedRight(a, b, p, t, root, root')
    ensures Linked(b, RotateRight(t), ParentOf(p))
  {
    var n, l := t.slot.idx, t.left.slot.idx;
    assert b[n] == a[n].(left := Ptr(t.left.right), parent := Some(l));
    assert b[l] == a[l].(right := Some(n), parent := a[n].parent);
    RightFrames(a, b, p, t, root, root');
    hide RotatedRight, Indices, PathIndices;
    assert Linked(a, t.left, Some(n)) && Distinct(t.left);
    LinkedFrame(a, b, t.left.left, Some(l));
    Reparent(a, b, t.left.right, Some(l), Some(n));
    LinkedFrame(a, b, t.right, Some(n));
    assert Linked(b, Branch(t.left.right, t.slot, t.right), Some(l));
  }
  lemma RightRotation(a: Arena, b: Arena, p: Path, t: Tree, root: Option<nat>, root': Option<nat>)
    requires t.Branch? && t.left.Branch? && Focus(a, root, p, t)
    requires RotatedRight(a, b, p, t, root, root')
    ensures Focus(b, root', p, RotateRight(t))
  {
    hide Linked, LinkedPath, DistinctPath, PathIndices;
    RightLinked(a, b, p, t, root, root');
    PathChild(a, b, p, Some(t.slot.idx), Some(t.left.slot.idx), root, root');
    RightDistinct(t);
  }

  // --------------------------------------------------------------- recolouring

  function Paint(t: Tree, i: nat, c: Color): (r: Tree)
  {
    if t.Leaf? then Leaf
    else Branch(Paint(t.left, i, c), if t.slot.idx == i then t.slot.(color := c) else t.slot, Paint(t.right, i, c))
  }

  lemma {:induction false} PaintElsewhere(t: Tree, i: nat, c: Color)
    requires i !in Indices(t)
    ensures Paint(t, i, c) == t
  {
    if t.Branch? {
      PaintElsewhere(t.left, i, c);
      PaintElsewhere(t.right, i, c);
    }
  }

  lemma {:induction false} PaintShape(t: Tree, i: nat, c: Color)
    ensures Indices(Paint(t, i, c)) == Indices(t) && Ptr(Paint(t, i, c)) == Ptr(t)
    ensures Distinct(t) ==> Distinct(Paint(t, i, c))
    ensures Inorder(Paint(t, i, c)) == Inorder(t)
  {
    if t.Branch? {
      PaintShape(t.left, i, c);
      PaintShape(t.right, i, c);
    }
  }

  function SetColor(a: Arena, i: nat, c: Color): (b: Arena)
    requires i < |a|
  {
    a[i := a[i].(color := c)]
  }

  lemma {:induction false} LinkedPaint(a: Arena, t: Tree, parent: Option<nat>, i: nat, c: Color)
    requires Linked(a, t, parent) && Distinct(t) && i < |a|
    ensures Linked(SetColor(a, i, c), Paint(t, i, c), parent)
  {
    if t.Branch? {
      LinkedPaint(a, t.left, Some(t.slot.idx), i, c);
      LinkedPaint(a, t.right, Some(t.slot.idx), i, c);
      PaintShape(t.left, i, c);
      PaintShape(t.right, i, c);
    }
  }

  lemma FocusPaint(a: Arena, root: Option<nat>, p: Path, t: Tree, i: nat, c: Color)
    requires Focus(a, root, p, t) && i in Indices(t)
    ensures i < |a| && Focus(SetColor(a, i, c), root, p, Paint(t, i, c))
  {
    IndicesBounded(a, t, ParentOf(p));
    LinkedPaint(a, t, ParentOf(p), i, c);
    PaintShape(t, i, c);
    PathFrame(a, SetColor(a, i, c), p, Ptr(t), root);
  }

  // ------------------------------------------------------------------ contents

  datatype Pair = Pair(key: Blob, stored: Stored)

  function PairOf(s: Slot): (r: Pair)
  {
    Pair(s.key, s.stored)
  }

  function Inorder(t: Tree): (r: seq<Pair>)
  {
    if t.Leaf? then [] else Inorder(t.left) + [PairOf(t.slot)] + Inorder(t.right)
  }

  /** What precedes and what follows the focus in key order. */
  function Before(p: Path): (r: seq<Pair>)
  {
    match p
    case Top => []
    case InLeft(up, s, r) => Before(up)
    case InRight(up, l, s) => Before(up) + Inorder(l) + [PairOf(s)]
  }

  function Behind(p: Path): (r: seq<Pair>)
  {
    match p
    case Top => []
    case InLeft(up, s, r) => [PairOf(s)] + Inorder(r) + Behind(up)
    case InRight(up, l, s) => Behind(up)
  }

  lemma {:induction false} InorderPlug(p: Path, t: Tree)
    ensures Inorder(Plug(p, t)) == Before(p) + Inorder(t) + Behind(p)
    decreases p
  {
    match p
    case Top =>
      assert [] + Inorder(t) + [] == Inorder(t);
    case InLeft(up, s, r) =>
      InorderPlug(up, Branch(t, s, r));
      Regroup(Before(up), Inorder(t), [PairOf(s)], Inorder(r), Behind(up));
    case InRight(up, l, s) =>
      InorderPlug(up, Branch(l, s, t));
      Regroup(Before(up), Inorder(l), [PairOf(s)], Inorder(t), Behind(up));
  }

  lemma Regroup<T>(a: seq<T>, b: seq<T>, c: seq<T>, d: seq<T>, e: seq<T>)
    ensures a + (b + c + d) + e == a + b + (c + d + e)
    ensures a + (b + c + d) + e == (a + b + c) + d + e
  {
  }

  /** Rotations keep the order of the contents. */
  lemma InorderRotated(t: Tree)
    requires t.Branch?
    ensures t.right.Branch? ==> Inorder(RotateLeft(t)) == Inorder(t)
    ensures t.left.Branch? ==> Inorder(RotateRight(t)) == Inorder(t)
  {
    if t.right.Branch? {
      Regroup(Inorder(t.left), [PairOf(t.slot)], Inorder(t.right.left), [PairOf(t.right.slot)], Inorder(t.right.right));
    }
    if t.left.Branch? {
      Regroup(Inorder(t.left.left), [PairOf(t.left.slot)], Inorder(t.left.right), [PairOf(t.slot)], Inorder(t.right));
    }
  }

  /** Strictly increasing keys. */
  ghost predicate Sorted(s: seq<Pair>)
  {
    forall i, j :: 0 <= i < j < |s| ==> Less(s[i].key, s[j].key)
  }

  // ------------------------------------------------------------------- colours

  function Weight(c: Color): (n: nat)
  {
    if c.Black? then 1 else 0
  }

  function BlackHeight(t: Tree): (n: nat)
  {
    if t.Leaf? then 0 else BlackHeight(t.left) + Weight(t.slot.color)
  }

  predicate IsRed(t: Tree)
  {
    t.Branch? && t.slot.color.Red?
  }

  /** Every way down passes the same number of black nodes. */
  ghost predicate Balanced(t: Tree)
  {
    t.Branch? ==> BlackHeight(t.left) == BlackHeight(t.right) && Balanced(t.left) && Balanced(t.right)
  }

  ghost predicate NoRedRed(t: Tree)
  {
    t.Branch? ==>
      && (t.slot.color.Red? ==> !IsRed(t.left) && !IsRed(t.right))
      && NoRedRed(t.left) && NoRedRed(t.right)
  }

  ghost predicate RedBlackTree(t: Tree)
  {
    !IsRed(t) && Balanced(t) && NoRedRed(t)
  }

  predicate ParentRed(p: Path)
  {
    !p.Top? && p.slot.color.Red?
  }

  ghost predicate BalancedPath(p: Path, h: nat)
    decreases p
  {
    !p.Top? ==>
      && Balanced(Sibling(p)) && BlackHeight(Sibling(p)) == h
      && BalancedPath(p.up, h + Weight(p.slot.color))
  }

  /** No red node of the path has a red parent or a red child, the focus aside. */
  ghost predicate NoRedRedPath(p: Path)
    decreases p
  {
    !p.Top? ==>
      && NoRedRed(Sibling(p)) && NoRedRedPath(p.up)
      && (p.slot.color.Red? ==> !IsRed(Sibling(p)) && !ParentRed(p.up))
  }

  ghost predicate BlackTop(p: Path)
  {
    p.Top? || (if p.up.Top? then p.slot.color.Black? else BlackTop(p.up))
  }

  lemma {:induction false} ColoursPlug(p: Path, t: Tree)
    requires Balanced(t) && BalancedPath(p, BlackHeight(t))
    requires NoRedRed(t) && NoRedRedPath(p) && !(IsRed(t) && ParentRed(p))
    requires BlackTop(p) && (p.Top? ==> !IsRed(t))
    ensures RedBlackTree(Plug(p, t))
    decreases p
  {
    match p
    case Top =>
    case InLeft(up, s, r) => ColoursPlug(up, Branch(t, s, r));
    case InRight(up, l, s) => ColoursPlug(up, Branch(l, s, t));
  }

  lemma {:induction false} ColoursUnplug(p: Path, t: Tree)
    requires RedBlackTree(Plug(p, t))
    ensures Balanced(t) && BalancedPath(p, BlackHeight(t))
    ensures NoRedRed(t) && NoRedRedPath(p) && !(IsRed(t) && ParentRed(p))
    ensures BlackTop(p)
    decreases p
  {
    match p
    case Top =>
    case InLeft(up, s, r) => ColoursUnplug(up, Branch(t, s, r));
    case InRight(up, l, s) => ColoursUnplug(up, Branch(l, s, t));
  }

  // ------------------------------------------------------------- a new red leaf

  function NewLeaf(idx: nat, key: Blob, stored: Stored): (t: Tree)
  {
    Branch(Leaf, Slot(idx, key, stored, Red), Leaf)
  }

  /** Hanging a new node under the empty place where the search ended. */
  lemma Attach(a: Arena, b: Arena, root: Option<nat>, p: Path, key: Blob, stored: Stored)
    requires Focus(a, root, p, Leaf) && !p.Top?
    requires |b| == |a| + 1 && ChildSet(a, b, p, Some(|a|), root, root)
    requires forall i :: 0 <= i < |a| && Some(i) != ParentOf(p) ==> b[i] == a[i]
    requires b[|a|] == Node(RecordOf(key, stored), None, None, ParentOf(p), Red)
    ensures Focus(b, root, p, NewLeaf(|a|, key, stored))
  {
    PathChild(a, b, p, None, Some(|a|), root, root);
    Unfocus(a, root, p, Leaf);
    IndicesBounded(a, Plug(p, Leaf), None);
  }

  /** The same as the writes of the source: a child link, and a node at the end of the arena. */
  lemma AttachWrites(a: Arena, root: Option<nat>, p: Path, e: Entry)
    requires Focus(a, root, p, Leaf) && !p.Top? && p.slot.idx < |a| && p.slot.idx in PathIndices(p)
    ensures var b := if p.InLeft? then SetLeft(a, p.slot.idx, Some(|a|)) else SetRight(a, p.slot.idx, Some(|a|));
            Focus(b + [Node(Fresh(e), None, None, Some(p.slot.idx), Red)], root, p,
                  NewLeaf(|a|, e.key, Created(e.key, e.op)))
  {
    hide Focus;
    var b := if p.InLeft? then SetLeft(a, p.slot.idx, Some(|a|)) else SetRight(a, p.slot.idx, Some(|a|));
    assert e == Entry(e.key, e.op);
    Attach(a, b + [Node(Fresh(e), None, None, Some(p.slot.idx), Red)], root, p, e.key, Created(e.key, e.op));
  }

  /** A red leaf keeps every black count, so it can only clash with a red parent. */
  lemma AttachColours(b: Arena, root: Option<nat>, p: Path, idx: nat, key: Blob, stored: Stored)
    requires Focus(b, root, p, NewLeaf(idx, key, stored)) && RedBlackTree(Plug(p, Leaf))
    ensures Fixing(b, root, p, NewLeaf(idx, key, stored))
  {
    ColoursUnplug(p, Leaf);
  }

  // ------------------------------------------------------ rewriting one record

  function WithStored(t: Tree, stored: Stored): (r: Tree)
    requires t.Branch?
  {
    Branch(t.left, t.slot.(stored := stored), t.right)
  }

  /** Rewriting the record of the focus changes neither links nor colours. */
  lemma Rewrite(a: Arena, root: Option<nat>, p: Path, t: Tree, stored: Stored)
    requires t.Branch? && Focus(a, root, p, t) && RedBlackTree(Plug(p, t))
    ensures t.slot.idx < |a|
    ensures var b := a[t.slot.idx := a[t.slot.idx].(record := RecordOf(t.slot.key, stored))];
            Focus(b, root, Top, Plug(p, WithStored(t, stored)))
    ensures RedBlackTree(Plug(p, WithStored(t, stored)))
  {
    var b := a[t.slot.idx := a[t.slot.idx].(record := RecordOf(t.slot.key, stored))];
    var t' := WithStored(t, stored);
    LinkedFrame(a, b, t.left, Some(t.slot.idx));
    LinkedFrame(a, b, t.right, Some(t.slot.idx));
    PathFrame(a, b, p, Ptr(t), root);
    Unfocus(b, root, p, t');
    ColoursUnplug(p, t);
    ColoursPlug(p, t');
  }

  // ----------------------------------------------------------- the fix-up loop

  /** The state at the head of insert_fix_tree's loop: everything holds of the tree except
      that the focus may be red under a red parent. */
  ghost predicate Fixing(a: Arena, root: Option<nat>, p: Path, t: Tree)
  {
    && Focus(a, root, p, t) && IsRed(t)
    && Balanced(t) && NoRedRed(t) && BalancedPath(p, BlackHeight(t)) && NoRedRedPath(p) && BlackTop(p)
  }

  /** A red parent has a parent of its own, so the unwrap of the grandparent cannot fail. */
  lemma GrandparentExists(a: Arena, root: Option<nat>, p: Path, t: Tree)
    requires Fixing(a, root, p, t) && ParentRed(p)
    ensures !p.up.Top? && p.up.slot.color.Black?
    ensures a[p.slot.idx].parent == Some(p.up.slot.idx)
  {
  }

  /** The subtree one level up. */
  function Parent(p: Path, t: Tree): (r: Tree)
    requires !p.Top?
  {
    if p.InLeft? then Branch(t, p.slot, p.right) else Branch(p.left, p.slot, t)
  }

  function Grandparent(p: Path, t: Tree): (r: Tree)
    requires !p.Top? && !p.up.Top?
  {
    Parent(p.up, Parent(p, t))
  }

  /** The whole tree is the same seen from the focus, its parent or its grandparent. */
  lemma GrandparentFocus(a: Arena, root: Option<nat>, p: Path, t: Tree)
    requires Focus(a, root, p, t) && !p.Top? && !p.up.Top?
    ensures Focus(a, root, p.up, Parent(p, t)) && Focus(a, root, p.up.up, Grandparent(p, t))
    ensures Plug(p, t) == Plug(p.up, Parent(p, t)) == Plug(p.up.up, Grandparent(p, t))
  {
    FocusUp(a, root, p, t);
    FocusUp(a, root, p.up, Parent(p, t));
  }

  function Tint(t: Tree, c: Color): (r: Tree)
    requires t.Branch?
  {
    Branch(t.left, t.slot.(color := c), t.right)
  }

  lemma PaintRoot(t: Tree, c: Color)
    requires t.Branch? && Distinct(t)
    ensures Paint(t, t.slot.idx, c) == Tint(t, c)
  {
    PaintElsewhere(t.left, t.slot.idx, c);
    PaintElsewhere(t.right, t.slot.idx, c);
  }

  lemma FocusTint(a: Arena, root: Option<nat>, p: Path, t: Tree, c: Color)
    requires t.Branch? && Focus(a, root, p, t)
    ensures t.slot.idx < |a| && Focus(SetColor(a, t.slot.idx, c), root, p, Tint(t, c))
  {
    FocusPaint(a, root, p, t, t.slot.idx, c);
    PaintRoot(t, c);
  }

  /** Painting one child of the focus. */
  lemma TintLeft(a: Arena, root: Option<nat>, p: Path, t: Tree, c: Color)
    requires t.Branch? && t.left.Branch? && Focus(a, root, p, t)
    ensures t.left.slot.idx < |a|
    ensures Focus(SetColor(a, t.left.slot.idx, c), root, p, Branch(Tint(t.left, c), t.slot, t.right))
  {
    FocusDown(a, root, p, t);
    FocusTint(a, root, InLeft(p, t.slot, t.right), t.left, c);
    FocusUp(SetColor(a, t.left.slot.idx, c), root, InLeft(p, t.slot, t.right), Tint(t.left, c));
  }

  lemma TintRight(a: Arena, root: Option<nat>, p: Path, t: Tree, c: Color)
    requires t.Branch? && t.right.Branch? && Focus(a, root, p, t)
    ensures t.right.slot.idx < |a|
    ensures Focus(SetColor(a, t.right.slot.idx, c), root, p, Branch(t.left, t.slot, Tint(t.right, c)))
  {
    FocusDown(a, root, p, t);
    FocusTint(a, root, InRight(p, t.left, t.slot), t.right, c);
    FocusUp(SetColor(a, t.right.slot.idx, c), root, InRight(p, t.left, t.slot), Tint(t.right, c));
  }

  /** Case 1, the arena side: uncle and parent black, grandparent red. */
  function Recolored(t: Tree): (r: Tree)
    requires t.Branch? && t.left.Branch? && t.right.Branch?
  {
    Branch(Tint(t.left, Black), t.slot.(color := Red), Tint(t.right, Black))
  }

  lemma RecolorLinks(a: Arena, root: Option<nat>, p: Path, t: Tree, uncle: nat, parent: nat)
    requires t.Branch? && t.left.Branch? && t.right.Branch? && Focus(a, root, p, t)
    requires || (uncle == t.right.slot.idx && parent == t.left.slot.idx)
             || (uncle == t.left.slot.idx && parent == t.right.slot.idx)
    ensures uncle < |a| && parent < |a| && t.slot.idx < |a|
    ensures Focus(SetColor(SetColor(SetColor(a, uncle, Black), parent, Black), t.slot.idx, Red), root, p, Recolored(t))
  {
    var both := Branch(Tint(t.left, Black), t.slot, Tint(t.right, Black));
    if parent == t.left.slot.idx {
      TintRight(a, root, p, t, Black);
      TintLeft(SetColor(a, uncle, Black), root, p, Branch(t.left, t.slot, Tint(t.right, Black)), Black);
    } else {
      TintLeft(a, root, p, t, Black);
      TintRight(SetColor(a, uncle, Black), root, p, Branch(Tint(t.left, Black), t.slot, t.right), Black);
    }
    FocusTint(SetColor(SetColor(a, uncle, Black), parent, Black), root, p, both, Red);
  }

  lemma InorderRecolored(t: Tree)
    requires t.Branch? && t.left.Branch? && t.right.Branch?
    ensures Inorder(Recolored(t)) == Inorder(t)
  {
    assert Inorder(Tint(t.left, Black)) == Inorder(t.left);
    assert Inorder(Tint(t.right, Black)) == Inorder(t.right);
  }

  /** What a red parent leaves of the path two levels up. */
  lemma PathAbove(p: Path, h: nat)
    requires ParentRed(p) && !p.up.Top?
    requires BalancedPath(p, h) && NoRedRedPath(p) && BlackTop(p)
    ensures p.up.slot.color.Black? && !IsRed(Sibling(p))
    ensures BalancedPath(p.up, h) && Balanced(Sibling(p.up)) && BlackHeight(Sibling(p.up)) == h
    ensures NoRedRedPath(p.up) && NoRedRed(Sibling(p.up)) && BlackTop(p.up)
    ensures BalancedPath(p.up.up, h + 1) && NoRedRedPath(p.up.up) && BlackTop(p.up.up)
  {
    assert BalancedPath(p.up, h + Weight(p.slot.color));
    assert NoRedRedPath(p.up) && BlackTop(p.up);
  }

  /** Case 1, the colours: the conflict moves two levels up. */
  lemma RecolorColours(a: Arena, root: Option<nat>, p: Path, t: Tree)
    requires Fixing(a, root, p, t) && ParentRed(p) && !p.up.Top? && IsRed(Sibling(p.up))
    ensures var g := Recolored(Grandparent(p, t));
            && IsRed(g) && Balanced(g) && NoRedRed(g)
            && BalancedPath(p.up.up, BlackHeight(g)) && NoRedRedPath(p.up.up) && BlackTop(p.up.up)
  {
    hide Focus;
    var h := BlackHeight(t);
    var par := Tint(Parent(p, t), Black);
    var unc := Tint(Sibling(p.up), Black);
    assert Balanced(par) && NoRedRed(par) && BlackHeight(par) == h + 1;
    PathAbove(p, h);
    assert Balanced(unc) && NoRedRed(unc) && BlackHeight(unc) == h + 1;
  }

  /** Case 1 as a step of the loop. */
  lemma RecolorStep(a: Arena, root: Option<nat>, p: Path, t: Tree, uncle: nat)
    requires Fixing(a, root, p, t) && ParentRed(p) && !p.up.Top? && IsRed(Sibling(p.up))
    requires uncle == Sibling(p.up).slot.idx
    ensures var g := Grandparent(p, t);
            && uncle < |a| && p.slot.idx < |a| && g.slot.idx == p.up.slot.idx < |a|
            && Fixing(SetColor(SetColor(SetColor(a, uncle, Black), p.slot.idx, Black), g.slot.idx, Red),
                      root, p.up.up, Recolored(g))
            && Inorder(Plug(p.up.up, Recolored(g))) == Inorder(Plug(p, t))
            && Recolored(g).Branch? && Recolored(g).slot.idx == g.slot.idx
  {
    GrandparentFocus(a, root, p, t);
    RecolorLinks(a, root, p.up.up, Grandparent(p, t), uncle, p.slot.idx);
    RecolorColours(a, root, p, t);
    InorderRecolored(Grandparent(p, t));
    InorderPlug(p.up.up, Grandparent(p, t));
    InorderPlug(p.up.up, Recolored(Grandparent(p, t)));
  }

  /** Case 2, the colours: parent and node, both red, change places. */
  lemma InnerColours(p: Path, t: Tree, q: Path, s: Tree)
    requires IsRed(t) && Balanced(t) && NoRedRed(t) && ParentRed(p) && !p.up.Top?
    requires BalancedPath(p, BlackHeight(t)) && NoRedRedPath(p) && BlackTop(p)
    requires || (p.InRight? && q == InLeft(p.up, t.slot, t.right) && s == Branch(p.left, p.slot, t.left))
             || (p.InLeft? && q == InRight(p.up, t.left, t.slot) && s == Branch(t.right, p.slot, p.right))
    ensures IsRed(s) && Balanced(s) && NoRedRed(s)
    ensures BalancedPath(q, BlackHeight(s)) && NoRedRedPath(q) && BlackTop(q)
  {
    hide Balanced, NoRedRed, BlackHeight, BalancedPath, NoRedRedPath, BlackTop;
    PathAbove(p, BlackHeight(t));
    RedChildren(t);
    SiblingColours(p, BlackHeight(t));
    RedBranch(s);
    RedStep(q, BlackHeight(t));
  }

  lemma SiblingColours(p: Path, h: nat)
    requires ParentRed(p) && BalancedPath(p, h) && NoRedRedPath(p)
    ensures Balanced(Sibling(p)) && NoRedRed(Sibling(p)) && BlackHeight(Sibling(p)) == h && !IsRed(Sibling(p))
  {
  }

  /** A red node over two black subtrees of one height. */
  lemma RedBranch(t: Tree)
    requires IsRed(t) && !IsRed(t.left) && !IsRed(t.right)
    requires Balanced(t.left) && Balanced(t.right) && BlackHeight(t.left) == BlackHeight(t.right)
    requires NoRedRed(t.left) && NoRedRed(t.right)
    ensures Balanced(t) && NoRedRed(t) && BlackHeight(t) == BlackHeight(t.left)
  {
  }

  /** A red node of the path under a black one. */
  lemma RedStep(p: Path, h: nat)
    requires ParentRed(p) && !p.up.Top? && !ParentRed(p.up) && !IsRed(Sibling(p))
    requires Balanced(Sibling(p)) && BlackHeight(Sibling(p)) == h && NoRedRed(Sibling(p))
    requires BalancedPath(p.up, h) && NoRedRedPath(p.up) && BlackTop(p.up)
    ensures BalancedPath(p, h) && NoRedRedPath(p) && BlackTop(p)
  {
  }

  lemma RedChildren(t: Tree)
    requires IsRed(t) && Balanced(t) && NoRedRed(t)
    ensures BlackHeight(t.left) == BlackHeight(t.right) == BlackHeight(t)
    ensures Balanced(t.left) && Balanced(t.right) && NoRedRed(t.left) && NoRedRed(t.right)
    ensures !IsRed(t.left) && !IsRed(t.right)
  {
  }

  /** Case 2, an inner child under a left parent: rotating the parent left makes it outer. */
  lemma InnerLeft(a: Arena, root: Option<nat>, a': Arena, root': Option<nat>, p: Path, t: Tree)
    requires Fixing(a, root, p, t) && ParentRed(p) && p.InRight? && p.up.InLeft?
    requires Focus(a', root', p.up, RotateLeft(Parent(p, t)))
    ensures Fixing(a', root', InLeft(p.up, t.slot, t.right), Branch(p.left, p.slot, t.left))
    ensures Inorder(Plug(InLeft(p.up, t.slot, t.right), Branch(p.left, p.slot, t.left))) == Inorder(Plug(p, t))
  {
    FocusDown(a', root', p.up, RotateLeft(Parent(p, t)));
    InnerColours(p, t, InLeft(p.up, t.slot, t.right), Branch(p.left, p.slot, t.left));
    InorderRotated(Parent(p, t));
    InorderPlug(p.up, Parent(p, t));
    InorderPlug(p.up, RotateLeft(Parent(p, t)));
  }

  lemma InnerRight(a: Arena, root: Option<nat>, a': Arena, root': Option<nat>, p: Path, t: Tree)
    requires Fixing(a, root, p, t) && ParentRed(p) && p.InLeft? && p.up.InRight?
    requires Focus(a', root', p.up, RotateRight(Parent(p, t)))
    ensures Fixing(a', root', InRight(p.up, t.left, t.slot), Branch(t.right, p.slot, p.right))
    ensures Inorder(Plug(InRight(p.up, t.left, t.slot), Branch(t.right, p.slot, p.right))) == Inorder(Plug(p, t))
  {
    FocusDown(a', root', p.up, RotateRight(Parent(p, t)));
    InnerColours(p, t, InRight(p.up, t.left, t.slot), Branch(t.right, p.slot, p.right));
    InorderRotated(Parent(p, t));
    InorderPlug(p.up, Parent(p, t));
    InorderPlug(p.up, RotateRight(Parent(p, t)));
  }

  /** Case 3, the recolouring of parent and grandparent. */
  lemma OuterLinks(a: Arena, root: Option<nat>, p: Path, t: Tree)
    requires Focus(a, root, p, t) && !p.Top? && !p.up.Top?
    ensures p.slot.idx < |a| && p.up.slot.idx < |a|
    ensures var b := SetColor(SetColor(a, p.slot.idx, Black), p.up.slot.idx, Red);
            && (p.up.InLeft? ==>
                  Focus(b, root, p.up.up, Branch(Tint(Parent(p, t), Black), p.up.slot.(color := Red), p.up.right)))
            && (p.up.InRight? ==>
                  Focus(b, root, p.up.up, Branch(p.up.left, p.up.slot.(color := Red), Tint(Parent(p, t), Black))))
  {
    GrandparentFocus(a, root, p, t);
    var g, b := Grandparent(p, t), SetColor(a, p.slot.idx, Black);
    if p.up.InLeft? {
      TintLeft(a, root, p.up.up, g, Black);
      FocusTint(b, root, p.up.up, Branch(Tint(g.left, Black), g.slot, g.right), Red);
    } else {
      TintRight(a, root, p.up.up, g, Black);
      FocusTint(b, root, p.up.up, Branch(g.left, g.slot, Tint(g.right, Black)), Red);
    }
  }

  /** Case 3, an outer left child: recolour, rotate the grandparent right, and all is well. */
  lemma OuterLeft(a: Arena, root: Option<nat>, p: Path, t: Tree)
    requires Fixing(a, root, p, t) && ParentRed(p) && p.InLeft? && p.up.InLeft? && !IsRed(p.up.right)
    ensures var g := Branch(Tint(Parent(p, t), Black), p.up.slot.(color := Red), p.up.right);
            && RedBlackTree(Plug(p.up.up, RotateRight(g)))
            && Inorder(Plug(p.up.up, RotateRight(g))) == Inorder(Plug(p, t))
  {
    var g := Branch(Tint(Parent(p, t), Black), p.up.slot.(color := Red), p.up.right);
    var low := Branch(p.right, p.up.slot.(color := Red), p.up.right);
    assert RotateRight(g) == Branch(t, p.slot.(color := Black), low);
    PathAbove(p, BlackHeight(t));
    assert Balanced(low) && NoRedRed(low) && BlackHeight(low) == BlackHeight(t);
    ColoursPlug(p.up.up, RotateRight(g));
    InorderRotated(g);
    assert Inorder(g) == Inorder(Grandparent(p, t));
    InorderPlug(p.up.up, RotateRight(g));
    InorderPlug(p.up.up, Grandparent(p, t));
  }

  lemma OuterRight(a: Arena, root: Option<nat>, p: Path, t: Tree)
    requires Fixing(a, root, p, t) && ParentRed(p) && p.InRight? && p.up.InRight? && !IsRed(p.up.left)
    ensures var g := Branch(p.up.left, p.up.slot.(color := Red), Tint(Parent(p, t), Black));
            && RedBlackTree(Plug(p.up.up, RotateLeft(g)))
            && Inorder(Plug(p.up.up, RotateLeft(g))) == Inorder(Plug(p, t))
  {
    var g := Branch(p.up.left, p.up.slot.(color := Red), Tint(Parent(p, t), Black));
    var low := Branch(p.up.left, p.up.slot.(color := Red), p.left);
    assert RotateLeft(g) == Branch(low, p.slot.(color := Black), t);
    PathAbove(p, BlackHeight(t));
    assert Balanced(low) && NoRedRed(low) && BlackHeight(low) == BlackHeight(t);
    ColoursPlug(p.up.up, RotateLeft(g));
    InorderRotated(g);
    assert Inorder(g) == Inorder(Grandparent(p, t));
    InorderPlug(p.up.up, RotateLeft(g));
    InorderPlug(p.up.up, Grandparent(p, t));
  }

  /** Leaving the loop: the root is painted black and the tree is a red-black tree. */
  lemma LeaveLoop(a: Arena, root: Option<nat>, p: Path, t: Tree)
    requires Fixing(a, root, p, t) && !ParentRed(p)
    ensures var w := Plug(p, t);
            && w.Branch? && root == Some(w.slot.idx) && w.slot.idx < |a|
            && Focus(SetColor(a, w.slot.idx, Black), root, Top, Tint(w, Black))
            && RedBlackTree(Tint(w, Black)) && Inorder(Tint(w, Black)) == Inorder(w)
  {
    Unfocus(a, root, p, t);
    PlugBranch(p, t);
    FocusTint(a, root, Top, Plug(p, t), Black);
    if !p.Top? {
      ColoursPlug(p, t);
    }
  }

  lemma {:induction false} PlugBranch(p: Path, t: Tree)
    requires t.Branch?
    ensures Plug(p, t).Branch?
    decreases p
  {
    if !p.Top? {
      PlugBranch(p.up, Parent(p, t));
    }
  }

  // ---------------------------------------------------- every index is reached

  lemma {:induction false} IndexCount(t: Tree)
    requires Distinct(t)
    ensures |Indices(t)| == |Inorder(t)|
  {
    if t.Branch? {
      IndexCount(t.left);
      IndexCount(t.right);
      assert |Indices(t.left) + {t.slot.idx}| == |Indices(t.left)| + 1;
      assert |Indices(t)| == |Indices(t.left) + {t.slot.idx}| + |Indices(t.right)|;
    }
  }

  function Below(n: nat): (s: set<nat>)
    ensures forall i: nat :: i in s <==> i < n
    ensures |s| == n
  {
    if n == 0 then {} else Below(n - 1) + {n - 1}
  }

  /** As many nodes as arena slots, none twice: every slot is in the tree. */
  lemma AllReached(a: Arena, root: Option<nat>, t: Tree)
    requires Focus(a, root, Top, t) && |Inorder(t)| == |a|
    ensures forall i: nat :: i in Indices(t) <==> i < |a|
  {
    IndexCount(t);
    IndicesBounded(a, t, None);
    SameSize(Indices(t), Below(|a|));
  }

  lemma SameSize(s: set<nat>, all: set<nat>)
    requires s <= all && |s| == |all|
    ensures s == all
  {
    assert all == s + (all - s);
    assert |all| == |s| + |all - s|;
  }

  // --------------------------------------------------------------- search cost

  function Height(t: Tree): (n: nat)
  {
    if t.Leaf? then 0
    else if Height(t.left) > Height(t.right) then 1 + Height(t.left) else 1 + Height(t.right)
  }

  lemma {:induction false} Pow2Sum(m: nat, n: nat)
    ensures Pow2(m + n) == Pow2(m) * Pow2(n)
  {
    if m > 0 {
      Pow2Sum(m - 1, n);
    }
  }

  lemma {:induction false} Pow2Monotone(m: nat, n: nat)
    requires m <= n
    ensures Pow2(m) <= Pow2(n)
    decreases n - m
  {
    if m < n {
      Pow2Monotone(m + 1, n);
    }
  }

  lemma {:induction false} HeightBound(t: Tree)
    requires Balanced(t) && NoRedRed(t)
    ensures Height(t) <= 2 * BlackHeight(t) + (if IsRed(t) then 1 else 0)
  {
    if t.Branch? {
      HeightBound(t.left);
      HeightBound(t.right);
    }
  }

  lemma {:induction false} SizeBound(t: Tree)
    requires Balanced(t)
    ensures Pow2(BlackHeight(t)) <= |Inorder(t)| + 1
  {
    if t.Branch? {
      SizeBound(t.left);
      SizeBound(t.right);
    }
  }

  /** The longest way down a red-black tree of n nodes has h <= 2 log2(n + 1) nodes. */
  lemma SearchCost(t: Tree)
    requires RedBlackTree(t)
    ensures Pow2(Height(t)) <= (|Inorder(t)| + 1) * (|Inorder(t)| + 1)
  {
    var b, n := BlackHeight(t), |Inorder(t)| + 1;
    HeightBound(t);
    SizeBound(t);
    Pow2Monotone(Height(t), b + b);
    Pow2Sum(b, b);
    assert Pow2(b) * Pow2(b) <= n * n by { Squares(Pow2(b), n); }
  }

  lemma Squares(x: nat, y: nat)
    requires x <= y
    ensures x * x <= y * y
  {
  }
}
