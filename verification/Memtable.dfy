/** The memtable (src/memtable/inner.rs): an arena of nodes with integer links, kept a
    red-black tree, and its write-ahead log. */
module Memtables {
  import opened Bytes
  import opened Contents
  import opened RecordBuffers
  import opened Records
  import opened RedBlack
  import opened WriteAheadLog

  // --------------------------------------------------- choosing the rotation

  datatype ChildType = Inner | Outer
  datatype RotationDirection = Left | Right
  datatype Child = LeftChild | RightChild
  datatype InsertionPosition = NewNode(parent: nat, child: Child) | ExistingNode(idx: nat)

  function ChildTypeOf(grandparentLeft: Option<nat>, parent: nat, parentLeft: Option<nat>, node: nat): ChildType
  {
    if (grandparentLeft == Some(parent)) == (parentLeft == Some(node)) then Outer else Inner
  }

  function DeriveRotation(grandparentLeft: Option<nat>, parent: nat, parentLeft: Option<nat>, node: nat)
    : (ChildType, RotationDirection)
  {
    match ChildTypeOf(grandparentLeft, parent, parentLeft, node)
    case Outer => (Outer, if grandparentLeft == Some(parent) then Right else Left)
    case Inner => (Inner, if grandparentLeft == Some(parent) then Left else Right)
  }

  function Uncle(a: Arena, node: nat): Option<nat>
    requires node < |a|
    requires a[node].parent.Some? ==> a[node].parent.value < |a|
    requires a[node].parent.Some? && a[a[node].parent.value].parent.Some? ==>
               a[a[node].parent.value].parent.value < |a|
  {
    if a[node].parent.None? then None
    else
      var parent := a[a[node].parent.value];
      if parent.parent.None? then None
      else
        var grandparent := a[parent.parent.value];
        if grandparent.left == a[node].parent then grandparent.right else grandparent.left
  }

  /** The links around the focus, as the loop of the fix-up reads them. */
  lemma LocalLinks(a: Arena, root: Option<nat>, p: Path, t: Tree)
    requires Focus(a, root, p, t) && t.Branch?
    ensures t.slot.idx < |a| && a[t.slot.idx].parent == ParentOf(p)
    ensures !p.Top? ==>
              && p.slot.idx < |a| && a[p.slot.idx].color == p.slot.color
              && a[p.slot.idx].parent == ParentOf(p.up)
              && (p.InLeft? <==> a[p.slot.idx].left == Some(t.slot.idx))
    ensures !p.Top? && !p.up.Top? ==>
              && p.up.slot.idx < |a|
              && (p.up.InLeft? <==> a[p.up.slot.idx].left == Some(p.slot.idx))
              && Uncle(a, t.slot.idx) == Ptr(Sibling(p.up))
              && (Sibling(p.up).Branch? ==>
                    && Sibling(p.up).slot.idx < |a|
                    && a[Sibling(p.up).slot.idx].color == Sibling(p.up).slot.color)
  {
    if !p.Top? {
      FocusUp(a, root, p, t);
      if !p.up.Top? {
        FocusUp(a, root, p.up, Parent(p, t));
      }
    }
  }

  datatype InsertResult = Inserted | TableFull(key: Blob, value: Option<Blob>) | Panicked

  class Memtable {
    const maxSize: nat
    const maxNodes: nat
    const wal: Wal
    var arena: Arena
    var root: Option<nat>
    var currentSize: nat

    ghost var tree: Tree          // what the links spell out
    ghost var log: seq<Entry>     // the writes this table holds, oldest first
    ghost var replayed: nat       // how many of them were replayed, so are not in `wal`
    ghost var flushed: nat        // how many of them, with the replayed ones, left the buffer

    /** One red-black tree over all of the arena, in strict key order. */
    ghost predicate Shape()
      reads this`arena, this`root, this`tree
    {
      && Focus(arena, root, Top, tree)
      && (forall i: nat :: i in Indices(tree) <==> i < |arena|) && |Inorder(tree)| == |arena|
      && RedBlackTree(tree) && Sorted(Inorder(tree))
    }

    ghost function Contents(): map<Blob, Stored>
      reads this`tree
    {
      PairMap(Inorder(tree))
    }

    ghost function View(): State
      reads this`tree, this`currentSize
    {
      State(Contents(), currentSize)
    }

    ghost predicate StoresEncodable()
      reads this`tree
    {
      forall k :: k in Contents() ==> Encodable(Entry(k, Contents()[k].op))
    }

    ghost predicate Valid()
      reads this, wal
    {
      && Shape() && StoresEncodable()
      && Accepted(log, maxSize, maxNodes) && Run(log) == Some(View())
      && Logged(log)
    }

    /** The log holds these writes, but for the replayed ones; the first of them are in its file,
        whole records each, and the rest in its buffer. */
    ghost predicate Logged(all: seq<Entry>)
      reads this, wal
    {
      && replayed <= flushed <= |all|
      && wal.file == Stream(all[replayed..flushed]) && wal.buffer == Stream(all[flushed..])
    }

    constructor (maxSize: nat, maxNodes: nat, now: nat)
      ensures Valid() && fresh(wal) && arena == [] && log == [] && replayed == 0 && wal.file == [] && wal.buffer == []
      ensures this.maxSize == maxSize && this.maxNodes == maxNodes
    {
      this.maxSize, this.maxNodes := maxSize, maxNodes;
      wal := new Wal(now);
      arena, root, currentSize := [], None, 0;
      tree, log, replayed, flushed := Leaf, [], 0, 0;
    }

    // ------------------------------------------------------------- rotations

    method LeftRotate(n: nat, ghost p: Path, ghost t: Tree)
      requires Focus(arena, root, p, t) && t.Branch? && t.slot.idx == n && t.right.Branch?
      modifies this`arena, this`root
      ensures |arena| == |old(arena)| && Focus(arena, root, p, RotateLeft(t))
    {
      hide Focus, SetLeft, SetRight, SetParent;
      LeftTurn(arena, root, p, t);
      var r := arena[n].right.value;
      var rLeft := arena[r].left;
      arena := SetRight(arena, n, rLeft);
      if rLeft.Some? {
        arena := SetParent(arena, rLeft.value, Some(n));
      }
      var up := arena[n].parent;
      arena := SetParent(arena, r, up);
      if up.Some? {
        if arena[up.value].left == Some(n) {
          arena := SetLeft(arena, up.value, Some(r));
        } else {
          arena := SetRight(arena, up.value, Some(r));
        }
      } else {
        root := Some(r);
      }
      arena := SetLeft(arena, r, Some(n));
      arena := SetParent(arena, n, Some(r));
    }

    method RightRotate(n: nat, ghost p: Path, ghost t: Tree)
      requires Focus(arena, root, p, t) && t.Branch? && t.slot.idx == n && t.left.Branch?
      modifies this`arena, this`root
      ensures |arena| == |old(arena)| && Focus(arena, root, p, RotateRight(t))
    {
      hide Focus, SetLeft, SetRight, SetParent;
      RightTurn(arena, root, p, t);
      var l := arena[n].left.value;
      var lRight := arena[l].right;
      arena := SetLeft(arena, n, lRight);
      if lRight.Some? {
        arena := SetParent(arena, lRight.value, Some(n));
      }
      var up := arena[n].parent;
      arena := SetParent(arena, l, up);
      if up.Some? {
        if arena[up.value].left == Some(n) {
          arena := SetLeft(arena, up.value, Some(l));
        } else {
          arena := SetRight(arena, up.value, Some(l));
        }
      } else {
        root := Some(l);
      }
      arena := SetRight(arena, l, Some(n));
      arena := SetParent(arena, n, Some(l));
    }

    // ------------------------------------------------------------ the fix-up

    method InsertRecolor(parent: nat, grandparent: nat)
      requires parent < |arena| && grandparent < |arena|
      modifies this`arena
      ensures arena == SetColor(SetColor(old(arena), parent, Black), grandparent, Red)
    {
      arena := SetColor(arena, parent, Black);
      arena := SetColor(arena, grandparent, Red);
    }

    /** An outer child: parent and grandparent are recoloured and the grandparent turned. */
    method TurnOuterRight(parent: nat, grandparent: nat, ghost p: Path, ghost t: Tree) returns (ghost w: Tree)
      requires Fixing(arena, root, p, t) && ParentRed(p) && p.InLeft? && p.up.InLeft? && !IsRed(p.up.right)
      requires parent == p.slot.idx && grandparent == p.up.slot.idx
      modifies this`arena, this`root
      ensures |arena| == |old(arena)| && root.Some? && root.value < |arena|
      ensures Focus(SetColor(arena, root.value, Black), root, Top, w) && RedBlackTree(w)
      ensures Inorder(w) == Inorder(Plug(p, t))
    {
      FixingFocus(arena, root, p, t);
      hide Fixing, Inorder, Plug, RedBlackTree, Focus;
      OuterLinks(arena, root, p, t);
      OuterLeft(arena, root, p, t);
      ghost var g := Branch(Tint(Parent(p, t), Black), p.up.slot.(color := Red), p.up.right);
      InsertRecolor(parent, grandparent);
      RightRotate(grandparent, p.up.up, g);
      w := Plug(p.up.up, RotateRight(g));
      OuterDone(arena, root, p.up.up, RotateRight(g));
    }

    method TurnOuterLeft(parent: nat, grandparent: nat, ghost p: Path, ghost t: Tree) returns (ghost w: Tree)
      requires Fixing(arena, root, p, t) && ParentRed(p) && p.InRight? && p.up.InRight? && !IsRed(p.up.left)
      requires parent == p.slot.idx && grandparent == p.up.slot.idx
      modifies this`arena, this`root
      ensures |arena| == |old(arena)| && root.Some? && root.value < |arena|
      ensures Focus(SetColor(arena, root.value, Black), root, Top, w) && RedBlackTree(w)
      ensures Inorder(w) == Inorder(Plug(p, t))
    {
      FixingFocus(arena, root, p, t);
      hide Fixing, Inorder, Plug, RedBlackTree, Focus;
      OuterLinks(arena, root, p, t);
      OuterRight(arena, root, p, t);
      ghost var g := Branch(p.up.left, p.up.slot.(color := Red), Tint(Parent(p, t), Black));
      InsertRecolor(parent, grandparent);
      LeftRotate(grandparent, p.up.up, g);
      w := Plug(p.up.up, RotateLeft(g));
      OuterDone(arena, root, p.up.up, RotateLeft(g));
    }

    /** Restores the colour rules from a red node upwards. No link that the loop follows is
        missing, and it ends: each turn moves two levels up or is the last but one. */
    method InsertFixTree(start: nat, ghost p0: Path, ghost t0: Tree) returns (ghost w: Tree)
      requires Fixing(arena, root, p0, t0) && t0.Branch? && t0.slot.idx == start
      modifies this`arena, this`root
      ensures |arena| == |old(arena)|
      ensures Focus(arena, root, Top, w) && RedBlackTree(w)
      ensures Inorder(w) == Inorder(Plug(p0, t0))
    {
      hide Fixing, Inorder, Plug, RedBlackTree, Focus, Recolored;
      var node := start;
      ghost var p, t := p0, t0;
      while true
        invariant Fixing(arena, root, p, t) && t.Branch? && t.slot.idx == node
        invariant Inorder(Plug(p, t)) == Inorder(Plug(p0, t0))
        invariant |arena| == |old(arena)|
        decreases Depth(p), if !p.Top? && !p.up.Top? && p.InLeft? != p.up.InLeft? then 1 else 0
      {
        LoopLinks(arena, root, p, t);
        if arena[node].parent.None? || arena[arena[node].parent.value].color.Black? {
          LeaveLoop(arena, root, p, t);
          w := Tint(Plug(p, t), Black);
          break;
        }
        var parent := arena[node].parent.value;
        var grandparent := arena[parent].parent.value;
        assert Depth(p) == 1 + Depth(p.up) && Depth(p.up) == 1 + Depth(p.up.up);
        var uncle := Uncle(arena, node);
        if uncle.Some? && arena[uncle.value].color.Red? {
          RecolorStep(arena, root, p, t, uncle.value);
          arena := SetColor(arena, uncle.value, Black);
          arena := SetColor(arena, parent, Black);
          arena := SetColor(arena, grandparent, Red);
          node := grandparent;
          p, t := p.up.up, Recolored(Grandparent(p, t));
        } else {
          ghost var a, r := arena, root;
          GrandparentFocus(arena, root, p, t);
          match DeriveRotation(arena[grandparent].left, parent, arena[parent].left, node) {
            case (Inner, Right) =>
              RightRotate(parent, p.up, Parent(p, t));
              InnerRight(a, r, arena, root, p, t);
              node := parent;
              p, t := InRight(p.up, t.left, t.slot), Branch(t.right, p.slot, p.right);
            case (Inner, Left) =>
              LeftRotate(parent, p.up, Parent(p, t));
              InnerLeft(a, r, arena, root, p, t);
              node := parent;
              p, t := InLeft(p.up, t.slot, t.right), Branch(p.left, p.slot, t.left);
            case (Outer, Right) =>
              w := TurnOuterRight(parent, grandparent, p, t);
              break;
            case (Outer, Left) =>
              w := TurnOuterLeft(parent, grandparent, p, t);
              break;
          }
        }
      }
      arena := SetColor(arena, root.value, Black);
    }

    // ---------------------------------------------------------------- search

    /** Where the key is, or the empty place where it belongs. */
    method FindInsertPosition(key: Blob) returns (pos: InsertionPosition, ghost p: Path, ghost t: Tree)
      requires Shape() && root.Some?
      ensures Focus(arena, root, p, t) && Plug(p, t) == tree && Narrowed(p, key)
      ensures pos.ExistingNode? <==> key in Contents()
      ensures pos.ExistingNode? ==> pos.idx < |arena| && arena[pos.idx].record == RecordOf(key, Contents()[key])
      ensures pos.NewNode? ==>
                && pos.parent < |arena|
                && (if pos.child.LeftChild? then arena[pos.parent].left else arena[pos.parent].right) == None
      ensures pos.ExistingNode? ==> t.Branch? && t.slot.idx == pos.idx && t.slot.key == key
      ensures pos.NewNode? ==>
                && t.Leaf? && !p.Top? && p.slot.idx == pos.parent
                && (pos.child.LeftChild? <==> p.InLeft?)
    {
      hide Focus, Narrowed, RedBlackTree, Sorted, Inorder, PairMap, Less;
      var curr := root.value;
      p, t := Top, tree;
      AtRoot(arena, root, tree, key);
      while true
        invariant Focus(arena, root, p, t) && Plug(p, t) == tree && Narrowed(p, key)
        invariant t.Branch? && t.slot.idx == curr
        decreases t
      {
        Descend(arena, root, p, t, key);
        var parent := curr;
        var node := arena[curr];
        if key == KeyOf(node.record) {
          FoundAt(p, t);
          return ExistingNode(curr), p, t;
        } else if Less(key, KeyOf(node.record)) {
          p, t := InLeft(p, t.slot, t.right), t.left;
          if node.left.None? {
            NotFoundAt(p, key);
            return NewNode(parent, LeftChild), p, t;
          }
          curr := node.left.value;
        } else {
          p, t := InRight(p, t.left, t.slot), t.right;
          if node.right.None? {
            NotFoundAt(p, key);
            return NewNode(parent, RightChild), p, t;
          }
          curr := node.right.value;
        }
      }
    }

    /** Finds exactly the keys the table holds, and visits at most 2 log2(n + 1) of its n nodes. */
    method GetSearch(key: Blob) returns (r: Option<nat>, ghost visited: nat)
      requires Shape()
      ensures r.Some? <==> key in Contents()
      ensures r.Some? ==> r.value < |arena| && arena[r.value].record == RecordOf(key, Contents()[key])
      ensures Pow2(visited) <= (|arena| + 1) * (|arena| + 1)
    {
      hide Focus, Narrowed, RedBlackTree, Sorted, Inorder, Less, PairMap, Plug, Height, Pow2;
      visited := 0;
      ghost var p, t := Top, tree;
      AtRoot(arena, root, tree, key);
      CostBound(tree, 0, |arena|);
      if root.None? {
        NotFoundAt(Top, key);
        return None, visited;
      }
      var curr := root.value;
      while true
        invariant Focus(arena, root, p, t) && Plug(p, t) == tree && Narrowed(p, key)
        invariant t.Branch? && t.slot.idx == curr
        invariant visited + Height(t) <= Height(tree)
        decreases t
      {
        Descend(arena, root, p, t, key);
        visited := visited + 1;
        CostBound(tree, visited, |arena|);
        var node := arena[curr];
        if key == KeyOf(node.record) {
          FoundAt(p, t);
          return Some(curr), visited;
        } else if Less(key, KeyOf(node.record)) {
          p, t := InLeft(p, t.slot, t.right), t.left;
          if node.left.None? {
            NotFoundAt(p, key);
            return None, visited;
          }
          curr := node.left.value;
        } else {
          p, t := InRight(p, t.left, t.slot), t.right;
          if node.right.None? {
            NotFoundAt(p, key);
            return None, visited;
          }
          curr := node.right.value;
        }
      }
    }

    /** How the record of a key reads. */
    ghost function Reads(key: Blob): (q: Query)
      requires key in Contents()
      reads this`tree
    {
      ReadValue(RecordOf(key, Contents()[key]))
    }

    /** Reads a key from memory: through the `value` field of its record. A range that runs past the
        blob panics. */
    method Get(key: Blob) returns (q: Query)
      requires Shape()
      ensures q == if key in Contents() then Reads(key) else NotFound
      ensures q == Crash <==>
                && key in Contents() && Contents()[key].value.Some?
                && var (offset, len) := Contents()[key].value.value;
                   offset + len > |BlobOf(Entry(key, Contents()[key].op))|
    {
      var idx, _ := GetSearch(key);
      if idx.None? { return NotFound; }
      var record := arena[idx.value].record;
      if record.value.None? { return Tombstone; }
      q := ReadValue(record);
    }

    // ---------------------------------------------------------------- insert

    predicate IsFull()
      reads this
    {
      |arena| == maxNodes || currentSize >= maxSize
    }

    /** The first node: black, and not counted in the size. */
    method SetRoot(record: Record, ghost e: Entry)
      requires Shape() && root.None? && record == Fresh(e)
      modifies this`arena, this`root, this`tree
      ensures Shape() && root.Some? && Some(View()) == Write(old(View()), e)
    {
      assert tree == Leaf && arena == [] && e == Entry(e.key, e.op);
      root := Some(|arena|);
      arena := arena + [Node(record, None, None, None, Black)];
      tree := Branch(Leaf, Slot(0, e.key, Created(e.key, e.op), Black), Leaf);
      assert Inorder(tree) == [Pair(e.key, Created(e.key, e.op))];
      assert Inorder(tree)[..0] == [];
      OneNode(arena, tree);
    }

    /** A key the table holds already: its record is rewritten in place. */
    method UpdateNode(idx: nat, record: Record, ghost e: Entry, ghost p: Path, ghost t: Tree) returns (ok: bool)
      requires Shape() && StoresEncodable() && record == Fresh(e) && Encodable(e)
      requires Focus(arena, root, p, t) && Plug(p, t) == tree
      requires t.Branch? && t.slot.idx == idx && t.slot.key == e.key
      modifies this`arena, this`tree
      ensures ok <==> Write(old(View()), e).Some?
      ensures ok ==> Shape() && root.Some? && Some(View()) == Write(old(View()), e)
    {
      hide Focus, RedBlackTree, Sorted, Less, PairMap, Fits, Linked, Inorder;
      ghost var st, was := t.slot.stored, Contents();
      FoundAt(p, t);
      AtFocus(arena, root, p, t);
      var cell := new RecordBuffer(arena[idx].record);
      ok := cell.UpdateFromRecord(record, Entry(e.key, st.op), e.op);
      if ok {
        ghost var st' := Updated(e.key, st, e.op).value;
        assert cell.View() == RecordOf(e.key, st');
        Rewrite(arena, root, p, t, st');
        RecordReplaced(p, t, st');
        arena := arena[idx := arena[idx].(record := cell.View())];
        tree := Plug(p, WithStored(t, st'));
        AllReached(arena, root, tree);
        AtRoot(arena, root, tree, e.key);
        PlugBranch(p, WithStored(t, st'));
      }
    }

    /** A new key: a red node under the place where the search ended, then the fix-up. */
    method AttachNode(record: Record, child: Child, parent: nat, ghost e: Entry, ghost p: Path)
      requires Shape() && record == Fresh(e)
      requires Focus(arena, root, p, Leaf) && Plug(p, Leaf) == tree && Narrowed(p, e.key)
      requires !p.Top? && p.slot.idx == parent && (child.LeftChild? <==> p.InLeft?)
      modifies this`arena, this`root, this`currentSize, this`tree
      ensures Shape() && root.Some? && Some(View()) == Write(old(View()), e)
    {
      hide Focus, RedBlackTree, Sorted, Less, PairMap, Inorder, Narrowed, Fixing, SetLeft, SetRight;
      ghost var stored := Created(e.key, e.op);
      ghost var leaf := NewLeaf(|arena|, e.key, stored);
      AtHole(arena, root, p, e.key);
      AttachWrites(arena, root, p, e);
      var nodeIdx := |arena|;
      if child.LeftChild? {
        arena := SetLeft(arena, parent, Some(nodeIdx));
      } else {
        arena := SetRight(arena, parent, Some(nodeIdx));
      }
      currentSize := currentSize + |record.blob|;
      arena := arena + [Node(record, None, None, Some(parent), Red)];
      AttachColours(arena, root, p, nodeIdx, e.key, stored);
      tree := InsertFixTree(nodeIdx, p, leaf);
      LeafInserted(p, nodeIdx, e.key, stored);
      AllReached(arena, root, tree);
      AtRoot(arena, root, tree, e.key);
      NonEmpty(tree);
    }

    method InsertNode(record: Record, ghost e: Entry) returns (ok: bool)
      requires Shape() && StoresEncodable() && record == Fresh(e) && Encodable(e)
      modifies this`arena, this`root, this`currentSize, this`tree
      ensures ok <==> Write(old(View()), e).Some?
      ensures ok ==> Shape() && StoresEncodable() && Some(View()) == Write(old(View()), e)
    {
      hide Focus, RedBlackTree, Sorted, Less, PairMap, Inorder, Narrowed, Fits;
      AtRoot(arena, root, tree, e.key);
      WriteEncodable(View(), e);
      if root.None? {
        EmptyContents(tree);
        SetRoot(record, e);
        return true;
      }
      FreshReads(e);
      var pos, p, t := FindInsertPosition(KeyOf(record));
      match pos {
        case ExistingNode(idx) =>
          ok := UpdateNode(idx, record, e, p, t);
        case NewNode(parent, child) =>
          AtHole(arena, root, p, e.key);
          AttachNode(record, child, parent, e, p);
          ok := true;
      }
    }

    // ------------------------------------------------------------ operations

    /** The table is full exactly when its contents say so. */
    lemma FullAgrees()
      requires Shape()
      ensures IsFull() <==> Full(View(), maxSize, maxNodes)
      ensures IsFull() <==> |Contents()| == maxNodes || currentSize >= maxSize
    {
      PairMapSize(Inorder(tree));
    }

    /** The same on the writes it holds: as many keys as nodes allowed, or the size counted for them
        at its limit. */
    lemma FullByLog()
      requires Valid()
      ensures IsFull() <==> |KeysIn(log)| == maxNodes || FirstSizes(log) >= maxSize
      ensures |Contents()| == |arena| == |KeysIn(log)| <= maxNodes
      ensures currentSize == FirstSizes(log)
    {
      hide KeysIn, FirstSizes, Run, Shape;
      FullAgrees();
      RunMeasures(log);
      AcceptedBounds(log, maxSize, maxNodes);
      ArenaCount();
      assert |Contents()| == |Contents().Keys|;
    }

    lemma ArenaCount()
      requires Shape()
      ensures |Contents()| == |arena|
    {
      PairMapSize(Inorder(tree));
    }

    /** Log first, then insert. A panic leaves a logged write that the tree does not hold. All earlier
        writes are in the log file if 64,000 bytes were waiting or the last flush was more than 400 ms
        ago. */
    method LogAndInsert(record: Record, ghost e: Entry, now: nat, later: nat) returns (ok: bool)
      requires Valid() && !IsFull() && record == Fresh(e) && Encodable(e)
      modifies this, wal
      ensures ok <==> Write(old(View()), e).Some?
      ensures Logged(old(log) + [e]) && replayed == old(replayed)
      ensures old(|wal.buffer|) >= 64_000 || now > old(wal.lastFlush) + 400 ==> flushed == old(|log|)
      ensures |wal.buffer| < 64_000 + |BlobOf(e)|
      ensures ok ==> Valid() && log == old(log) + [e]
      ensures !ok ==> log == old(log)
    {
      hide Shape, StoresEncodable, Stream, Write, Encodable, Run;
      FullAgrees();
      label start:
      ghost var keep := if wal.NeedsFlush(now) then |log| else flushed;
      wal.WriteLog(record.blob, now, later);
      LogGrows(log, replayed, flushed, e);
      flushed := keep;
      ok := InsertNode(record, e);
      if ok {
        AcceptedSnoc(log, e, maxSize, maxNodes);
        log := log + [e];
      }
    }

    method InsertDataRecord(key: Blob, value: Blob, now: nat, later: nat) returns (r: InsertResult)
      requires Valid() && Encodable(Entry(key, Put(value)))
      modifies this, wal
      ensures r.TableFull? <==> |old(Contents())| == maxNodes || old(currentSize) >= maxSize
      ensures r.TableFull? <==> old(IsFull())
      ensures r.TableFull? ==> r == TableFull(key, Some(value)) && unchanged(this) && unchanged(wal)
      ensures r.Panicked? <==> !old(IsFull()) && Write(old(View()), Entry(key, Put(value))).None?
      ensures !r.TableFull? && (old(|wal.buffer|) >= 64_000 || now > old(wal.lastFlush) + 400) ==> flushed == old(|log|)
      ensures !r.TableFull? ==> |wal.buffer| < 64_000 + |BlobOf(Entry(key, Put(value)))|
      ensures r.Panicked? ==>
                && log == old(log) && replayed == old(replayed)
                && Logged(old(log) + [Entry(key, Put(value))]) && Interrupted(this, old(log) + [Entry(key, Put(value))])
      ensures r.Inserted? ==>
                && Valid() && replayed == old(replayed) && log == old(log) + [Entry(key, Put(value))]
                && Some(View()) == Write(old(View()), Entry(key, Put(value)))
    {
      hide Shape, StoresEncodable, Stream, Write, Encodable, BlobOf;
      FullAgrees();
      if IsFull() {
        return TableFull(key, Some(value));
      }
      ghost var e := Entry(key, Put(value));
      RunSnoc(log, e);
      var record := EncodeDataRecord(key, value);
      PanicInterrupts(this, e);
      var ok := LogAndInsert(record, e, now, later);
      r := if ok then Inserted else InsertResult.Panicked;
    }

    method InsertTombstoneRecord(key: Blob, now: nat, later: nat) returns (r: InsertResult)
      requires Valid() && Encodable(Entry(key, Delete))
      modifies this, wal
      ensures r.TableFull? <==> |old(Contents())| == maxNodes || old(currentSize) >= maxSize
      ensures r.TableFull? <==> old(IsFull())
      ensures r.TableFull? ==> r == TableFull(key, None) && unchanged(this) && unchanged(wal)
      ensures !r.Panicked?
      ensures !r.TableFull? && (old(|wal.buffer|) >= 64_000 || now > old(wal.lastFlush) + 400) ==> flushed == old(|log|)
      ensures !r.TableFull? ==> |wal.buffer| < 64_000 + |BlobOf(Entry(key, Delete))|
      ensures r.Inserted? ==>
                && Valid() && replayed == old(replayed) && log == old(log) + [Entry(key, Delete)]
                && Some(View()) == Write(old(View()), Entry(key, Delete))
    {
      hide Shape, StoresEncodable, Stream, Encodable, BlobOf;
      FullAgrees();
      if IsFull() {
        return TableFull(key, None);
      }
      ghost var e := Entry(key, Delete);
      RunSnoc(log, e);
      var record := EncodeTombstoneRecord(key);
      var ok := LogAndInsert(record, e, now, later);
      r := Inserted;
    }

    /** Replays a log into an empty table: the records `es`, and behind them `rest`, which holds no
        further record. The replay goes through exactly when a table with these limits accepts
        the records and the log ends behind them or goes on with a byte that is no header.
        Otherwise it stops in the unfinished branch for a full table, in an overwrite that does
        not fit, or in a record cut short. The new log starts empty. */
    static method FromWal(file: Blob, maxSize: nat, maxNodes: nat, now: nat, ghost es: seq<Entry>, ghost rest: Blob)
      returns (ok: bool, table: Memtable)
      requires file == Stream(es) + rest && AllEncodable(es) && !Parse(rest).Decoded?
      ensures fresh(table) && fresh(table.wal)
      ensures ok <==> Accepted(es, maxSize, maxNodes) && (rest == [] || Parse(rest).BadHeader?)
      ensures ok ==> table.Valid() && table.log == es && table.replayed == |es|
      ensures ok ==> table.maxSize == maxSize && table.maxNodes == maxNodes
      ensures ok ==> table.wal.file == [] && table.wal.buffer == []
    {
      hide Stream, Memtable.Valid, Accepted, Encodable, Parse;
      table := new Memtable(maxSize, maxNodes, now);
      var offset := 0;
      ghost var k := 0;
      ReplayStart(file, es);
      while offset < |file|
        invariant k <= |es| && offset <= |file| && file[offset..] == Stream(es[k..]) + rest
        invariant table.Valid() && table.log == es[..k] && table.replayed == k
        invariant table.maxSize == maxSize && table.maxNodes == maxNodes
        invariant table.wal.file == [] && table.wal.buffer == []
        invariant fresh(table) && fresh(table.wal)
        decreases |file| - offset
      {
        StreamStep(file, offset, es, k, rest);
        table.Held();
        var r, next := DecodeDiskRecord(file, offset);
        if r.BadHeader? { break; }
        if r.Panicked? { return false, table; }
        offset := next;
        var inserted := table.InsertRecordFromWal(r.record, es[k]);
        if !inserted {
          RefusedAt(es, k, maxSize, maxNodes);
          return false, table;
        }
        k := k + 1;
      }
      StreamEnd(file, offset, es, k, rest);
      table.Held();
      return true, table;
    }

    /** One record of a replayed log: full tables and panics refuse it. */
    method InsertRecordFromWal(record: Record, ghost e: Entry) returns (ok: bool)
      requires Valid() && replayed == |log| && record == Fresh(e) && Encodable(e)
      modifies this`arena, this`root, this`currentSize, this`tree, this`log, this`replayed, this`flushed
      ensures ok <==> !Full(Run(old(log)).value, maxSize, maxNodes) && Write(Run(old(log)).value, e).Some?
      ensures ok ==> Valid() && log == old(log) + [e] && replayed == |log|
    {
      hide Shape, StoresEncodable, Stream, Write, Encodable, Run, Full;
      FullAgrees();
      if IsFull() { return false; }
      NothingLogged(log);
      NothingLogged(log + [e]);
      ok := InsertNode(record, e);
      if ok {
        AcceptedSnoc(log, e, maxSize, maxNodes);
        log := log + [e];
        replayed, flushed := |log|, |log|;
      }
    }

    /** The writes that a table holds are accepted by its limits and give its contents. */
    lemma Held()
      requires Valid()
      ensures Accepted(log, maxSize, maxNodes) && Run(log) == Some(View()) && AllEncodable(log)
    {
    }
  }

  /** All writes that went to the log of a table: those it holds, and then perhaps one whose
      overwrite panicked, and whatever came later. */
  ghost predicate Interrupted(m: Memtable, all: seq<Entry>)
    reads m
  {
    && Accepted(m.log, m.maxSize, m.maxNodes) && Run(m.log).Some? && AllEncodable(all) && m.log <= all
    && (all == m.log || Write(Run(m.log).value, all[|m.log|]).None?)
  }

  /** Crash safety: the log file of a table begun empty holds a prefix of its writes. Under the
      same limits it replays, into the table as it stood after that prefix, record for record,
      exactly when no write whose overwrite panicked has reached the file. */
  method RecoverAfterCrash(crashed: Memtable, now: nat, ghost all: seq<Entry>)
    returns (ok: bool, table: Memtable, ghost kept: nat)
    requires Interrupted(crashed, all) && crashed.Logged(all) && crashed.replayed == 0
    ensures kept == crashed.flushed <= |all| && crashed.wal.file == Stream(all[..kept])
    ensures ok <==> kept <= |crashed.log|
    ensures ok ==>
              table.Valid() && table.log == crashed.log[..kept] && Run(crashed.log[..kept]) == Some(table.View())
  {
    kept := crashed.flushed;
    KeptWrites(crashed, all, kept);
    hide Stream, Memtable.Valid, Accepted, Encodable, Run, Parse, Interrupted;
    ok, table := Memtable.FromWal(crashed.wal.file, crashed.maxSize, crashed.maxNodes, now, all[..kept], []);
    if ok {
      table.Held();
    }
  }

  /** A table that is intact was not interrupted: its log always replays. */
  lemma IntactIsRecoverable(m: Memtable)
    requires m.Valid()
    ensures Interrupted(m, m.log) && m.Logged(m.log) && m.flushed <= |m.log|
  {
  }

  /** A write whose overwrite panics interrupts the table. */
  lemma PanicInterrupts(m: Memtable, e: Entry)
    requires m.Valid() && Encodable(e)
    ensures Write(m.View(), e).None? ==> Interrupted(m, m.log + [e])
  {
    hide Write, Encodable, Memtable.Shape;
  }

  lemma KeptWrites(m: Memtable, all: seq<Entry>, kept: nat)
    requires Interrupted(m, all) && kept <= |all|
    ensures kept <= |m.log| <==> Accepted(all[..kept], m.maxSize, m.maxNodes)
    ensures kept <= |m.log| ==> all[..kept] == m.log[..kept]
    ensures AllEncodable(all[..kept]) && !Parse([]).Decoded?
    ensures forall file: Blob :: file + [] == file
    ensures all[0..kept] == all[..kept]
  {
    hide Run, Write, Encodable, Parse;
    var n := |m.log|;
    if kept <= n {
      assert all[..kept] == m.log[..kept];
      AcceptedPrefix(m.log, kept, m.maxSize, m.maxNodes);
    } else {
      assert all == m.log + [all[n]] + all[n + 1..];
      assert all[..kept] == m.log + [all[n]] + all[n + 1..kept];
      PanicIsNeverAccepted(m.log, all[n], all[n + 1..kept], m.maxSize, m.maxNodes);
    }
    ParseNothing();
  }

  lemma ParseNothing()
    ensures Parse([]) == Decoded.Panicked
  {
  }

  /** The write is in the log before the overwrite panics, so every later replay panics, too. */
  lemma PanicIsNeverAccepted(es: seq<Entry>, e: Entry, more: seq<Entry>, maxSize: nat, maxNodes: nat)
    requires Run(es).Some? && Write(Run(es).value, e).None?
    ensures !Accepted(es + [e] + more, maxSize, maxNodes)
  {
    var all := es + [e] + more;
    RunSnoc(es, e);
    assert all[..|es| + 1] == es + [e];
    NotAccepted(all, |es|, maxSize, maxNodes);
  }

  /** A log cut short, as by a write that was not completed: it replays exactly when the cut lies
      between two records. */
  method RecoverAfterCut(log: Blob, cut: nat, maxSize: nat, maxNodes: nat, now: nat, ghost es: seq<Entry>)
    returns (ok: bool, table: Memtable, ghost kept: nat)
    requires log == Stream(es) && Accepted(es, maxSize, maxNodes) && cut <= |log|
    ensures kept <= |es| && |Stream(es[..kept])| <= cut && (kept < |es| ==> cut < |Stream(es[..kept + 1])|)
    ensures ok <==> cut == |Stream(es[..kept])|
    ensures ok ==> table.Valid() && table.log == es[..kept]
  {
    ghost var rest;
    kept, rest := CutStream(es, cut);
    AcceptedPrefix(es, kept, maxSize, maxNodes);
    hide Stream, Memtable.Valid, Accepted, Encodable, Run, Parse;
    ok, table := Memtable.FromWal(log[..cut], maxSize, maxNodes, now, es[..kept], rest);
  }

  /** Cutting a stream leaves whole records and, unless it is between two, part of one. */
  lemma CutStream(es: seq<Entry>, cut: nat) returns (kept: nat, rest: Blob)
    requires AllEncodable(es) && cut <= |Stream(es)|
    ensures kept <= |es| && Stream(es)[..cut] == Stream(es[..kept]) + rest && AllEncodable(es[..kept])
    ensures Parse(rest) == Decoded.Panicked && (kept < |es| ==> |rest| < |BlobOf(es[kept])|)
    ensures kept < |es| ==> |Stream(es[..kept + 1])| == |Stream(es[..kept])| + |BlobOf(es[kept])|
    ensures kept == |es| ==> rest == []
    decreases |es|
  {
    hide Parse, BlobOf, Encodable, Stream;
    ParseNothing();
    EmptyStream();
    if es == [] {
      kept, rest := 0, [];
      StreamEmpty(es);
    } else {
      var n := |es| - 1;
      assert es == es[..n] + [es[n]];
      StreamSnoc(es[..n], es[n]);
      var front := Stream(es[..n]);
      if cut <= |front| {
        kept, rest := CutStream(es[..n], cut);
        assert es[..n][..kept] == es[..kept];
        assert kept < n ==> es[..n][..kept + 1] == es[..kept + 1] && es[..n][kept] == es[kept];
        assert kept == n ==> es[..kept + 1] == es;
        assert Stream(es)[..cut] == front[..cut];
        BlobLength(es[n]);
      } else if cut < |Stream(es)| {
        kept, rest := n, BlobOf(es[n])[..cut - |front|];
        assert es[..n + 1] == es;
        TornRecord(es[n], cut - |front|);
      } else {
        kept, rest := |es|, [];
        assert es[..|es|] == es;
      }
    }
  }

  lemma BlobLength(e: Entry)
    ensures |BlobOf(e)| >= 1
  {
  }

  // --------------------------------------------------------------------- replay

  lemma ReplayStart(file: Blob, es: seq<Entry>)
    ensures es[0..] == es && es[..0] == [] && file[0..] == file
  {
  }

  lemma NothingLogged(all: seq<Entry>)
    ensures all[|all|..|all|] == [] && all[|all|..] == [] && Stream([]) == []
  {
  }

  lemma RefusedAt(es: seq<Entry>, k: nat, maxSize: nat, maxNodes: nat)
    requires k < |es| && Run(es[..k]).Some?
    requires Full(Run(es[..k]).value, maxSize, maxNodes) || Write(Run(es[..k]).value, es[k]).None?
    ensures !Accepted(es, maxSize, maxNodes)
  {
    hide Write, Full;
    RunSnoc(es[..k], es[k]);
    assert es[..k + 1] == es[..k] + [es[k]];
    NotAccepted(es, k, maxSize, maxNodes);
  }

  /** Two tables that hold the same writes hold the same records in the same order, however
      their arenas came to be linked. */
  lemma SameLogSameRecords(m: Memtable, n: Memtable)
    requires m.Valid() && n.Valid() && m.log == n.log
    ensures Inorder(m.tree) == Inorder(n.tree)
    ensures |m.arena| == |n.arena| && m.currentSize == n.currentSize
  {
    SortedUnique(Inorder(m.tree), Inorder(n.tree));
  }

  lemma RunSnoc(es: seq<Entry>, e: Entry)
    requires Run(es).Some?
    ensures Run(es + [e]) == Write(Run(es).value, e)
  {
    assert (es + [e])[..|es|] == es;
  }

  lemma NotAccepted(es: seq<Entry>, k: nat, maxSize: nat, maxNodes: nat)
    requires k < |es|
    requires || Run(es[..k + 1]).None?
             || (Run(es[..k]).Some? && Full(Run(es[..k]).value, maxSize, maxNodes))
    ensures !Accepted(es, maxSize, maxNodes)
  {
  }

  /** The log file ends between two records, whether or not the buffer was flushed first. */
  lemma LogGrows(log: seq<Entry>, replayed: nat, flushed: nat, e: Entry)
    requires replayed <= flushed <= |log|
    ensures Stream(log[replayed..flushed]) + Stream(log[flushed..]) == Stream((log + [e])[replayed..|log|])
    ensures Stream(log[replayed..flushed]) == Stream((log + [e])[replayed..flushed])
    ensures Stream(log[flushed..]) + BlobOf(e) == Stream((log + [e])[flushed..])
    ensures BlobOf(e) == Stream((log + [e])[|log|..])
  {
    hide BlobOf, Stream;
    StreamAppend(log[replayed..flushed], log[flushed..]);
    assert log[replayed..flushed] + log[flushed..] == (log + [e])[replayed..|log|];
    assert (log + [e])[replayed..flushed] == log[replayed..flushed];
    StreamSnoc(log[flushed..], e);
    assert (log + [e])[flushed..] == log[flushed..] + [e];
    StreamSnoc([], e);
    EmptyStream();
    assert (log + [e])[|log|..] == [] + [e];
  }

  lemma OneNode(a: Arena, t: Tree)
    requires |a| == 1 && t.Branch? && t.left.Leaf? && t.right.Leaf? && t.slot.idx == 0
    requires a[0] == Node(RecordOf(t.slot.key, t.slot.stored), None, None, None, t.slot.color)
    ensures Focus(a, Some(0), Top, t)
    ensures forall i: nat :: i in Indices(t) <==> i < 1
  {
    assert Linked(a, Leaf, Some(0));
    assert Cell(a, t.slot, Ptr(t.left), Ptr(t.right), None);
  }

  lemma AtFocus(a: Arena, root: Option<nat>, p: Path, t: Tree)
    requires Focus(a, root, p, t) && t.Branch?
    ensures t.slot.idx < |a| && a[t.slot.idx].record == RecordOf(t.slot.key, t.slot.stored)
  {
  }

  /** Where a search for an absent key ends. */
  lemma AtHole(a: Arena, root: Option<nat>, p: Path, key: Blob)
    requires Focus(a, root, p, Leaf) && Narrowed(p, key)
    ensures key !in PairMap(Inorder(Plug(p, Leaf)))
    ensures !p.Top? ==>
              && p.slot.idx < |a| && p.slot.idx in PathIndices(p)
              && PairMap(Inorder(Plug(p, Leaf))) != map[]
  {
    NotFoundAt(p, key);
    if !p.Top? {
      PlugBranch(p.up, Parent(p, Leaf));
      NonEmpty(Plug(p, Leaf));
    }
  }

  lemma NonEmpty(t: Tree)
    ensures t.Branch? <==> PairMap(Inorder(t)) != map[]
  {
    if t.Branch? {
      PairMapKeys(Inorder(t), t.slot.key);
      assert Inorder(t)[|Inorder(t.left)|] == PairOf(t.slot);
    }
  }

  lemma EmptyContents(t: Tree)
    requires Ptr(t) == None
    ensures PairMap(Inorder(t)) == map[]
  {
  }

  lemma RecordReplaced(p: Path, t: Tree, stored: Stored)
    requires t.Branch? && Sorted(Inorder(Plug(p, t)))
    ensures var w := Inorder(Plug(p, WithStored(t, stored)));
            && Sorted(w) && |w| == |Inorder(Plug(p, t))|
            && PairMap(w) == PairMap(Inorder(Plug(p, t)))[t.slot.key := stored]
  {
    hide Sorted, PairMap, Less;
    var b, a := Before(p) + Inorder(t.left), Inorder(t.right) + Behind(p);
    var c, c' := PairOf(t.slot), Pair(t.slot.key, stored);
    InorderPlug(p, t);
    InorderPlug(p, WithStored(t, stored));
    AroundMiddle(Before(p), Inorder(t.left), [c], Inorder(t.right), Behind(p));
    AroundMiddle(Before(p), Inorder(t.left), [c'], Inorder(t.right), Behind(p));
    ReplaceAt(b, c, c', a);
  }

  lemma AroundMiddle<T>(a: seq<T>, b: seq<T>, c: seq<T>, d: seq<T>, e: seq<T>)
    ensures a + (b + c + d) + e == (a + b) + c + (d + e)
  {
  }

  lemma LeafInserted(p: Path, idx: nat, key: Blob, stored: Stored)
    requires Narrowed(p, key) && Sorted(Inorder(Plug(p, Leaf)))
    ensures var w := Inorder(Plug(p, NewLeaf(idx, key, stored)));
            && Sorted(w) && |w| == |Inorder(Plug(p, Leaf))| + 1
            && PairMap(w) == PairMap(Inorder(Plug(p, Leaf)))[key := stored]
  {
    NotFoundAt(p, key);
    InorderPlug(p, NewLeaf(idx, key, stored));
    assert Inorder(NewLeaf(idx, key, stored)) == [Pair(key, stored)];
    InsertBetween(Before(p), Pair(key, stored), Behind(p));
  }

  lemma WriteEncodable(s: State, e: Entry)
    requires Encodable(e)
    requires forall k :: k in s.contents ==> Encodable(Entry(k, s.contents[k].op))
    ensures Write(s, e).Some? ==>
              forall k :: k in Write(s, e).value.contents ==> Encodable(Entry(k, Write(s, e).value.contents[k].op))
  {
    hide Encodable, Fits;
  }

  /** Before the first comparison. */
  lemma AtRoot(a: Arena, root: Option<nat>, t: Tree, key: Blob)
    requires Focus(a, root, Top, t)
    ensures Narrowed(Top, key) && Plug(Top, t) == t && root == Ptr(t)
  {
  }

  /** One comparison of the search, whichever way it goes. */
  lemma Descend(a: Arena, root: Option<nat>, p: Path, t: Tree, key: Blob)
    requires Focus(a, root, p, t) && t.Branch? && Narrowed(p, key) && Sorted(Inorder(Plug(p, t)))
    ensures var i := t.slot.idx;
            && i < |a| && a[i].record == RecordOf(t.slot.key, t.slot.stored)
            && KeyOf(a[i].record) == t.slot.key && a[i].left == Ptr(t.left) && a[i].right == Ptr(t.right)
    ensures Focus(a, root, InLeft(p, t.slot, t.right), t.left)
    ensures Focus(a, root, InRight(p, t.left, t.slot), t.right)
    ensures Plug(InLeft(p, t.slot, t.right), t.left) == Plug(p, t) == Plug(InRight(p, t.left, t.slot), t.right)
    ensures Height(t) >= 1 + Height(t.left) && Height(t) >= 1 + Height(t.right)
    ensures Less(key, t.slot.key) ==> Narrowed(InLeft(p, t.slot, t.right), key)
    ensures key != t.slot.key && !Less(key, t.slot.key) ==> Narrowed(InRight(p, t.left, t.slot), key)
  {
    hide Less, Sorted, Narrowed;
    FocusDown(a, root, p, t);
    RecordKey(t.slot.key, t.slot.stored);
    LessTotal(key, t.slot.key);
    if Less(key, t.slot.key) {
      NarrowLeft(p, t, key);
    } else if key != t.slot.key {
      NarrowRight(p, t, key);
    }
  }

  lemma CostBound(t: Tree, visited: nat, n: nat)
    requires RedBlackTree(t) && visited <= Height(t) && n == |Inorder(t)|
    ensures Pow2(visited) <= (n + 1) * (n + 1)
  {
    SearchCost(t);
    Pow2Monotone(visited, Height(t));
  }

  /** What the head of the loop reads. */
  lemma LoopLinks(a: Arena, root: Option<nat>, p: Path, t: Tree)
    requires Fixing(a, root, p, t)
    ensures Focus(a, root, p, t) && t.Branch? && t.slot.idx < |a| && a[t.slot.idx].parent == ParentOf(p)
    ensures !p.Top? ==>
              && p.slot.idx < |a| && a[p.slot.idx].color == p.slot.color
              && (p.InLeft? <==> a[p.slot.idx].left == Some(t.slot.idx))
    ensures ParentRed(p) ==>
              && !p.up.Top? && p.up.slot.idx < |a| && a[p.slot.idx].parent == Some(p.up.slot.idx)
              && (p.up.InLeft? <==> a[p.up.slot.idx].left == Some(p.slot.idx))
              && Uncle(a, t.slot.idx) == Ptr(Sibling(p.up))
              && (Sibling(p.up).Branch? ==>
                    && Sibling(p.up).slot.idx < |a|
                    && a[Sibling(p.up).slot.idx].color == Sibling(p.up).slot.color)
  {
    LocalLinks(a, root, p, t);
    if ParentRed(p) {
      GrandparentExists(a, root, p, t);
    }
  }

  lemma FixingFocus(a: Arena, root: Option<nat>, p: Path, t: Tree)
    requires Fixing(a, root, p, t)
    ensures Focus(a, root, p, t)
  {
  }

  /** After the last rotation the root is black already: painting it changes nothing. */
  lemma OuterDone(a: Arena, root: Option<nat>, p: Path, t: Tree)
    requires t.Branch? && Focus(a, root, p, t) && RedBlackTree(Plug(p, t))
    ensures root.Some? && root.value < |a|
    ensures SetColor(a, root.value, Black) == a && Focus(a, root, Top, Plug(p, t))
  {
    Unfocus(a, root, p, t);
    PlugBranch(p, t);
  }

  /** The nodes a rotation touches are distinct, and linked as it expects. */
  lemma RotationSites(a: Arena, root: Option<nat>, p: Path, t: Tree, child: Tree, mid: Tree)
    requires Focus(a, root, p, t) && t.Branch? && child.Branch?
    requires || (child == t.right && mid == child.left)
             || (child == t.left && mid == child.right)
    ensures var n, c := t.slot.idx, child.slot.idx;
            && Sites(a, n, c, Ptr(mid), ParentOf(p)) && a[n].parent == ParentOf(p)
            && n !in PathIndices(p) && c !in PathIndices(p)
            && (child == t.right && mid == child.left ==> a[n].right == Some(c) && a[c].left == Ptr(mid))
            && (child == t.left && mid == child.right ==> a[n].left == Some(c) && a[c].right == Ptr(mid))
            && (mid.Branch? ==> mid.slot.idx !in PathIndices(p))
            && (!p.Top? ==> (p.InLeft? <==> a[p.slot.idx].left == Some(n)))
  {
    LocalLinks(a, root, p, t);
    assert Linked(a, child, Some(t.slot.idx)) && Distinct(child) && Indices(child) <= Indices(t);
    assert mid.Branch? ==> Linked(a, mid, Some(child.slot.idx)) && mid.slot.idx in Indices(mid);
    assert !p.Top? ==> p.slot.idx in PathIndices(p);
  }

  ghost function RootAfter(root: Option<nat>, p: Path, c: nat): (r: Option<nat>)
  {
    if p.Top? then Some(c) else root
  }

  /** The writes of a left rotation turn the tree at the focus. */
  lemma LeftTurn(a: Arena, root: Option<nat>, p: Path, t: Tree)
    requires Focus(a, root, p, t) && t.Branch? && t.right.Branch?
    ensures var n, r, mid, up := t.slot.idx, t.right.slot.idx, Ptr(t.right.left), ParentOf(p);
            && n < |a| && r < |a| && InArena(a, mid) && InArena(a, up)
            && a[n].right == Some(r) && a[r].left == mid && Adopted(SetRight(a, n, mid), mid, n)[n].parent == up
            && Focus(LeftWrites(a, n, r, mid, up), RootAfter(root, p, r), p, RotateLeft(t))
  {
    hide Focus, Indices, PathIndices, LeftWrites;
    var n, r, mid, up := t.slot.idx, t.right.slot.idx, Ptr(t.right.left), ParentOf(p);
    RotationSites(a, root, p, t, t.right, t.right.left);
    forall i | 0 <= i < |a|
      ensures LeftWrites(a, n, r, mid, up)[i] ==
                if i == n then a[n].(right := mid, parent := Some(r))
                else if i == r then a[r].(left := Some(n), parent := up)
                else if mid == Some(i) then a[i].(parent := Some(n))
                else if up == Some(i) then Replaced(a, up, n, r)[i]
                else a[i]
    {
      LeftWritesAt(a, n, r, mid, up, i);
    }
    LeftRotation(a, LeftWrites(a, n, r, mid, up), p, t, root, RootAfter(root, p, r));
  }

  lemma RightTurn(a: Arena, root: Option<nat>, p: Path, t: Tree)
    requires Focus(a, root, p, t) && t.Branch? && t.left.Branch?
    ensures var n, l, mid, up := t.slot.idx, t.left.slot.idx, Ptr(t.left.right), ParentOf(p);
            && n < |a| && l < |a| && InArena(a, mid) && InArena(a, up)
            && a[n].left == Some(l) && a[l].right == mid && Adopted(SetLeft(a, n, mid), mid, n)[n].parent == up
            && Focus(RightWrites(a, n, l, mid, up), RootAfter(root, p, l), p, RotateRight(t))
  {
    hide Focus, Indices, PathIndices, RightWrites;
    var n, l, mid, up := t.slot.idx, t.left.slot.idx, Ptr(t.left.right), ParentOf(p);
    RotationSites(a, root, p, t, t.left, t.left.right);
    forall i | 0 <= i < |a|
      ensures RightWrites(a, n, l, mid, up)[i] ==
                if i == n then a[n].(left := mid, parent := Some(l))
                else if i == l then a[l].(right := Some(n), parent := up)
                else if mid == Some(i) then a[i].(parent := Some(n))
                else if up == Some(i) then Replaced(a, up, n, l)[i]
                else a[i]
    {
      RightWritesAt(a, n, l, mid, up, i);
    }
    RightRotation(a, RightWrites(a, n, l, mid, up), p, t, root, RootAfter(root, p, l));
  }
}
