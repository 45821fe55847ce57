/** The SSTable index (src/ssindex/trie.rs): a trie over key bytes in a flat arena. */
module Tries {
  import opened Bytes

  datatype Child = Child(byte: Byte, idx: nat)

  datatype TrieNode = TrieNode(offset: nat, children: seq<Child>)

  type TrieArena = seq<TrieNode>

  const UNMARKED_FLAG := 0

  /** `offset | WORD_END_FLAG`: the top bit marks the end of a word. */
  function Marked(offset: nat): (r: nat)
  {
    offset % U63_LIMIT + U63_LIMIT
  }

  function GetOffset(n: TrieNode): (r: Option<nat>)
  {
    if n.offset == UNMARKED_FLAG then None else Some(n.offset % U63_LIMIT)
  }

  // ------------------------------------------------------------- child lists

  ghost predicate SortedChildren(cs: seq<Child>)
  {
    forall i, j :: 0 <= i < j < |cs| ==> cs[i].byte < cs[j].byte
  }

  /** The place of a byte in a sorted child list: what a binary search returns. */
  function LowerBound(cs: seq<Child>, c: Byte): (i: nat)
    ensures i <= |cs|
    ensures forall j :: 0 <= j < i ==> cs[j].byte < c
    ensures i < |cs| ==> c <= cs[i].byte
  {
    if cs == [] || c <= cs[0].byte then 0 else 1 + LowerBound(cs[1..], c)
  }

  datatype ChildSearch = Present(idx: nat) | Missing(position: nat)

  function GetChildIdx(n: TrieNode, c: Byte): (r: ChildSearch)
  {
    var i := LowerBound(n.children, c);
    if i < |n.children| && n.children[i].byte == c then Present(n.children[i].idx) else Missing(i)
  }

  /** The search finds a child of that byte if there is one. */
  lemma ChildFound(n: TrieNode, j: nat)
    requires SortedChildren(n.children) && j < |n.children|
    ensures GetChildIdx(n, n.children[j].byte) == Present(n.children[j].idx)
  {
    var i := LowerBound(n.children, n.children[j].byte);
    assert i <= j;
  }

  function InsertChild(cs: seq<Child>, pos: nat, c: Child): (r: seq<Child>)
    requires pos <= |cs|
  {
    cs[..pos] + [c] + cs[pos..]
  }

  lemma InsertedSorted(cs: seq<Child>, c: Child)
    requires SortedChildren(cs)
    requires LowerBound(cs, c.byte) < |cs| ==> cs[LowerBound(cs, c.byte)].byte != c.byte
    ensures SortedChildren(InsertChild(cs, LowerBound(cs, c.byte), c))
  {
    hide LowerBound;
    var pos := LowerBound(cs, c.byte);
    SortedAround(cs[..pos], c, cs[pos..]);
    assert cs == cs[..pos] + cs[pos..];
  }

  lemma SortedAround(a: seq<Child>, c: Child, b: seq<Child>)
    requires SortedChildren(a + b)
    requires forall i :: 0 <= i < |a| ==> a[i].byte < c.byte
    requires b != [] ==> c.byte < b[0].byte
    ensures SortedChildren(a + [c] + b)
  {
    var r := a + [c] + b;
    forall i, j | 0 <= i < j < |r|
      ensures r[i].byte < r[j].byte
    {
      if i < |a| {
        assert r[i] == (a + b)[i];
      } else if i > |a| {
        assert r[i] == (a + b)[i - 1];
      }
      if j < |a| {
        assert r[j] == (a + b)[j];
      } else if j > |a| {
        assert r[j] == (a + b)[j - 1] && b[0] == (a + b)[|a|];
      }
    }
  }

  // ------------------------------------------------------- what an arena means

  /** Node `n` is the child of node `i` for the last byte of its path. */
  ghost predicate ChildOf(a: TrieArena, paths: seq<Blob>, i: nat, j: nat)
    requires |a| == |paths| && i < |a| && j < |a[i].children|
  {
    var c := a[i].children[j];
    i < c.idx < |a| && paths[c.idx] == paths[i] + [c.byte]
  }

  ghost predicate HasParent(a: TrieArena, paths: seq<Blob>, n: nat)
    requires |a| == |paths| && n < |a|
  {
    exists i: nat, j: nat :: i < n && j < |a[i].children| && a[i].children[j].idx == n && ChildOf(a, paths, i, j)
  }

  /** Each node stands for one prefix: `paths[i]`. The root is first, children lists are sorted,
      links go forward and every other node hangs under its prefix. */
  ghost predicate PrefixTree(a: TrieArena, paths: seq<Blob>)
  {
    && |a| == |paths| <= U32_LIMIT
    && (|a| > 0 ==> paths[0] == [])
    && (forall i, j :: 0 <= i < j < |a| ==> paths[i] != paths[j])
    && (forall i :: 0 <= i < |a| ==> SortedChildren(a[i].children))
    && (forall i: nat, j: nat :: i < |a| && j < |a[i].children| ==> ChildOf(a, paths, i, j))
    && (forall n: nat :: 0 < n < |a| ==> HasParent(a, paths, n))
  }

  /** The marked nodes are the entries. */
  ghost predicate Entered(a: TrieArena, paths: seq<Blob>, entries: map<Blob, nat>)
    requires |a| == |paths|
  {
    && (forall i :: 0 <= i < |a| ==> (paths[i] in entries <==> a[i].offset != UNMARKED_FLAG))
    && (forall i :: 0 <= i < |a| && paths[i] in entries ==> a[i].offset == Marked(entries[paths[i]]))
    && (forall k :: k in entries ==> k in paths && entries[k] < U63_LIMIT)
  }

  lemma {:induction false} PrefixNode(a: TrieArena, paths: seq<Blob>, n: nat, len: nat) returns (m: nat)
    requires PrefixTree(a, paths) && n < |a| && len <= |paths[n]|
    ensures m <= n && paths[m] == paths[n][..len]
    decreases n
  {
    if len == |paths[n]| {
      m := n;
    } else {
      assert HasParent(a, paths, n);
      var i: nat, j: nat :| i < n && j < |a[i].children| && a[i].children[j].idx == n && ChildOf(a, paths, i, j);
      m := PrefixNode(a, paths, i, len);
      assert paths[n][..len] == paths[i][..len];
    }
  }

  /** A node for a prefix is reached from the node of the prefix one byte shorter. */
  lemma StepReaches(a: TrieArena, paths: seq<Blob>, i: nat, c: Byte, n: nat)
    requires PrefixTree(a, paths) && i < |a| && n < |a| && paths[n] == paths[i] + [c]
    ensures GetChildIdx(a[i], c) == Present(n)
  {
    assert HasParent(a, paths, n);
    var p: nat, j: nat :| p < n && j < |a[p].children| && a[p].children[j].idx == n && ChildOf(a, paths, p, j);
    assert paths[n][..|paths[n]| - 1] == paths[p] == paths[i];
    assert p == i;
    ChildFound(a[i], j);
  }

  lemma StepSound(a: TrieArena, paths: seq<Blob>, i: nat, c: Byte)
    requires PrefixTree(a, paths) && i < |a|
    ensures GetChildIdx(a[i], c).Present? ==>
              i < GetChildIdx(a[i], c).idx < |a| && paths[GetChildIdx(a[i], c).idx] == paths[i] + [c]
  {
    if GetChildIdx(a[i], c).Present? {
      assert ChildOf(a, paths, i, LowerBound(a[i].children, c));
    }
  }

  // ------------------------------------------------------ how many nodes there are

  ghost function Prefixes(keys: set<Blob>): (ps: set<Blob>)
  {
    set k, n | k in keys && 0 <= n <= |k| :: k[..n]
  }

  /** Every node leads to an entry. */
  ghost predicate Supported(paths: seq<Blob>, keys: set<Blob>)
  {
    forall n :: 0 <= n < |paths| ==> paths[n] in Prefixes(keys)
  }

  lemma SubsetSize<T>(a: set<T>, b: set<T>)
    requires a <= b
    ensures |a| <= |b|
  {
    assert b == a + (b - a);
  }

  lemma PrefixesGrow(a: set<Blob>, b: set<Blob>)
    requires a <= b
    ensures Prefixes(a) <= Prefixes(b) && |Prefixes(a)| <= |Prefixes(b)|
  {
    SubsetSize(Prefixes(a), Prefixes(b));
  }

  /** One key brings at most its own prefixes. */
  lemma PrefixesOfOne(keys: set<Blob>, k: Blob)
    ensures |Prefixes(keys + {k})| <= |Prefixes(keys)| + |k| + 1
  {
    var own := set n | 0 <= n <= |k| :: k[..n];
    assert Prefixes(keys + {k}) == Prefixes(keys) + own;
    OwnPrefixes(k, |k|);
  }

  lemma {:induction false} OwnPrefixes(k: Blob, m: nat)
    requires m <= |k|
    ensures |set n | 0 <= n <= m :: k[..n]| <= m + 1
  {
    var all := set n | 0 <= n <= m :: k[..n];
    if m == 0 {
      assert all == {k[..0]};
    } else {
      OwnPrefixes(k, m - 1);
      assert all == (set n | 0 <= n <= m - 1 :: k[..n]) + {k[..m]};
    }
  }

  lemma SupportedMore(paths: seq<Blob>, a: set<Blob>, b: set<Blob>)
    requires Supported(paths, a) && a <= b
    ensures Supported(paths, b)
  {
    PrefixesGrow(a, b);
  }

  lemma PrefixOf(keys: set<Blob>, k: Blob, n: nat)
    requires k in keys && n <= |k|
    ensures k[..n] in Prefixes(keys)
  {
  }

  lemma {:induction false} DistinctCount<T(!new)>(s: seq<T>, all: set<T>)
    requires forall i, j :: 0 <= i < j < |s| ==> s[i] != s[j]
    requires forall i :: 0 <= i < |s| ==> s[i] in all
    ensures |s| <= |all|
  {
    if s != [] {
      var n := |s| - 1;
      DistinctCount(s[..n], all - {s[n]});
    }
  }

  /** So there are no more nodes than prefixes of keys. */
  lemma PathCount(a: TrieArena, paths: seq<Blob>, keys: set<Blob>)
    requires PrefixTree(a, paths) && Supported(paths, keys)
    ensures |a| == |paths| <= |Prefixes(keys)|
  {
    DistinctCount(paths, Prefixes(keys));
  }

  // --------------------------------------------------------------------- lookup

  /** The end of a lookup. It is undetermined where the arena is no trie: an index past it, or a
      child list out of order. */
  datatype Found = At(offset: nat) | Absent | Undetermined

  /** The rest of a key, followed from a node of any arena. */
  ghost function Walk(a: TrieArena, i: nat, rest: Blob): (r: Found)
    decreases |rest|
  {
    if i >= |a| || !SortedChildren(a[i].children) then Undetermined
    else if rest == [] then
      match GetOffset(a[i])
      case None => Absent
      case Some(offset) => At(offset)
    else
      match GetChildIdx(a[i], rest[0])
      case Missing(_) => Absent
      case Present(idx) => Walk(a, idx, rest[1..])
  }

  ghost function Find(a: TrieArena, key: Blob): (r: Found)
  {
    if a == [] then Absent else Walk(a, 0, key)
  }

  lemma {:induction false} WalkFinds(a: TrieArena, ps: seq<Blob>, entries: map<Blob, nat>, i: nat, key: Blob, j: nat)
    requires PrefixTree(a, ps) && Entered(a, ps, entries) && i < |a| && j <= |key| && ps[i] == key[..j]
    ensures Walk(a, i, key[j..]) == if key in entries then At(entries[key]) else Absent
    decreases |key| - j
  {
    hide PrefixTree, Entered;
    ListSorted(a, ps, i);
    if j == |key| {
      assert key[..j] == key;
      AtNode(a, ps, entries, i);
    } else {
      assert key[j..][0] == key[j] && key[j..][1..] == key[j + 1..];
      match GetChildIdx(a[i], key[j])
      case Missing(_) => DeadEnd(a, ps, entries, i, key, j);
      case Present(n) =>
        StepSound(a, ps, i, key[j]);
        assert key[..j] + [key[j]] == key[..j + 1];
        WalkFinds(a, ps, entries, n, key, j + 1);
    }
  }

  /** In a trie every lookup is determined: it finds exactly the entries. */
  lemma FindExact(a: TrieArena, ps: seq<Blob>, entries: map<Blob, nat>, key: Blob)
    requires PrefixTree(a, ps) && Entered(a, ps, entries)
    ensures Find(a, key) == if key in entries then At(entries[key]) else Absent
  {
    if a == [] {
      NoNode(a, ps, entries, key);
    } else {
      assert key[..0] == [] && key[0..] == key;
      WalkFinds(a, ps, entries, 0, key, 0);
    }
  }

  // --------------------------------------------------------------- operations

  class Trie {
    var arena: TrieArena
    ghost var paths: seq<Blob>
    ghost var entries: map<Blob, nat>

    /** Nodes for prefixes, some of which may not lead to an entry yet. */
    ghost predicate Shape()
      reads this
    {
      PrefixTree(arena, paths) && Entered(arena, paths, entries)
    }

    ghost predicate Valid()
      reads this
    {
      Shape() && Supported(paths, entries.Keys)
    }

    constructor ()
      ensures Valid() && arena == [] && entries == map[]
    {
      arena, paths, entries := [], [], map[];
    }

    /** An arena read back from disk, whatever it says. */
    constructor FromArena(a: TrieArena, ghost paths: seq<Blob>, ghost entries: map<Blob, nat>)
      ensures arena == a && this.paths == paths && this.entries == entries
    {
      arena, this.paths, this.entries := a, paths, entries;
    }

    /** The child for a byte, created if it is not there. No other prefix moves. */
    method GetOrInsertNode(i: nat, c: Byte) returns (n: nat)
      requires Shape() && i < |arena| < U32_LIMIT
      modifies this`arena, this`paths
      ensures Shape() && n < |arena| && paths[n] == old(paths)[i] + [c]
      ensures paths == old(paths) || paths == old(paths) + [old(paths)[i] + [c]]
    {
      hide PrefixTree, Entered;
      ghost var a, ps := arena, paths;
      Sizes(arena, paths);
      StepSound(arena, paths, i, c);
      match GetChildIdx(arena[i], c) {
        case Present(idx) =>
          n := idx;
        case Missing(pos) =>
          n := |arena|;
          arena := arena + [TrieNode(UNMARKED_FLAG, [])];
          arena := arena[i := arena[i].(children := InsertChild(arena[i].children, pos, Child(c, n % U32_LIMIT)))];
          paths := paths + [paths[i] + [c]];
          GrowTree(a, ps, i, c, arena, paths);
          GrowHolds(a, ps, i, c, arena, paths, entries);
      }
    }

    /** Every insertion is a map update, whatever prefixes the keys share. */
    method Insert(key: Blob, offset: nat)
      requires Valid() && |Prefixes(entries.Keys + {key})| < U32_LIMIT
      modifies this
      ensures Valid() && entries == old(entries)[key := offset % U63_LIMIT]
    {
      hide PrefixTree, Entered, Prefixes, Supported;
      ghost var keys := entries.Keys + {key};
      SupportedMore(paths, entries.Keys, keys);
      Sizes(arena, paths);
      assert key[..0] == [];
      if arena == [] {
        arena := [TrieNode(UNMARKED_FLAG, [])];
        paths := [[]];
        RootOnly(arena, paths, entries);
        SupportedPrefix([], keys, key, 0);
        assert [] + [key[..0]] == paths;
      }
      Sizes(arena, paths);
      var i: nat := 0;
      for j := 0 to |key|
        invariant Shape() && Supported(paths, keys) && entries == old(entries)
        invariant i < |arena| == |paths| && paths[i] == key[..j]
      {
        ghost var before := paths;
        PathCount(arena, paths, keys);
        i := GetOrInsertNode(i, key[j]);
        Sizes(arena, paths);
        assert key[..j] + [key[j]] == key[..j + 1];
        SupportedPrefix(before, keys, key, j + 1);
      }
      assert key[..|key|] == key;
      MarkNode(arena, paths, entries, i, offset);
      entries := entries[key := offset % U63_LIMIT];
      arena := arena[i := arena[i].(offset := Marked(offset))];
      assert entries.Keys == keys;
    }

    /** Lookup on any arena: right wherever it is determined. In a trie that is everywhere, and it
        answers for exactly the inserted keys. */
    method Get(key: Blob) returns (r: Found)
      ensures !Find(arena, key).Undetermined? ==> r == Find(arena, key)
      ensures Shape() ==> r == if key in entries then At(entries[key]) else Absent
    {
      if Shape() {
        FindExact(arena, paths, entries, key);
      }
      hide PrefixTree, Entered, GetChildIdx, SortedChildren;
      if arena == [] {
        return Absent;
      }
      var i: nat := 0;
      assert key[0..] == key;
      for j := 0 to |key|
        invariant !Find(arena, key).Undetermined? ==> Walk(arena, i, key[j..]) == Find(arena, key)
      {
        assert key[j..][0] == key[j] && key[j..][1..] == key[j + 1..];
        if i >= |arena| { return Undetermined; }
        match GetChildIdx(arena[i], key[j]) {
          case Missing(_) =>
            return Absent;
          case Present(idx) =>
            i := idx;
        }
      }
      if i >= |arena| { return Undetermined; }
      match GetOffset(arena[i]) {
        case None => r := Absent;
        case Some(offset) => r := At(offset);
      }
    }
  }

  lemma SupportedPrefix(paths: seq<Blob>, keys: set<Blob>, key: Blob, n: nat)
    requires Supported(paths, keys) && key in keys && n <= |key|
    ensures Supported(paths + [key[..n]], keys)
  {
    PrefixOf(keys, key, n);
  }

  lemma Sizes(a: TrieArena, paths: seq<Blob>)
    requires PrefixTree(a, paths)
    ensures |a| == |paths| && (|a| > 0 ==> paths[0] == [])
  {
  }

  lemma RootOnly(a: TrieArena, paths: seq<Blob>, entries: map<Blob, nat>)
    requires a == [TrieNode(UNMARKED_FLAG, [])] && paths == [[]]
    requires PrefixTree([], []) && Entered([], [], entries)
    ensures PrefixTree(a, paths) && Entered(a, paths, entries)
  {
    assert forall k :: k in entries ==> k in [];
  }

  /** The arena with one more node, for `paths[i] + [c]`. */
  ghost predicate Grown(a: TrieArena, ps: seq<Blob>, i: nat, c: Byte, b: TrieArena, qs: seq<Blob>)
  {
    && i < |a| == |ps| < U32_LIMIT && GetChildIdx(a[i], c).Missing?
    && qs == ps + [ps[i] + [c]]
    && |b| == |a| + 1 && b[|a|] == TrieNode(UNMARKED_FLAG, [])
    && (forall n :: 0 <= n < |a| && n != i ==> b[n] == a[n])
    && b[i] == a[i].(children := InsertChild(a[i].children, LowerBound(a[i].children, c), Child(c, |a|)))
  }

  lemma GrowTree(a: TrieArena, ps: seq<Blob>, i: nat, c: Byte, b: TrieArena, qs: seq<Blob>)
    requires PrefixTree(a, ps) && Grown(a, ps, i, c, b, qs)
    ensures PrefixTree(b, qs)
  {
    var pos := LowerBound(a[i].children, c);
    GrowPaths(a, ps, i, c);
    InsertedSorted(a[i].children, Child(c, |a|));
    forall n: nat, j: nat | n < |b| && j < |b[n].children|
      ensures ChildOf(b, qs, n, j)
    {
      if n == i {
        if j != pos {
          var j' := if j < pos then j else j - 1;
          assert b[n].children[j] == a[i].children[j'];
          assert ChildOf(a, ps, i, j');
        }
      } else if n < |a| {
        assert ChildOf(a, ps, n, j);
      }
    }
    forall n: nat | 0 < n < |b|
      ensures HasParent(b, qs, n)
    {
      GrowParent(a, ps, i, c, b, qs, n);
    }
  }

  /** The new prefix is not among the old ones: its node would have been found. */
  lemma GrowPaths(a: TrieArena, ps: seq<Blob>, i: nat, c: Byte)
    requires PrefixTree(a, ps) && i < |a| && GetChildIdx(a[i], c).Missing?
    ensures ps[i] + [c] !in ps
  {
    if n: nat :| n < |ps| && ps[n] == ps[i] + [c] {
      StepReaches(a, ps, i, c, n);
    }
  }

  lemma GrowParent(a: TrieArena, ps: seq<Blob>, i: nat, c: Byte, b: TrieArena, qs: seq<Blob>, n: nat)
    requires PrefixTree(a, ps) && Grown(a, ps, i, c, b, qs) && 0 < n < |b|
    ensures HasParent(b, qs, n)
  {
    var pos := LowerBound(a[i].children, c);
    if n == |a| {
      assert b[i].children[pos] == Child(c, n);
      assert ChildOf(b, qs, i, pos);
    } else {
      assert HasParent(a, ps, n);
      var p: nat, j: nat :| p < n && j < |a[p].children| && a[p].children[j].idx == n && ChildOf(a, ps, p, j);
      var j' := if p == i && j >= pos then j + 1 else j;
      assert b[p].children[j'] == a[p].children[j];
      assert ChildOf(b, qs, p, j');
    }
  }

  lemma GrowHolds(a: TrieArena, ps: seq<Blob>, i: nat, c: Byte, b: TrieArena, qs: seq<Blob>, entries: map<Blob, nat>)
    requires PrefixTree(a, ps) && Entered(a, ps, entries) && Grown(a, ps, i, c, b, qs)
    ensures |b| == |qs| && Entered(b, qs, entries)
  {
    GrowPaths(a, ps, i, c);
    assert forall k :: k in entries ==> k in ps;
  }

  lemma MarkNode(a: TrieArena, ps: seq<Blob>, entries: map<Blob, nat>, i: nat, offset: nat)
    requires PrefixTree(a, ps) && Entered(a, ps, entries) && i < |a|
    ensures var b := a[i := a[i].(offset := Marked(offset))];
            PrefixTree(b, ps) && Entered(b, ps, entries[ps[i] := offset % U63_LIMIT])
  {
    var b := a[i := a[i].(offset := Marked(offset))];
    forall n: nat, j: nat | n < |b| && j < |b[n].children|
      ensures ChildOf(b, ps, n, j)
    {
      assert ChildOf(a, ps, n, j);
    }
    forall n: nat | 0 < n < |b|
      ensures HasParent(b, ps, n)
    {
      assert HasParent(a, ps, n);
      var p: nat, j: nat :| p < n && j < |a[p].children| && a[p].children[j].idx == n && ChildOf(a, ps, p, j);
      assert ChildOf(b, ps, p, j);
    }
    assert ps[i] in ps;
    assert Marked(offset % U63_LIMIT) == Marked(offset);
  }

  lemma NoNode(a: TrieArena, ps: seq<Blob>, entries: map<Blob, nat>, key: Blob)
    requires a == [] && PrefixTree(a, ps) && Entered(a, ps, entries)
    ensures key !in entries
  {
  }

  /** A missing child means the key was never inserted. */
  lemma DeadEnd(a: TrieArena, ps: seq<Blob>, entries: map<Blob, nat>, i: nat, key: Blob, j: nat)
    requires PrefixTree(a, ps) && Entered(a, ps, entries)
    requires i < |a| && j < |key| && ps[i] == key[..j] && GetChildIdx(a[i], key[j]).Missing?
    ensures key !in entries
  {
    if key in entries {
      var n: nat :| n < |ps| && ps[n] == key;
      var m := PrefixNode(a, ps, n, j + 1);
      assert ps[m] == ps[i] + [key[j]];
      StepReaches(a, ps, i, key[j], m);
    }
  }

  lemma AtNode(a: TrieArena, ps: seq<Blob>, entries: map<Blob, nat>, i: nat)
    requires PrefixTree(a, ps) && Entered(a, ps, entries) && i < |a|
    ensures GetOffset(a[i]) == if ps[i] in entries then Some(entries[ps[i]]) else None
  {
  }

  // ------------------------------------------------------------ serialization

  const TRIE_HEADER_SIZE := 4
  const TRIE_NODE_HEADER_SIZE := 9
  const SIZE_PER_CHILD_NODE := 5

  function ChildrenBytes(cs: seq<Child>): (r: Blob)
    ensures |r| == SIZE_PER_CHILD_NODE * |cs|
  {
    if cs == [] then [] else [cs[0].byte] + BeBytes(cs[0].idx, 4) + ChildrenBytes(cs[1..])
  }

  /** The child count is one byte: a node with 256 children writes a zero. */
  function NodeBytes(n: TrieNode): (r: Blob)
    ensures |r| == TRIE_NODE_HEADER_SIZE + SIZE_PER_CHILD_NODE * |n.children|
  {
    [|n.children| % 256] + BeBytes(n.offset, 8) + ChildrenBytes(n.children)
  }

  function NodesBytes(a: TrieArena): (r: Blob)
  {
    if a == [] then [] else NodeBytes(a[0]) + NodesBytes(a[1..])
  }

  function ArenaBytes(a: TrieArena): (r: Blob)
  {
    BeBytes(|a| % U32_LIMIT, 4) + NodesBytes(a)
  }

  /** The bytes of an index with the one key `c`: two nodes, the root without an offset and its child
      with the marked one. */
  lemma OneKeyIndex(c: Byte, offset: Byte)
    ensures ArenaBytes([TrieNode(UNMARKED_FLAG, [Child(c, 1)]), TrieNode(Marked(offset), [])]) ==
              [0, 0, 0, 2] + [1, 0, 0, 0, 0, 0, 0, 0, 0, c, 0, 0, 0, 1] + [0, 0x80, 0, 0, 0, 0, 0, 0, offset]
  {
    hide BeBytes, NodeBytes;
    var root, leaf := TrieNode(UNMARKED_FLAG, [Child(c, 1)]), TrieNode(Marked(offset), []);
    FourBytes(2);
    RootBytes(c);
    LeafBytes(offset);
    assert [root, leaf][1..] == [leaf] && [leaf][1..] == [];
    assert NodesBytes([leaf]) == NodeBytes(leaf);
  }

  lemma RootBytes(c: Byte)
    ensures NodeBytes(TrieNode(UNMARKED_FLAG, [Child(c, 1)])) == [1, 0, 0, 0, 0, 0, 0, 0, 0, c, 0, 0, 0, 1]
  {
    hide BeBytes;
    FourBytes(1);
    EightBytes(0, 0);
    assert [Child(c, 1)][1..] == [];
    assert ChildrenBytes([Child(c, 1)]) == [c, 0, 0, 0, 1];
  }

  lemma LeafBytes(offset: Byte)
    ensures NodeBytes(TrieNode(Marked(offset), [])) == [0, 0x80, 0, 0, 0, 0, 0, 0, offset]
  {
    hide BeBytes;
    EightBytes(0x80, offset);
  }

  /** Reading back; None is an index past the buffer. */
  function ReadChildren(s: Blob, count: nat): (r: Option<(seq<Child>, Blob)>)
    decreases count
  {
    if count == 0 then Some(([], s))
    else if |s| < SIZE_PER_CHILD_NODE then None
    else match ReadChildren(s[5..], count - 1)
         case None => None
         case Some((cs, rest)) => Some(([Child(s[0], FromBe(s[1..5]))] + cs, rest))
  }

  function ReadNode(s: Blob): (r: Option<(TrieNode, Blob)>)
  {
    if |s| < TRIE_NODE_HEADER_SIZE then None
    else match ReadChildren(s[9..], s[0])
         case None => None
         case Some((cs, rest)) => Some((TrieNode(FromBe(s[1..9]), cs), rest))
  }

  function ReadNodes(s: Blob, count: nat): (r: Option<TrieArena>)
    ensures r.Some? ==> |r.value| == count
    decreases count
  {
    if count == 0 then Some([])
    else match ReadNode(s)
         case None => None
         case Some((n, rest)) =>
           match ReadNodes(rest, count - 1)
           case None => None
           case Some(a) => Some([n] + a)
  }

  function ReadArena(s: Blob): (r: Option<TrieArena>)
  {
    if |s| < TRIE_HEADER_SIZE then None else ReadNodes(s[4..], FromBe(s[..4]))
  }

  /** The fields fit their widths: a u64 offset, u32 links. */
  ghost predicate Sized(n: TrieNode)
  {
    && n.offset < U64_LIMIT && |n.children| <= 256
    && forall j :: 0 <= j < |n.children| ==> n.children[j].idx < U32_LIMIT
  }

  lemma ChildFields(c: Child, more: Blob, tail: Blob)
    requires c.idx < U32_LIMIT
    ensures var s := [c.byte] + BeBytes(c.idx, 4) + more + tail;
            s[0] == c.byte && FromBe(s[1..5]) == c.idx && s[5..] == more + tail
  {
    hide BeBytes, FromBe;
    var s := [c.byte] + BeBytes(c.idx, 4) + more + tail;
    Pow256Widths();
    BeRoundTrip(c.idx, 4);
    assert s[1..5] == BeBytes(c.idx, 4);
    assert s[5..] == more + tail;
  }

  lemma {:induction false} ChildrenRoundTrip(cs: seq<Child>, tail: Blob)
    requires forall j :: 0 <= j < |cs| ==> cs[j].idx < U32_LIMIT
    ensures ReadChildren(ChildrenBytes(cs) + tail, |cs|) == Some((cs, tail))
  {
    if cs == [] {
      assert ChildrenBytes(cs) + tail == tail;
    } else {
      hide BeBytes, FromBe;
      ChildrenRoundTrip(cs[1..], tail);
      ChildFields(cs[0], ChildrenBytes(cs[1..]), tail);
      assert cs == [cs[0]] + cs[1..];
    }
  }

  /** A node reads back as itself unless it has 256 children: then it reads back childless. */
  lemma NodeRoundTrip(n: TrieNode, tail: Blob)
    requires Sized(n)
    ensures |n.children| <= 255 ==> ReadNode(NodeBytes(n) + tail) == Some((n, tail))
    ensures |n.children| == 256 ==>
              ReadNode(NodeBytes(n) + tail).Some? && ReadNode(NodeBytes(n) + tail).value.0.children == []
  {
    hide BeBytes, FromBe, ReadChildren;
    var s := NodeBytes(n) + tail;
    assert s[1..9] == BeBytes(n.offset, 8);
    assert s[9..] == ChildrenBytes(n.children) + tail;
    Pow256Widths();
    BeRoundTrip(n.offset, 8);
    if |n.children| <= 255 {
      ChildrenRoundTrip(n.children, tail);
    } else {
      NoChildren(s[9..]);
    }
  }

  lemma NoChildren(s: Blob)
    ensures ReadChildren(s, 0) == Some(([], s))
  {
  }

  lemma HeadAndTail(a: TrieArena)
    requires a != []
    ensures (forall i :: 0 <= i < |a| ==> |a[i].children| <= 255)
       <==> |a[0].children| <= 255 && forall i :: 0 <= i < |a[1..]| ==> |a[1..][i].children| <= 255
  {
    assert forall i :: 0 <= i < |a[1..]| ==> a[1..][i] == a[i + 1];
    assert forall i :: 1 <= i < |a| ==> a[i] == a[1..][i - 1];
  }

  lemma {:induction false} NodesRoundTrip(a: TrieArena)
    requires forall i :: 0 <= i < |a| ==> Sized(a[i])
    ensures ReadNodes(NodesBytes(a), |a|) == Some(a) <==> forall i :: 0 <= i < |a| ==> |a[i].children| <= 255
  {
    if a != [] {
      hide NodeBytes, ReadNode;
      NodeRoundTrip(a[0], NodesBytes(a[1..]));
      NodesRoundTrip(a[1..]);
      assert a == [a[0]] + a[1..];
      HeadAndTail(a);
      match ReadNodes(NodesBytes(a), |a|) {
        case None =>
        case Some(b) =>
          assert b[0] == ReadNode(NodesBytes(a)).value.0;
          if |a[0].children| <= 255 {
            assert b[1..] == ReadNodes(NodesBytes(a[1..]), |a| - 1).value;
          }
      }
    }
  }

  /** An index survives the disk exactly when no node has all 256 children. */
  lemma RoundTripExact(a: TrieArena)
    requires |a| < U32_LIMIT && forall i :: 0 <= i < |a| ==> Sized(a[i])
    ensures ReadArena(ArenaBytes(a)) == Some(a) <==> forall i :: 0 <= i < |a| ==> |a[i].children| <= 255
  {
    hide BeBytes, FromBe;
    var s := ArenaBytes(a);
    assert s[..4] == BeBytes(|a|, 4) && s[4..] == NodesBytes(a);
    Pow256Widths();
    BeRoundTrip(|a|, 4);
    NodesRoundTrip(a);
  }

  // ------------------------------------------ the source's loops over buffers

  lemma {:induction false} ChildrenSnoc(cs: seq<Child>, c: Child)
    ensures ChildrenBytes(cs + [c]) == ChildrenBytes(cs) + ([c.byte] + BeBytes(c.idx, 4))
  {
    hide BeBytes;
    if cs == [] {
      assert [] + [c] == [c];
      assert ChildrenBytes([c][1..]) == [];
    } else {
      assert (cs + [c])[1..] == cs[1..] + [c];
      ChildrenSnoc(cs[1..], c);
    }
  }

  lemma {:induction false} NodesSnoc(a: TrieArena, n: TrieNode)
    ensures NodesBytes(a + [n]) == NodesBytes(a) + NodeBytes(n)
  {
    hide NodeBytes;
    if a == [] {
      assert [] + [n] == [n];
      assert NodesBytes([n][1..]) == [];
    } else {
      assert (a + [n])[1..] == a[1..] + [n];
      NodesSnoc(a[1..], n);
    }
  }

  function SerializedSize(a: TrieArena): (n: nat)
  {
    if a == [] then TRIE_HEADER_SIZE
    else SerializedSize(a[..|a| - 1]) + TRIE_NODE_HEADER_SIZE + SIZE_PER_CHILD_NODE * |a[|a| - 1].children|
  }

  lemma {:induction false} SerializedSizeExact(a: TrieArena)
    ensures SerializedSize(a) == |ArenaBytes(a)|
  {
    hide NodeBytes, BeBytes;
    if a != [] {
      SerializedSizeExact(a[..|a| - 1]);
      NodesSnoc(a[..|a| - 1], a[|a| - 1]);
      assert a == a[..|a| - 1] + [a[|a| - 1]];
    }
  }

  method SerializeIntoBuffer(n: TrieNode, given: Blob, at: nat) returns (buffer: Blob, offset: nat)
    requires at + |NodeBytes(n)| <= |given|
    ensures offset == at + |NodeBytes(n)| && buffer == Splice(given, at, NodeBytes(n))
  {
    hide Splice, BeBytes;
    ghost var head := [|n.children| % 256] + BeBytes(n.offset, 8);
    buffer, offset := given, at;
    buffer := Splice(buffer, offset, [|n.children| % 256]);
    offset := offset + 1;
    buffer := Splice(buffer, offset, BeBytes(n.offset, 8));
    offset := offset + 8;
    WriteTwo(given, at, [|n.children| % 256], BeBytes(n.offset, 8));
    assert head + ChildrenBytes(n.children[..0]) == head;
    for j := 0 to |n.children|
      invariant offset == at + 9 + 5 * j
      invariant buffer == Splice(given, at, head + ChildrenBytes(n.children[..j]))
    {
      var c := n.children[j];
      ghost var done := head + ChildrenBytes(n.children[..j]);
      assert n.children[..j + 1] == n.children[..j] + [c];
      ChildrenSnoc(n.children[..j], c);
      WriteThree(given, at, done, [c.byte], BeBytes(c.idx, 4));
      assert done + [c.byte] + BeBytes(c.idx, 4) == head + ChildrenBytes(n.children[..j + 1]);
      buffer := Splice(buffer, offset, [c.byte]);
      offset := offset + 1;
      buffer := Splice(buffer, offset, BeBytes(c.idx, 4));
      offset := offset + 4;
    }
    assert n.children[..|n.children|] == n.children;
  }

  /** Fills exactly the computed size. */
  method Serialize(a: TrieArena) returns (buffer: Blob)
    ensures buffer == ArenaBytes(a) && |buffer| == SerializedSize(a)
  {
    hide Splice, BeBytes, NodeBytes, NodesBytes;
    SerializedSizeExact(a);
    var total := SerializedSize(a);
    ghost var empty := Zeros(total);
    buffer := Zeros(total);
    var offset := 0;
    var header := BeBytes(|a| % U32_LIMIT, 4);
    buffer := Splice(buffer, offset, header);
    offset := offset + 4;
    NoNodes();
    assert a[..0] == [] && header + NodesBytes(a[..0]) == header;
    for i := 0 to |a|
      invariant offset == |header + NodesBytes(a[..i])| <= total
      invariant buffer == Splice(empty, 0, header + NodesBytes(a[..i]))
    {
      ghost var done := header + NodesBytes(a[..i]);
      assert a[..i + 1] == a[..i] + [a[i]];
      NodesSnoc(a[..i], a[i]);
      NodesPrefix(a, i + 1);
      WriteTwo(empty, 0, done, NodeBytes(a[i]));
      assert done + NodeBytes(a[i]) == header + NodesBytes(a[..i + 1]);
      buffer, offset := SerializeIntoBuffer(a[i], buffer, offset);
    }
    assert a[..|a|] == a;
    WriteAll(empty, ArenaBytes(a));
  }

  lemma NoNodes()
    ensures NodesBytes([]) == []
  {
  }

  lemma {:induction false} NodesPrefix(a: TrieArena, i: nat)
    requires i <= |a|
    ensures |NodesBytes(a[..i])| <= |NodesBytes(a)|
    decreases |a| - i
  {
    hide NodeBytes, NodesBytes;
    if i < |a| {
      NodesPrefix(a, i + 1);
      assert a[..i + 1] == a[..i] + [a[i]];
      NodesSnoc(a[..i], a[i]);
    } else {
      assert a[..i] == a;
    }
  }

  /** `done` and what `ahead` still yields make up `all`. */
  ghost predicate Ahead(all: Option<(seq<Child>, Blob)>, done: seq<Child>, ahead: Option<(seq<Child>, Blob)>)
  {
    && (all.None? <==> ahead.None?)
    && (all.Some? ==> all.value.0 == done + ahead.value.0 && all.value.1 == ahead.value.1)
  }

  lemma AheadStep(all: Option<(seq<Child>, Blob)>, done: seq<Child>, c: Child, t: Blob, count: nat)
    requires count > 0 && |t| >= 5 && c == Child(t[0], FromBe(t[1..5]))
    requires Ahead(all, done, ReadChildren(t, count))
    ensures Ahead(all, done + [c], ReadChildren(t[5..], count - 1))
  {
    hide FromBe;
    if all.Some? {
      var cs := ReadChildren(t[5..], count - 1).value.0;
      assert done + ([c] + cs) == done + [c] + cs;
    }
  }

  method DeserializeNode(buffer: Blob, at: nat) returns (r: Option<TrieNode>, offset: nat)
    requires at <= |buffer|
    ensures r.None? <==> ReadNode(buffer[at..]).None?
    ensures r.Some? ==> at <= offset <= |buffer| && ReadNode(buffer[at..]) == Some((r.value, buffer[offset..]))
  {
    hide FromBe;
    offset := at;
    if |buffer| < at + 9 { return None, offset; }
    ghost var s := buffer[at..];
    var count := buffer[offset];
    offset := offset + 1;
    var mark := FromBe(buffer[offset..offset + 8]);
    assert buffer[offset..offset + 8] == s[1..9];
    offset := offset + 8;
    assert buffer[offset..] == s[9..];
    ghost var all := ReadChildren(s[9..], count);
    var children: seq<Child> := [];
    for i := 0 to count
      invariant at + 9 <= offset <= |buffer|
      invariant Ahead(all, children, ReadChildren(buffer[offset..], count - i))
    {
      if |buffer| < offset + 5 { return None, offset; }
      ghost var t := buffer[offset..];
      var c := buffer[offset];
      offset := offset + 1;
      assert buffer[offset..offset + 4] == t[1..5] && buffer[offset + 4..] == t[5..];
      var idx := FromBe(buffer[offset..offset + 4]);
      offset := offset + 4;
      AheadStep(all, children, Child(c, idx), t, count - i);
      children := children + [Child(c, idx)];
    }
    assert children + [] == children;
    r := Some(TrieNode(mark, children));
  }

  ghost predicate AheadNodes(all: Option<TrieArena>, done: TrieArena, ahead: Option<TrieArena>)
  {
    && (all.None? <==> ahead.None?)
    && (all.Some? ==> all.value == done + ahead.value)
  }

  lemma AheadNodesStep(all: Option<TrieArena>, done: TrieArena, n: TrieNode, s: Blob, rest: Blob, count: nat)
    requires count > 0 && ReadNode(s) == Some((n, rest))
    requires AheadNodes(all, done, ReadNodes(s, count))
    ensures AheadNodes(all, done + [n], ReadNodes(rest, count - 1))
  {
    hide ReadNode;
    if all.Some? {
      var a := ReadNodes(rest, count - 1).value;
      assert done + ([n] + a) == done + [n] + a;
    }
  }

  method Deserialize(buffer: Blob) returns (r: Option<TrieArena>)
    ensures r == ReadArena(buffer)
  {
    hide FromBe, ReadNode;
    if |buffer| < 4 { return None; }
    var arenaSize := FromBe(buffer[..4]);
    var offset := 4;
    var arena: TrieArena := [];
    ghost var all := ReadNodes(buffer[4..], arenaSize);
    for i := 0 to arenaSize
      invariant 4 <= offset <= |buffer|
      invariant AheadNodes(all, arena, ReadNodes(buffer[offset..], arenaSize - i))
    {
      var node, next := DeserializeNode(buffer, offset);
      if node.None? { return None; }
      AheadNodesStep(all, arena, node.value, buffer[offset..], buffer[next..], arenaSize - i);
      arena := arena + [node.value];
      offset := next;
    }
    assert arena + [] == arena;
    r := Some(arena);
  }

  // ------------------------------------------------------------------ fan-out

  /** Some key continues the prefix `p` with the byte `c`. */
  ghost predicate Continues(keys: set<Blob>, p: Blob, c: Byte)
  {
    exists k :: k in keys && p + [c] <= k
  }

  ghost predicate NarrowAt(keys: set<Blob>, p: Blob)
  {
    exists c: Byte :: !Continues(keys, p, c)
  }

  /** After no prefix do all 256 bytes follow. */
  ghost predicate Narrow(keys: set<Blob>)
  {
    forall p: Blob :: NarrowAt(keys, p)
  }

  lemma PrefixByte(p: Blob, b: Byte, k: Blob)
    requires p + [b] <= k
    ensures |p| < |k| && k[|p|] == b
  {
    assert k[|p|] == (p + [b])[|p|];
  }

  /** Keys that avoid one byte, as UTF-8 text avoids 0xFF, are narrow. */
  lemma AvoidedByteIsNarrow(keys: set<Blob>, b: Byte)
    requires forall k, i :: k in keys && 0 <= i < |k| ==> k[i] != b
    ensures Narrow(keys)
  {
    forall p: Blob
      ensures NarrowAt(keys, p)
    {
      forall k | k in keys
        ensures !(p + [b] <= k)
      {
        if p + [b] <= k {
          PrefixByte(p, b, k);
        }
      }
      assert !Continues(keys, p, b);
    }
  }

  lemma {:induction false} ByteAtLeast(cs: seq<Child>, i: nat)
    requires SortedChildren(cs) && i < |cs|
    ensures cs[i].byte >= i
  {
    if i > 0 {
      ByteAtLeast(cs, i - 1);
      assert cs[i - 1].byte < cs[i].byte;
    }
  }

  lemma {:induction false} ByteAtMost(cs: seq<Child>, i: nat)
    requires SortedChildren(cs) && i < |cs|
    ensures cs[i].byte <= 256 - |cs| + i
    decreases |cs| - i
  {
    if i + 1 < |cs| {
      ByteAtMost(cs, i + 1);
      assert cs[i].byte < cs[i + 1].byte;
    }
  }

  /** Narrow keys make an index that survives the disk. */
  lemma NarrowFits(a: TrieArena, paths: seq<Blob>, entries: map<Blob, nat>)
    requires PrefixTree(a, paths) && Entered(a, paths, entries) && |a| < U32_LIMIT
    requires Supported(paths, entries.Keys) && Narrow(entries.Keys)
    ensures ReadArena(ArenaBytes(a)) == Some(a)
  {
    hide Narrow, Supported, Sized, ReadArena, ArenaBytes;
    forall i | 0 <= i < |a|
      ensures Sized(a[i]) && |a[i].children| <= 255
    {
      NarrowNode(a, paths, entries, i);
    }
    RoundTripExact(a);
  }

  lemma NarrowNode(a: TrieArena, paths: seq<Blob>, entries: map<Blob, nat>, i: nat)
    requires PrefixTree(a, paths) && Entered(a, paths, entries) && |a| < U32_LIMIT && i < |a|
    requires Supported(paths, entries.Keys) && Narrow(entries.Keys)
    ensures Sized(a[i]) && |a[i].children| <= 255
  {
    hide PrefixTree, Entered, Supported, Continues;
    var cs := a[i].children;
    NodeFields(a, paths, entries, i);
    if |cs| > 0 {
      ByteAtLeast(cs, |cs| - 1);
    }
    assert NarrowAt(entries.Keys, paths[i]);
    var c: Byte :| !Continues(entries.Keys, paths[i], c);
    assert |cs| != 256 by {
      if |cs| == 256 {
        ByteAtLeast(cs, c);
        ByteAtMost(cs, c);
        Reached(a, paths, entries.Keys, i, c);
      }
    }
  }

  lemma NodeFields(a: TrieArena, paths: seq<Blob>, entries: map<Blob, nat>, i: nat)
    requires PrefixTree(a, paths) && Entered(a, paths, entries) && |a| < U32_LIMIT && i < |a|
    ensures |a| == |paths| && a[i].offset < U64_LIMIT && SortedChildren(a[i].children)
    ensures forall j :: 0 <= j < |a[i].children| ==> a[i].children[j].idx < U32_LIMIT
  {
    forall j | 0 <= j < |a[i].children|
      ensures a[i].children[j].idx < U32_LIMIT
    {
      assert ChildOf(a, paths, i, j);
    }
  }

  lemma Reached(a: TrieArena, paths: seq<Blob>, keys: set<Blob>, i: nat, j: nat)
    requires PrefixTree(a, paths) && i < |a| && j < |a[i].children|
    requires Supported(paths, keys)
    ensures Continues(keys, paths[i], a[i].children[j].byte)
  {
    assert ChildOf(a, paths, i, j);
    var n := a[i].children[j].idx;
    assert paths[n] in Prefixes(keys);
    var k, m :| k in keys && 0 <= m <= |k| && k[..m] == paths[n];
    assert paths[n] <= k;
  }

  /** A sorted child list with every byte up to `c` has `c` no earlier than place `c`. */
  lemma {:induction false} BytePlace(cs: seq<Child>, c: nat) returns (j: nat)
    requires SortedChildren(cs) && c < 256
    requires forall b: Byte :: b <= c ==> HasByte(cs, b)
    ensures c <= j < |cs| && cs[j].byte == c
  {
    assert HasByte(cs, c);
    j :| 0 <= j < |cs| && cs[j].byte == c;
    if c > 0 {
      var i := BytePlace(cs, c - 1);
      PlaceOrder(cs, i, j);
    }
  }

  lemma PlaceOrder(cs: seq<Child>, i: nat, j: nat)
    requires SortedChildren(cs) && i < |cs| && j < |cs| && cs[i].byte < cs[j].byte
    ensures i < j
  {
  }

  ghost predicate HasByte(cs: seq<Child>, b: Byte)
  {
    exists j :: 0 <= j < |cs| && cs[j].byte == b
  }

  /** Where every byte follows a prefix, the node of that prefix has all 256 children. */
  lemma WideNode(a: TrieArena, paths: seq<Blob>, entries: map<Blob, nat>, p: Blob) returns (i: nat)
    requires PrefixTree(a, paths) && Entered(a, paths, entries) && !NarrowAt(entries.Keys, p)
    ensures i < |a| && |a[i].children| >= 256
  {
    hide PrefixTree, Entered;
    Sizes(a, paths);
    var n0 := ContinuedNode(a, paths, entries, p, 0);
    i := PrefixNode(a, paths, n0, |p|);
    assert paths[i] == p;
    var cs := a[i].children;
    forall b: Byte | b <= 255
      ensures HasByte(cs, b)
    {
      var n := ContinuedNode(a, paths, entries, p, b);
      StepReaches(a, paths, i, b, n);
      assert cs[LowerBound(cs, b)].byte == b;
    }
    ListSorted(a, paths, i);
    var j := BytePlace(cs, 255);
  }

  lemma ListSorted(a: TrieArena, paths: seq<Blob>, i: nat)
    requires PrefixTree(a, paths) && i < |a|
    ensures SortedChildren(a[i].children)
  {
  }

  /** A prefix that some key continues with a byte has a node for the longer prefix. */
  lemma ContinuedNode(a: TrieArena, paths: seq<Blob>, entries: map<Blob, nat>, p: Blob, b: Byte) returns (n: nat)
    requires PrefixTree(a, paths) && Entered(a, paths, entries) && !NarrowAt(entries.Keys, p)
    ensures n < |a| && n < |paths| && paths[n] == p + [b] && paths[n][..|p|] == p
  {
    assert Continues(entries.Keys, p, b);
    var k :| k in entries.Keys && p + [b] <= k;
    var m: nat :| m < |paths| && paths[m] == k;
    n := PrefixNode(a, paths, m, |p| + 1);
    assert k[..|p| + 1] == p + [b];
  }

  /** Seen from the keys: an index survives the disk exactly when after no prefix all 256 bytes
      follow. */
  lemma SurvivesExact(a: TrieArena, paths: seq<Blob>, entries: map<Blob, nat>)
    requires PrefixTree(a, paths) && Entered(a, paths, entries) && |a| < U32_LIMIT
    requires Supported(paths, entries.Keys)
    ensures ReadArena(ArenaBytes(a)) == Some(a) <==> Narrow(entries.Keys)
  {
    hide Supported, ReadArena, ArenaBytes, PrefixTree, Entered, NarrowAt;
    if Narrow(entries.Keys) {
      NarrowFits(a, paths, entries);
    } else {
      var p: Blob :| !NarrowAt(entries.Keys, p);
      var w := WideNode(a, paths, entries, p);
      AllSized(a, paths, entries);
      RoundTripExact(a);
    }
  }

  // ------------------------------------------- what is lost behind a full node

  /** Up to the first node with 256 children an arena reads back as it is; that node reads back
      childless. */
  lemma {:induction false} ReadsUpTo(a: TrieArena, w: nat)
    requires (forall i :: 0 <= i < |a| ==> Sized(a[i])) && w < |a| && |a[w].children| == 256
    requires forall i :: 0 <= i < w ==> |a[i].children| <= 255
    requires ReadNodes(NodesBytes(a), |a|).Some?
    ensures var b := ReadNodes(NodesBytes(a), |a|).value;
            b[..w] == a[..w] && b[w].children == []
    decreases w
  {
    hide NodeBytes, ReadNode;
    NodeRoundTrip(a[0], NodesBytes(a[1..]));
    var b := ReadNodes(NodesBytes(a), |a|).value;
    if w > 0 {
      assert |a[0].children| <= 255;
      ReadsUpTo(a[1..], w - 1);
      var c := ReadNodes(NodesBytes(a[1..]), |a| - 1).value;
      assert b == [a[0]] + c;
      assert b[..w] == [a[0]] + c[..w - 1] == [a[0]] + a[1..][..w - 1] == a[..w];
    }
  }

  /** A key that continues the prefix of a childless node is not found. */
  lemma {:induction false} WalkLost(a: TrieArena, ps: seq<Blob>, b: TrieArena, w: nat, i: nat, key: Blob, j: nat)
    requires PrefixTree(a, ps) && i <= w < |a| && |b| == |a| && b[..w] == a[..w] && b[w].children == []
    requires j <= |ps[w]| < |key| && ps[w] == key[..|ps[w]|] && ps[i] == key[..j]
    ensures Walk(b, i, key[j..]) == Absent
    decreases |key| - j
  {
    hide PrefixTree;
    Sizes(a, ps);
    assert key[j..][0] == key[j] && key[j..][1..] == key[j + 1..];
    if j == |ps[w]| {
      SamePath(a, ps, i, w);
    } else {
      var n := PrefixNode(a, ps, w, j + 1);
      assert ps[w][..j + 1] == key[..j + 1] == ps[i] + [key[j]];
      StepReaches(a, ps, i, key[j], n);
      StepSound(a, ps, i, key[j]);
      ListSorted(a, ps, i);
      assert b[i] == b[..w][i] == a[..w][i];
      WalkLost(a, ps, b, w, n, key, j + 1);
    }
  }

  lemma SamePath(a: TrieArena, ps: seq<Blob>, i: nat, n: nat)
    requires PrefixTree(a, ps) && i < |a| && n < |a| && ps[i] == ps[n]
    ensures i == n
  {
  }

  lemma {:induction false} FirstFull(a: TrieArena, i: nat) returns (w: nat)
    requires i < |a| && |a[i].children| == 256 && forall n :: 0 <= n < |a| ==> |a[n].children| <= 256
    ensures w < |a| && |a[w].children| == 256 && forall n :: 0 <= n < w ==> |a[n].children| <= 255
    decreases i
  {
    if n :| 0 <= n < i && |a[n].children| == 256 {
      w := FirstFull(a, n);
    } else {
      w := i;
    }
  }

  lemma AllSized(a: TrieArena, paths: seq<Blob>, entries: map<Blob, nat>)
    requires PrefixTree(a, paths) && Entered(a, paths, entries) && |a| < U32_LIMIT
    ensures forall i :: 0 <= i < |a| ==> Sized(a[i])
  {
    hide PrefixTree, Entered;
    forall i | 0 <= i < |a|
      ensures Sized(a[i])
    {
      NodeFields(a, paths, entries, i);
      if a[i].children != [] {
        ByteAtLeast(a[i].children, |a[i].children| - 1);
      }
    }
  }

  /** A full node loses keys: if the index can be read back at all, some key is not found. */
  lemma FullNodeLoses(a: TrieArena, paths: seq<Blob>, entries: map<Blob, nat>, i: nat) returns (key: Blob)
    requires PrefixTree(a, paths) && Entered(a, paths, entries) && |a| < U32_LIMIT
    requires Supported(paths, entries.Keys) && i < |a| && |a[i].children| == 256
    requires ReadArena(ArenaBytes(a)).Some?
    ensures key in entries && Find(ReadArena(ArenaBytes(a)).value, key) == Absent
  {
    hide PrefixTree, Entered, Supported, Prefixes, NodesBytes, ReadNodes, Walk, BeBytes, FromBe, Pow256;
    AllSized(a, paths, entries);
    Sizes(a, paths);
    var w := FirstFull(a, i);
    var s := ArenaBytes(a);
    assert s[..4] == BeBytes(|a|, 4) && s[4..] == NodesBytes(a);
    Pow256Widths();
    BeRoundTrip(|a|, 4);
    ReadsUpTo(a, w);
    Reached(a, paths, entries.Keys, w, 0);
    key :| key in entries.Keys && paths[w] + [a[w].children[0].byte] <= key;
    assert key[..0] == [] && key[0..] == key;
    WalkLost(a, paths, ReadArena(s).value, w, 0, key, 0);
  }

  lemma WideLoses(a: TrieArena, paths: seq<Blob>, entries: map<Blob, nat>) returns (key: Blob)
    requires PrefixTree(a, paths) && Entered(a, paths, entries) && |a| < U32_LIMIT
    requires Supported(paths, entries.Keys) && !Narrow(entries.Keys)
    requires ReadArena(ArenaBytes(a)).Some?
    ensures key in entries && Find(ReadArena(ArenaBytes(a)).value, key) == Absent
  {
    hide Supported, ReadArena, ArenaBytes, PrefixTree, Entered, NarrowAt, Find;
    var p: Blob :| !NarrowAt(entries.Keys, p);
    var w := WideNode(a, paths, entries, p);
    AllSized(a, paths, entries);
    key := FullNodeLoses(a, paths, entries, w);
  }

  /** Seen from the keys: after the disk every key is found exactly when after no prefix all 256
      bytes follow. */
  lemma FoundExact(a: TrieArena, paths: seq<Blob>, entries: map<Blob, nat>)
    requires PrefixTree(a, paths) && Entered(a, paths, entries) && |a| < U32_LIMIT
    requires Supported(paths, entries.Keys)
    ensures var r := ReadArena(ArenaBytes(a));
            r.Some? && (forall k :: k in entries ==> Find(r.value, k) == At(entries[k])) <==> Narrow(entries.Keys)
  {
    hide Supported, ReadArena, ArenaBytes, PrefixTree, Entered, NarrowAt, Find;
    if Narrow(entries.Keys) {
      NarrowFits(a, paths, entries);
      forall k | k in entries
        ensures Find(a, k) == At(entries[k])
      {
        FindExact(a, paths, entries, k);
      }
    } else {
      if ReadArena(ArenaBytes(a)).Some? {
        var key := WideLoses(a, paths, entries);
      }
    }
  }

  /** Keys that fill all 256 bytes after a prefix: for the empty prefix, the one-byte keys. */
  lemma OneByteKeysAreNotNarrow(keys: set<Blob>)
    requires forall b: Byte :: [b] in keys
    ensures !Narrow(keys)
  {
    forall b: Byte
      ensures Continues(keys, [], b)
    {
      assert [] + [b] <= [b];
    }
    assert !NarrowAt(keys, []);
  }
}
