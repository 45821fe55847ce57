/** The N-way merge over a heap (src/compaction/mod.rs) into the compaction writer
    (src/sstable/compaction_writer.rs). */
module Compaction {
  import opened Bytes
  import opened BloomFilters
  import opened MergeSpec
  import opened Records
  import opened RedBlack
  import opened SSTableFiles
  import opened Tries

  // ------------------------------------------------------------------ the heap

  /** A record, its key and the index of the table it came from. */
  datatype HeapNode = HeapNode(record: Record, key: Blob, table: nat)

  type Heap = seq<HeapNode>

  /** The heap's order: by key, equal keys by preference. */
  predicate Ahead(rank: Rank, a: HeapNode, b: HeapNode)
  {
    Less(a.key, b.key) || (a.key == b.key && Better(rank, a.key, a.table, b.table))
  }

  /** The heap is consulted for its smallest node. */
  function MinIndex(heap: Heap, rank: Rank): (m: nat)
    requires heap != []
    ensures m < |heap|
  {
    if |heap| == 1 then 0
    else
      var m := MinIndex(heap[..|heap| - 1], rank);
      if Ahead(rank, heap[|heap| - 1], heap[m]) then |heap| - 1 else m
  }

  lemma {:induction false} MinIsAhead(heap: Heap, rank: Rank, i: nat)
    requires i < |heap|
    ensures !Ahead(rank, heap[i], heap[MinIndex(heap, rank)])
  {
    hide Less;
    var n := |heap| - 1;
    if n > 0 {
      var front := heap[..n];
      var m := MinIndex(front, rank);
      assert front[m] == heap[m];
      if i < n {
        assert front[i] == heap[i];
        MinIsAhead(front, rank, i);
        if Ahead(rank, heap[n], heap[m]) && Ahead(rank, heap[i], heap[n]) {
          AheadTransitive(rank, heap[i], heap[n], heap[m]);
        }
      } else if Ahead(rank, heap[n], heap[m]) {
        NotAheadOfSelf(rank, heap[n]);
      }
    } else {
      NotAheadOfSelf(rank, heap[0]);
    }
  }

  lemma AheadTransitive(rank: Rank, a: HeapNode, b: HeapNode, c: HeapNode)
    requires Ahead(rank, a, b) && Ahead(rank, b, c)
    ensures Ahead(rank, a, c)
  {
    if Less(a.key, b.key) && Less(b.key, c.key) {
      LessTransitive(a.key, b.key, c.key);
    }
  }

  lemma NotAheadOfSelf(rank: Rank, a: HeapNode)
    ensures !Ahead(rank, a, a)
  {
    if Less(a.key, a.key) {
      LessStrict(a.key, a.key);
    }
  }

  function Without<T>(s: seq<T>, i: nat): (r: seq<T>)
    requires i < |s|
  {
    s[..i] + s[i + 1..]
  }

  // -------------------------------------------------- heap, cursors and tables

  /** Table `i` has been read up to `pos[i]`; unless it is in `open`, its next record is in the
      heap and its cursor stands behind that record. */
  ghost function Unread(ts: seq<Table>, pos: seq<nat>, open: set<nat>, i: nat): (r: Table)
    requires |pos| == |ts| && i < |ts| && pos[i] <= |ts[i]|
  {
    if i in open || pos[i] == |ts[i]| then ts[i][pos[i]..] else ts[i][pos[i] + 1..]
  }

  ghost predicate InRange(ts: seq<Table>, pos: seq<nat>)
  {
    |pos| == |ts| && forall i :: 0 <= i < |ts| ==> pos[i] <= |ts[i]|
  }

  ghost predicate Shows(ts: seq<Table>, pos: seq<nat>, open: set<nat>, n: HeapNode)
    requires InRange(ts, pos)
  {
    && n.table < |ts| && n.table !in open && pos[n.table] < |ts[n.table]|
    && n.record == Fresh(ts[n.table][pos[n.table]]) && n.key == ts[n.table][pos[n.table]].key
  }

  ghost predicate InHeap(heap: Heap, i: nat)
  {
    exists n :: 0 <= n < |heap| && heap[n].table == i
  }

  /** At most one node per table, and exactly one for each table with records left. */
  ghost predicate Ready(heap: Heap, cursors: seq<Cursor>, ts: seq<Table>, pos: seq<nat>, open: set<nat>)
  {
    && InRange(ts, pos) && |cursors| == |ts|
    && (forall i :: 0 <= i < |ts| ==> Holds(cursors[i], Unread(ts, pos, open, i)))
    && (forall n :: 0 <= n < |heap| ==> Shows(ts, pos, open, heap[n]))
    && (forall m, n :: 0 <= m < n < |heap| ==> heap[m].table != heap[n].table)
    && (forall i :: 0 <= i < |ts| && i !in open && pos[i] < |ts[i]| ==> InHeap(heap, i))
  }

  lemma PopCursors(heap: Heap, cursors: seq<Cursor>, ts: seq<Table>, pos: seq<nat>, open: set<nat>, t: nat)
    requires Ready(heap, cursors, ts, pos, open) && t < |ts| && t !in open && pos[t] < |ts[t]|
    ensures InRange(ts, pos[t := pos[t] + 1])
    ensures forall i :: 0 <= i < |ts| ==> Holds(cursors[i], Unread(ts, pos[t := pos[t] + 1], open + {t}, i))
  {
    hide Holds, Shows, InHeap;
    var pos' := pos[t := pos[t] + 1];
    forall i | 0 <= i < |ts|
      ensures Holds(cursors[i], Unread(ts, pos', open + {t}, i))
    {
      assert Holds(cursors[i], Unread(ts, pos, open, i));
      assert Unread(ts, pos', open + {t}, i) == Unread(ts, pos, open, i);
    }
  }

  lemma PopNodes(heap: Heap, cursors: seq<Cursor>, ts: seq<Table>, pos: seq<nat>, open: set<nat>, m: nat)
    requires Ready(heap, cursors, ts, pos, open) && m < |heap|
    ensures var t := heap[m].table;
            && t < |ts| && t !in open && pos[t] < |ts[t]| && InRange(ts, pos[t := pos[t] + 1])
            && forall n :: 0 <= n < |heap| - 1 ==> Shows(ts, pos[t := pos[t] + 1], open + {t}, Without(heap, m)[n])
  {
    hide Holds, Fresh, InHeap, Unread;
    var t := heap[m].table;
    assert Shows(ts, pos, open, heap[m]);
    forall n | 0 <= n < |heap| - 1
      ensures Shows(ts, pos[t := pos[t] + 1], open + {t}, Without(heap, m)[n])
    {
      var n' := Moved(heap, m, n);
      assert Shows(ts, pos, open, heap[n']) && heap[n'].table != t;
    }
  }

  lemma PopComplete(heap: Heap, cursors: seq<Cursor>, ts: seq<Table>, pos: seq<nat>, open: set<nat>, m: nat, i: nat)
    requires Ready(heap, cursors, ts, pos, open) && m < |heap|
    requires i < |ts| && i !in open && i != heap[m].table && pos[i] < |ts[i]|
    ensures InHeap(Without(heap, m), i)
  {
    hide Holds, Shows, Unread;
    assert InHeap(heap, i);
    var n :| 0 <= n < |heap| && heap[n].table == i;
    assert Without(heap, m)[if n < m then n else n - 1] == heap[n];
  }

  /** Taking a node out opens its table, one record further on. */
  lemma PopReady(heap: Heap, cursors: seq<Cursor>, ts: seq<Table>, pos: seq<nat>, open: set<nat>, m: nat)
    requires Ready(heap, cursors, ts, pos, open) && m < |heap|
    ensures var t := heap[m].table;
            && t < |ts| && t !in open && pos[t] < |ts[t]|
            && Ready(Without(heap, m), cursors, ts, pos[t := pos[t] + 1], open + {t})
  {
    hide Holds, Shows, Unread, InHeap;
    var t := heap[m].table;
    PopNodes(heap, cursors, ts, pos, open, m);
    PopCursors(heap, cursors, ts, pos, open, t);
    WithoutDistinct(heap, m);
    forall i | 0 <= i < |ts| && i !in open + {t} && pos[t := pos[t] + 1][i] < |ts[i]|
      ensures InHeap(Without(heap, m), i)
    {
      PopComplete(heap, cursors, ts, pos, open, m, i);
    }
  }

  /** The node at a place of the shortened heap, in the heap it came from. */
  lemma Moved(heap: Heap, m: nat, n: nat) returns (n': nat)
    requires m < |heap| && n < |heap| - 1
    ensures n' < |heap| && n' != m && Without(heap, m)[n] == heap[n'] && n' == if n < m then n else n + 1
  {
    n' := if n < m then n else n + 1;
  }

  lemma WithoutDistinct(heap: Heap, m: nat)
    requires m < |heap|
    requires forall a, b :: 0 <= a < b < |heap| ==> heap[a].table != heap[b].table
    ensures forall a, b :: 0 <= a < b < |heap| - 1 ==> Without(heap, m)[a].table != Without(heap, m)[b].table
  {
    forall a, b | 0 <= a < b < |heap| - 1
      ensures Without(heap, m)[a].table != Without(heap, m)[b].table
    {
      var a' := Moved(heap, m, a);
      var b' := Moved(heap, m, b);
      assert heap[a'].table != heap[b'].table;
    }
  }

  /** Fetching the next record of an open table closes it again. */
  lemma FetchReady(heap: Heap, cursors: seq<Cursor>, ts: seq<Table>, pos: seq<nat>, open: set<nat>, t: nat)
    requires Ready(heap, cursors, ts, pos, open) && t in open && t < |ts|
    ensures pos[t] == |ts[t]| ==> Next(cursors[t]) == End && Ready(heap, cursors, ts, pos, open - {t})
    ensures pos[t] < |ts[t]| ==>
              && Next(cursors[t]).Yield? && Next(cursors[t]).record == Fresh(ts[t][pos[t]])
              && Ready(heap + [HeapNode(Fresh(ts[t][pos[t]]), ts[t][pos[t]].key, t)],
                       cursors[t := Next(cursors[t]).rest], ts, pos, open - {t})
  {
    hide Fresh, Next, Holds;
    NextInStream(cursors[t], ts[t][pos[t]..]);
    var open' := open - {t};
    if pos[t] == |ts[t]| {
      forall i | 0 <= i < |ts|
        ensures Holds(cursors[i], Unread(ts, pos, open', i))
      {
        assert Unread(ts, pos, open', i) == Unread(ts, pos, open, i);
      }
      assert forall n :: 0 <= n < |heap| ==> Shows(ts, pos, open, heap[n]) && Shows(ts, pos, open', heap[n]);
    } else {
      var cursors' := cursors[t := Next(cursors[t]).rest];
      var heap' := heap + [HeapNode(Fresh(ts[t][pos[t]]), ts[t][pos[t]].key, t)];
      forall i | 0 <= i < |ts|
        ensures Holds(cursors'[i], Unread(ts, pos, open', i))
      {
        if i == t {
          assert ts[t][pos[t]..][1..] == ts[t][pos[t] + 1..];
        } else {
          assert Unread(ts, pos, open', i) == Unread(ts, pos, open, i);
        }
      }
      forall n | 0 <= n < |heap'|
        ensures Shows(ts, pos, open', heap'[n])
      {
        if n < |heap| {
          assert Shows(ts, pos, open, heap[n]);
        }
      }
      forall i | 0 <= i < |ts| && i !in open' && pos[i] < |ts[i]|
        ensures InHeap(heap', i)
      {
        if i == t {
          assert heap'[|heap|].table == t;
        } else {
          assert InHeap(heap, i);
          var n :| 0 <= n < |heap| && heap[n].table == i;
          assert heap'[n].table == i;
        }
      }
    }
  }

  /** `table_iters[t].next()` and the push of what it yields. */
  method Fetch(heap: Heap, cursors: seq<Cursor>, t: nat, ghost ts: seq<Table>, ghost pos: seq<nat>,
               ghost open: set<nat>)
    returns (heap': Heap, cursors': seq<Cursor>)
    requires Ready(heap, cursors, ts, pos, open) && t in open && t < |ts|
    ensures Ready(heap', cursors', ts, pos, open - {t})
    ensures |heap'| <= |heap| + 1
  {
    hide Ready, Next, Holds, BlobOf, KeyAt, ValueAt, KeyOf;
    FetchReady(heap, cursors, ts, pos, open, t);
    heap', cursors' := heap, cursors;
    Lengths(heap, cursors, ts, pos, open);
    match Next(cursors[t]) {
      case Yield(record, rest) =>
        FreshReads(ts[t][pos[t]]);
        heap' := heap + [HeapNode(record, KeyOf(record), t)];
        cursors' := cursors[t := rest];
      case End =>
      case Abort =>
    }
  }

  lemma Lengths(heap: Heap, cursors: seq<Cursor>, ts: seq<Table>, pos: seq<nat>, open: set<nat>)
    requires Ready(heap, cursors, ts, pos, open)
    ensures InRange(ts, pos) && |cursors| == |ts|
  {
  }

  // ----------------------------------------------------------------- selection

  /** Every record read so far has its key among the selected ones, and each selected record is
      the preferred one of its key. */
  ghost predicate Merged(ts: seq<Table>, pos: seq<nat>, rank: Rank, sel: Table)
  {
    && InRange(ts, pos) && SortedEntries(sel)
    && (forall i, j :: 0 <= i < |ts| && 0 <= j < pos[i] ==> HasKey(sel, ts[i][j].key))
    && (forall n :: 0 <= n < |sel| ==> Meaning(sel[n].op) == Pick(ts, rank, sel[n].key))
  }

  /** Every record still to come has a larger key. */
  ghost predicate Above(ts: seq<Table>, pos: seq<nat>, k: Blob)
    requires InRange(ts, pos)
  {
    forall i, j :: 0 <= i < |ts| && pos[i] <= j < |ts[i]| ==> Less(k, ts[i][j].key)
  }

  ghost predicate NotBelow(ts: seq<Table>, pos: seq<nat>, k: Blob)
    requires InRange(ts, pos)
  {
    forall i, j :: 0 <= i < |ts| && pos[i] <= j < |ts[i]| ==> !Less(ts[i][j].key, k)
  }

  ghost predicate Frontier(ts: seq<Table>, pos: seq<nat>, sel: Table)
    requires InRange(ts, pos)
  {
    sel != [] ==> Above(ts, pos, sel[|sel| - 1].key)
  }

  /** No record in reach is below the smallest node. */
  lemma HeadsNotBelow(heap: Heap, cursors: seq<Cursor>, ts: seq<Table>, pos: seq<nat>, rank: Rank)
    requires Ready(heap, cursors, ts, pos, {}) && SortedTables(ts) && heap != []
    ensures NotBelow(ts, pos, heap[MinIndex(heap, rank)].key)
  {
    hide Holds, Less, MinIndex, Fresh, Unread;
    var min := heap[MinIndex(heap, rank)];
    forall i, j | 0 <= i < |ts| && pos[i] <= j < |ts[i]|
      ensures !Less(ts[i][j].key, min.key)
    {
      assert InHeap(heap, i);
      var n :| 0 <= n < |heap| && heap[n].table == i;
      assert Shows(ts, pos, {}, heap[n]);
      MinIsAhead(heap, rank, n);
      HeadFirst(ts[i], pos[i], j, min.key);
    }
  }

  /** In a sorted table, what is not below at one place is not below behind it. */
  lemma HeadFirst(t: Table, p: nat, j: nat, k: Blob)
    requires SortedEntries(t) && p <= j < |t| && !Less(t[p].key, k)
    ensures !Less(t[j].key, k)
    ensures p < j ==> t[j].key != k
  {
    hide Less;
    if p < j {
      assert Less(t[p].key, t[j].key);
      if Less(t[j].key, k) {
        LessTransitive(t[p].key, t[j].key, k);
      }
    }
  }

  /** The smallest node is the preferred record of its key: every other table that holds the key
      has it at its head. */
  lemma SmallestWins(heap: Heap, cursors: seq<Cursor>, ts: seq<Table>, pos: seq<nat>, rank: Rank, sel: Table)
    requires Ready(heap, cursors, ts, pos, {}) && SortedTables(ts) && heap != []
    requires Merged(ts, pos, rank, sel) && Frontier(ts, pos, sel)
    ensures var min := heap[MinIndex(heap, rank)];
            && min.table < |ts| && pos[min.table] < |ts[min.table]|
            && ts[min.table][pos[min.table]].key == min.key
            && Winner(ts, rank, min.key) == Some(min.table)
  {
    hide Holds, Less, MinIndex, Fresh, Unread, Better, Winner;
    var m := MinIndex(heap, rank);
    var min := heap[m];
    assert Shows(ts, pos, {}, min);
    var t := min.table;
    assert HasKey(ts[t], min.key);
    forall j | 0 <= j < |ts| && j != t && HasKey(ts[j], min.key)
      ensures Better(rank, min.key, t, j)
    {
      HolderAtHead(heap, cursors, ts, pos, rank, sel, j);
      assert InHeap(heap, j);
      var n :| 0 <= n < |heap| && heap[n].table == j;
      assert Shows(ts, pos, {}, heap[n]);
      MinIsAhead(heap, rank, n);
      BetterTotal(rank, min.key, t, j);
    }
    WinnerUnique(ts, rank, min.key, t);
  }

  lemma BetterTotal(rank: Rank, k: Blob, a: nat, b: nat)
    requires a != b
    ensures Better(rank, k, a, b) || Better(rank, k, b, a)
  {
  }

  lemma HolderAtHead(heap: Heap, cursors: seq<Cursor>, ts: seq<Table>, pos: seq<nat>, rank: Rank, sel: Table, j: nat)
    requires Ready(heap, cursors, ts, pos, {}) && SortedTables(ts) && heap != []
    requires Merged(ts, pos, rank, sel) && Frontier(ts, pos, sel)
    requires j < |ts| && HasKey(ts[j], heap[MinIndex(heap, rank)].key)
    ensures pos[j] < |ts[j]| && ts[j][pos[j]].key == heap[MinIndex(heap, rank)].key
  {
    hide Holds, Less, MinIndex, Fresh, Unread, Pick;
    var min := heap[MinIndex(heap, rank)];
    HeadsNotBelow(heap, cursors, ts, pos, rank);
    assert Shows(ts, pos, {}, min);
    var i :| 0 <= i < |ts[j]| && ts[j][i].key == min.key;
    if i < pos[j] {
      assert HasKey(sel, min.key);
      NotYetSelected(ts, pos, sel, min.table);
      assert false;
    }
    HeadFirst(ts[j], pos[j], i, min.key);
  }

  /** What is still to come is not selected yet. */
  lemma NotYetSelected(ts: seq<Table>, pos: seq<nat>, sel: Table, t: nat)
    requires InRange(ts, pos) && SortedEntries(sel) && Frontier(ts, pos, sel)
    requires t < |ts| && pos[t] < |ts[t]|
    ensures !HasKey(sel, ts[t][pos[t]].key)
    ensures forall n :: 0 <= n < |sel| ==> Less(sel[n].key, ts[t][pos[t]].key)
  {
    hide Less;
    var k := ts[t][pos[t]].key;
    forall n | 0 <= n < |sel|
      ensures Less(sel[n].key, k) && sel[n].key != k
    {
      var last := |sel| - 1;
      assert Less(sel[last].key, k);
      if n < last {
        assert Less(sel[n].key, sel[last].key);
        LessTransitive(sel[n].key, sel[last].key, k);
      }
      LessStrict(sel[n].key, k);
    }
  }

  /** Popping the smallest node selects it. */
  lemma SelectStep(heap: Heap, cursors: seq<Cursor>, ts: seq<Table>, pos: seq<nat>, rank: Rank, sel: Table)
    requires Ready(heap, cursors, ts, pos, {}) && SortedTables(ts) && heap != []
    requires Merged(ts, pos, rank, sel) && Frontier(ts, pos, sel)
    ensures var min := heap[MinIndex(heap, rank)];
            && min.table < |ts| && pos[min.table] < |ts[min.table]|
            && var e := ts[min.table][pos[min.table]];
            && min.record == Fresh(e) && min.key == e.key
            && InRange(ts, pos[min.table := pos[min.table] + 1])
            && Merged(ts, pos[min.table := pos[min.table] + 1], rank, sel + [e])
            && NotBelow(ts, pos[min.table := pos[min.table] + 1], e.key)
  {
    hide Holds, Less, MinIndex, Fresh, Unread, Winner, Lookup;
    var min := heap[MinIndex(heap, rank)];
    assert Shows(ts, pos, {}, min);
    var t := min.table;
    var e := ts[t][pos[t]];
    SmallestWins(heap, cursors, ts, pos, rank, sel);
    HeadsNotBelow(heap, cursors, ts, pos, rank);
    NotYetSelected(ts, pos, sel, t);
    LookupAt(ts[t], pos[t]);
    assert Pick(ts, rank, e.key) == Meaning(e.op);
    KeysGrow(ts, pos, sel, e, t);
    SelectedSorted(sel, e);
  }

  lemma SelectedSorted(sel: Table, e: Entry)
    requires SortedEntries(sel) && forall n :: 0 <= n < |sel| ==> Less(sel[n].key, e.key)
    ensures SortedEntries(sel + [e])
  {
  }

  lemma KeysGrow(ts: seq<Table>, pos: seq<nat>, sel: Table, e: Entry, t: nat)
    requires InRange(ts, pos) && t < |ts| && pos[t] < |ts[t]| && ts[t][pos[t]] == e
    requires forall i, j :: 0 <= i < |ts| && 0 <= j < pos[i] ==> HasKey(sel, ts[i][j].key)
    ensures var pos' := pos[t := pos[t] + 1];
            forall i, j :: 0 <= i < |ts| && 0 <= j < pos'[i] ==> HasKey(sel + [e], ts[i][j].key)
  {
    var pos' := pos[t := pos[t] + 1];
    forall i, j | 0 <= i < |ts| && 0 <= j < pos'[i]
      ensures HasKey(sel + [e], ts[i][j].key)
    {
      if i == t && j == pos[t] {
        assert (sel + [e])[|sel|].key == e.key;
      } else {
        assert HasKey(sel, ts[i][j].key);
        var n :| 0 <= n < |sel| && sel[n].key == ts[i][j].key;
        assert (sel + [e])[n].key == ts[i][j].key;
      }
    }
  }

  /** Clearing a node with the selected key loses nothing. */
  lemma ClearStep(ts: seq<Table>, pos: seq<nat>, rank: Rank, sel: Table, t: nat)
    requires Merged(ts, pos, rank, sel) && sel != []
    requires NotBelow(ts, pos, sel[|sel| - 1].key)
    requires t < |ts| && pos[t] < |ts[t]| && ts[t][pos[t]].key == sel[|sel| - 1].key
    ensures InRange(ts, pos[t := pos[t] + 1])
    ensures Merged(ts, pos[t := pos[t] + 1], rank, sel)
    ensures NotBelow(ts, pos[t := pos[t] + 1], sel[|sel| - 1].key)
  {
    hide Less, Pick;
    assert HasKey(sel, ts[t][pos[t]].key);
  }

  /** Once the smallest node has another key, everything to come is above the selected key. */
  lemma AllCleared(heap: Heap, cursors: seq<Cursor>, ts: seq<Table>, pos: seq<nat>, rank: Rank, k: Blob, t: nat)
    requires Ready(heap, cursors, ts, pos, {t}) && SortedTables(ts) && NotBelow(ts, pos, k)
    requires t < |ts| && 0 < pos[t] && ts[t][pos[t] - 1].key == k
    requires heap != [] ==> heap[MinIndex(heap, rank)].key != k
    ensures Above(ts, pos, k)
  {
    hide Holds, Less, MinIndex, Fresh, Unread;
    forall i, j | 0 <= i < |ts| && pos[i] <= j < |ts[i]|
      ensures Less(k, ts[i][j].key)
    {
      if i == t {
        assert Less(ts[t][pos[t] - 1].key, ts[t][j].key);
      } else {
        assert InHeap(heap, i);
        var n :| 0 <= n < |heap| && heap[n].table == i;
        assert Shows(ts, pos, {t}, heap[n]);
        NodeAbove(heap, cursors, ts, pos, rank, k, t, n);
        if pos[i] < j {
          assert Less(ts[i][pos[i]].key, ts[i][j].key);
          LessTransitive(k, ts[i][pos[i]].key, ts[i][j].key);
        }
      }
    }
  }

  lemma NodeAbove(heap: Heap, cursors: seq<Cursor>, ts: seq<Table>, pos: seq<nat>, rank: Rank, k: Blob, t: nat, n: nat)
    requires Ready(heap, cursors, ts, pos, {t}) && NotBelow(ts, pos, k) && n < |heap|
    requires heap[MinIndex(heap, rank)].key != k
    ensures Less(k, heap[n].key)
  {
    hide Holds, Less, MinIndex, Fresh, Unread;
    var min := heap[MinIndex(heap, rank)];
    assert Shows(ts, pos, {t}, min);
    LessTotal(k, min.key);
    MinIsAhead(heap, rank, n);
    LessTotal(min.key, heap[n].key);
    if Less(min.key, heap[n].key) {
      LessTransitive(k, min.key, heap[n].key);
    }
  }

  /** When all is read, the selection answers every key as its preferred record does. */
  lemma AllRead(ts: seq<Table>, pos: seq<nat>, rank: Rank, sel: Table, k: Blob)
    requires Merged(ts, pos, rank, sel) && forall i :: 0 <= i < |ts| ==> pos[i] == |ts[i]|
    ensures Lookup(sel, k) == Pick(ts, rank, k)
  {
    hide Less, Lookup, Winner;
    if Winner(ts, rank, k).Some? {
      KeySelected(ts, pos, rank, sel, Winner(ts, rank, k).value, k);
    }
    if HasKey(sel, k) {
      var n :| 0 <= n < |sel| && sel[n].key == k;
      LookupAt(sel, n);
    } else {
      LookupAbsent(sel, k);
    }
  }

  lemma KeySelected(ts: seq<Table>, pos: seq<nat>, rank: Rank, sel: Table, w: nat, k: Blob)
    requires Merged(ts, pos, rank, sel) && w < |ts| && pos[w] == |ts[w]| && HasKey(ts[w], k)
    ensures HasKey(sel, k)
  {
    var j :| 0 <= j < |ts[w]| && ts[w][j].key == k;
    assert HasKey(sel, ts[w][j].key);
  }

  // ------------------------------------------------------------ sums over tables

  function Sum(xs: seq<nat>): (n: nat)
  {
    if xs == [] then 0 else Sum(xs[..|xs| - 1]) + xs[|xs| - 1]
  }

  lemma {:induction false} SumUpdate(xs: seq<nat>, i: nat, v: nat)
    requires i < |xs|
    ensures Sum(xs[i := v]) + xs[i] == Sum(xs) + v
  {
    var n := |xs| - 1;
    if i == n {
      assert xs[i := v][..n] == xs[..n];
    } else {
      assert xs[i := v][..n] == xs[..n][i := v];
      SumUpdate(xs[..n], i, v);
    }
  }

  ghost function Measures(ts: seq<Table>, pos: seq<nat>, f: Table -> nat): (xs: seq<nat>)
    requires InRange(ts, pos)
    ensures |xs| == |ts| && forall i :: 0 <= i < |ts| ==> xs[i] == f(ts[i][pos[i]..])
  {
    seq(|ts|, i requires 0 <= i < |ts| => f(ts[i][pos[i]..]))
  }

  /** What a measure gives for the unread parts of all tables together. */
  ghost function Left(ts: seq<Table>, pos: seq<nat>, f: Table -> nat): (n: nat)
    requires InRange(ts, pos)
  {
    Sum(Measures(ts, pos, f))
  }

  lemma LeftStep(ts: seq<Table>, pos: seq<nat>, f: Table -> nat, t: nat)
    requires InRange(ts, pos) && t < |ts| && pos[t] < |ts[t]|
    ensures InRange(ts, pos[t := pos[t] + 1])
    ensures Left(ts, pos[t := pos[t] + 1], f) + f(ts[t][pos[t]..]) == Left(ts, pos, f) + f(ts[t][pos[t] + 1..])
  {
    var pos' := pos[t := pos[t] + 1];
    var xs, ys := Measures(ts, pos, f), Measures(ts, pos', f);
    assert ys == xs[t := f(ts[t][pos[t] + 1..])];
    SumUpdate(xs, t, f(ts[t][pos[t] + 1..]));
  }

  function Count(): Table -> nat { (t: Table) => |t| }

  /** Nothing read yet. */
  ghost function Start(ts: seq<Table>): (pos: seq<nat>)
    ensures InRange(ts, pos)
    ensures forall i :: 0 <= i < |ts| ==> pos[i] == 0
  {
    seq(|ts|, _ => 0)
  }

  /** What the merge will write fits the widths of the format. */
  ghost predicate FitsOneTable(ts: seq<Table>, rank: Rank)
  {
    forall sel :: IsSelection(ts, rank, sel) ==> Bounded(Puts(sel))
  }

  function Flat(ts: seq<Table>): (es: Table)
  {
    if ts == [] then [] else Flat(ts[..|ts| - 1]) + ts[|ts| - 1]
  }

  /** How many bytes of records the tables hold together. */
  function DataSize(ts: seq<Table>): (n: nat)
  {
    if ts == [] then 0 else DataSize(ts[..|ts| - 1]) + |Stream(ts[|ts| - 1])|
  }

  lemma {:induction false} FlatSize(ts: seq<Table>)
    ensures |Stream(Flat(ts))| == DataSize(ts)
  {
    hide Stream;
    if ts == [] {
      EmptyStream();
    } else {
      FlatSize(ts[..|ts| - 1]);
      StreamAppend(Flat(ts[..|ts| - 1]), ts[|ts| - 1]);
    }
  }

  lemma {:induction false} FlatHas(ts: seq<Table>, w: nat, n: nat)
    requires w < |ts| && n < |ts[w]|
    ensures ts[w][n] in Flat(ts)
  {
    if w < |ts| - 1 {
      FlatHas(ts[..|ts| - 1], w, n);
    }
  }

  /** Inputs of less than 4 GB together always merge into one table. */
  lemma FitsBySize(ts: seq<Table>, rank: Rank)
    requires forall i :: 0 <= i < |ts| ==> SortedEntries(ts[i]) && AllEncodable(ts[i])
    requires DataSize(ts) < U32_LIMIT
    ensures FitsOneTable(ts, rank)
  {
    hide IsSelection, Bounded, SortedEntries, Puts, Encodable, Stream;
    forall sel | IsSelection(ts, rank, sel)
      ensures Bounded(Puts(sel))
    {
      forall i | 0 <= i < |Puts(sel)|
        ensures Puts(sel)[i] in Flat(ts) && Encodable(Puts(sel)[i])
      {
        var j := PutsFrom(sel, i);
        var w, n := SelectedFrom(ts, rank, sel, j);
        FlatHas(ts, w, n);
      }
      SelectionPuts(ts, rank, sel);
      SubStream(Puts(sel), Flat(ts));
      FlatSize(ts);
      ShortTableIsBounded(Puts(sel));
    }
  }

  lemma SelectionPuts(ts: seq<Table>, rank: Rank, sel: Table)
    requires IsSelection(ts, rank, sel)
    ensures forall i, j :: 0 <= i < j < |Puts(sel)| ==> Puts(sel)[i] != Puts(sel)[j]
  {
    hide Less, Puts, Lookup, Pick;
    PutsSorted(sel);
    SortedDistinct(Puts(sel));
  }

  /** Every selected record is a record of some table. */
  lemma SelectedFrom(ts: seq<Table>, rank: Rank, sel: Table, j: nat) returns (w: nat, n: nat)
    requires IsSelection(ts, rank, sel) && j < |sel| && forall i :: 0 <= i < |ts| ==> SortedEntries(ts[i])
    ensures w < |ts| && n < |ts[w]| && ts[w][n] == sel[j]
  {
    hide Less, Lookup, Winner;
    var k := sel[j].key;
    LookupAt(sel, j);
    w := Winner(ts, rank, k).value;
    n :| 0 <= n < |ts[w]| && ts[w][n].key == k;
    LookupAt(ts[w], n);
  }

  /** So does what it has selected so far: its records are all in the whole selection. */
  lemma SelectedFits(ts: seq<Table>, pos: seq<nat>, rank: Rank, sel: Table, full: Table)
    requires Merged(ts, pos, rank, sel) && IsSelection(ts, rank, full) && Bounded(Puts(full))
    ensures Bounded(Puts(sel))
  {
    hide Less, Lookup, Puts, Pick, Stream, OffsetMap, Prefixes, Encodable;
    PutsSorted(sel);
    PutsSorted(full);
    forall i | 0 <= i < |Puts(sel)|
      ensures Puts(sel)[i] in Puts(full)
    {
      SelectedOnce(ts, pos, rank, sel, full, i);
    }
    SortedDistinct(Puts(sel));
    SubStream(Puts(sel), Puts(full));
    forall k | k in OffsetMap(Puts(sel)).Keys
      ensures k in OffsetMap(Puts(full)).Keys
    {
      OffsetKeys(Puts(sel), k);
      OffsetKeys(Puts(full), k);
      var i :| 0 <= i < |Puts(sel)| && Puts(sel)[i].key == k;
      assert Puts(sel)[i] in Puts(full);
    }
    PrefixesGrow(OffsetMap(Puts(sel)).Keys, OffsetMap(Puts(full)).Keys);
  }

  lemma SelectedOnce(ts: seq<Table>, pos: seq<nat>, rank: Rank, sel: Table, full: Table, i: nat)
    requires Merged(ts, pos, rank, sel) && IsSelection(ts, rank, full) && i < |Puts(sel)|
    ensures Puts(sel)[i] in Puts(full)
  {
    hide Less, Lookup, Puts, Pick;
    var j := PutsFrom(sel, i);
    var k := sel[j].key;
    assert Lookup(full, k) == Meaning(sel[j].op);
    LookupHas(full, k);
    var n :| 0 <= n < |full| && full[n].key == k;
    LookupAt(full, n);
    PutsHas(full, n);
  }

  // ---------------------------------------------------------------- the writer

  class CompactionWriter {
    const trie: Trie
    const bloom: BloomFilter
    var file: Blob
    var writeBuffer: Blob
    var capacity: nat
    var diskOffset: nat
    ghost var es: Table   // the records pushed so far

    /** File and buffer together are the header and the records; the offset is where the next
        record will start. */
    ghost predicate Valid(h: Hashes)
      reads this, trie, bloom
    {
      && Indexed(trie, bloom, es, h) && Bounded(es) && |bloom.bits| == 161
      && file + writeBuffer == FILE_HEADER + Stream(es)
      && diskOffset == HEADER_SIZE + |Stream(es)|
    }

    constructor (numHashes: nat, h: Hashes)
      requires 1 <= numHashes < U64_LIMIT
      ensures Valid(h) && es == [] && bloom.numHashes == numHashes && capacity == 4096 && fresh(trie) && fresh(bloom)
    {
      hide BlobOf, PrefixTree, Entered, Filled, Words;
      trie := new Trie();
      bloom := new BloomFilter(1024, numHashes, h);
      file, writeBuffer, capacity := FILE_HEADER, [], 4096;
      diskOffset := HEADER_SIZE;
      es := [];
      new;
      NothingIndexed(trie, bloom, h);
    }

    /** Buffered append: a full buffer goes to the file first. `grown` is the capacity the buffer
        takes when the record does not fit it. */
    method Push(record: Record, grown: nat, h: Hashes, ghost e: Entry)
      requires Valid(h) && record == Fresh(e) && Bounded(es + [e])
      modifies this, trie, bloom
      ensures Valid(h) && es == old(es) + [e] && bloom.numHashes == old(bloom.numHashes)
    {
      hide BlobOf, KeyAt, ValueAt, Stream, Indexed, Bounded, KeyOf;
      FreshReads(e);
      StreamSnoc(es, e);
      AddToIndex(trie, bloom, KeyOf(record), diskOffset, h, es, e);
      Joined(FILE_HEADER, Stream(es), BlobOf(e));
      file, writeBuffer, capacity := Append(file, writeBuffer, capacity, record.blob, grown);
      diskOffset := diskOffset + |record.blob|;
      es := es + [e];
    }

    /** The bytes in file order are unchanged by when the buffer is written out. */
    static method Append(file: Blob, buffer: Blob, capacity: nat, blob: Blob, grown: nat)
      returns (file': Blob, buffer': Blob, capacity': nat)
      ensures file' + buffer' == file + buffer + blob
      ensures |buffer'| <= capacity' || capacity' == capacity
      ensures |buffer| + |blob| >= capacity ==> buffer' == blob
      ensures |buffer| + |blob| < capacity ==> file' == file && capacity' == capacity
    {
      file', buffer', capacity' := file, buffer, capacity;
      if |buffer'| + |blob| >= capacity {
        file' := file' + buffer';
        buffer' := [];
      }
      buffer' := buffer' + blob;
      if |buffer'| > capacity {
        capacity' := if grown >= |buffer'| then grown else |buffer'|;
      }
    }

    method Finish(h: Hashes) returns (out: Blob, ghost p: Parts)
      requires Valid(h)
      ensures Built(out, es, p, h) && IsTable(out, es, h)
      ensures |p.bits| == 161 && p.hashes == bloom.numHashes
    {
      out, p := FinishFile(file + writeBuffer, trie, bloom, h, es);
    }
  }

  lemma Joined(a: Blob, b: Blob, c: Blob)
    ensures a + b + c == a + (b + c)
  {
  }

  // -------------------------------------------------------------- the merge loop

  ghost predicate Sources(buffers: seq<Blob>, ts: seq<Table>)
  {
    && |buffers| == |ts| && SortedTables(ts)
    && forall i :: 0 <= i < |ts| ==> buffers[i] == Stream(ts[i]) && AllEncodable(ts[i])
  }

  function Cursors(buffers: seq<Blob>): (cs: seq<Cursor>)
    ensures |cs| == |buffers|
    ensures forall i :: 0 <= i < |buffers| ==> cs[i] == Cursor(buffers[i], 0)
  {
    seq(|buffers|, i requires 0 <= i < |buffers| => Cursor(buffers[i], 0))
  }

  /** Before the first record is fetched, every table is open at its start. */
  lemma StartReady(buffers: seq<Blob>, ts: seq<Table>)
    requires Sources(buffers, ts)
    ensures Ready([], Cursors(buffers), ts, Start(ts), Below(|ts|))
  {
    hide Stream, Left, Encodable;
    var cs, pos, open := Cursors(buffers), Start(ts), Below(|ts|);
    forall i | 0 <= i < |ts|
      ensures Holds(cs[i], Unread(ts, pos, open, i))
    {
      assert cs[i].buffer[0..] == Stream(ts[i]);
      assert Unread(ts, pos, open, i) == ts[i];
    }
  }

  lemma StartMerged(ts: seq<Table>, rank: Rank)
    ensures Merged(ts, Start(ts), rank, []) && Frontier(ts, Start(ts), [])
  {
  }

  /** Seeds the heap with the first record of each table. */
  method Hydrate(buffers: seq<Blob>, ghost ts: seq<Table>) returns (heap: Heap, cursors: seq<Cursor>)
    requires Sources(buffers, ts)
    ensures Ready(heap, cursors, ts, Start(ts), {})
  {
    hide Ready, Stream, Left;
    heap, cursors := [], Cursors(buffers);
    ghost var open := Below(|ts|);
    StartReady(buffers, ts);
    for i := 0 to |buffers|
      invariant Ready(heap, cursors, ts, Start(ts), open)
      invariant forall j: nat :: j in open <==> i <= j < |ts|
    {
      heap, cursors := Fetch(heap, cursors, i, ts, Start(ts), open);
      open := open - {i};
    }
    assert open == {};
  }

  /** Pops every other node that carries the selected key and refills from its table. */
  method ClearDuplicates(heap0: Heap, cursors0: seq<Cursor>, key: Blob, rank: Rank,
                         ghost ts: seq<Table>, ghost pos0: seq<nat>, ghost sel: Table, ghost t: nat)
    returns (heap: Heap, cursors: seq<Cursor>, ghost pos: seq<nat>, ghost pops: nat)
    requires Ready(heap0, cursors0, ts, pos0, {t}) && SortedTables(ts) && Merged(ts, pos0, rank, sel)
    requires sel != [] && sel[|sel| - 1].key == key && NotBelow(ts, pos0, key)
    requires t < |ts| && 0 < pos0[t] && ts[t][pos0[t] - 1].key == key
    ensures Ready(heap, cursors, ts, pos, {t}) && Merged(ts, pos, rank, sel) && Above(ts, pos, key)
    ensures Left(ts, pos, Count()) + pops == Left(ts, pos0, Count())
    ensures |cursors| == |cursors0| && forall n :: 0 <= n < |heap| ==> Less(key, heap[n].key)
  {
    hide Less, Ready, Merged, NotBelow, Above, Left, MinIndex, SortedEntries, Pick, Count;
    heap, cursors, pos, pops := heap0, cursors0, pos0, 0;
    Lengths(heap, cursors, ts, pos, {t});
    while heap != [] && heap[MinIndex(heap, rank)].key == key
      invariant Ready(heap, cursors, ts, pos, {t}) && InRange(ts, pos) && Merged(ts, pos, rank, sel)
      invariant NotBelow(ts, pos, key)
      invariant pos[t] == pos0[t]
      invariant Left(ts, pos, Count()) + pops == Left(ts, pos0, Count())
      decreases Left(ts, pos, Count())
    {
      pops := pops + 1;
      var m := MinIndex(heap, rank);
      var i := heap[m].table;
      NodeFacts(heap, cursors, ts, pos, {t}, m);
      ClearStep(ts, pos, rank, sel, i);
      PopReady(heap, cursors, ts, pos, {t}, m);
      CountStep(ts, pos, i);
      heap := Without(heap, m);
      pos := pos[i := pos[i] + 1];
      heap, cursors := Fetch(heap, cursors, i, ts, pos, {t} + {i});
      assert {t} + {i} - {i} == {t};
    }
    AllCleared(heap, cursors, ts, pos, rank, key, t);
    Lengths(heap, cursors, ts, pos, {t});
    forall n | 0 <= n < |heap|
      ensures Less(key, heap[n].key)
    {
      NodeAbove(heap, cursors, ts, pos, rank, key, t, n);
    }
  }

  lemma NodeFacts(heap: Heap, cursors: seq<Cursor>, ts: seq<Table>, pos: seq<nat>, open: set<nat>, m: nat)
    requires Ready(heap, cursors, ts, pos, open) && m < |heap|
    ensures heap[m].table < |ts| && heap[m].table !in open && pos[heap[m].table] < |ts[heap[m].table]|
    ensures heap[m].key == ts[heap[m].table][pos[heap[m].table]].key
    ensures heap[m].record == Fresh(ts[heap[m].table][pos[heap[m].table]])
  {
    assert Shows(ts, pos, open, heap[m]);
  }

  lemma CountStep(ts: seq<Table>, pos: seq<nat>, t: nat)
    requires InRange(ts, pos) && t < |ts| && pos[t] < |ts[t]|
    ensures InRange(ts, pos[t := pos[t] + 1])
    ensures Left(ts, pos[t := pos[t] + 1], Count()) == Left(ts, pos, Count()) - 1
  {
    hide Left;
    LeftStep(ts, pos, Count(), t);
  }

  ghost predicate IsMergeOf(file: Blob, ts: seq<Table>, rank: Rank, h: Hashes)
  {
    exists sel :: IsSelection(ts, rank, sel) && IsTable(file, Puts(sel), h)
  }

  /** The merge: for any preference among equal keys it ends, having read every record, selects
      exactly the preferred record of each key in increasing key order, and writes those that
      are data. */
  method RunCompaction(buffers: seq<Blob>, rank: Rank, numHashes: nat, grown: nat -> nat, h: Hashes,
                       ghost ts: seq<Table>)
    returns (file: Blob, ghost sel: Table, ghost p: Parts, ghost pops: nat)
    requires Sources(buffers, ts) && FitsOneTable(ts, rank) && 1 <= numHashes < U64_LIMIT
    ensures IsMergeOf(file, ts, rank, h) && pops == RecordCount(ts)
    ensures Built(file, Puts(sel), p, h) && SortedEntries(Puts(sel)) && IsSelection(ts, rank, sel)
    ensures forall k :: Lookup(Puts(sel), k) == Visible(Pick(ts, rank, k))
  {
    hide Ready, Merged, NotBelow, Above, Left, MinIndex, SortedEntries, Pick, Frontier, Puts, Lookup, IsSelection,
      Built, Bounded, Fresh, Stream, Encodable, Count, FitsOneTable, CompactionWriter.Valid, IsTable;
    ghost var full := WholeSelection(ts, rank);
    var writer := new CompactionWriter(numHashes, h);
    var heap, cursors := Hydrate(buffers, ts);
    ghost var pos := Start(ts);
    sel, pops := [], 0;
    StartMerged(ts, rank);
    NoPuts();
    while heap != []
      invariant Ready(heap, cursors, ts, pos, {}) && InRange(ts, pos) && Merged(ts, pos, rank, sel)
      invariant Frontier(ts, pos, sel)
      invariant writer.Valid(h) && writer.es == Puts(sel)
      invariant fresh(writer) && fresh(writer.trie) && fresh(writer.bloom)
      invariant Left(ts, pos, Count()) + pops == Left(ts, Start(ts), Count())
      decreases Left(ts, pos, Count())
    {
      var m := MinIndex(heap, rank);
      var smallest := heap[m];
      ghost var t := smallest.table;
      NodeFacts(heap, cursors, ts, pos, {}, m);
      ghost var e, before := ts[t][pos[t]], sel;
      SelectStep(heap, cursors, ts, pos, rank, sel);
      PopReady(heap, cursors, ts, pos, {}, m);
      CountStep(ts, pos, t);
      heap := Without(heap, m);
      pos := pos[t := pos[t] + 1];
      sel := sel + [e];
      assert {} + {t} == {t};
      ghost var cleared;
      heap, cursors, pos, cleared := ClearDuplicates(heap, cursors, smallest.key, rank, ts, pos, sel, t);
      pops := pops + 1 + cleared;
      Lengths(heap, cursors, ts, pos, {t});
      SelectedFits(ts, pos, rank, sel, full);
      PushOrDrop(before, e);
      if smallest.record.value.Some? {
        writer.Push(smallest.record, grown(writer.diskOffset), h, e);
      }
      FrontierAt(ts, pos, sel);
      heap, cursors := Fetch(heap, cursors, smallest.table, ts, pos, {t});
      assert {t} - {t} == {};
    }
    MergeDone(cursors, ts, pos, rank, sel);
    file, p := writer.Finish(h);
  }

  lemma WholeSelection(ts: seq<Table>, rank: Rank) returns (full: Table)
    requires FitsOneTable(ts, rank)
    ensures IsSelection(ts, rank, full) && Bounded(Puts(full))
  {
    full := SelectionExists(ts, rank);
  }

  /** With the heap empty, everything was read and what was selected is the whole selection. */
  lemma MergeDone(cursors: seq<Cursor>, ts: seq<Table>, pos: seq<nat>, rank: Rank, sel: Table)
    requires Ready([], cursors, ts, pos, {}) && InRange(ts, pos) && Merged(ts, pos, rank, sel)
    ensures IsSelection(ts, rank, sel) && SortedEntries(Puts(sel))
    ensures forall k :: Lookup(Puts(sel), k) == Visible(Pick(ts, rank, k))
    ensures Left(ts, pos, Count()) == 0 && Left(ts, Start(ts), Count()) == RecordCount(ts)
  {
    hide Ready, Merged, Left, SortedEntries, Pick, Puts, Lookup, Count;
    Drained(cursors, ts, pos);
    CountAll(ts, pos);
    MergedSorted(ts, pos, rank, sel);
    PutsSorted(sel);
    forall k
      ensures Lookup(sel, k) == Pick(ts, rank, k)
      ensures Lookup(Puts(sel), k) == Visible(Pick(ts, rank, k))
    {
      AllRead(ts, pos, rank, sel, k);
      PutsLookup(sel, k);
    }
  }

  /** How many records the tables hold together. */
  function RecordCount(ts: seq<Table>): (n: nat)
  {
    if ts == [] then 0 else RecordCount(ts[..|ts| - 1]) + |ts[|ts| - 1]|
  }

  lemma CountAll(ts: seq<Table>, pos: seq<nat>)
    requires InRange(ts, pos) && forall i :: 0 <= i < |ts| ==> pos[i] == |ts[i]|
    ensures Left(ts, pos, Count()) == 0
    ensures InRange(ts, Start(ts)) && Left(ts, Start(ts), Count()) == RecordCount(ts)
  {
    SumZero(Measures(ts, pos, Count()));
    SumRecords(ts, Measures(ts, Start(ts), Count()));
  }

  lemma {:induction false} SumZero(xs: seq<nat>)
    requires forall i :: 0 <= i < |xs| ==> xs[i] == 0
    ensures Sum(xs) == 0
  {
    if xs != [] {
      SumZero(xs[..|xs| - 1]);
    }
  }

  lemma {:induction false} SumRecords(ts: seq<Table>, xs: seq<nat>)
    requires |xs| == |ts| && forall i :: 0 <= i < |ts| ==> xs[i] == |ts[i]|
    ensures Sum(xs) == RecordCount(ts)
  {
    if ts != [] {
      SumRecords(ts[..|ts| - 1], xs[..|xs| - 1]);
    }
  }

  lemma NoPuts()
    ensures Puts([]) == []
  {
  }

  lemma MergedSorted(ts: seq<Table>, pos: seq<nat>, rank: Rank, sel: Table)
    requires Merged(ts, pos, rank, sel)
    ensures SortedEntries(sel)
  {
  }

  lemma FrontierAt(ts: seq<Table>, pos: seq<nat>, sel: Table)
    requires InRange(ts, pos) && sel != [] && Above(ts, pos, sel[|sel| - 1].key)
    ensures Frontier(ts, pos, sel)
  {
  }

  /** An empty heap with no open table: everything was read. */
  lemma Drained(cursors: seq<Cursor>, ts: seq<Table>, pos: seq<nat>)
    requires Ready([], cursors, ts, pos, {})
    ensures forall i :: 0 <= i < |ts| ==> pos[i] == |ts[i]|
  {
    forall i | 0 <= i < |ts|
      ensures pos[i] == |ts[i]|
    {
      assert !InHeap([], i);
    }
  }

  /** A data record joins the output; a tombstone is dropped from it. */
  lemma PushOrDrop(sel: Table, e: Entry)
    ensures Fresh(e).value.Some? <==> e.op.Put?
    ensures Puts(sel + [e]) == if e.op.Put? then Puts(sel) + [e] else Puts(sel)
  {
    assert (sel + [e])[..|sel|] == sel;
  }

  // ------------------------------ the standard library's heap, comparing keys alone

  /** A pushed node moves up while its key is smaller than its parent's. */
  function SiftUp(heap: Heap, i: nat): (r: Heap)
    requires i < |heap|
    ensures |r| == |heap|
    decreases i
  {
    if i == 0 || !Less(heap[i].key, heap[(i - 1) / 2].key) then heap
    else SiftUp(heap[i := heap[(i - 1) / 2]][(i - 1) / 2 := heap[i]], (i - 1) / 2)
  }

  /** A node sinks to the bottom past its smaller children, then moves up again. */
  function SinkAndSift(heap: Heap, i: nat): (r: Heap)
    requires i < |heap|
    ensures |r| == |heap|
    decreases |heap| - i
  {
    var child := 2 * i + 1;
    if child >= |heap| then SiftUp(heap, i)
    else
      var c := if child + 1 < |heap| && !Less(heap[child].key, heap[child + 1].key) then child + 1 else child;
      SinkAndSift(heap[i := heap[c]][c := heap[i]], c)
  }

  function HeapPush(heap: Heap, n: HeapNode): (r: Heap)
  {
    SiftUp(heap + [n], |heap|)
  }

  /** The first node leaves and the last one takes its place. */
  function HeapPop(heap: Heap): (r: (HeapNode, Heap))
    requires heap != []
  {
    var last, rest := heap[|heap| - 1], heap[..|heap| - 1];
    if rest == [] then (last, []) else (heap[0], SinkAndSift(rest[0 := last], 0))
  }

  /** The merge of the tables [a, k] and [k] with that heap, step by step: the heap is seeded, `a`
      is popped, its table yields `k`, and then the older `k` is popped before the newer. */
  lemma HeapPopsOlder(a: Entry, newer: Entry, older: Entry)
    requires newer.key == older.key && Less(a.key, newer.key)
    ensures var na, n0, n1 := HeapNode(Fresh(a), a.key, 0), HeapNode(Fresh(newer), newer.key, 0),
                              HeapNode(Fresh(older), older.key, 1);
            var seeded := HeapPush(HeapPush([], na), n1);
            && seeded != [] && HeapPop(seeded).0 == na
            && var refilled := HeapPush(HeapPop(seeded).1, n0);
               refilled != [] && HeapPop(refilled).0 == n1
  {
    hide Less;
    var na, n0, n1 := HeapNode(Fresh(a), a.key, 0), HeapNode(Fresh(newer), newer.key, 0),
                      HeapNode(Fresh(older), older.key, 1);
    LessStrict(a.key, newer.key);
    NotLessSelf(newer.key);
    assert HeapPush([], na) == [na];
    assert HeapPush([na], n1) == [na, n1];
    assert [na, n1][..1] == [na] && [na][0 := n1] == [n1];
    assert HeapPop([na, n1]) == (na, [n1]);
    assert HeapPush([n1], n0) == [n1, n0];
  }

  lemma NotLessSelf(k: Blob)
    ensures !Less(k, k)
  {
    if Less(k, k) {
      LessStrict(k, k);
    }
  }
}
