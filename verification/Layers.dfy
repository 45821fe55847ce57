/** The two shared layers below the active table as objects: the queue of full memtables
    (src/memtable/immutable.rs) and the cache of open SSTables (src/sstable/mod.rs), each proved
    against the lookup of the protocol that it serves. */
module Layers {
  import opened Bytes
  import opened BloomFilters
  import opened Compaction
  import opened Contents
  import opened Memtables
  import opened MergeSpec
  import opened Pipeline
  import Protocol
  import opened RecordBuffers
  import opened Records
  import opened SSTableFiles
  import opened SSTableReads
  import opened Tries

  /** Memtables as tables of the protocol. */
  ghost function Cells(ms: seq<Memtable>): (q: seq<Protocol.MemTable>)
    reads ms
    ensures |q| == |ms| && forall i :: 0 <= i < |ms| ==> q[i] == CellsOf(ms[i].Contents())
  {
    if ms == [] then [] else Cells(ms[..|ms| - 1]) + [CellsOf(ms[|ms| - 1].Contents())]
  }

  class ImmutableMemtable {
    var table: seq<Memtable>   // oldest first

    ghost predicate Valid()
      reads this, table
    {
      forall m :: m in table ==> m.Shape()
    }

    constructor ()
      ensures Valid() && table == []
    {
      table := [];
    }

    /** The inserted table answers first. */
    method Insert(m: Memtable)
      requires Valid() && m.Shape()
      modifies this
      ensures Valid() && table == old(table) + [m] && Cells(table) == old(Cells(table)) + [CellsOf(m.Contents())]
      ensures forall k :: k !in m.Contents() ==>
                Protocol.QueueFirst(Cells(table), k) == Protocol.QueueFirst(old(Cells(table)), k)
    {
      hide Memtable.Shape, CellOf;
      table := table + [m];
      assert table[..|table| - 1] == old(table);
      assert Cells(table)[..|table| - 1] == old(Cells(table));
    }

    /** The oldest table leaves; no younger answer changes. */
    method PopFront()
      requires Valid()
      modifies this
      ensures Valid()
      ensures old(table) == [] ==> table == []
      ensures old(table) != [] ==> table == old(table)[1..] && Cells(table) == old(Cells(table))[1..]
      ensures forall k :: Protocol.QueueFirst(Cells(table), k).Some? ==>
                Protocol.QueueFirst(Cells(table), k) == Protocol.QueueFirst(old(Cells(table)), k)
    {
      hide Memtable.Shape, CellsOf, Protocol.QueueFirst;
      if table != [] {
        forall k
          ensures Protocol.QueueFirst(Cells(table)[1..], k).Some? ==>
                    Protocol.QueueFirst(Cells(table)[1..], k) == Protocol.QueueFirst(Cells(table), k)
        {
          Protocol.QueueFirstPop(Cells(table), k);
        }
        table := table[1..];
        assert Cells(table) == old(Cells(table))[1..];
      }
    }

    /** The youngest table that holds the key. */
    ghost predicate NewestHolder(i: int, k: Blob)
      requires 0 <= i < |table|
      reads this, table
    {
      k in table[i].Contents() && forall j :: i < j < |table| ==> k !in table[j].Contents()
    }

    /** From the back: the newest table that holds the key answers, a tombstone included. */
    method Get(k: Blob) returns (q: Query)
      requires Valid()
      ensures q == match Protocol.QueueFirst(Cells(table), k) case None => NotFound case Some(c) => c.read
      ensures forall i :: 0 <= i < |table| && NewestHolder(i, k) ==> q == table[i].Reads(k)
      ensures q != NotFound <==> exists i :: 0 <= i < |table| && NewestHolder(i, k)
    {
      hide Memtable.Shape, Cells, CellsOf, Memtable.Contents, Memtable.Reads;
      ghost var cells := Cells(table);
      var i := |table|;
      assert cells[..|table|] == cells;
      while i > 0
        invariant 0 <= i <= |table|
        invariant forall j :: i <= j < |table| ==> k !in table[j].Contents()
        invariant Protocol.QueueFirst(cells, k) == Protocol.QueueFirst(cells[..i], k)
      {
        i := i - 1;
        assert cells[..i + 1][..i] == cells[..i];
        CellAnswers(table[i], k);
        q := table[i].Get(k);
        if q != NotFound {
          assert NewestHolder(i, k);
          return;
        }
      }
      q := NotFound;
    }
  }

  /** The protocol's lookup in a queue finds the cell of the youngest table that holds the key. */
  lemma {:induction false} FirstInQueue(ms: seq<Memtable>, k: Blob, n: nat)
    requires n <= |ms| && forall j :: n <= j < |ms| ==> k !in ms[j].Contents()
    ensures n == 0 ==> Protocol.QueueFirst(Cells(ms), k) == None
    ensures n > 0 && k in ms[n - 1].Contents() ==>
              Protocol.QueueFirst(Cells(ms), k) == Some(CellOf(k, ms[n - 1].Contents()[k]))
    decreases |ms|
  {
    hide Memtable.Contents, CellOf;
    if ms != [] {
      var last := |ms| - 1;
      assert Cells(ms)[..last] == Cells(ms[..last]);
      if n <= last {
        FirstInQueue(ms[..last], k, n);
      }
    }
  }

  /** A memtable answers a key as its cell reads. */
  lemma CellAnswers(m: Memtable, k: Blob)
    ensures var c := CellsOf(m.Contents());
            && (k in c <==> k in m.Contents())
            && (k in c ==> c[k].op == m.Contents()[k].op && c[k].read == m.Reads(k) != NotFound)
  {
    hide RecordOf, PairMap;
  }

  class SSTableCache {
    var cache: seq<SSTable>       // newest first
    const compactionRate: nat
    ghost var tables: seq<Table>  // what each file holds
    ghost var parts: seq<Parts>

    /** Every table is open. */
    ghost predicate Valid(h: Hashes)
      reads this, set t | t in cache :: t.trie, set t | t in cache :: t.bloom
    {
      && |cache| == |tables| == |parts|
      && forall i :: 0 <= i < |cache| ==> cache[i].Opened(tables[i], parts[i], h)
    }

    /** Every table finds all the keys of its file. */
    ghost predicate Serving(h: Hashes)
      reads this, set t | t in cache :: t.trie, set t | t in cache :: t.bloom
    {
      Valid(h) && forall i :: 0 <= i < |cache| ==> cache[i].Serves(tables[i], parts[i], h)
    }

    constructor (rate: nat, ghost h: Hashes)
      ensures Serving(h) && cache == [] && tables == [] && compactionRate == rate
    {
      cache, compactionRate, tables, parts := [], rate, [], [];
    }

    method Push(t: SSTable, ghost es: Table, ghost p: Parts, ghost h: Hashes) returns (len: nat)
      requires Valid(h) && t.Opened(es, p, h)
      modifies this
      ensures Valid(h) && cache == [t] + old(cache) && tables == [es] + old(tables) && len == |cache| == |tables|
      ensures old(Serving(h)) && t.Serves(es, p, h) ==> Serving(h)
      ensures forall k :: Lookup(es, k) == NotFound ==> StackLookup(tables, k) == StackLookup(old(tables), k)
      ensures forall k :: Lookup(es, k) != NotFound ==> StackLookup(tables, k) == Lookup(es, k)
    {
      hide SSTable.Serves, SSTable.Opened, Lookup;
      cache := [t] + cache;
      tables, parts := [es] + tables, [p] + parts;
      len := |cache|;
      assert tables[1..] == old(tables);
    }

    /** All tables make way for one. */
    method ReplaceWithCompactTable(t: SSTable, ghost es: Table, ghost p: Parts, ghost h: Hashes)
      requires t.Opened(es, p, h)
      modifies this
      ensures Valid(h) && cache == [t] && tables == [es]
      ensures t.Serves(es, p, h) ==> Serving(h)
      ensures forall k :: StackLookup(tables, k) == Lookup(es, k)
    {
      hide SSTable.Serves, SSTable.Opened, Lookup;
      cache := [t];
      tables, parts := [es], [p];
      assert tables[1..] == [];
    }

    /** From the front: the first table with the key decides, and a tombstone ends the search. So
        it answers as newest-first lookup does, but for the sized read. */
    method Search(k: Blob, h: Hashes) returns (q: Query)
      requires Valid(h)
      ensures Serving(h) ==> q == SizedRead(k, Visible(StackLookup(tables, k)))
    {
      hide SSTable.Serves, SSTable.Opened, Lookup, Readable, Find;
      assert tables[0..] == tables;
      for i := 0 to |cache|
        invariant Serving(h) ==> StackLookup(tables, k) == StackLookup(tables[i..], k)
      {
        assert tables[i..][0] == tables[i] && tables[i..][1..] == tables[i + 1..];
        LookupHas(tables[i], k);
        q := cache[i].Search(k, h, tables[i], parts[i]);
        match q {
          case Data(_) => return;
          case Tombstone => return NotFound;
          case Crash => return;
          case NotFound =>
        }
      }
      q := NotFound;
    }

    /** The data regions of all tables, in cache order. */
    method Regions(ghost h: Hashes) returns (buffers: seq<Blob>)
      requires Valid(h)
      ensures Sources(buffers, tables)
    {
      hide SSTable.Opened, SortedEntries, Stream, Encodable;
      buffers := [];
      for i := 0 to |cache|
        invariant |buffers| == i
        invariant forall j :: 0 <= j < i ==> buffers[j] == Stream(tables[j]) && AllEncodable(tables[j])
        invariant forall j :: 0 <= j < i ==> SortedEntries(tables[j])
      {
        OpenedSorted(cache[i], tables[i], parts[i], h);
        var buffer := DataRegion(cache[i], tables[i], parts[i], h);
        buffers := buffers + [buffer];
      }
    }
  }

  lemma OpenedSorted(t: SSTable, es: Table, p: Parts, h: Hashes)
    requires t.Opened(es, p, h)
    ensures SortedEntries(es)
  {
  }
}
