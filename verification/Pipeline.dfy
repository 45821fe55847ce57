/** The engine end to end: a memtable flushed and read back, and tables compacted and read back. */
module Pipeline {
  import opened Bytes
  import opened BloomFilters
  import opened Compaction
  import opened Contents
  import opened Memtables
  import opened MergeSpec
  import Protocol
  import opened RecordBuffers
  import opened Records
  import opened RedBlack
  import opened SSTableFiles
  import opened SSTableReads
  import opened Tries

  /** A flushed table looks up, on disk, what the tree's records encode. */
  lemma FlushedLookup(ps: seq<Pair>, k: Blob)
    requires Sorted(ps)
    ensures Lookup(EntriesOf(ps), k) == if k in PairMap(ps) then Meaning(PairMap(ps)[k].op) else NotFound
  {
    hide Less, Lookup, PairMap;
    EntriesSorted(ps);
    PairMapKeys(ps, k);
    if k in PairMap(ps) {
      var i :| 0 <= i < |ps| && ps[i].key == k;
      PairMapValue(ps, i);
      LookupAt(EntriesOf(ps), i);
    } else {
      LookupAbsent(EntriesOf(ps), k);
    }
  }

  /** A file is opened and one key looked up through its index. Narrow keys answer as the scan
      does, but for the sized read. Other keys may not open, which panics; if they do, some key
      of the file is lost, and a lost key is not found. */
  method OpenAndSearch(file: Blob, key: Blob, h: Hashes, ghost es: seq<Entry>, ghost p: Parts)
    returns (table: Option<SSTable>, q: Query)
    requires Built(file, es, p, h) && SortedEntries(es)
    ensures table.Some? ==> table.value.Opened(es, p, h)
    ensures Narrow(OffsetMap(es).Keys) ==> table.Some? && q == SizedRead(key, Lookup(es, key))
    ensures !Narrow(OffsetMap(es).Keys) && table.Some? ==>
              exists k :: k in OffsetMap(es) && Find(table.value.trie.arena, k) == Absent
    ensures table.Some? && Find(table.value.trie.arena, key) == Absent ==> q == NotFound
    ensures table.None? ==> q == Crash
  {
    hide Built, Narrow, OffsetMap, SortedEntries, Stream, Find, SSTable.Opened, Lookup, SizedRead;
    table := FromFile(file, h, es, p);
    if table.None? { return None, Crash; }
    q := table.value.Search(key, h, es, p);
  }

  /** Writing a memtable, reopening the file and searching it by index gives, for every key, the
      meaning of the tree's record, as the linear scan of the file does; for every key of every
      table exactly when its keys are narrow and its records readable. */
  method FlushThenSearch(table: Memtable, key: Blob, numHashes: nat, h: Hashes)
    returns (disk: Option<SSTable>, q: Query, scanned: Query)
    requires table.Shape() && Bounded(EntriesIn(table)) && 1 <= numHashes < U64_LIMIT
    ensures scanned == if key in table.Contents() then Meaning(table.Contents()[key].op) else NotFound
    ensures Narrow(table.Contents().Keys) ==> disk.Some? && q == SizedRead(key, scanned)
    ensures !Narrow(table.Contents().Keys) && disk.Some? ==>
              exists k :: k in table.Contents() && Find(disk.value.trie.arena, k) == Absent
    ensures disk.Some? && Find(disk.value.trie.arena, key) == Absent ==> q == NotFound
    ensures disk.None? ==> q == Crash
  {
    hide Built, Narrow, OffsetMap, SortedEntries, Stream, Focus, RedBlackTree, Indices, Sorted, Less, Inorder, PairMap,
      SizedRead, Lookup, EntriesOf, Bounded, Find, SSTable.Opened;
    ghost var es := EntriesIn(table);
    var file, p := WriteSSTable(table, numHashes, h);
    FlushedKeys(Inorder(table.tree));
    FlushedLookup(Inorder(table.tree), key);
    disk, q := OpenAndSearch(file, key, h, es, p);
    var end := DataEnd(file, es, p, h);
    scanned := SearchDataBlock(file, HEADER_SIZE, end, key, es);
  }

  /** Flushing a memtable and loading the file, as the background tasks do. */
  method FlushAndOpen(table: Memtable, numHashes: nat, h: Hashes) returns (disk: Option<SSTable>, ghost p: Parts)
    requires table.Shape() && Bounded(EntriesIn(table)) && 1 <= numHashes < U64_LIMIT
    ensures disk.Some? ==>
              && disk.value.Opened(EntriesIn(table), p, h)
              && fresh(disk.value) && fresh(disk.value.trie) && fresh(disk.value.bloom)
    ensures Narrow(table.Contents().Keys) ==> disk.Some? && disk.value.Serves(EntriesIn(table), p, h)
    ensures DiskOf(EntriesIn(table)) == Protocol.ToDisk(CellsOf(table.Contents()))
  {
    hide Built, Narrow, OffsetMap, SortedEntries, Sorted, Inorder, PairMap, EntriesOf, Bounded, Find, SSTable.Opened,
      Protocol.ToDisk, CellsOf, DiskOf;
    var file;
    file, p := WriteSSTable(table, numHashes, h);
    FlushedKeys(Inorder(table.tree));
    FlushRefines(Inorder(table.tree));
    disk := FromFile(file, h, EntriesIn(table), p);
  }

  /** The index of a flushed table holds the keys of the table. */
  lemma FlushedKeys(ps: seq<Pair>)
    requires Sorted(ps)
    ensures OffsetMap(EntriesOf(ps)).Keys == PairMap(ps).Keys
  {
    hide Less, PairMap, OffsetMap, Sorted;
    var es := EntriesOf(ps);
    forall k
      ensures k in OffsetMap(es) <==> k in PairMap(ps)
    {
      OffsetKeys(es, k);
      PairMapKeys(ps, k);
      if i :| 0 <= i < |ps| && ps[i].key == k {
        assert es[i].key == k;
      }
    }
  }

  /** Compacting a stack of tables, newest first, under any preference, reopening the output and
      searching it gives for every key the preferred record, a tombstone read as absent and an
      unreadable record as a panic; under the order of `Ord`, the newest-first answer. */
  method CompactThenSearch(buffers: seq<Blob>, key: Blob, rank: Rank, numHashes: nat, grown: nat -> nat, h: Hashes,
                           ghost ts: seq<Table>)
    returns (disk: Option<SSTable>, q: Query)
    requires Sources(buffers, ts) && FitsOneTable(ts, rank) && 1 <= numHashes < U64_LIMIT
    ensures Narrow(KeptKeys(ts, rank)) ==> disk.Some? && q == SizedRead(key, Visible(Pick(ts, rank, key)))
    ensures Narrow(KeptKeys(ts, rank)) && rank == ByIndex() ==> q == SizedRead(key, Visible(StackLookup(ts, key)))
    ensures !Narrow(KeptKeys(ts, rank)) && disk.Some? ==>
              exists k :: k in KeptKeys(ts, rank) && Find(disk.value.trie.arena, k) == Absent
    ensures disk.Some? && Find(disk.value.trie.arena, key) == Absent ==> q == NotFound
    ensures disk.None? ==> q == Crash
  {
    hide Built, Narrow, OffsetMap, SortedEntries, Stream, Less, SizedRead, Lookup, Puts, Pick, StackLookup,
      FitsOneTable, Find, SSTable.Opened, Sources, IsSelection, IsMergeOf, KeptKeys;
    var file, sel, p, _ := RunCompaction(buffers, rank, numHashes, grown, h, ts);
    OutputKeys(ts, rank, sel);
    NewestWins(ts, key);
    disk, q := OpenAndSearch(file, key, h, Puts(sel), p);
  }

  /** Merging data regions and loading the output. */
  method CompactAndOpen(buffers: seq<Blob>, rank: Rank, numHashes: nat, grown: nat -> nat, h: Hashes,
                        ghost ts: seq<Table>)
    returns (disk: Option<SSTable>, ghost es: Table, ghost p: Parts)
    requires Sources(buffers, ts) && FitsOneTable(ts, rank) && 1 <= numHashes < U64_LIMIT
    ensures disk.Some? ==>
              && disk.value.Opened(es, p, h)
              && fresh(disk.value) && fresh(disk.value.trie) && fresh(disk.value.bloom)
    ensures Narrow(KeptKeys(ts, rank)) ==> disk.Some? && disk.value.Serves(es, p, h)
    ensures DiskOf(es) == Protocol.Compacted(DisksOf(ts), PreferenceOf(ts, rank))
    ensures rank == ByIndex() ==> DiskOf(es) == Protocol.Compacted(DisksOf(ts), Protocol.ORD)
  {
    hide Built, Narrow, OffsetMap, SortedEntries, Stream, Lookup, Puts, Pick, FitsOneTable, Find, SSTable.Opened,
      Sources, IsSelection, IsMergeOf, KeptKeys, DiskOf, DisksOf, PreferenceOf, Protocol.Compacted;
    var file, sel, parts, _ := RunCompaction(buffers, rank, numHashes, grown, h, ts);
    es, p := Puts(sel), parts;
    OutputKeys(ts, rank, sel);
    MergeRefines(ts, rank, sel);
    disk := FromFile(file, h, es, p);
  }

  /** The keys whose preferred record is data. */
  ghost function KeptKeys(ts: seq<Table>, rank: Rank): (keys: set<Blob>)
  {
    set k | k in MergeSpec.KeysOf(ts) && Pick(ts, rank, k).Data?
  }

  lemma OutputKeys(ts: seq<Table>, rank: Rank, sel: Table)
    requires forall k :: Lookup(Puts(sel), k) == Visible(Pick(ts, rank, k))
    ensures OffsetMap(Puts(sel)).Keys == KeptKeys(ts, rank)
  {
    hide Lookup, Pick, OffsetMap, Puts;
    forall k
      ensures k in OffsetMap(Puts(sel)).Keys <==> k in KeptKeys(ts, rank)
    {
      OffsetKeys(Puts(sel), k);
      LookupHas(Puts(sel), k);
      PickAnswers(ts, rank, k);
    }
  }

  lemma PickAnswers(ts: seq<Table>, rank: Rank, k: Blob)
    ensures !Pick(ts, rank, k).Crash?
    ensures Pick(ts, rank, k) != NotFound ==> k in MergeSpec.KeysOf(ts)
  {
    if Winner(ts, rank, k).Some? {
      var w := Winner(ts, rank, k).value;
      LookupHas(ts[w], k);
      var j :| 0 <= j < |ts[w]| && ts[w][j].key == k;
      assert ts[w][j].key in MergeSpec.KeysOf(ts);
    }
  }

  // ------------------------------------- tables of bytes as tables of the protocol

  function CellOf(k: Blob, st: Stored): (c: Protocol.Cell)
  {
    Protocol.Cell(st.op, ReadValue(RecordOf(k, st)))
  }

  function CellsOf(m: map<Blob, Stored>): (t: Protocol.MemTable)
  {
    map k | k in m :: CellOf(k, m[k])
  }

  /** A write accepted by a memtable is the protocol's write of one cell. */
  lemma WriteRefines(s: State, e: Entry)
    requires Write(s, e).Some?
    ensures var s' := Write(s, e).value;
            && e.key in s'.contents && s'.contents[e.key].op == e.op
            && CellsOf(s'.contents) == CellsOf(s.contents)[e.key := CellOf(e.key, s'.contents[e.key])]
  {
    hide RecordBuffers.Fits, RecordOf, ReadValue;
  }

  function DiskOf(es: seq<Entry>): (d: Protocol.DiskTable)
  {
    if es == [] then map[] else DiskOf(es[1..])[es[0].key := es[0].op]
  }

  /** A file's records, looked up first to last, are the protocol's disk table. */
  lemma {:induction false} DiskLookup(es: seq<Entry>, k: Blob)
    ensures Lookup(es, k) == if k in DiskOf(es) then Meaning(DiskOf(es)[k]) else NotFound
  {
    if es != [] {
      DiskLookup(es[1..], k);
    }
  }

  /** What a flush writes is the protocol's disk image of the memtable. */
  lemma FlushRefines(ps: seq<Pair>)
    requires Sorted(ps)
    ensures DiskOf(EntriesOf(ps)) == Protocol.ToDisk(CellsOf(PairMap(ps)))
  {
    hide Less, PairMap, EntriesOf, Lookup;
    var d, m := DiskOf(EntriesOf(ps)), PairMap(ps);
    forall k
      ensures k in d <==> k in m
      ensures k in d ==> d[k] == m[k].op
    {
      DiskLookup(EntriesOf(ps), k);
      FlushedLookup(ps, k);
    }
  }

  function DisksOf(ts: seq<Table>): (ds: seq<Protocol.DiskTable>)
    ensures |ds| == |ts| && forall i :: 0 <= i < |ts| ==> ds[i] == DiskOf(ts[i])
  {
    if ts == [] then [] else [DiskOf(ts[0])] + DisksOf(ts[1..])
  }

  /** A stack of files is the protocol's cache. */
  lemma {:induction false} StackRefines(ts: seq<Table>, k: Blob)
    ensures StackLookup(ts, k) ==
              match Protocol.CacheFirst(DisksOf(ts), k) case None => NotFound case Some(op) => Meaning(op)
  {
    if ts != [] {
      DiskLookup(ts[0], k);
      StackRefines(ts[1..], k);
      assert DisksOf(ts)[1..] == DisksOf(ts[1..]);
    }
  }

  /** The preference of a merge, key by key. */
  ghost function PreferenceOf(ts: seq<Table>, rank: Rank): (pref: Protocol.Preference)
  {
    map k | k in MergeSpec.KeysOf(ts) && Winner(ts, rank, k).Some? :: Winner(ts, rank, k).value
  }

  lemma ChosenRefines(ts: seq<Table>, rank: Rank, k: Blob)
    ensures Pick(ts, rank, k) ==
              match Protocol.Chosen(DisksOf(ts), PreferenceOf(ts, rank), k)
              case None => NotFound
              case Some(op) => Meaning(op)
  {
    hide Lookup, Winner, StackLookup, DiskOf, Protocol.CacheFirst;
    var w := Winner(ts, rank, k);
    if w.Some? {
      var j :| 0 <= j < |ts[w.value]| && ts[w.value][j].key == k;
      assert ts[w.value][j].key in MergeSpec.KeysOf(ts);
      LookupHas(ts[w.value], k);
      DiskLookup(ts[w.value], k);
    } else {
      forall j | 0 <= j < |ts|
        ensures !HasKey(ts[j], k)
      {
        if HasKey(ts[j], k) {
          WinnerBest(ts, rank, k, j);
        }
      }
      StackNone(ts, k);
      StackRefines(ts, k);
    }
  }

  /** The file that the merge writes is the compacted table of the protocol, under the merge's own
      preference; for the order of `Ord` that is the newest record of every key. */
  lemma MergeRefines(ts: seq<Table>, rank: Rank, sel: Table)
    requires forall k :: Lookup(Puts(sel), k) == Visible(Pick(ts, rank, k))
    ensures DiskOf(Puts(sel)) == Protocol.Compacted(DisksOf(ts), PreferenceOf(ts, rank))
    ensures rank == ByIndex() ==> DiskOf(Puts(sel)) == Protocol.Compacted(DisksOf(ts), Protocol.ORD)
  {
    hide Lookup, Pick, StackLookup, Puts, DisksOf, DiskOf, PreferenceOf, Protocol.KeysOf, Protocol.Chosen;
    var d, ds := DiskOf(Puts(sel)), DisksOf(ts);
    var c := Protocol.Compacted(ds, PreferenceOf(ts, rank));
    forall k
      ensures k in d <==> k in c
      ensures k in d ==> d[k] == c[k]
      ensures rank == ByIndex() ==>
                && (k in d <==> k in Protocol.Compacted(ds, Protocol.ORD))
                && (k in d ==> d[k] == Protocol.Compacted(ds, Protocol.ORD)[k])
    {
      DiskLookup(Puts(sel), k);
      ChosenRefines(ts, rank, k);
      Protocol.CompactedHas(ds, PreferenceOf(ts, rank), k);
      Protocol.CompactedHas(ds, Protocol.ORD, k);
      NewestWins(ts, k);
      StackRefines(ts, k);
      Protocol.ChosenByOrd(ds, k);
    }
  }
}
