/** The engine (src/database/inner.rs, src/memtable/mod.rs): a write to a full table rotates it into
    the queue and is retried on a fresh one; a get asks the active table, the queue and the cache;
    the background tasks move the oldest queued table into the cache and merge a long cache. Each
    operation is a run of the protocol on what the objects hold. */
module Database {
  import opened Bytes
  import opened BloomFilters
  import opened Compaction
  import opened Contents
  import opened Layers
  import opened Memtables
  import opened MergeSpec
  import opened Pipeline
  import Protocol
  import opened RecordBuffers
  import opened Records
  import opened RedBlack
  import opened SSTableFiles
  import opened SSTableReads
  import opened Tries

  class LsmliteInner {
    var memtable: Memtable
    const immutable: ImmutableMemtable
    const sstables: SSTableCache
    var signals: nat               // flush signals not yet received
    const maxSize: nat
    const maxNodes: nat
    const h: Hashes

    ghost predicate Valid()
      reads this, memtable, memtable.wal, immutable, immutable.table, sstables
      reads set t | t in sstables.cache :: t.trie, set t | t in sstables.cache :: t.bloom
    {
      && memtable.Valid() && memtable.maxSize == maxSize && memtable.maxNodes == maxNodes
      && memtable !in immutable.table && immutable.Valid() && signals == |immutable.table|
      && sstables.Valid(h)
    }

    /** What the objects hold, as a state of the protocol with no task under way. */
    ghost function View(): (s: Protocol.State)
      reads this, memtable, immutable, immutable.table, sstables
    {
      Protocol.State(CellsOf(memtable.Contents()), Protocol.Ready, Cells(immutable.table), signals, Protocol.Idle, [],
                     Protocol.Waiting, DisksOf(sstables.tables), 0, sstables.compactionRate, Protocol.NoGet, false)
    }

    constructor (maxSize: nat, maxNodes: nat, rate: nat, h: Hashes, now: nat)
      ensures Valid() && sstables.Serving(h) && memtable.log == [] && immutable.table == [] && sstables.cache == []
      ensures this.maxSize == maxSize && this.maxNodes == maxNodes && this.h == h
    {
      this.maxSize, this.maxNodes, this.h := maxSize, maxNodes, h;
      memtable := new Memtable(maxSize, maxNodes, now);
      immutable := new ImmutableMemtable();
      sstables := new SSTableCache(rate, h);
      signals := 0;
    }

    /** The full table goes to the back of the queue as it is, with one signal. */
    method RotateTable(now: nat)
      requires Valid()
      modifies this, immutable
      ensures Valid() && fresh(memtable) && fresh(memtable.wal) && memtable.log == [] && memtable.replayed == 0
      ensures immutable.table == old(immutable.table) + [old(memtable)]
      ensures old(memtable).Valid() && old(memtable).log == old(memtable.log)
      ensures var s := old(View());
              View() == s.(active := map[], queue := s.queue + [s.active], signals := s.signals + 1)
    {
      hide Memtable.Valid, Memtable.Shape, Memtable.Contents, Cells, CellsOf, DisksOf, SSTableCache.Valid,
        ImmutableMemtable.Valid, Protocol.QueueFirst, Inorder, PairMap;
      TableShape(memtable);
      var full := memtable;
      memtable := new Memtable(maxSize, maxNodes, now);
      NothingHeld(memtable);
      immutable.Insert(full);
      signals := signals + 1;
    }

    /** A write to the active table, put or delete, if it is not full. */
    method Insert(key: Blob, op: Op, now: nat, later: nat) returns (r: InsertResult)
      requires Valid() && Encodable(Entry(key, op))
      modifies memtable, memtable.wal
      ensures old(memtable.IsFull()) <==>
                |old(memtable.Contents())| == maxNodes || old(memtable.currentSize) >= maxSize
      ensures r.TableFull? <==> old(memtable.IsFull())
      ensures r.TableFull? ==> Valid() && View() == old(View()) && memtable.log == old(memtable.log)
      ensures r.Panicked? <==> !old(memtable.IsFull()) && Write(old(memtable.View()), Entry(key, op)).None?
      ensures r.Panicked? ==> op.Put? && memtable.Logged(old(memtable.log) + [Entry(key, op)])
      ensures r.Inserted? ==>
                && Valid() && Took(memtable, Entry(key, op)) && memtable.log == old(memtable.log) + [Entry(key, op)]
                && var s := old(View());
                   View() == s.(active := s.active[key := CellOf(key, memtable.Contents()[key])])
    {
      hide Memtable.Valid, Encodable, Cells, CellsOf, SSTableCache.Valid, ImmutableMemtable.Valid, Write;
      ghost var before := memtable.View();
      TableShape(memtable);
      memtable.FullAgrees();
      match op {
        case Put(value) => r := memtable.InsertDataRecord(key, value, now, later);
        case Delete => r := memtable.InsertTombstoneRecord(key, now, later);
      }
      DeleteFits(before, key);
      if r.Inserted? {
        WriteRefines(before, Entry(key, op));
      }
    }

    /** A fresh table takes the write exactly when the limits allow any write at all; otherwise
        the retry's error is discarded and the write is lost. An accepted write is the
        protocol's, with a rotation before it if the table was full. */
    method Set(key: Blob, value: Blob, now: nat, later: nat) returns (r: InsertResult)
      requires Valid() && Encodable(Entry(key, Put(value)))
      modifies this, memtable, memtable.wal, immutable
      ensures old(memtable.IsFull()) <==>
                |old(memtable.Contents())| == maxNodes || old(memtable.currentSize) >= maxSize
      ensures r.Panicked? <==> !old(memtable.IsFull()) && Write(old(memtable.View()), Entry(key, Put(value))).None?
      ensures r.Panicked? ==> memtable == old(memtable) && memtable.Logged(old(memtable.log) + [Entry(key, Put(value))])
      ensures r.TableFull? <==> old(memtable.IsFull()) && (maxSize == 0 || maxNodes == 0)
      ensures r.TableFull? ==> Valid() && memtable.log == []
      ensures !r.Panicked? ==>
                immutable.table == old(immutable.table) + if old(memtable.IsFull()) then [old(memtable)] else []
      ensures r.Inserted? ==>
                && Valid() && Took(memtable, Entry(key, Put(value)))
                && memtable.log == (if old(memtable.IsFull()) then [] else old(memtable.log)) + [Entry(key, Put(value))]
                && var run := Protocol.Writing(old(memtable.IsFull()), key, CellOf(key, memtable.Contents()[key]));
                   Protocol.IsRun(old(View()), run) && View() == Protocol.After(old(View()), run)
    {
      hide Memtable.Valid, Encodable, Cells, CellsOf, SSTableCache.Valid, ImmutableMemtable.Valid, Protocol.IsRun,
        Protocol.After, Write;
      ghost var full := memtable.IsFull();
      r := Insert(key, Put(value), now, later);
      if r.TableFull? {
        RotateTable(now);
        EmptyTable(memtable, Entry(key, Put(value)));
        r := Insert(key, Put(value), now, later);
      }
      if r.Inserted? {
        Protocol.WritingIsRun(old(View()), full, key, CellOf(key, memtable.Contents()[key]));
      }
    }

    method Delete(key: Blob, now: nat, later: nat) returns (r: InsertResult)
      requires Valid() && Encodable(Entry(key, Op.Delete))
      modifies this, memtable, memtable.wal, immutable
      ensures old(memtable.IsFull()) <==>
                |old(memtable.Contents())| == maxNodes || old(memtable.currentSize) >= maxSize
      ensures !r.Panicked?
      ensures r.TableFull? <==> old(memtable.IsFull()) && (maxSize == 0 || maxNodes == 0)
      ensures r.TableFull? ==> Valid() && memtable.log == []
      ensures !r.Panicked? ==>
                immutable.table == old(immutable.table) + if old(memtable.IsFull()) then [old(memtable)] else []
      ensures r.Inserted? ==>
                && Valid() && Took(memtable, Entry(key, Op.Delete))
                && memtable.log == (if old(memtable.IsFull()) then [] else old(memtable.log)) + [Entry(key, Op.Delete)]
                && var run := Protocol.Writing(old(memtable.IsFull()), key, CellOf(key, memtable.Contents()[key]));
                   Protocol.IsRun(old(View()), run) && View() == Protocol.After(old(View()), run)
    {
      hide Memtable.Valid, Encodable, Cells, CellsOf, SSTableCache.Valid, ImmutableMemtable.Valid, Protocol.IsRun,
        Protocol.After, Write;
      ghost var full := memtable.IsFull();
      r := Insert(key, Op.Delete, now, later);
      if r.TableFull? {
        RotateTable(now);
        EmptyTable(memtable, Entry(key, Op.Delete));
        r := Insert(key, Op.Delete, now, later);
      }
      if r.Inserted? {
        Protocol.WritingIsRun(old(View()), full, key, CellOf(key, memtable.Contents()[key]));
      }
    }

    /** The active table, then the queue, then the cache; a tombstone in memory is taken for a
        miss. So a get computes the protocol's, but for the sized read. */
    method Get(key: Blob) returns (q: Query)
      requires Valid()
      ensures key in memtable.Contents() && memtable.Reads(key) != Tombstone ==> q == memtable.Reads(key)
      ensures (key in memtable.Contents() ==> memtable.Reads(key) == Tombstone) ==>
                && (forall i :: 0 <= i < |immutable.table| && immutable.NewestHolder(i, key) &&
                                immutable.table[i].Reads(key) != Tombstone ==>
                      q == immutable.table[i].Reads(key))
                && (sstables.Serving(h) &&
                    (forall i :: 0 <= i < |immutable.table| && immutable.NewestHolder(i, key) ==>
                       immutable.table[i].Reads(key) == Tombstone) ==>
                      q == SizedRead(key, Visible(StackLookup(sstables.tables, key))))
      ensures sstables.Serving(h) ==>
                q == if Protocol.InMemory(View(), key) then Protocol.LiteralGet(View(), key)
                     else SizedRead(key, Protocol.LiteralGet(View(), key))
    {
      hide Memtable.Valid, Memtable.Shape, Cells, CellsOf, DisksOf, SSTableCache.Valid, SSTableCache.Serving, SizedRead,
        Protocol.QueueFirst, Protocol.CacheFirst, StackLookup, Memtable.Contents, Memtable.Reads,
        ImmutableMemtable.NewestHolder;
      TableShape(memtable);
      CellAnswers(memtable, key);
      q := memtable.Get(key);
      if q.Data? || q.Crash? { return; }
      q := immutable.Get(key);
      if q.Data? || q.Crash? { return; }
      CacheShows(sstables.tables, key);
      q := sstables.Search(key, h);
    }

    /** Every state of the engine is an initial state of the protocol, so what is proved of runs holds
        from it. */
    lemma ViewIsInitial()
      requires Valid()
      ensures Protocol.Init(View()) && Protocol.Inv(View())
    {
      hide Memtable.Valid, SSTableCache.Valid, ImmutableMemtable.Valid, CellsOf, DisksOf;
      Protocol.InitInv(View());
    }

    /** When memory is faithful to a key: exactly when its record in the active table and that in the
        youngest queued table with the key, if any, read as what they encode. */
    lemma FaithfulExact(key: Blob)
      ensures Protocol.Faithful(View(), key) <==>
                && Plain(memtable, key)
                && forall i :: 0 <= i < |immutable.table| && immutable.NewestHolder(i, key) ==>
                     Plain(immutable.table[i], key)
    {
      hide Memtable.Contents, Cells, CellsOf, DisksOf, RecordOf, ReadValue, Protocol.QueueFirst;
      CellAnswers(memtable, key);
      var n := YoungestHolder(immutable.table, key);
      FirstInQueue(immutable.table, key, n);
      if n > 0 {
        assert immutable.NewestHolder(n - 1, key);
      }
    }

    /** Reading what was written: the active table's value of a key is what its record reads as, and so
        what a get returns, exactly when its writes in this table allow it. */
    lemma ReadYourWrite(key: Blob, v: Blob)
      requires Valid() && Took(memtable, Entry(key, Put(v)))
      ensures OpsOf(memtable.log, key) != []
      ensures memtable.Reads(key) == Data(v) <==> InPlace(OpsOf(memtable.log, key))
      ensures Protocol.Newest(View(), key) == Some(Put(v))
      ensures memtable.Reads(key) == Data(v) <==> Protocol.Current(View(), key, v)
    {
      hide SSTableCache.Valid, ImmutableMemtable.Valid, DisksOf, Cells, RecordOf, ReadValue, Memtable.Shape, Run,
        InPlace, OpsOf, Memtable.Contents;
      TableReadExact(memtable.log, key);
      CellAnswers(memtable, key);
    }

    /** The oldest queued table is written, opened and cached, and then leaves the queue. False is
        a file that does not open, which panics the task. */
    method LoadOldest(numHashes: nat) returns (ok: bool, len: nat)
      requires Valid() && signals > 0 && Bounded(EntriesIn(immutable.table[0])) && 1 <= numHashes < U64_LIMIT
      modifies this`signals, immutable, sstables
      ensures ok ==> len == |sstables.cache| == old(|sstables.cache|) + 1
      ensures ok ==>
                && Valid() && sstables.tables == [EntriesIn(old(immutable.table)[0])] + old(sstables.tables)
                && var s := old(View());
                   && len == |s.cache| + 1
                   && View() == s.(signals := s.signals - 1, queue := s.queue[1..],
                                   cache := [Protocol.ToDisk(s.queue[0])] + s.cache)
      ensures Narrow(old(immutable.table)[0].Contents().Keys) ==>
                ok && (old(sstables.Serving(h)) ==> sstables.Serving(h))
    {
      hide Memtable.Valid, Memtable.Shape, Memtable.Contents, Cells, CellsOf, DisksOf, DiskOf, SSTable.Opened,
        SSTable.Serves, Protocol.ToDisk, Bounded, Narrow, EntriesOf, Protocol.QueueFirst, StackLookup, Lookup,
        SSTableCache.Valid,
        SSTableCache.Serving, Inorder, PairMap;
      var head := immutable.table[0];
      signals, len := signals - 1, 0;
      var table, p := FlushAndOpen(head, numHashes, h);
      if table.None? { return false, 0; }
      DisksCons(EntriesIn(head), sstables.tables);
      len := sstables.Push(table.value, EntriesIn(head), p, h);
      immutable.PopFront();
      ok := true;
    }

    /** All cached tables are merged into one, under any preference. */
    method CompactCache(rank: Rank, numHashes: nat, grown: nat -> nat) returns (ok: bool)
      requires Valid() && FitsOneTable(sstables.tables, rank) && 1 <= numHashes < U64_LIMIT
      modifies sstables
      ensures ok ==> |sstables.cache| == 1
      ensures ok ==>
                && Valid()
                && var s := old(View());
                   View() == s.(cache := [Protocol.Compacted(s.cache, ThePreference(old(sstables.tables), rank))])
      ensures Narrow(KeptKeys(old(sstables.tables), rank)) ==> ok && sstables.Serving(h)
    {
      hide Memtable.Valid, Memtable.Contents, Cells, CellsOf, DisksOf, DiskOf, SSTable.Opened, SSTable.Serves,
        Protocol.Compacted, KeptKeys, FitsOneTable, Narrow, PreferenceOf, Lookup, StackLookup, Sources;
      var buffers := sstables.Regions(h);
      var table, es, p := CompactAndOpen(buffers, rank, numHashes, grown, h, sstables.tables);
      if table.None? { return false; }
      DisksCons(es, []);
      sstables.ReplaceWithCompactTable(table.value, es, p, h);
      ok := true;
    }

    /** One round of the background tasks is a run of the protocol. It changes what no key shows,
        if ties are broken by table index. */
    method Background(rank: Rank, numHashes: nat, grown: nat -> nat) returns (ok: bool)
      requires Valid() && signals > 0 && Bounded(EntriesIn(immutable.table[0])) && 1 <= numHashes < U64_LIMIT
      requires |sstables.tables| + 1 >= sstables.compactionRate ==>
                 FitsOneTable([EntriesIn(immutable.table[0])] + sstables.tables, rank)
      modifies this`signals, immutable, sstables
      ensures ok ==> Valid()
      ensures ok ==> |sstables.cache| == if old(|sstables.cache|) + 1 >= sstables.compactionRate then 1
                                         else old(|sstables.cache|) + 1
      ensures ok ==>
                var ts := [EntriesIn(old(immutable.table)[0])] + old(sstables.tables);
                var run := Protocol.Round(old(View()), ThePreference(ts, rank));
                Protocol.IsRun(old(View()), run) && View() == Protocol.After(old(View()), run)
      ensures ok && rank == ByIndex() ==>
                forall k ::
                  Protocol.Shown(Protocol.Newest(View(), k)) == Protocol.Shown(Protocol.Newest(old(View()), k))
    {
      hide Memtable.Valid, Memtable.Shape, Memtable.Contents, Cells, CellsOf, DisksOf, DiskOf, Protocol.ToDisk,
        Protocol.Compacted, Bounded, FitsOneTable, EntriesOf, Protocol.IsRun, Protocol.After, SSTableCache.Valid,
        Protocol.Newest, Narrow, KeptKeys, Protocol.Round, ImmutableMemtable.Valid;
      ghost var s, ts := View(), [EntriesIn(immutable.table[0])] + sstables.tables;
      var len;
      ok, len := LoadOldest(numHashes);
      if !ok { return; }
      if len >= sstables.compactionRate {
        ok := CompactCache(rank, numHashes, grown);
        if !ok { return; }
      }
      RoundKeepsShown(s, ThePreference(ts, rank));
    }
  }

  /** The merge's preference as the protocol names it. */
  ghost function ThePreference(ts: seq<Table>, rank: Rank): (pref: Protocol.Preference)
  {
    if rank == ByIndex() then Protocol.ORD else PreferenceOf(ts, rank)
  }

  lemma RoundKeepsShown(s: Protocol.State, pref: Protocol.Preference)
    requires Protocol.Quiet(s) && s.signals == |s.queue| > 0 && s.writer.Ready? && !s.panicked
    ensures Protocol.IsRun(s, Protocol.Round(s, pref))
    ensures var cache := [Protocol.ToDisk(s.queue[0])] + s.cache;
            Protocol.After(s, Protocol.Round(s, pref)) ==
              s.(signals := s.signals - 1, queue := s.queue[1..],
                 cache := if |s.cache| + 1 >= s.rate then [Protocol.Compacted(cache, pref)] else cache)
    ensures pref == Protocol.ORD ==>
              forall k :: Protocol.Shown(Protocol.Newest(Protocol.After(s, Protocol.Round(s, pref)), k))
                       == Protocol.Shown(Protocol.Newest(s, k))
  {
    hide Protocol.IsRun, Protocol.After, Protocol.Newest, Protocol.Compacted, Protocol.ToDisk, Protocol.Inv,
      Protocol.Round, Protocol.Shown, Protocol.OrdRun, Protocol.Untouched;
    Protocol.RoundIsRun(s, pref);
    QuietInv(s);
    if pref == Protocol.ORD {
      Protocol.RoundQualifies(s);
      forall k
        ensures Protocol.Shown(Protocol.Newest(Protocol.After(s, Protocol.Round(s, pref)), k))
             == Protocol.Shown(Protocol.Newest(s, k))
      {
        Protocol.OrdRunHarmless(s, Protocol.Round(s, pref), k);
        Protocol.RunKeepsShown(s, Protocol.Round(s, pref), k);
      }
    }
  }

  lemma QuietInv(s: Protocol.State)
    requires Protocol.Quiet(s) && s.signals == |s.queue| && s.writer.Ready? && !s.panicked
    ensures Protocol.Inv(s)
  {
  }

  lemma DisksCons(es: Table, ts: seq<Table>)
    ensures DisksOf([es] + ts) == [DiskOf(es)] + DisksOf(ts) && DisksOf([]) == [] && [es] + [] == [es]
  {
    assert ([es] + ts)[1..] == ts;
  }

  /** What the cache shows of a key, in records and in the protocol. */
  lemma CacheShows(ts: seq<Table>, k: Blob)
    ensures Visible(StackLookup(ts, k)) == Protocol.Shown(Protocol.CacheFirst(DisksOf(ts), k))
  {
    StackRefines(ts, k);
  }

  /** If the table holds the key, its record reads as what it encodes. */
  ghost predicate Plain(m: Memtable, key: Blob)
    reads m
  {
    key in m.Contents() ==> m.Reads(key) == Meaning(m.Contents()[key].op)
  }

  /** One past the youngest table that holds the key, or zero. */
  lemma {:induction false} YoungestHolder(ms: seq<Memtable>, k: Blob) returns (n: nat)
    ensures n <= |ms| && (n > 0 ==> k in ms[n - 1].Contents())
    ensures forall j :: n <= j < |ms| ==> k !in ms[j].Contents()
  {
    hide Memtable.Contents;
    if ms == [] || k in ms[|ms| - 1].Contents() {
      n := |ms|;
    } else {
      n := YoungestHolder(ms[..|ms| - 1], k);
    }
  }

  /** The table holds the write. */
  ghost predicate Took(m: Memtable, e: Entry)
    reads m
  {
    e.key in m.Contents() && m.Contents()[e.key].op == e.op
  }

  /** A delete never panics. */
  lemma DeleteFits(s: State, key: Blob)
    ensures Write(s, Entry(key, Op.Delete)).Some?
  {
  }

  lemma TableShape(m: Memtable)
    requires m.Valid()
    ensures m.Shape()
  {
  }

  lemma NothingHeld(m: Memtable)
    requires m.Valid() && m.log == []
    ensures CellsOf(m.Contents()) == map[] && m.Shape()
  {
  }

  /** An empty table: full only by its limits, and any first write fits it. */
  lemma EmptyTable(m: Memtable, e: Entry)
    requires m.Valid() && m.log == []
    ensures m.IsFull() <==> m.maxNodes == 0 || m.maxSize == 0
    ensures Write(m.View(), e).Some?
  {
    m.FullAgrees();
  }
}
