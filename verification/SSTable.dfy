/** The SSTable file: its layout, what its index says of its records, and the writer for a
    memtable (src/sstable/encode.rs, src/sstable/footer.rs, src/ssindex/mod.rs). */
module SSTableFiles {
  import opened Bytes
  import opened BloomFilters
  import opened Memtables
  import opened RecordBuffers
  import opened Records
  import opened RedBlack
  import opened Tries
  import Varint

  const HEADER_SIZE := 9
  const FOOTER_SIZE := 24

  /** The magic "lsmlite" and the version, a big-endian zero. */
  const FILE_HEADER: Blob := [0x6C, 0x73, 0x6D, 0x6C, 0x69, 0x74, 0x65, 0x00, 0x00]

  // ------------------------------------------------------- records and offsets

  ghost predicate SortedEntries(es: seq<Entry>)
  {
    forall i, j :: 0 <= i < j < |es| ==> Less(es[i].key, es[j].key)
  }

  /** The first record of the key, in file order: what a linear scan finds. */
  function Lookup(es: seq<Entry>, key: Blob): (q: Query)
  {
    if es == [] then NotFound
    else if es[0].key == key then Meaning(es[0].op)
    else Lookup(es[1..], key)
  }

  /** The file offset of each key's record. */
  function OffsetMap(es: seq<Entry>): (m: map<Blob, nat>)
  {
    if es == [] then map[]
    else OffsetMap(es[..|es| - 1])[es[|es| - 1].key := HEADER_SIZE + |Stream(es[..|es| - 1])|]
  }

  /** The widths of the format: offsets below the mark bit, and 32 bits for the number of nodes of
      the index, one for each prefix of a key. */
  ghost predicate Bounded(es: seq<Entry>)
  {
    && AllEncodable(es)
    && HEADER_SIZE + |Stream(es)| < U63_LIMIT && |Prefixes(OffsetMap(es).Keys)| < U32_LIMIT
  }

  /** Tables of less than 4 GB are within these widths: a key has fewer prefixes than its record has
      bytes. */
  lemma ShortTableIsBounded(es: seq<Entry>)
    requires AllEncodable(es) && |Stream(es)| < U32_LIMIT
    ensures Bounded(es)
  {
    hide Encodable, Stream, Prefixes, OffsetMap;
    PrefixesBySize(es);
  }

  lemma {:induction false} PrefixesBySize(es: seq<Entry>)
    ensures |Prefixes(OffsetMap(es).Keys)| <= |Stream(es)|
  {
    hide Stream, BlobOf, OffsetMap;
    if es == [] {
      NoOffsets(es);
    } else {
      var n := |es| - 1;
      assert es == es[..n] + [es[n]];
      PrefixesBySize(es[..n]);
      OffsetSnoc(es[..n], es[n]);
      StreamSnoc(es[..n], es[n]);
      KeyShorter(es[n]);
      PrefixesOfOne(OffsetMap(es[..n]).Keys, es[n].key);
    }
  }

  lemma NoOffsets(es: seq<Entry>)
    requires es == []
    ensures Prefixes(OffsetMap(es).Keys) == {}
  {
  }

  lemma KeyShorter(e: Entry)
    ensures |e.key| + 1 <= |BlobOf(e)|
  {
  }

  lemma OffsetSnoc(es: seq<Entry>, e: Entry)
    ensures OffsetMap(es + [e]) == OffsetMap(es)[e.key := HEADER_SIZE + |Stream(es)|]
    ensures OffsetMap(es + [e]).Keys == OffsetMap(es).Keys + {e.key}
  {
    hide Stream;
    assert (es + [e])[..|es|] == es;
  }

  lemma BoundedPrefix(es: seq<Entry>, e: Entry)
    requires Bounded(es + [e])
    ensures Bounded(es)
  {
    hide Encodable, BlobOf, Stream, Prefixes, OffsetMap;
    OffsetSnoc(es, e);
    StreamSnoc(es, e);
    PrefixesGrow(OffsetMap(es).Keys, OffsetMap(es + [e]).Keys);
    forall i | 0 <= i < |es|
      ensures Encodable(es[i])
    {
      assert (es + [e])[i] == es[i];
    }
  }

  lemma {:induction false} OffsetKeys(es: seq<Entry>, k: Blob)
    ensures k in OffsetMap(es) <==> exists i :: 0 <= i < |es| && es[i].key == k
  {
    hide Stream;
    if es != [] {
      var front, n := es[..|es| - 1], |es| - 1;
      OffsetKeys(front, k);
      if k in OffsetMap(front) {
        var i :| 0 <= i < |front| && front[i].key == k;
        assert es[i].key == k;
      }
      if i :| 0 <= i < |es| && es[i].key == k {
        assert i < n ==> front[i].key == k;
      }
    }
  }

  lemma {:induction false} OffsetAt(es: seq<Entry>, i: nat)
    requires SortedEntries(es) && i < |es|
    ensures es[i].key in OffsetMap(es) && OffsetMap(es)[es[i].key] == HEADER_SIZE + |Stream(es[..i])|
  {
    hide Stream, Less;
    if i < |es| - 1 {
      var front := es[..|es| - 1];
      assert Less(es[i].key, es[|es| - 1].key);
      LessStrict(es[i].key, es[|es| - 1].key);
      OffsetAt(front, i);
      assert front[..i] == es[..i];
    }
  }

  lemma {:induction false} LookupAt(es: seq<Entry>, i: nat)
    requires SortedEntries(es) && i < |es|
    ensures Lookup(es, es[i].key) == Meaning(es[i].op)
  {
    if i > 0 {
      assert Less(es[0].key, es[i].key);
      LessStrict(es[0].key, es[i].key);
      LookupAt(es[1..], i - 1);
    }
  }

  lemma {:induction false} LookupAbsent(es: seq<Entry>, k: Blob)
    requires forall i :: 0 <= i < |es| ==> es[i].key != k
    ensures Lookup(es, k) == NotFound
  {
    if es != [] {
      LookupAbsent(es[1..], k);
    }
  }

  // --------------------------------------------------------------- file layout

  /** What the index sections of a file are made from. */
  datatype Parts = Parts(arena: TrieArena, paths: seq<Blob>, bits: seq<nat>, hashes: nat)

  /** `[index start][index length][filter start]`. */
  function Footer(indexStart: nat, indexLen: nat, filterStart: nat): (r: Blob)
    ensures |r| == FOOTER_SIZE
  {
    BeBytes(indexStart, 8) + BeBytes(indexLen, 8) + BeBytes(filterStart, 8)
  }

  function FileBytes(es: seq<Entry>, p: Parts): (r: Blob)
  {
    var data, index := FILE_HEADER + Stream(es), ArenaBytes(p.arena);
    data + index + FilterBytes(p.bits, p.hashes) + Footer(|data|, |index|, |data| + |index|)
  }

  /** The index of the file is an index of exactly its records. */
  ghost predicate Built(file: Blob, es: seq<Entry>, p: Parts, h: Hashes)
  {
    && file == FileBytes(es, p) && |file| < U64_LIMIT
    && Bounded(es)
    && PrefixTree(p.arena, p.paths) && Entered(p.arena, p.paths, OffsetMap(es))
    && |p.arena| < U32_LIMIT && Supported(p.paths, OffsetMap(es).Keys)
    && Words(p.bits) && 1 <= p.hashes < U64_LIMIT
    && Filled(p.bits, h, OffsetMap(es).Keys, p.hashes)
  }

  /** A file that holds exactly these records, with an index of them. */
  ghost predicate IsTable(file: Blob, es: seq<Entry>, h: Hashes)
  {
    exists p :: Built(file, es, p, h)
  }

  // -------------------------------------------------------------------- writing

  /** Trie and filter hold exactly the records written so far. */
  ghost predicate Indexed(trie: Trie, bloom: BloomFilter, es: seq<Entry>, h: Hashes)
    reads trie, bloom
  {
    && trie.Valid() && trie.entries == OffsetMap(es)
    && bloom.Valid(h) && bloom.keys == OffsetMap(es).Keys
  }

  /** One record enters both indexes under its file offset. */
  method AddToIndex(trie: Trie, bloom: BloomFilter, key: Blob, offset: nat, h: Hashes, ghost es: seq<Entry>,
                    ghost e: Entry)
    requires Indexed(trie, bloom, es, h) && Bounded(es + [e])
    requires key == e.key && offset == HEADER_SIZE + |Stream(es)|
    modifies trie, bloom
    ensures Indexed(trie, bloom, es + [e], h)
    ensures |bloom.bits| == old(|bloom.bits|) && bloom.numHashes == old(bloom.numHashes)
  {
    hide Stream, OffsetMap, Prefixes, PrefixTree, Entered, Words, Filled, Supported, BlobOf;
    OffsetSnoc(es, e);
    StreamSnoc(es, e);
    bloom.Insert(key, h);
    trie.Insert(key, offset);
  }

  /** Behind the data: the trie, the filter and the footer. */
  method FinishFile(data: Blob, trie: Trie, bloom: BloomFilter, h: Hashes, ghost es: seq<Entry>)
    returns (file: Blob, ghost p: Parts)
    requires Indexed(trie, bloom, es, h) && Bounded(es) && data == FILE_HEADER + Stream(es)
    requires |bloom.bits| < U32_LIMIT
    ensures Built(file, es, p, h) && IsTable(file, es, h)
    ensures p.bits == bloom.bits && p.hashes == bloom.numHashes
  {
    hide Stream, OffsetMap, Prefixes, PrefixTree, Entered, Words, Filled, Supported, ArenaBytes, FilterBytes, BeBytes;
    PathCount(trie.arena, trie.paths, OffsetMap(es).Keys);
    p := Parts(trie.arena, trie.paths, bloom.bits, bloom.numHashes);
    var indexBlock := Tries.Serialize(trie.arena);
    var filterStart := |data| + |indexBlock|;
    file := data + indexBlock;
    var filter := BloomFilters.Serialize(bloom.bits, bloom.numHashes);
    file := file + filter;
    file := file + Footer(|data|, |indexBlock|, filterStart);
    IndexSize(trie.arena, trie.paths);
    FilterSize(bloom.bits, bloom.numHashes);
  }

  lemma {:induction false} NodesSize(a: TrieArena)
    requires forall i :: 0 <= i < |a| ==> |a[i].children| <= 256
    ensures |NodesBytes(a)| <= 1289 * |a|
  {
    hide NodeBytes;
    if a != [] {
      NodesSize(a[1..]);
    }
  }

  lemma IndexSize(a: TrieArena, paths: seq<Blob>)
    requires PrefixTree(a, paths)
    ensures |ArenaBytes(a)| <= 4 + 1289 * |a|
  {
    forall i | 0 <= i < |a|
      ensures |a[i].children| <= 256
    {
      if a[i].children != [] {
        ByteAtLeast(a[i].children, |a[i].children| - 1);
      }
    }
    NodesSize(a);
  }

  lemma FilterSize(bits: seq<nat>, hashes: nat)
    requires |bits| < U32_LIMIT
    ensures |FilterBytes(bits, hashes)| <= 10 + 8 * |bits| + 8
  {
    Varint.EncodeAtMostTen(|bits|);
  }

  /** Each key is one of the prefixes, so the filter of a bounded table is small, too. */
  lemma FewRecords(es: seq<Entry>)
    requires SortedEntries(es) && Bounded(es)
    ensures (|es| * 10 + 63 + 63) / 64 < U32_LIMIT
  {
    hide Less, OffsetMap, Prefixes, Encodable, Stream;
    var keys := seq(|es|, i requires 0 <= i < |es| => es[i].key);
    forall i | 0 <= i < |es|
      ensures keys[i] in Prefixes(OffsetMap(es).Keys)
    {
      OffsetKeys(es, es[i].key);
      PrefixOf(OffsetMap(es).Keys, es[i].key, |es[i].key|);
      assert es[i].key[..|es[i].key|] == es[i].key;
    }
    forall i, j | 0 <= i < j < |es|
      ensures keys[i] != keys[j]
    {
      LessStrict(es[i].key, es[j].key);
    }
    DistinctCount(keys, Prefixes(OffsetMap(es).Keys));
  }

  function EntryOf(p: Pair): (e: Entry)
  {
    Entry(p.key, p.stored.op)
  }

  function EntriesOf(ps: seq<Pair>): (es: seq<Entry>)
    ensures |es| == |ps|
    ensures forall i :: 0 <= i < |ps| ==> es[i] == EntryOf(ps[i])
  {
    seq(|ps|, i requires 0 <= i < |ps| => EntryOf(ps[i]))
  }

  lemma EntriesAppend(a: seq<Pair>, b: seq<Pair>)
    ensures EntriesOf(a + b) == EntriesOf(a) + EntriesOf(b)
  {
  }

  lemma BoundedFirst(a: seq<Entry>, b: seq<Entry>)
    requires Bounded(a + b)
    ensures Bounded(a)
    decreases |b|
  {
    hide Encodable, BlobOf, Stream, Bounded;
    if b == [] {
      assert a + b == a;
    } else {
      var front := a + b[..|b| - 1];
      assert front + [b[|b| - 1]] == a + b;
      BoundedPrefix(front, b[|b| - 1]);
      BoundedFirst(a, b[..|b| - 1]);
    }
  }

  /** The in-order walk of the tree: each node's blob is appended and indexed, smaller keys
      before it and larger keys behind it. */
  method InorderFlush(table: Memtable, node: Option<nat>, given: Blob, trie: Trie, bloom: BloomFilter, h: Hashes,
                      ghost t: Tree, ghost parent: Option<nat>, ghost es: seq<Entry>)
    returns (data: Blob)
    requires Linked(table.arena, t, parent) && node == Ptr(t)
    requires Indexed(trie, bloom, es, h) && given == FILE_HEADER + Stream(es)
    requires Bounded(es + EntriesOf(Inorder(t)))
    modifies trie, bloom
    ensures Indexed(trie, bloom, es + EntriesOf(Inorder(t)), h)
    ensures data == FILE_HEADER + Stream(es + EntriesOf(Inorder(t)))
    ensures |bloom.bits| == old(|bloom.bits|) && bloom.numHashes == old(bloom.numHashes)
    decreases t
  {
    hide Stream, Indexed, Bounded, BlobOf, KeyAt, EntriesOf, Inorder, Linked, RecordOf, KeyOf;
    data := given;
    if node.None? {
      LeafEntries(t, es);
      return;
    }
    var i := node.value;
    NodeAt(table.arena, t, parent);
    var current := table.arena[i];
    ghost var e := EntryOf(PairOf(t.slot));
    ghost var l, r := EntriesOf(Inorder(t.left)), EntriesOf(Inorder(t.right));
    Around(t, es);
    BoundedFirst(es + l, [e] + r);
    BoundedFirst(es + l + [e], r);
    data := InorderFlush(table, current.left, data, trie, bloom, h, t.left, Some(i), es);
    StreamSnoc(es + l, e);
    AddToIndex(trie, bloom, KeyOf(current.record), |data|, h, es + l, e);
    data := data + current.record.blob;
    data := InorderFlush(table, current.right, data, trie, bloom, h, t.right, Some(i), es + l + [e]);
  }

  lemma LeafEntries(t: Tree, es: seq<Entry>)
    requires t.Leaf?
    ensures es + EntriesOf(Inorder(t)) == es
  {
  }

  /** What the walk reads at a node. */
  lemma NodeAt(a: Arena, t: Tree, parent: Option<nat>)
    requires Linked(a, t, parent) && t.Branch?
    ensures var i := t.slot.idx;
            && i < |a| && a[i].left == Ptr(t.left) && a[i].right == Ptr(t.right)
            && Linked(a, t.left, Some(i)) && Linked(a, t.right, Some(i))
            && a[i].record.blob == BlobOf(EntryOf(PairOf(t.slot)))
            && a[i].record.key.0 + a[i].record.key.1 <= |a[i].record.blob| && KeyOf(a[i].record) == t.slot.key
  {
    RecordKey(t.slot.key, t.slot.stored);
  }

  lemma Around(t: Tree, es: seq<Entry>)
    requires t.Branch?
    ensures var e, l, r := EntryOf(PairOf(t.slot)), EntriesOf(Inorder(t.left)), EntriesOf(Inorder(t.right));
            && es + EntriesOf(Inorder(t)) == es + l + ([e] + r)
            && es + l + ([e] + r) == es + l + [e] + r
  {
    hide EntriesOf;
    var e, l, r := EntryOf(PairOf(t.slot)), EntriesOf(Inorder(t.left)), EntriesOf(Inorder(t.right));
    EntriesAppend(Inorder(t.left) + [PairOf(t.slot)], Inorder(t.right));
    EntriesAppend(Inorder(t.left), [PairOf(t.slot)]);
    assert EntriesOf([PairOf(t.slot)]) == [e];
    Flatten(es, l, [e], r);
  }

  lemma Flatten<T>(a: seq<T>, b: seq<T>, c: seq<T>, d: seq<T>)
    ensures a + (b + c + d) == a + b + (c + d) == a + b + c + d
  {
  }

  ghost function EntriesIn(table: Memtable): (es: seq<Entry>)
    reads table
  {
    EntriesOf(Inorder(table.tree))
  }

  /** Flushing a memtable writes its records, blob for blob, in key order, and indexes them. */
  method WriteSSTable(table: Memtable, numHashes: nat, h: Hashes) returns (file: Blob, ghost p: Parts)
    requires table.Shape() && Bounded(EntriesIn(table)) && 1 <= numHashes < U64_LIMIT
    ensures Built(file, EntriesIn(table), p, h) && IsTable(file, EntriesIn(table), h)
    ensures |p.bits| == (10 * |table.arena| + 126) / 64 && p.hashes == numHashes
    ensures SortedEntries(EntriesIn(table))
  {
    hide Stream, Bounded, Sorted, SortedEntries, Less, RedBlackTree, Indices, Inorder, Distinct, Linked, Indexed,
      IsTable;
    EntriesSorted(Inorder(table.tree));
    FewRecords(EntriesIn(table));
    var trie := new Trie();
    var bloom := new BloomFilter(|table.arena|, numHashes, h);
    var data: Blob := FILE_HEADER;
    NothingIndexed(trie, bloom, h);
    RootLinks(table.arena, table.root, table.tree);
    assert [] + EntriesIn(table) == EntriesIn(table);
    data := InorderFlush(table, table.root, data, trie, bloom, h, table.tree, None, []);
    file, p := FinishFile(data, trie, bloom, h, EntriesIn(table));
  }

  lemma RootLinks(a: Arena, root: Option<nat>, t: Tree)
    requires Focus(a, root, Top, t)
    ensures Linked(a, t, None) && root == Ptr(t)
  {
  }

  lemma EntriesSorted(ps: seq<Pair>)
    requires Sorted(ps)
    ensures SortedEntries(EntriesOf(ps))
  {
  }

  lemma NothingIndexed(trie: Trie, bloom: BloomFilter, h: Hashes)
    requires trie.Valid() && trie.arena == [] && trie.entries == map[]
    requires bloom.Valid(h) && bloom.keys == {}
    ensures Indexed(trie, bloom, [], h) && FILE_HEADER == FILE_HEADER + Stream([])
  {
  }
}
