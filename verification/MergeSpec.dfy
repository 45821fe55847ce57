/** What compaction must compute: the newest record of every key over a stack of tables, and what
    a heap with another tie-break computes instead (src/compaction/mod.rs). */
module MergeSpec {
  import opened Bytes
  import opened Records
  import opened SSTableFiles

  type Table = seq<Entry>

  /** A preference among the tables that hold a key; the lower table index wins a draw. Any way of
      breaking ties between equal keys is such a preference. */
  type Rank = (Blob, nat) -> int

  ghost predicate HasKey(t: Table, k: Blob)
  {
    exists i :: 0 <= i < |t| && t[i].key == k
  }

  ghost predicate SortedTables(ts: seq<Table>)
  {
    forall i :: 0 <= i < |ts| ==> SortedEntries(ts[i])
  }

  predicate Better(rank: Rank, k: Blob, a: nat, b: nat)
  {
    rank(k, a) < rank(k, b) || (rank(k, a) == rank(k, b) && a < b)
  }

  /** The preferred table among those that hold the key. */
  ghost function Winner(ts: seq<Table>, rank: Rank, k: Blob): (w: Option<nat>)
    ensures w.Some? ==> w.value < |ts| && HasKey(ts[w.value], k)
  {
    if ts == [] then None
    else
      var n := |ts| - 1;
      var w := Winner(ts[..n], rank, k);
      if HasKey(ts[n], k) && (w.None? || Better(rank, k, n, w.value)) then Some(n) else w
  }

  lemma {:induction false} WinnerBest(ts: seq<Table>, rank: Rank, k: Blob, j: nat)
    requires j < |ts| && HasKey(ts[j], k)
    ensures Winner(ts, rank, k).Some?
    ensures Winner(ts, rank, k).value == j || Better(rank, k, Winner(ts, rank, k).value, j)
  {
    var n := |ts| - 1;
    if j < n {
      assert ts[..n][j] == ts[j];
      WinnerBest(ts[..n], rank, k, j);
    }
  }

  /** A table that holds the key and beats all others is the winner. */
  lemma WinnerUnique(ts: seq<Table>, rank: Rank, k: Blob, t: nat)
    requires t < |ts| && HasKey(ts[t], k)
    requires forall j :: 0 <= j < |ts| && j != t && HasKey(ts[j], k) ==> Better(rank, k, t, j)
    ensures Winner(ts, rank, k) == Some(t)
  {
    WinnerBest(ts, rank, k, t);
  }

  /** The record that a merge with this preference selects for the key. */
  ghost function Pick(ts: seq<Table>, rank: Rank, k: Blob): (q: Query)
  {
    match Winner(ts, rank, k)
    case None => NotFound
    case Some(w) => Lookup(ts[w], k)
  }

  /** Newest-first lookup over a stack of tables, newest at index 0. */
  function StackLookup(ts: seq<Table>, k: Blob): (q: Query)
  {
    if ts == [] then NotFound
    else if Lookup(ts[0], k) != NotFound then Lookup(ts[0], k)
    else StackLookup(ts[1..], k)
  }

  /** What a caller sees: a tombstone reads as absent. */
  function Visible(q: Query): (r: Query)
  {
    if q == Tombstone then NotFound else q
  }

  lemma {:induction false} LookupHas(t: Table, k: Blob)
    ensures Lookup(t, k) != NotFound <==> HasKey(t, k)
    ensures Lookup(t, k) != Crash
  {
    if t != [] {
      LookupHas(t[1..], k);
      if i :| 0 <= i < |t| && t[i].key == k {
        if i > 0 {
          assert t[1..][i - 1].key == k;
        }
      }
      if i :| 0 <= i < |t[1..]| && t[1..][i].key == k {
        assert t[i + 1].key == k;
      }
    }
  }

  /** A stack is searched from the front: the first table with the key answers. */
  lemma {:induction false} StackFirst(ts: seq<Table>, k: Blob, w: nat)
    requires w < |ts| && HasKey(ts[w], k)
    requires forall j :: 0 <= j < w ==> !HasKey(ts[j], k)
    ensures StackLookup(ts, k) == Lookup(ts[w], k)
    decreases |ts|
  {
    LookupHas(ts[0], k);
    if w > 0 {
      assert ts[1..][w - 1] == ts[w];
      assert forall j :: 0 <= j < w - 1 ==> ts[1..][j] == ts[j + 1];
      StackFirst(ts[1..], k, w - 1);
    }
  }

  lemma {:induction false} StackNone(ts: seq<Table>, k: Blob)
    requires forall j :: 0 <= j < |ts| ==> !HasKey(ts[j], k)
    ensures StackLookup(ts, k) == NotFound
  {
    if ts != [] {
      LookupHas(ts[0], k);
      assert forall j :: 0 <= j < |ts[1..]| ==> ts[1..][j] == ts[j + 1];
      StackNone(ts[1..], k);
    }
  }

  /** The order of `Ord`: equal keys are broken by table index. */
  function ByIndex(): (rank: Rank)
  {
    (k, i) => i
  }

  /** Under the (key, table index) order the merge selects the newest record of every key. */
  lemma NewestWins(ts: seq<Table>, k: Blob)
    ensures Pick(ts, ByIndex(), k) == StackLookup(ts, k)
  {
    match Winner(ts, ByIndex(), k)
    case None =>
      forall j | 0 <= j < |ts|
        ensures !HasKey(ts[j], k)
      {
        if HasKey(ts[j], k) {
          WinnerBest(ts, ByIndex(), k, j);
        }
      }
      StackNone(ts, k);
    case Some(w) =>
      forall j | 0 <= j < w
        ensures !HasKey(ts[j], k)
      {
        if HasKey(ts[j], k) {
          WinnerBest(ts, ByIndex(), k, j);
        }
      }
      StackFirst(ts, k, w);
  }

  // ------------------------------------------- a heap ordered by the key alone

  /** Wherever a key occurs twice, both occurrences look alike. */
  ghost predicate Agreeing(ts: seq<Table>)
  {
    forall i, j, k :: 0 <= i < |ts| && 0 <= j < |ts| && HasKey(ts[i], k) && HasKey(ts[j], k) ==>
      Visible(Lookup(ts[i], k)) == Visible(Lookup(ts[j], k))
  }

  ghost predicate KeepsMeaning(ts: seq<Table>, rank: Rank, k: Blob)
  {
    Visible(Pick(ts, rank, k)) == Visible(StackLookup(ts, k))
  }

  function Favour(t: nat): (rank: Rank)
  {
    (k, i) => if i == t then 0 else 1
  }

  lemma FavouredWins(ts: seq<Table>, k: Blob, t: nat)
    requires t < |ts| && HasKey(ts[t], k)
    ensures Pick(ts, Favour(t), k) == Lookup(ts[t], k)
  {
    WinnerUnique(ts, Favour(t), k, t);
  }

  /** A heap that compares keys only may break ties in any way. It keeps the meaning of the stack
      whatever it does exactly when no key is shadowed by a record that looks different. */
  lemma TieBreakExact(ts: seq<Table>)
    ensures (forall rank: Rank, k: Blob :: KeepsMeaning(ts, rank, k)) <==> Agreeing(ts)
  {
    if forall rank: Rank, k: Blob :: KeepsMeaning(ts, rank, k) {
      forall i, j, k | 0 <= i < |ts| && 0 <= j < |ts| && HasKey(ts[i], k) && HasKey(ts[j], k)
        ensures Visible(Lookup(ts[i], k)) == Visible(Lookup(ts[j], k))
      {
        FavouredWins(ts, k, i);
        FavouredWins(ts, k, j);
        assert KeepsMeaning(ts, Favour(i), k) && KeepsMeaning(ts, Favour(j), k);
      }
    }
    if Agreeing(ts) {
      forall rank: Rank, k: Blob
        ensures KeepsMeaning(ts, rank, k)
      {
        NewestWins(ts, k);
        if Winner(ts, rank, k).Some? {
          WinnerBest(ts, ByIndex(), k, Winner(ts, rank, k).value);
        } else if Winner(ts, ByIndex(), k).Some? {
          WinnerBest(ts, rank, k, Winner(ts, ByIndex(), k).value);
        }
      }
    }
  }

  /** Tables [a, k] and [k]: once `a` is out, the older `k` may come out of the heap first. */
  lemma OlderMayWin(a: Blob, k: Blob, newer: Blob, older: Blob)
    requires Less(a, k) && newer != older
    ensures var ts := [[Entry(a, Put(newer)), Entry(k, Put(newer))], [Entry(k, Put(older))]];
            && SortedTables(ts) && StackLookup(ts, k) == Data(newer)
            && exists rank: Rank :: Pick(ts, rank, k) == Data(older)
  {
    var t0, t1 := [Entry(a, Put(newer)), Entry(k, Put(newer))], [Entry(k, Put(older))];
    var ts := [t0, t1];
    LessStrict(a, k);
    assert t0[1].key == k && t1[0].key == k;
    assert t0[1..] == [Entry(k, Put(newer))];
    assert Lookup(t0, k) == Lookup(t0[1..], k) == Data(newer);
    assert t1[0].op == Put(older) && Lookup(t1, k) == Meaning(t1[0].op);
    assert ts[0] == t0 && ts[1] == t1;
    FavouredWins(ts, k, 1);
    assert Pick(ts, Favour(1), k) == Data(older);
  }

  // -------------------------------------------------------- the whole selection

  /** Exactly one record per key, the preferred one, in increasing key order. */
  ghost predicate IsSelection(ts: seq<Table>, rank: Rank, sel: Table)
  {
    SortedEntries(sel) && forall k :: Lookup(sel, k) == Pick(ts, rank, k)
  }

  lemma {:induction false} MaxKey(keys: set<Blob>) returns (m: Blob)
    requires keys != {}
    ensures m in keys && forall k :: k in keys && k != m ==> Less(k, m)
    decreases |keys|
  {
    var x :| x in keys;
    m := x;
    if keys != {x} {
      var y := MaxKey(keys - {x});
      LessTotal(x, y);
      if Less(x, y) {
        m := y;
      } else {
        forall k | k in keys && k != x
          ensures Less(k, x)
        {
          if k != y {
            LessTransitive(k, y, x);
          }
        }
      }
    }
  }

  lemma {:induction false} SelectKeys(ts: seq<Table>, rank: Rank, keys: set<Blob>) returns (sel: Table)
    requires forall k :: k in keys ==> Winner(ts, rank, k).Some?
    ensures SortedEntries(sel) && (forall i :: 0 <= i < |sel| ==> sel[i].key in keys)
    ensures forall k :: Lookup(sel, k) == if k in keys then Pick(ts, rank, k) else NotFound
    decreases |keys|
  {
    hide Less, Winner, Lookup;
    sel := [];
    if keys == {} {
      forall k
        ensures Lookup(sel, k) == NotFound
      {
        LookupAbsent(sel, k);
      }
    } else {
      var m := MaxKey(keys);
      var front := SelectKeys(ts, rank, keys - {m});
      var q := Pick(ts, rank, m);
      LookupHas(ts[Winner(ts, rank, m).value], m);
      var e := Entry(m, if q.Data? then Put(q.value) else Delete);
      sel := front + [e];
      forall k
        ensures Lookup(sel, k) == if k in keys then Pick(ts, rank, k) else NotFound
      {
        LookupSnoc(front, e, k);
        if k in keys && k != m {
          LookupHas(ts[Winner(ts, rank, k).value], k);
        }
      }
    }
  }

  ghost function KeysOf(ts: seq<Table>): (keys: set<Blob>)
  {
    set i, j | 0 <= i < |ts| && 0 <= j < |ts[i]| :: ts[i][j].key
  }

  /** Every stack has a selection under every preference. */
  lemma SelectionExists(ts: seq<Table>, rank: Rank) returns (sel: Table)
    ensures IsSelection(ts, rank, sel)
  {
    hide Less, Winner, Lookup;
    var keys := set k | k in KeysOf(ts) && Winner(ts, rank, k).Some?;
    sel := SelectKeys(ts, rank, keys);
    forall k
      ensures Lookup(sel, k) == Pick(ts, rank, k)
    {
      if Winner(ts, rank, k).Some? {
        var w := Winner(ts, rank, k).value;
        var j :| 0 <= j < |ts[w]| && ts[w][j].key == k;
        assert ts[w][j].key in KeysOf(ts);
      }
    }
  }

  /** Distinct records of a stream take no more bytes than the stream. */
  lemma {:induction false} SubStream(x: Table, y: Table)
    requires forall i, j :: 0 <= i < j < |x| ==> x[i] != x[j]
    requires forall i :: 0 <= i < |x| ==> x[i] in y
    ensures |Stream(x)| <= |Stream(y)|
    decreases |x|
  {
    hide Stream, BlobOf;
    if x == [] {
      EmptyStream();
    } else {
      var m := |x| - 1;
      var j :| 0 <= j < |y| && y[j] == x[m];
      var x', y' := x[..m], y[..j] + y[j + 1..];
      assert x == x' + [x[m]] && y == y[..j] + [y[j]] + y[j + 1..];
      StreamSnoc(x', x[m]);
      StreamSnoc(y[..j], y[j]);
      StreamAppend(y[..j] + [y[j]], y[j + 1..]);
      StreamAppend(y[..j], y[j + 1..]);
      forall i | 0 <= i < m
        ensures x'[i] in y'
      {
        assert x[i] in y && x[i] != y[j];
        StillIn(x[i], y, j);
      }
      SubStream(x', y');
    }
  }

  lemma StillIn(e: Entry, y: Table, j: nat)
    requires j < |y| && e in y && e != y[j]
    ensures e in y[..j] + y[j + 1..]
  {
    assert y == y[..j] + [y[j]] + y[j + 1..];
  }

  lemma SortedDistinct(x: Table)
    requires SortedEntries(x)
    ensures forall i, j :: 0 <= i < j < |x| ==> x[i] != x[j]
  {
    hide Less;
    forall i, j | 0 <= i < j < |x|
      ensures x[i] != x[j]
    {
      LessStrict(x[i].key, x[j].key);
    }
  }

  // ------------------------------------------------------- dropping tombstones

  function Puts(es: Table): (r: Table)
  {
    if es == [] then []
    else if es[|es| - 1].op.Put? then Puts(es[..|es| - 1]) + [es[|es| - 1]]
    else Puts(es[..|es| - 1])
  }

  lemma {:induction false} PutsFrom(es: Table, i: nat) returns (j: nat)
    requires i < |Puts(es)|
    ensures i <= j < |es| && es[j] == Puts(es)[i] && es[j].op.Put?
  {
    var n := |es| - 1;
    if i < |Puts(es[..n])| {
      j := PutsFrom(es[..n], i);
    } else {
      j := n;
      PutsShort(es[..n]);
    }
  }

  lemma {:induction false} PutsHas(es: Table, j: nat)
    requires j < |es| && es[j].op.Put?
    ensures es[j] in Puts(es)
  {
    var n := |es| - 1;
    if j < n {
      PutsHas(es[..n], j);
      assert es[..n][j] == es[j];
    }
  }

  lemma {:induction false} PutsShort(es: Table)
    ensures |Puts(es)| <= |es|
  {
    if es != [] {
      PutsShort(es[..|es| - 1]);
    }
  }

  lemma {:induction false} PutsSorted(es: Table)
    requires SortedEntries(es)
    ensures SortedEntries(Puts(es))
  {
    if es != [] {
      var n := |es| - 1;
      PutsSorted(es[..n]);
      forall i | 0 <= i < |Puts(es[..n])|
        ensures Less(Puts(es[..n])[i].key, es[n].key)
      {
        var j := PutsFrom(es[..n], i);
        assert es[..n][j] == es[j];
      }
    }
  }

  /** Without its tombstones a table looks the same. */
  lemma {:induction false} PutsLookup(es: Table, k: Blob)
    requires SortedEntries(es)
    ensures Lookup(Puts(es), k) == Visible(Lookup(es, k))
  {
    if es == [] {
    } else {
      var n := |es| - 1;
      var front, last := es[..n], es[n];
      PutsLookup(front, k);
      LookupSnoc(front, last, k);
      assert es == front + [last];
      LookupHas(front, k);
      LookupHas(Puts(front), k);
      if last.op.Put? {
        LookupSnoc(Puts(front), last, k);
      }
      if HasKey(front, k) {
        var i :| 0 <= i < |front| && front[i].key == k;
        assert Less(es[i].key, es[n].key);
        LessStrict(es[i].key, es[n].key);
      }
    }
  }

  lemma {:induction false} LookupSnoc(es: Table, e: Entry, k: Blob)
    ensures Lookup(es + [e], k) ==
              if Lookup(es, k) != NotFound then Lookup(es, k)
              else if e.key == k then Meaning(e.op) else NotFound
  {
    if es == [] {
      assert ([] + [e])[1..] == [];
      assert Lookup([], k) == NotFound;
    } else {
      assert (es + [e])[1..] == es[1..] + [e];
      LookupSnoc(es[1..], e, k);
    }
  }
}
