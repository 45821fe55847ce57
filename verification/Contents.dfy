/** What a memtable means: the map its sorted pairs denote, and the effect of a log of writes
    on it. */
module Contents {
  import opened Bytes
  import opened RecordBuffers
  import opened Records
  import opened RedBlack

  // ------------------------------------------------------ sorted pairs as maps

  function PairMap(s: seq<Pair>): (m: map<Blob, Stored>)
  {
    if s == [] then map[] else PairMap(s[..|s| - 1])[s[|s| - 1].key := s[|s| - 1].stored]
  }

  lemma {:induction false} PairMapAppend(x: seq<Pair>, y: seq<Pair>)
    ensures PairMap(x + y) == PairMap(x) + PairMap(y)
  {
    if y == [] {
      assert x + y == x;
    } else {
      assert (x + y)[..|x + y| - 1] == x + y[..|y| - 1];
      PairMapAppend(x, y[..|y| - 1]);
    }
  }

  lemma {:induction false} PairMapKeys(s: seq<Pair>, k: Blob)
    ensures k in PairMap(s) <==> exists i :: 0 <= i < |s| && s[i].key == k
  {
    if s != [] {
      var front := s[..|s| - 1];
      PairMapKeys(front, k);
      if k in PairMap(s) && k != s[|s| - 1].key {
        var i :| 0 <= i < |front| && front[i].key == k;
        assert s[i].key == k;
      }
      if i :| 0 <= i < |s| && s[i].key == k {
        if i < |s| - 1 {
          assert front[i].key == k;
        }
      }
    }
  }

  lemma {:induction false} PairMapValue(s: seq<Pair>, i: nat)
    requires Sorted(s) && i < |s|
    ensures s[i].key in PairMap(s) && PairMap(s)[s[i].key] == s[i].stored
  {
    if i < |s| - 1 {
      assert Less(s[i].key, s[|s| - 1].key);
      LessStrict(s[i].key, s[|s| - 1].key);
      PairMapValue(s[..|s| - 1], i);
    }
  }

  lemma {:induction false} PairMapSize(s: seq<Pair>)
    requires Sorted(s)
    ensures |PairMap(s)| == |s|
  {
    if s != [] {
      var front, last := s[..|s| - 1], s[|s| - 1];
      PairMapSize(front);
      LastIsNew(s);
      assert PairMap(s).Keys == PairMap(front).Keys + {last.key};
    }
  }

  /** The last pair of sorted pairs is new to the ones before it. */
  lemma LastIsNew(s: seq<Pair>)
    requires Sorted(s) && s != []
    ensures s[|s| - 1].key !in PairMap(s[..|s| - 1])
    ensures PairMap(s[..|s| - 1]) == PairMap(s) - {s[|s| - 1].key}
  {
    hide Less;
    var n := |s| - 1;
    var f, k := s[..n], s[n].key;
    assert k !in PairMap(f) by {
      hide PairMap;
      PairMapKeys(f, k);
      if i :| 0 <= i < |f| && f[i].key == k {
        assert f[i] == s[i];
        assert Less(s[i].key, s[n].key);
        LessStrict(s[i].key, s[n].key);
      }
    }
    assert PairMap(s) == PairMap(f)[k := s[n].stored];
    assert (PairMap(f)[k := s[n].stored]) - {k} == PairMap(f);
  }

  /** Sorted pairs are determined by their map. */
  lemma {:induction false} SortedUnique(s: seq<Pair>, t: seq<Pair>)
    requires Sorted(s) && Sorted(t) && PairMap(s) == PairMap(t)
    ensures s == t
    decreases |s|
  {
    hide PairMap, Less;
    PairMapSize(s);
    PairMapSize(t);
    if s != [] {
      var n := |s| - 1;
      SameLast(s, t);
      LastIsNew(s);
      LastIsNew(t);
      SortedUnique(s[..n], t[..n]);
      assert s == s[..n] + [s[n]] && t == t[..n] + [t[n]];
    }
  }

  lemma SameLast(s: seq<Pair>, t: seq<Pair>)
    requires Sorted(s) && Sorted(t) && PairMap(s) == PairMap(t) && |s| == |t| > 0
    ensures s[|s| - 1] == t[|t| - 1]
  {
    hide PairMap, Less;
    var n := |s| - 1;
    PairMapValue(s, n);
    PairMapValue(t, n);
    PairMapKeys(t, s[n].key);
    PairMapKeys(s, t[n].key);
    var i :| 0 <= i < |t| && t[i].key == s[n].key;
    var j :| 0 <= j < |s| && s[j].key == t[n].key;
    if i < n && j < n {
      assert Less(t[i].key, t[n].key) && Less(s[j].key, s[n].key);
      LessStrict(s[n].key, t[n].key);
    }
  }

  ghost predicate AllBelow(s: seq<Pair>, k: Blob)
  {
    forall i :: 0 <= i < |s| ==> Less(s[i].key, k)
  }

  ghost predicate AllAbove(s: seq<Pair>, k: Blob)
  {
    forall i :: 0 <= i < |s| ==> Less(k, s[i].key)
  }

  lemma AbsentBetween(b: seq<Pair>, a: seq<Pair>, k: Blob)
    requires AllBelow(b, k) && AllAbove(a, k)
    ensures k !in PairMap(b + a)
  {
    PairMapKeys(b + a, k);
    if i :| 0 <= i < |b + a| && (b + a)[i].key == k {
      if i < |b| {
        LessStrict(b[i].key, k);
      } else {
        assert (b + a)[i] == a[i - |b|];
        LessStrict(k, a[i - |b|].key);
      }
    }
  }

  /** A new key goes in between the smaller and the larger ones. */
  lemma InsertBetween(b: seq<Pair>, c: Pair, a: seq<Pair>)
    requires Sorted(b + a) && AllBelow(b, c.key) && AllAbove(a, c.key)
    ensures Sorted(b + [c] + a)
    ensures PairMap(b + [c] + a) == PairMap(b + a)[c.key := c.stored]
  {
    var s := b + [c] + a;
    forall i, j | 0 <= i < j < |s|
      ensures Less(s[i].key, s[j].key)
    {
      var i', j' := if i <= |b| then i else i - 1, if j <= |b| then j else j - 1;
      if i != |b| && j != |b| {
        assert s[i] == (b + a)[i'] && s[j] == (b + a)[j'];
      } else if i == |b| {
        assert s[j] == a[j - |b| - 1];
      }
    }
    AbsentAbove(a, c.key);
    MiddleMap(b, c, a);
  }

  lemma AbsentAbove(a: seq<Pair>, k: Blob)
    requires AllAbove(a, k)
    ensures k !in PairMap(a)
  {
    AbsentBetween([], a, k);
    assert [] + a == a;
  }

  lemma MiddleMap(b: seq<Pair>, c: Pair, a: seq<Pair>)
    requires c.key !in PairMap(a)
    ensures PairMap(b + [c] + a) == PairMap(b + a)[c.key := c.stored]
  {
    PairMapAppend(b + [c], a);
    PairMapAppend(b, a);
    assert (b + [c])[..|b + [c]| - 1] == b;
  }

  /** An existing key keeps its place and gets a new value. */
  lemma ReplaceAt(b: seq<Pair>, c: Pair, c': Pair, a: seq<Pair>)
    requires Sorted(b + [c] + a) && c'.key == c.key
    ensures Sorted(b + [c'] + a)
    ensures PairMap(b + [c'] + a) == PairMap(b + [c] + a)[c.key := c'.stored]
  {
    var s, s' := b + [c] + a, b + [c'] + a;
    assert forall i :: 0 <= i < |s| ==> s'[i].key == s[i].key;
    forall i | 0 <= i < |a|
      ensures Less(c.key, a[i].key)
    {
      assert s[|b|] == c && s[|b| + 1 + i] == a[i];
    }
    AbsentAbove(a, c.key);
    MiddleMap(b, c, a);
    MiddleMap(b, c', a);
  }

  // ------------------------------------------------- search by narrowing down

  /** The key, if present at all, is in the focus. */
  ghost predicate Narrowed(p: Path, k: Blob)
  {
    AllBelow(Before(p), k) && AllAbove(Behind(p), k)
  }

  lemma NarrowLeft(p: Path, t: Tree, k: Blob)
    requires t.Branch? && Narrowed(p, k) && Sorted(Inorder(Plug(p, t))) && Less(k, t.slot.key)
    ensures Narrowed(InLeft(p, t.slot, t.right), k)
  {
    InorderPlug(p, t);
    var w, at := Inorder(Plug(p, t)), |Before(p)| + |Inorder(t.left)|;
    assert w[at] == PairOf(t.slot);
    var above := Behind(InLeft(p, t.slot, t.right));
    forall i | 0 <= i < |above|
      ensures Less(k, above[i].key)
    {
      assert above[i] == w[at + i];
      if i > 0 {
        LessTransitive(k, t.slot.key, above[i].key);
      }
    }
  }

  lemma NarrowRight(p: Path, t: Tree, k: Blob)
    requires t.Branch? && Narrowed(p, k) && Sorted(Inorder(Plug(p, t))) && Less(t.slot.key, k)
    ensures Narrowed(InRight(p, t.left, t.slot), k)
  {
    InorderPlug(p, t);
    var w, at := Inorder(Plug(p, t)), |Before(p)| + |Inorder(t.left)|;
    assert w[at] == PairOf(t.slot);
    var below := Before(InRight(p, t.left, t.slot));
    forall i | 0 <= i < |below|
      ensures Less(below[i].key, k)
    {
      assert below[i] == w[i];
      if i < at {
        LessTransitive(below[i].key, t.slot.key, k);
      }
    }
  }

  lemma FoundAt(p: Path, t: Tree)
    requires t.Branch? && Sorted(Inorder(Plug(p, t)))
    ensures t.slot.key in PairMap(Inorder(Plug(p, t)))
    ensures PairMap(Inorder(Plug(p, t)))[t.slot.key] == t.slot.stored
  {
    InorderPlug(p, t);
    var at := |Before(p)| + |Inorder(t.left)|;
    assert Inorder(Plug(p, t))[at] == PairOf(t.slot);
    PairMapValue(Inorder(Plug(p, t)), at);
  }

  lemma NotFoundAt(p: Path, k: Blob)
    requires Narrowed(p, k)
    ensures Inorder(Plug(p, Leaf)) == Before(p) + Behind(p)
    ensures k !in PairMap(Inorder(Plug(p, Leaf)))
  {
    InorderPlug(p, Leaf);
    assert Before(p) + [] + Behind(p) == Before(p) + Behind(p);
    AbsentBetween(Before(p), Behind(p), k);
  }

  // -------------------------------------------------------- the log of writes

  /** A memtable as a map, with the size counter: it skips the first record and overwrites. */
  datatype State = State(contents: map<Blob, Stored>, size: nat)

  /** One accepted write; None is the panic of an overwrite that does not fit. */
  function Write(s: State, e: Entry): (r: Option<State>)
  {
    if e.key in s.contents then
      match Updated(e.key, s.contents[e.key], e.op)
      case None => None
      case Some(st) => Some(State(s.contents[e.key := st], s.size))
    else
      Some(State(s.contents[e.key := Created(e.key, e.op)],
                 if s.contents == map[] then s.size else s.size + |BlobOf(e)|))
  }

  function Run(es: seq<Entry>): (r: Option<State>)
  {
    if es == [] then Some(State(map[], 0))
    else match Run(es[..|es| - 1])
         case None => None
         case Some(s) => Write(s, es[|es| - 1])
  }

  predicate Full(s: State, maxSize: nat, maxNodes: nat)
  {
    |s.contents| == maxNodes || s.size >= maxSize
  }

  /** Every write of the log was made to a table that was not full, and none panicked. */
  ghost predicate Accepted(es: seq<Entry>, maxSize: nat, maxNodes: nat)
  {
    && AllEncodable(es)
    && (forall i :: 0 <= i <= |es| ==> Run(es[..i]).Some?)
    && (forall i :: 0 <= i < |es| ==> !Full(Run(es[..i]).value, maxSize, maxNodes))
  }

  lemma AcceptedPrefix(es: seq<Entry>, k: nat, maxSize: nat, maxNodes: nat)
    requires Accepted(es, maxSize, maxNodes) && k <= |es|
    ensures Accepted(es[..k], maxSize, maxNodes)
  {
    assert forall i :: 0 <= i <= k ==> es[..k][..i] == es[..i];
  }

  lemma AcceptedSnoc(es: seq<Entry>, e: Entry, maxSize: nat, maxNodes: nat)
    requires Accepted(es, maxSize, maxNodes) && Encodable(e)
    requires Run(es).Some? && !Full(Run(es).value, maxSize, maxNodes) && Write(Run(es).value, e).Some?
    ensures Accepted(es + [e], maxSize, maxNodes)
    ensures Run(es + [e]) == Write(Run(es).value, e)
  {
    hide Write, Encodable;
    var fs := es + [e];
    assert fs[..|es|] == es && fs[..|fs|] == fs && es[..|es|] == es;
    forall i | 0 <= i <= |es|
      ensures fs[..i] == es[..i]
    {
    }
  }

  // ------------------------------------------------- the limits, on the log itself

  function KeysIn(es: seq<Entry>): (ks: set<Blob>)
  {
    set e | e in es :: e.key
  }

  /** The blob sizes of each key's first write, without the first record of the table. */
  function FirstSizes(es: seq<Entry>): (n: nat)
  {
    if |es| <= 1 then 0
    else
      var front, last := es[..|es| - 1], es[|es| - 1];
      FirstSizes(front) + if last.key in KeysIn(front) then 0 else |BlobOf(last)|
  }

  lemma KeysSnoc(es: seq<Entry>)
    requires es != []
    ensures KeysIn(es) == KeysIn(es[..|es| - 1]) + {es[|es| - 1].key}
  {
    var front, last := es[..|es| - 1], es[|es| - 1];
    assert es == front + [last];
    assert forall e :: e in es <==> e in front || e == last;
  }

  /** A table holds the keys of its log and counts the size of each new one but the first. */
  lemma {:induction false} RunMeasures(es: seq<Entry>)
    requires Run(es).Some?
    ensures Run(es).value.contents.Keys == KeysIn(es)
    ensures Run(es).value.size == FirstSizes(es)
  {
    hide Updated, BlobOf;
    if es != [] {
      var front := es[..|es| - 1];
      RunMeasures(front);
      KeysSnoc(es);
      assert Run(front).value.contents == map[] <==> front == [] by {
        assert front != [] ==> front[0].key in KeysIn(front);
      }
    }
  }

  /** The limits in numbers: a log is accepted exactly when none of its writes panicked and, before
      each of them, there were fewer keys than nodes allowed and fewer bytes counted than the size
      allowed. */
  lemma AcceptedExact(es: seq<Entry>, maxSize: nat, maxNodes: nat)
    ensures Accepted(es, maxSize, maxNodes) <==>
              && AllEncodable(es)
              && (forall i :: 0 <= i <= |es| ==> Run(es[..i]).Some?)
              && forall i :: 0 <= i < |es| ==> |KeysIn(es[..i])| < maxNodes && FirstSizes(es[..i]) < maxSize
  {
    hide Run, FirstSizes, KeysIn, Encodable;
    if forall i :: 0 <= i <= |es| ==> Run(es[..i]).Some? {
      forall i | 0 <= i < |es|
        ensures Full(Run(es[..i]).value, maxSize, maxNodes) <==>
                  |KeysIn(es[..i])| == maxNodes || FirstSizes(es[..i]) >= maxSize
      {
        RunMeasures(es[..i]);
        assert |Run(es[..i]).value.contents| == |Run(es[..i]).value.contents.Keys|;
      }
      if Accepted(es, maxSize, maxNodes) {
        forall i | 0 <= i < |es|
          ensures |KeysIn(es[..i])| < maxNodes
        {
          FewKeys(es, i, maxNodes);
        }
      }
    }
  }

  /** Keys come one at a time, so a limit is not passed without being met. */
  lemma {:induction false} FewKeys(es: seq<Entry>, n: nat, maxNodes: nat)
    requires n <= |es| && forall i :: 0 <= i < n ==> |KeysIn(es[..i])| != maxNodes
    ensures |KeysIn(es[..n])| <= maxNodes
  {
    if n == 0 {
      assert KeysIn(es[..0]) == {};
    } else {
      FewKeys(es, n - 1, maxNodes);
      assert es[..n][..n - 1] == es[..n - 1];
      KeysSnoc(es[..n]);
    }
  }

  /** No table holds more records than its limit, and its counted size passes the limit by less
      than its last record. */
  lemma AcceptedBounds(es: seq<Entry>, maxSize: nat, maxNodes: nat)
    requires Accepted(es, maxSize, maxNodes)
    ensures Run(es).Some? && |Run(es).value.contents| <= maxNodes
    ensures es != [] ==> Run(es).value.size < maxSize + |BlobOf(es[|es| - 1])|
  {
    hide BlobOf, KeysIn, Encodable, Run;
    var n := |es|;
    assert es[..n] == es;
    AcceptedExact(es, maxSize, maxNodes);
    RunMeasures(es);
    assert |Run(es).value.contents| == |Run(es).value.contents.Keys|;
    FewKeys(es, n, maxNodes);
  }

  // ------------------------------------------- the writes of one key in a log

  function OpsOf(es: seq<Entry>, k: Blob): (ops: seq<Op>)
  {
    if es == [] then []
    else
      var front, last := OpsOf(es[..|es| - 1], k), es[|es| - 1];
      if last.key == k then front + [last.op] else front
  }

  /** A table holds for each key what that key's own writes leave. */
  lemma {:induction false} RunPerKey(es: seq<Entry>, k: Blob)
    requires Run(es).Some?
    ensures k in Run(es).value.contents <==> OpsOf(es, k) != []
    ensures OpsOf(es, k) != [] ==> After(k, OpsOf(es, k)) == Some(Run(es).value.contents[k])
  {
    hide Fits;
    if es != [] {
      var front, last := es[..|es| - 1], es[|es| - 1];
      RunPerKey(front, k);
      if last.key == k && OpsOf(front, k) != [] {
        var ops := OpsOf(es, k);
        assert ops[..|ops| - 1] == OpsOf(front, k);
      }
    }
  }

  /** When a table read from memory tells the truth about a key: exactly when the key's last
      write deleted it, or it was never deleted and its first and last values are equally long. */
  lemma TableReadExact(es: seq<Entry>, k: Blob)
    requires Run(es).Some? && k in Run(es).value.contents
    ensures OpsOf(es, k) != []
    ensures Run(es).value.contents[k].op == OpsOf(es, k)[|OpsOf(es, k)| - 1]
    ensures ReadValue(RecordOf(k, Run(es).value.contents[k])) == Meaning(Run(es).value.contents[k].op)
       <==> InPlace(OpsOf(es, k))
  {
    RunPerKey(es, k);
    AfterChain(k, OpsOf(es, k));
    MemoryReadExact(k, OpsOf(es, k));
  }

  /** When it panics: exactly when the key was never deleted and its last value is shorter than its
      first. */
  lemma TableReadCrash(es: seq<Entry>, k: Blob)
    requires Run(es).Some? && k in Run(es).value.contents
    ensures OpsOf(es, k) != []
    ensures ReadValue(RecordOf(k, Run(es).value.contents[k])) == Crash <==>
              var ops := OpsOf(es, k);
              Delete !in ops && |ops[|ops| - 1].value| < |ops[0].value|
  {
    hide RecordOf, ReadValue;
    RunPerKey(es, k);
    MemoryReadCrash(k, OpsOf(es, k));
  }
}
