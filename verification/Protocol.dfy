/** The engine's hand-off protocol as a step machine (src/database/inner.rs,
    src/memtable/immutable.rs, src/memtable/inner.rs, src/compaction/mod.rs, src/sstable/mod.rs): one
    writer, the flush task, the load-and-compact task and one get, interleaved at every lock. */
module Protocol {
  import opened Bytes
  import opened Records

  /** A key in a memtable: what its record encodes, and what a read from memory returns. The two
      differ when the record's value range is stale. */
  datatype Cell = Cell(op: Op, read: Query)

  type MemTable = map<Blob, Cell>

  type DiskTable = map<Blob, Op>

  /** Flushing writes the encoded records. */
  function ToDisk(m: MemTable): (d: DiskTable)
  {
    map k | k in m :: m[k].op
  }

  /** Between taking the full table out and queueing it, the writer alone holds it. */
  datatype Writer = Ready | Rotated(hand: MemTable) | Enqueued

  datatype Flusher = Idle | Flushing(head: MemTable) | Awaiting

  datatype Loader = Waiting | Pushed(len: nat) | Compacting | Snapped(tables: seq<DiskTable>) | Acking

  datatype Reader =
    | NoGet
    | Started(key: Blob) | MissedMemtable(key: Blob) | MissedQueue(key: Blob)
    | Done(key: Blob, result: Query)

  datatype State = State(
    active: MemTable,
    writer: Writer,
    queue: seq<MemTable>,     // oldest first
    signals: nat,             // flush signals not yet received
    flusher: Flusher,
    loads: seq<DiskTable>,    // load signals not yet received
    loader: Loader,
    cache: seq<DiskTable>,    // newest first
    acks: nat,
    rate: nat,
    reader: Reader,
    panicked: bool)

  datatype Action =
    | Write(key: Blob, cell: Cell)
    | Rotate | Enqueue | Signal
    | TakeSignal | SendLoad | TakeAck
    | Load | Pop | Snapshot | Replace(pref: Preference) | Ack
    | BeginGet(key: Blob) | ReadMemtable | ReadQueue | SearchCache

  // -------------------------------------------------------------------- lookups

  function QueueFirst(q: seq<MemTable>, k: Blob): (c: Option<Cell>)
  {
    if q == [] then None
    else if k in q[|q| - 1] then Some(q[|q| - 1][k])
    else QueueFirst(q[..|q| - 1], k)
  }

  function CacheFirst(c: seq<DiskTable>, k: Blob): (op: Option<Op>)
  {
    if c == [] then None
    else if k in c[0] then Some(c[0][k])
    else CacheFirst(c[1..], k)
  }

  function Hand(s: State): (m: MemTable)
  {
    if s.writer.Rotated? then s.writer.hand else map[]
  }

  /** The newest cell of the key in memory: active table, writer's hand, queue from its back. */
  function MemoryFirst(s: State, k: Blob): (c: Option<Cell>)
  {
    if k in s.active then Some(s.active[k])
    else if k in Hand(s) then Some(Hand(s)[k])
    else QueueFirst(s.queue, k)
  }

  /** The three-valued newest-first lookup: a value, a tombstone, or nothing. */
  function Newest(s: State, k: Blob): (op: Option<Op>)
  {
    match MemoryFirst(s, k)
    case Some(c) => Some(c.op)
    case None => CacheFirst(s.cache, k)
  }

  function Shown(op: Option<Op>): (q: Query)
  {
    match op
    case Some(Put(v)) => Data(v)
    case _ => NotFound
  }

  /** A read from memory that ends the get: anything but a miss or a tombstone. */
  predicate Answers(q: Query)
  {
    q.Data? || q.Crash?
  }

  // ----------------------------------------------------------------- compaction

  ghost function KeysOf(ts: seq<DiskTable>): (ks: set<Blob>)
  {
    if ts == [] then {} else ts[0].Keys + KeysOf(ts[1..])
  }

  /** How a merge breaks ties: the table it takes a key from. A key without a usable preference
      comes from the newest table that holds it, so the empty map is the order of `Ord`. */
  type Preference = map<Blob, nat>

  const ORD: Preference := map[]

  function Chosen(ts: seq<DiskTable>, pref: Preference, k: Blob): (op: Option<Op>)
  {
    if k in pref && pref[k] < |ts| && k in ts[pref[k]] then Some(ts[pref[k]][k]) else CacheFirst(ts, k)
  }

  /** The chosen record of every key, tombstones dropped. */
  ghost function Compacted(ts: seq<DiskTable>, pref: Preference): (d: DiskTable)
  {
    map k | k in KeysOf(ts) && Chosen(ts, pref, k).Some? && Chosen(ts, pref, k).value.Put? :: Chosen(ts, pref, k).value
  }

  lemma {:induction false} KeysOfHolder(ts: seq<DiskTable>, k: Blob, i: nat)
    requires i < |ts| && k in ts[i]
    ensures k in KeysOf(ts) && CacheFirst(ts, k).Some?
    decreases i
  {
    if i > 0 {
      KeysOfHolder(ts[1..], k, i - 1);
    }
  }

  lemma {:induction false} FirstHolder(ts: seq<DiskTable>, k: Blob) returns (i: nat)
    requires CacheFirst(ts, k).Some?
    ensures i < |ts| && k in ts[i] && CacheFirst(ts, k) == Some(ts[i][k])
  {
    if k in ts[0] {
      i := 0;
    } else {
      i := FirstHolder(ts[1..], k);
      i := i + 1;
    }
  }

  lemma ChosenByOrd(ts: seq<DiskTable>, k: Blob)
    ensures Chosen(ts, ORD, k) == CacheFirst(ts, k)
  {
  }

  lemma CompactedHas(ts: seq<DiskTable>, pref: Preference, k: Blob)
    ensures k in Compacted(ts, pref) <==> Chosen(ts, pref, k).Some? && Chosen(ts, pref, k).value.Put?
    ensures k in Compacted(ts, pref) ==> Compacted(ts, pref)[k] == Chosen(ts, pref, k).value
  {
    if k in pref && pref[k] < |ts| && k in ts[pref[k]] {
      KeysOfHolder(ts, k, pref[k]);
    } else if CacheFirst(ts, k).Some? {
      KeysOfComplete(ts, k);
    }
  }

  /** What a search of the compacted table finds. */
  lemma CompactedFirst(ts: seq<DiskTable>, pref: Preference, k: Blob)
    ensures CacheFirst([Compacted(ts, pref)], k) ==
              if Chosen(ts, pref, k).Some? && Chosen(ts, pref, k).value.Put? then Chosen(ts, pref, k) else None
  {
    var cache: seq<DiskTable> := [Compacted(ts, pref)];
    assert cache[1..] == [];
    CompactedHas(ts, pref, k);
  }

  /** Wherever the key occurs twice, both occurrences look alike. */
  ghost predicate Alike(ts: seq<DiskTable>, k: Blob)
  {
    forall i, j :: 0 <= i < |ts| && 0 <= j < |ts| && k in ts[i] && k in ts[j] ==>
      Shown(Some(ts[i][k])) == Shown(Some(ts[j][k]))
  }

  /** Every preference shows the newest record exactly when all copies look alike. */
  lemma ChosenExact(ts: seq<DiskTable>, k: Blob)
    ensures (forall pref :: Shown(Chosen(ts, pref, k)) == Shown(CacheFirst(ts, k))) <==> Alike(ts, k)
  {
    if forall pref :: Shown(Chosen(ts, pref, k)) == Shown(CacheFirst(ts, k)) {
      forall i, j | 0 <= i < |ts| && 0 <= j < |ts| && k in ts[i] && k in ts[j]
        ensures Shown(Some(ts[i][k])) == Shown(Some(ts[j][k]))
      {
        assert Shown(Chosen(ts, map[k := i], k)) == Shown(CacheFirst(ts, k)) == Shown(Chosen(ts, map[k := j], k));
      }
    }
    if Alike(ts, k) {
      forall pref
        ensures Shown(Chosen(ts, pref, k)) == Shown(CacheFirst(ts, k))
      {
        if k in pref && pref[k] < |ts| && k in ts[pref[k]] {
          KeysOfHolder(ts, k, pref[k]);
          var i := FirstHolder(ts, k);
        }
      }
    }
  }

  lemma {:induction false} KeysOfComplete(ts: seq<DiskTable>, k: Blob)
    requires CacheFirst(ts, k).Some?
    ensures k in KeysOf(ts)
  {
    if k !in ts[0] {
      KeysOfComplete(ts[1..], k);
    }
  }

  // ---------------------------------------------------------------------- steps

  predicate Enabled(s: State, a: Action)
  {
    match a
    case Write(_, _) => s.writer.Ready?
    case Rotate => s.writer.Ready?
    case Enqueue => s.writer.Rotated?
    case Signal => s.writer.Enqueued?
    case TakeSignal => s.flusher.Idle? && s.signals > 0
    case SendLoad => s.flusher.Flushing?
    case TakeAck => s.flusher.Awaiting? && s.acks > 0
    case Load => s.loader.Waiting? && s.loads != []
    case Pop => s.loader.Pushed?
    case Snapshot => s.loader.Compacting?
    case Replace(_) => s.loader.Snapped?
    case Ack => s.loader.Acking?
    case BeginGet(_) => s.reader.NoGet? || s.reader.Done?
    case ReadMemtable => s.reader.Started?
    case ReadQueue => s.reader.MissedMemtable?
    case SearchCache => s.reader.MissedQueue?
  }

  /** One step. Flushing from an empty queue is the panic of `front().expect`. */
  ghost function Apply(s: State, a: Action): (s': State)
    requires Enabled(s, a)
  {
    match a
    case Write(k, c) => s.(active := s.active[k := c])
    case Rotate => s.(active := map[], writer := Rotated(s.active))
    case Enqueue => s.(queue := s.queue + [s.writer.hand], writer := Enqueued)
    case Signal => s.(signals := s.signals + 1, writer := Ready)
    case TakeSignal =>
      if s.queue == [] then s.(signals := s.signals - 1, panicked := true)
      else s.(signals := s.signals - 1, flusher := Flushing(s.queue[0]))
    case SendLoad => s.(loads := s.loads + [ToDisk(s.flusher.head)], flusher := Awaiting)
    case TakeAck => s.(acks := s.acks - 1, flusher := Idle)
    case Load => s.(cache := [s.loads[0]] + s.cache, loads := s.loads[1..], loader := Pushed(|s.cache| + 1))
    case Pop =>
      s.(queue := if s.queue == [] then [] else s.queue[1..],
         loader := if s.loader.len >= s.rate then Compacting else Acking)
    case Snapshot => s.(loader := Snapped(s.cache))
    case Replace(pref) => s.(cache := [Compacted(s.loader.tables, pref)], loader := Acking)
    case Ack => s.(acks := s.acks + 1, loader := Waiting)
    case BeginGet(k) => s.(reader := Started(k))
    case ReadMemtable =>
      var k := s.reader.key;
      if k in s.active && Answers(s.active[k].read) then s.(reader := Done(k, s.active[k].read))
      else s.(reader := MissedMemtable(k))
    case ReadQueue =>
      var k := s.reader.key;
      var c := QueueFirst(s.queue, k);
      if c.Some? && Answers(c.value.read) then s.(reader := Done(k, c.value.read))
      else s.(reader := MissedQueue(k))
    case SearchCache =>
      s.(reader := Done(s.reader.key, Shown(CacheFirst(s.cache, s.reader.key))))
  }

  // ----------------------------------------------------------------- invariants

  /** The queue's oldest table is being flushed or loaded and has not been popped. */
  predicate InFlight(s: State)
  {
    s.flusher.Flushing? || s.loads != [] || s.loader.Pushed?
  }

  function Bit(b: bool): (n: nat)
  {
    if b then 1 else 0
  }

  /** Every queued table has exactly one flush signal: pending, in flight, or about to be sent. */
  ghost predicate Counted(s: State)
  {
    |s.queue| == s.signals + Bit(InFlight(s)) + Bit(s.writer.Enqueued?)
  }

  /** At most one table is between the flush task and the acknowledgement, and while it is in
      flight it is the oldest of the queue. */
  ghost predicate Handshake(s: State)
  {
    match s.flusher
    case Idle => s.loads == [] && s.loader.Waiting? && s.acks == 0
    case Flushing(head) =>
      s.loads == [] && s.loader.Waiting? && s.acks == 0 && s.queue != [] && head == s.queue[0]
    case Awaiting =>
      match s.loader
      case Waiting =>
        || (|s.loads| == 1 && s.acks == 0 && s.queue != [] && s.loads[0] == ToDisk(s.queue[0]))
        || (s.loads == [] && s.acks == 1)
      case Pushed(_) =>
        s.loads == [] && s.acks == 0 && s.queue != [] && s.cache != [] && s.cache[0] == ToDisk(s.queue[0])
      case Snapped(ts) => s.loads == [] && s.acks == 0 && ts == s.cache
      case _ => s.loads == [] && s.acks == 0
  }

  ghost predicate Inv(s: State)
  {
    !s.panicked && Counted(s) && Handshake(s)
  }

  /** Fresh or restarted: any tables in queue and cache, one signal per queued table. */
  ghost predicate Init(s: State)
  {
    && s.writer.Ready? && s.signals == |s.queue| && s.flusher.Idle? && s.loads == []
    && s.loader.Waiting? && s.acks == 0 && s.reader.NoGet? && !s.panicked
  }

  lemma InitInv(s: State)
    requires Init(s)
    ensures Inv(s)
  {
  }

  lemma StepInv(s: State, a: Action)
    requires Inv(s) && Enabled(s, a)
    ensures Inv(Apply(s, a))
  {
    hide QueueFirst, CacheFirst, Compacted, ToDisk;
    match a
    case Enqueue =>
      assert s.queue != [] ==> Apply(s, a).queue[0] == s.queue[0];
    case _ =>
  }

  // ------------------------------------------------------------------------ runs

  ghost predicate IsRun(s: State, run: seq<Action>)
    decreases |run|
  {
    run == [] || (Enabled(s, run[0]) && IsRun(Apply(s, run[0]), run[1..]))
  }

  ghost function After(s: State, run: seq<Action>): (s': State)
    requires IsRun(s, run)
    decreases |run|
  {
    if run == [] then s else After(Apply(s, run[0]), run[1..])
  }

  lemma RunCons(s: State, a: Action, run: seq<Action>)
    requires Enabled(s, a) && IsRun(Apply(s, a), run)
    ensures IsRun(s, [a] + run) && After(s, [a] + run) == After(Apply(s, a), run)
  {
    assert ([a] + run)[1..] == run;
  }

  /** No task is under way between flush signal and acknowledgement. */
  ghost predicate Quiet(s: State)
  {
    s.flusher.Idle? && s.loads == [] && s.loader.Waiting? && s.acks == 0
  }

  /** One round of the background tasks: flush, load, pop, and a merge when the cache is long. */
  function Round(s: State, pref: Preference): (run: seq<Action>)
  {
    [TakeSignal, SendLoad, Load, Pop]
    + (if |s.cache| + 1 >= s.rate then [Snapshot, Replace(pref)] else [])
    + [Ack, TakeAck]
  }

  lemma RoundIsRun(s: State, pref: Preference)
    requires Quiet(s) && s.signals > 0 && s.queue != []
    ensures IsRun(s, Round(s, pref))
    ensures var cache := [ToDisk(s.queue[0])] + s.cache;
            After(s, Round(s, pref)) ==
              s.(signals := s.signals - 1, queue := s.queue[1..],
                 cache := if |s.cache| + 1 >= s.rate then [Compacted(cache, pref)] else cache)
  {
    hide Compacted, ToDisk, IsRun, After, Apply, Enabled;
    var end: seq<Action> := [Ack, TakeAck];
    var popped := Popped(s);
    if |s.cache| + 1 >= s.rate {
      var merged := popped.(cache := [Compacted(popped.cache, pref)], loader := Acking);
      LastSteps(merged);
      MergeSteps(popped, pref, end);
      FlushSteps(s, [Snapshot, Replace(pref)] + end);
      assert Round(s, pref) == [TakeSignal, SendLoad, Load, Pop] + ([Snapshot, Replace(pref)] + end);
    } else {
      LastSteps(popped);
      FlushSteps(s, end);
      assert Round(s, pref) == [TakeSignal, SendLoad, Load, Pop] + end;
    }
  }

  /** The oldest table has gone from the queue to the cache. */
  function Popped(s: State): (s': State)
    requires s.signals > 0 && s.queue != []
  {
    s.(signals := s.signals - 1, queue := s.queue[1..], flusher := Awaiting, cache := [ToDisk(s.queue[0])] + s.cache,
       loader := if |s.cache| + 1 >= s.rate then Compacting else Acking)
  }

  lemma FlushSteps(s: State, rest: seq<Action>)
    requires Quiet(s) && s.signals > 0 && s.queue != [] && IsRun(Popped(s), rest)
    ensures IsRun(s, [TakeSignal, SendLoad, Load, Pop] + rest)
    ensures After(s, [TakeSignal, SendLoad, Load, Pop] + rest) == After(Popped(s), rest)
  {
    hide IsRun, After, ToDisk;
    var s1 := Apply(s, TakeSignal);
    var s2 := Apply(s1, SendLoad);
    var s3 := Apply(s2, Load);
    assert Apply(s3, Pop) == Popped(s);
    RunCons(s3, Pop, rest);
    RunCons(s2, Load, [Pop] + rest);
    RunCons(s1, SendLoad, [Load] + ([Pop] + rest));
    RunCons(s, TakeSignal, [SendLoad] + ([Load] + ([Pop] + rest)));
    assert [TakeSignal] + ([SendLoad] + ([Load] + ([Pop] + rest))) == [TakeSignal, SendLoad, Load, Pop] + rest;
  }

  lemma MergeSteps(s: State, pref: Preference, rest: seq<Action>)
    requires s.loader.Compacting?
    requires IsRun(s.(cache := [Compacted(s.cache, pref)], loader := Acking), rest)
    ensures IsRun(s, [Snapshot, Replace(pref)] + rest)
    ensures After(s, [Snapshot, Replace(pref)] + rest) ==
              After(s.(cache := [Compacted(s.cache, pref)], loader := Acking), rest)
  {
    hide IsRun, After, Compacted;
    var s1 := Apply(s, Snapshot);
    RunCons(s1, Replace(pref), rest);
    RunCons(s, Snapshot, [Replace(pref)] + rest);
    assert [Snapshot] + ([Replace(pref)] + rest) == [Snapshot, Replace(pref)] + rest;
  }

  lemma LastSteps(s: State)
    requires s.loader.Acking? && s.flusher.Awaiting?
    ensures IsRun(s, [Ack, TakeAck]) && After(s, [Ack, TakeAck]) == s.(loader := Waiting, flusher := Idle)
  {
    RunCons(Apply(s, Ack), TakeAck, []);
    assert [TakeAck] + [] == [TakeAck];
    RunCons(s, Ack, [TakeAck]);
    assert [Ack] + [TakeAck] == [Ack, TakeAck];
  }

  /** One write, with a rotation before it if the table is full. */
  function Writing(full: bool, k: Blob, c: Cell): (run: seq<Action>)
  {
    (if full then [Rotate, Enqueue, Signal] else []) + [Write(k, c)]
  }

  lemma WritingIsRun(s: State, full: bool, k: Blob, c: Cell)
    requires s.writer.Ready?
    ensures IsRun(s, Writing(full, k, c))
    ensures After(s, Writing(full, k, c)) ==
              if full then s.(active := map[k := c], queue := s.queue + [s.active], signals := s.signals + 1)
              else s.(active := s.active[k := c])
  {
    var write: seq<Action> := [Write(k, c)];
    assert [Write(k, c)] + [] == write;
    if full {
      var s1, s2 := Apply(s, Rotate), Apply(Apply(s, Rotate), Enqueue);
      RunCons(Apply(s2, Signal), Write(k, c), []);
      RunCons(s2, Signal, write);
      RunCons(s1, Enqueue, [Signal] + write);
      RunCons(s, Rotate, [Enqueue] + ([Signal] + write));
      assert Writing(full, k, c) == [Rotate] + ([Enqueue] + ([Signal] + write));
      assert map[][k := c] == map[k := c];
    } else {
      RunCons(s, Write(k, c), []);
      assert Writing(full, k, c) == write;
    }
  }

  /** Flush safety in every reachable state: the flush task never finds the queue empty, the table
      popped is the one just loaded, and compaction replaces exactly what it read. */
  lemma {:induction false} RunSafe(s: State, run: seq<Action>)
    requires Inv(s) && IsRun(s, run)
    ensures var z := After(s, run);
            && Inv(z) && !z.panicked
            && z.signals + Bit(InFlight(z)) <= |z.queue|
            && (Enabled(z, TakeSignal) ==> z.queue != [])
            && (Enabled(z, Pop) ==> z.queue != [] && z.cache != [] && z.cache[0] == ToDisk(z.queue[0]))
            && (z.loader.Snapped? ==> z.loader.tables == z.cache)
    decreases |run|
  {
    if run != [] {
      StepInv(s, run[0]);
      RunSafe(Apply(s, run[0]), run[1..]);
    }
  }

  // ----------------------------------------------------- the lookup is stable

  lemma {:induction false} QueueFirstNone(q: seq<MemTable>, k: Blob)
    ensures QueueFirst(q, k).None? <==> forall i :: 0 <= i < |q| ==> k !in q[i]
  {
    if q != [] {
      var front := q[..|q| - 1];
      QueueFirstNone(front, k);
      assert forall i :: 0 <= i < |front| ==> front[i] == q[i];
    }
  }

  /** Popping the oldest table only matters to keys that no younger one holds. */
  lemma {:induction false} QueueFirstPop(q: seq<MemTable>, k: Blob)
    requires q != []
    ensures QueueFirst(q, k) ==
              if QueueFirst(q[1..], k).Some? then QueueFirst(q[1..], k)
              else if k in q[0] then Some(q[0][k]) else None
  {
    if |q| > 1 {
      var front := q[..|q| - 1];
      QueueFirstPop(front, k);
      assert q[1..][..|q[1..]| - 1] == front[1..];
      assert q[1..][|q[1..]| - 1] == q[|q| - 1];
    } else {
      assert q[1..] == [] && q[..0] == [];
    }
  }

  lemma PushKeeps(s: State, k: Blob)
    requires Inv(s) && Enabled(s, Load)
    ensures Newest(Apply(s, Load), k) == Newest(s, k)
  {
    var s' := Apply(s, Load);
    assert s'.cache[1..] == s.cache && s'.cache[0] == ToDisk(s.queue[0]);
    QueueFirstNone(s.queue, k);
  }

  lemma PopKeeps(s: State, k: Blob)
    requires Inv(s) && Enabled(s, Pop)
    ensures Newest(Apply(s, Pop), k) == Newest(s, k)
    ensures MemoryFirst(Apply(s, Pop), k) == MemoryFirst(s, k) || MemoryFirst(Apply(s, Pop), k).None?
  {
    QueueFirstPop(s.queue, k);
  }

  lemma EnqueueKeeps(s: State, k: Blob)
    requires Enabled(s, Enqueue)
    ensures MemoryFirst(Apply(s, Enqueue), k) == MemoryFirst(s, k)
  {
    var q := Apply(s, Enqueue).queue;
    assert q[..|q| - 1] == s.queue;
  }

  /** What a merge leaves newest: memory decides as before, and below it the chosen record,
      unless that is a tombstone. */
  lemma ReplaceNewest(s: State, pref: Preference, k: Blob)
    requires Inv(s) && Enabled(s, Replace(pref))
    ensures var s', below := Apply(s, Replace(pref)), Chosen(s.cache, pref, k);
            && s.loader.tables == s.cache && MemoryFirst(s', k) == MemoryFirst(s, k)
            && Newest(s', k) ==
                 if MemoryFirst(s, k).Some? then Newest(s, k)
                 else if below.Some? && below.value.Put? then below else None
  {
    CompactedFirst(s.cache, pref, k);
  }

  /** The step does not replace the key's newest record by one that looks different. */
  predicate Harmless(s: State, a: Action, k: Blob)
    requires Enabled(s, a)
  {
    a.Replace? ==>
      MemoryFirst(s, k).Some? || Shown(Chosen(s.loader.tables, a.pref, k)) == Shown(CacheFirst(s.loader.tables, k))
  }

  /** A merge under the order of `Ord` is harmless to every key. */
  lemma OrdHarmless(s: State, k: Blob)
    requires Enabled(s, Replace(ORD))
    ensures Harmless(s, Replace(ORD), k)
  {
  }

  /** A merge that breaks ties in whatever way it likes is harmless to a key exactly when the key
      is in memory or its cached copies look alike. */
  lemma ReplaceExact(s: State, k: Blob)
    requires Inv(s) && s.loader.Snapped?
    ensures (forall pref :: Shown(Newest(Apply(s, Replace(pref)), k)) == Shown(Newest(s, k)))
       <==> MemoryFirst(s, k).Some? || Alike(s.cache, k)
  {
    hide Compacted, CacheFirst, QueueFirst, Counted;
    forall pref
      ensures Shown(Newest(Apply(s, Replace(pref)), k)) == Shown(Newest(s, k))
         <==> MemoryFirst(s, k).Some? || Shown(Chosen(s.cache, pref, k)) == Shown(CacheFirst(s.cache, k))
    {
      ReplaceNewest(s, pref, k);
    }
    ChosenExact(s.cache, k);
  }

  /** Such a merge exists: with a value over an older one, a preference shows the older. */
  lemma ReplaceShowsOlder(s: State, k: Blob, newer: Blob, older: Blob)
    requires Inv(s) && s.loader.Snapped? && MemoryFirst(s, k).None?
    requires s.cache == [map[k := Put(newer)], map[k := Put(older)]]
    ensures Shown(Newest(s, k)) == Data(newer)
    ensures Shown(Newest(Apply(s, Replace(map[k := 1])), k)) == Data(older)
  {
    hide Compacted, QueueFirst, Counted;
    assert s.cache[0][k] == Put(newer) && s.cache[1][k] == Put(older);
    ReplaceNewest(s, map[k := 1], k);
  }

  /** No step but a write to the key changes what is newest for it, except that a replace may
      forget a tombstone or, by its preference, prefer another copy. What is shown changes
      exactly with a harmful replace. */
  lemma StepKeepsNewest(s: State, a: Action, k: Blob)
    requires Inv(s) && Enabled(s, a) && !(a.Write? && a.key == k)
    ensures !a.Replace? ==> Newest(Apply(s, a), k) == Newest(s, k)
    ensures Shown(Newest(Apply(s, a), k)) == Shown(Newest(s, k)) <==> Harmless(s, a, k)
    ensures MemoryFirst(Apply(s, a), k) == MemoryFirst(s, k) || (a.Pop? && MemoryFirst(Apply(s, a), k).None?)
  {
    hide QueueFirst, CacheFirst, Compacted, Chosen, ToDisk, Counted, Handshake;
    match a
    case Load => PushKeeps(s, k);
    case Pop => PopKeeps(s, k);
    case Enqueue => EnqueueKeeps(s, k);
    case Replace(pref) => ReplaceNewest(s, pref, k);
    case _ =>
  }

  ghost predicate Untouched(run: seq<Action>, k: Blob)
  {
    forall i :: 0 <= i < |run| ==> !(run[i].Write? && run[i].key == k)
  }

  ghost predicate HarmlessRun(s: State, run: seq<Action>, k: Blob)
    requires IsRun(s, run)
    decreases |run|
  {
    run == [] || (Harmless(s, run[0], k) && HarmlessRun(Apply(s, run[0]), run[1..], k))
  }

  /** Every merge of the run breaks ties by table index. */
  ghost predicate OrdRun(run: seq<Action>)
  {
    forall i :: 0 <= i < |run| && run[i].Replace? ==> run[i].pref == ORD
  }

  lemma {:induction false} OrdRunHarmless(s: State, run: seq<Action>, k: Blob)
    requires IsRun(s, run) && OrdRun(run)
    ensures HarmlessRun(s, run, k)
    decreases |run|
  {
    if run != [] {
      assert forall i :: 0 <= i < |run[1..]| ==> run[1..][i] == run[i + 1];
      OrdRunHarmless(Apply(s, run[0]), run[1..], k);
    }
  }

  /** In every state of the run the engine shows `q` for the key. */
  ghost predicate ShowsThroughout(s: State, run: seq<Action>, k: Blob, q: Query)
    requires IsRun(s, run)
    decreases |run|
  {
    Shown(Newest(s, k)) == q && (run == [] || ShowsThroughout(Apply(s, run[0]), run[1..], k, q))
  }

  /** Over any run without a write to the key, what the engine shows for it stays the same
      exactly when every merge is harmless to it. */
  lemma {:induction false} RunKeepsShown(s: State, run: seq<Action>, k: Blob)
    requires Inv(s) && IsRun(s, run) && Untouched(run, k)
    ensures ShowsThroughout(s, run, k, Shown(Newest(s, k))) <==> HarmlessRun(s, run, k)
    ensures HarmlessRun(s, run, k) ==> Shown(Newest(After(s, run), k)) == Shown(Newest(s, k))
    decreases |run|
  {
    hide Apply, Enabled, Newest, Shown, Harmless, Inv;
    if run != [] {
      StepInv(s, run[0]);
      StepKeepsNewest(s, run[0], k);
      assert forall i :: 0 <= i < |run[1..]| ==> run[1..][i] == run[i + 1];
      RunKeepsShown(Apply(s, run[0]), run[1..], k);
      if ShowsThroughout(s, run, k, Shown(Newest(s, k))) {
        ShowsFirst(Apply(s, run[0]), run[1..], k, Shown(Newest(s, k)));
      }
    }
  }

  lemma ShowsFirst(s: State, run: seq<Action>, k: Blob, q: Query)
    requires IsRun(s, run) && ShowsThroughout(s, run, k, q)
    ensures Shown(Newest(s, k)) == q
  {
  }

  /** A write is what is newest from then on. */
  lemma WriteIsNewest(s: State, k: Blob, c: Cell)
    requires Enabled(s, Write(k, c))
    ensures Newest(Apply(s, Write(k, c)), k) == Some(c.op)
  {
  }

  // -------------------------------------------------------------------- one get

  /** The newest record is the value `v`, and if it is still in memory it reads as `v`. */
  ghost predicate Current(s: State, k: Blob, v: Blob)
  {
    && Newest(s, k) == Some(Put(v))
    && (MemoryFirst(s, k).Some? ==> MemoryFirst(s, k).value.read == Data(v))
  }

  /** What the get has learnt: the layers it has left behind do not hold the key any more. */
  ghost predicate Learnt(s: State, k: Blob, v: Blob)
  {
    match s.reader
    case NoGet => false
    case Started(key) => key == k
    case MissedMemtable(key) => key == k && k !in s.active
    case MissedQueue(key) => key == k && k !in s.active && k !in Hand(s) && QueueFirst(s.queue, k).None?
    case Done(key, result) => key == k && result == Data(v)
  }

  lemma CurrentStep(s: State, a: Action, k: Blob, v: Blob)
    requires Inv(s) && Enabled(s, a) && !(a.Write? && a.key == k) && Harmless(s, a, k) && Current(s, k, v)
    ensures Current(Apply(s, a), k, v)
  {
    hide Apply, Enabled, Inv;
    StepKeepsNewest(s, a, k);
  }

  lemma LearntStep(s: State, a: Action, k: Blob, v: Blob)
    requires Inv(s) && Enabled(s, a) && !(a.Write? && a.key == k) && !a.BeginGet?
    requires Current(s, k, v) && Learnt(s, k, v)
    requires a.ReadQueue? ==> k !in Hand(s)
    ensures Learnt(Apply(s, a), k, v)
  {
    hide Counted, Compacted, CacheFirst, ToDisk, QueueFirst;
    match a
    case Enqueue => LearntEnqueue(s, k, v);
    case Pop => LearntPop(s, k, v);
    case _ =>
  }

  lemma LearntEnqueue(s: State, k: Blob, v: Blob)
    requires Enabled(s, Enqueue) && Learnt(s, k, v)
    ensures Learnt(Apply(s, Enqueue), k, v)
  {
    var q := Apply(s, Enqueue).queue;
    assert q[..|q| - 1] == s.queue;
  }

  lemma LearntPop(s: State, k: Blob, v: Blob)
    requires Inv(s) && Enabled(s, Pop) && Learnt(s, k, v)
    ensures Learnt(Apply(s, Pop), k, v)
  {
    QueueFirstPop(s.queue, k);
  }

  /** No write to the key, no other get and no harmful merge in the run, and whenever the get
      reads the queue the key is not in the writer's hand between rotating and queueing. */
  ghost predicate Undisturbed(s: State, run: seq<Action>, k: Blob)
    requires IsRun(s, run)
    decreases |run|
  {
    run == [] ||
    (&& !(run[0].Write? && run[0].key == k) && !run[0].BeginGet? && Harmless(s, run[0], k)
     && (run[0].ReadQueue? ==> k !in Hand(s))
     && Undisturbed(Apply(s, run[0]), run[1..], k))
  }

  /** Read safety: in any interleaving with the writer and the background tasks, a get of a key
      whose newest record is a value returns that value. */
  lemma {:induction false} GetReturnsNewest(s: State, run: seq<Action>, k: Blob, v: Blob)
    requires Inv(s) && IsRun(s, run) && Undisturbed(s, run, k)
    requires Current(s, k, v) && Learnt(s, k, v)
    ensures Current(After(s, run), k, v) && Learnt(After(s, run), k, v)
    ensures After(s, run).reader.Done? ==> After(s, run).reader == Done(k, Data(v))
    decreases |run|
  {
    if run != [] {
      StepInv(s, run[0]);
      CurrentStep(s, run[0], k, v);
      LearntStep(s, run[0], k, v);
      GetReturnsNewest(Apply(s, run[0]), run[1..], k, v);
    }
  }

  /** A get that has just begun, in a reachable state: whatever runs beside it, it ends with the
      value. */
  lemma ReadSafety(start: State, before: seq<Action>, run: seq<Action>, k: Blob, v: Blob)
    requires Init(start) && IsRun(start, before) && After(start, before).reader == Started(k)
    requires Current(After(start, before), k, v)
    requires IsRun(After(start, before), run) && Undisturbed(After(start, before), run, k)
    ensures After(After(start, before), run).reader.Done? ==>
              After(After(start, before), run).reader == Done(k, Data(v))
  {
    hide Current, Undisturbed, IsRun, After;
    InitInv(start);
    RunSafe(start, before);
    GetReturnsNewest(After(start, before), run, k, v);
  }

  // ------------------------------------ if rotating and queueing were one step

  /** Every rotation is followed at once by its enqueue. */
  ghost predicate AtOnce(run: seq<Action>)
  {
    forall i :: 0 <= i < |run| && run[i].Rotate? ==> i + 1 < |run| && run[i + 1].Enqueue?
  }

  ghost predicate NoGetBegins(run: seq<Action>)
  {
    forall i :: 0 <= i < |run| ==> !run[i].BeginGet?
  }

  /** The runs of the engine's own operations are such runs: a write rotates and queues at once, a
      background round writes no key, and neither begins a get. */
  lemma EngineRuns(s: State, full: bool, k: Blob, c: Cell)
    ensures var w := Writing(full, k, c);
            AtOnce(w) && NoGetBegins(w) && OrdRun(w) && forall x :: Untouched(w, x) <==> x != k
    ensures var r := Round(s, ORD);
            AtOnce(r) && NoGetBegins(r) && OrdRun(r) && forall x :: Untouched(r, x)
  {
    var w := Writing(full, k, c);
    assert w[|w| - 1] == Write(k, c);
    RoundQualifies(s);
  }

  lemma RoundQualifies(s: State)
    ensures var r := Round(s, ORD);
            AtOnce(r) && NoGetBegins(r) && OrdRun(r) && forall x :: Untouched(r, x)
  {
  }

  /** Outside the pair of steps the writer's hand is empty. */
  lemma {:induction false} HandStaysEmpty(s: State, run: seq<Action>)
    requires IsRun(s, run) && AtOnce(run) && (s.writer.Rotated? ==> run != [] && run[0].Enqueue?)
    ensures !After(s, run).writer.Rotated?
    decreases |run|
  {
    if run != [] {
      assert forall i :: 0 <= i < |run[1..]| ==> run[1..][i] == run[i + 1];
      assert run[0].Rotate? ==> |run| > 1 && run[1].Enqueue?;
      HandStaysEmpty(Apply(s, run[0]), run[1..]);
    }
  }

  lemma {:induction false} AtOnceUndisturbed(s: State, run: seq<Action>, k: Blob)
    requires IsRun(s, run) && AtOnce(run) && (s.writer.Rotated? ==> run != [] && run[0].Enqueue?)
    requires Untouched(run, k) && NoGetBegins(run) && HarmlessRun(s, run, k)
    ensures Undisturbed(s, run, k)
    decreases |run|
  {
    if run != [] {
      assert forall i :: 0 <= i < |run[1..]| ==> run[1..][i] == run[i + 1];
      assert run[0].Rotate? ==> |run| > 1 && run[1].Enqueue?;
      AtOnceUndisturbed(Apply(s, run[0]), run[1..], k);
    }
  }

  /** Read safety with rotating and queueing as one step, under the order of `Ord`: every get of
      an unwritten key whose newest record is a value returns that value, in any interleaving. */
  lemma AtomicReadSafety(start: State, before: seq<Action>, run: seq<Action>, k: Blob, v: Blob)
    requires Init(start) && IsRun(start, before) && After(start, before).reader == Started(k)
    requires Current(After(start, before), k, v) && IsRun(After(start, before), run)
    requires AtOnce(before) && AtOnce(run) && OrdRun(run) && Untouched(run, k) && NoGetBegins(run)
    ensures After(After(start, before), run).reader.Done? ==>
              After(After(start, before), run).reader == Done(k, Data(v))
  {
    HandStaysEmpty(start, before);
    OrdRunHarmless(After(start, before), run, k);
    AtOnceUndisturbed(After(start, before), run, k);
    ReadSafety(start, before, run, k, v);
  }

  // -------------------------------------------- what a get inside the window does

  /** The read finds an older copy that differs from `v`: in the queue while the newest one is in
      the writer's hand, or in the cache while the newest one is still in memory. */
  predicate Misled(s: State, a: Action, k: Blob, v: Blob)
  {
    || (a.ReadQueue? && k in Hand(s) && QueueFirst(s.queue, k).Some? && Answers(QueueFirst(s.queue, k).value.read)
        && QueueFirst(s.queue, k).value.read != Data(v))
    || (a.SearchCache? && MemoryFirst(s, k).Some? && Shown(CacheFirst(s.cache, k)) != Data(v))
  }

  ghost predicate MisledRun(s: State, run: seq<Action>, k: Blob, v: Blob)
    requires IsRun(s, run)
    decreases |run|
  {
    run != [] && (Misled(s, run[0], k, v) || MisledRun(Apply(s, run[0]), run[1..], k, v))
  }

  /** A get that is over does nothing more. */
  lemma {:induction false} DoneStays(s: State, run: seq<Action>, k: Blob, v: Blob)
    requires IsRun(s, run) && NoGetBegins(run) && s.reader.Done?
    ensures After(s, run).reader == s.reader && !MisledRun(s, run, k, v)
    decreases |run|
  {
    if run != [] {
      assert forall i :: 0 <= i < |run[1..]| ==> run[1..][i] == run[i + 1];
      DoneStays(Apply(s, run[0]), run[1..], k, v);
    }
  }

  /** A get under way: once it has left the active table, the key does not come back there. */
  ghost predicate UnderWay(s: State, k: Blob)
  {
    match s.reader
    case Started(key) => key == k
    case MissedMemtable(key) => key == k && k !in s.active
    case MissedQueue(key) => key == k && k !in s.active
    case _ => false
  }

  lemma UnderWayStep(s: State, a: Action, k: Blob, v: Blob)
    requires Enabled(s, a) && !(a.Write? && a.key == k) && !a.BeginGet?
    requires Current(s, k, v) && UnderWay(s, k)
    ensures var r := Apply(s, a).reader;
            if r.Done? then r == Done(k, Data(v)) <==> !Misled(s, a, k, v)
            else UnderWay(Apply(s, a), k) && !Misled(s, a, k, v)
  {
    hide QueueFirst, CacheFirst, Compacted, ToDisk;
  }

  /** For every interleaving without a write to the key: the get returns the value exactly when no
      read of it was misled by an older copy. */
  lemma {:induction false} GetExact(s: State, run: seq<Action>, k: Blob, v: Blob)
    requires Inv(s) && IsRun(s, run) && Untouched(run, k) && NoGetBegins(run) && HarmlessRun(s, run, k)
    requires Current(s, k, v) && UnderWay(s, k)
    ensures After(s, run).reader.Done? ==>
              (After(s, run).reader == Done(k, Data(v)) <==> !MisledRun(s, run, k, v))
    decreases |run|
  {
    hide Apply, Enabled, Inv, Current, UnderWay, Misled, Harmless;
    if run == [] {
      NotOver(s, k);
    } else {
      assert forall i :: 0 <= i < |run[1..]| ==> run[1..][i] == run[i + 1];
      StepInv(s, run[0]);
      CurrentStep(s, run[0], k, v);
      UnderWayStep(s, run[0], k, v);
      if Apply(s, run[0]).reader.Done? {
        DoneStays(Apply(s, run[0]), run[1..], k, v);
      } else {
        GetExact(Apply(s, run[0]), run[1..], k, v);
      }
    }
  }

  /** So from every reachable state, for a get that has just begun. */
  lemma GetOutcome(start: State, before: seq<Action>, run: seq<Action>, k: Blob, v: Blob)
    requires Init(start) && IsRun(start, before) && After(start, before).reader == Started(k)
    requires Current(After(start, before), k, v) && IsRun(After(start, before), run)
    requires Untouched(run, k) && NoGetBegins(run) && HarmlessRun(After(start, before), run, k)
    ensures var s, end := After(start, before), After(After(start, before), run);
            end.reader.Done? ==> (end.reader == Done(k, Data(v)) <==> !MisledRun(s, run, k, v))
  {
    hide Current, IsRun, After, HarmlessRun, MisledRun;
    InitInv(start);
    RunSafe(start, before);
    GetExact(After(start, before), run, k, v);
  }

  lemma NotOver(s: State, k: Blob)
    requires UnderWay(s, k)
    ensures !s.reader.Done?
  {
  }

  /** The hand-off window is real: a get that runs while the writer holds the rotated table misses
      a key that was set before it began. */
  lemma GetMissesHandOff(s: State, k: Blob, v: Blob)
    requires Init(s) && s.active == map[k := Cell(Put(v), Data(v))] && s.queue == [] && s.cache == []
    ensures var run := [Rotate, BeginGet(k), ReadMemtable, ReadQueue, SearchCache];
            IsRun(s, run) && After(s, run).reader == Done(k, NotFound) && Newest(After(s, run), k) == Some(Put(v))
  {
    var s1 := Apply(s, Rotate);
    var s2 := Apply(s1, BeginGet(k));
    var s3 := Apply(s2, ReadMemtable);
    var s4 := Apply(s3, ReadQueue);
    var s5 := Apply(s4, SearchCache);
    var run := [Rotate, BeginGet(k), ReadMemtable, ReadQueue, SearchCache];
    assert run[1..] == [BeginGet(k), ReadMemtable, ReadQueue, SearchCache];
    assert run[1..][1..] == [ReadMemtable, ReadQueue, SearchCache];
    assert run[1..][1..][1..] == [ReadQueue, SearchCache];
    assert run[1..][1..][1..][1..] == [SearchCache];
    assert run[1..][1..][1..][1..][1..] == [];
    assert IsRun(s4, [SearchCache]) && After(s4, [SearchCache]) == s5;
    assert IsRun(s3, [ReadQueue, SearchCache]) && After(s3, [ReadQueue, SearchCache]) == s5;
    assert IsRun(s2, run[1..][1..]) && After(s2, run[1..][1..]) == s5;
    assert IsRun(s1, run[1..]) && After(s1, run[1..]) == s5;
    assert IsRun(s, run) && After(s, run) == s5;
  }

  // -------------------------------------------------- deleted keys and the get

  /** The code's get with nothing else running: a tombstone in memory is taken for a miss, so
      the search goes on below it. */
  function LiteralGet(s: State, k: Blob): (q: Query)
  {
    if k in s.active && Answers(s.active[k].read) then s.active[k].read
    else
      var c := QueueFirst(s.queue, k);
      if c.Some? && Answers(c.value.read) then c.value.read
      else Shown(CacheFirst(s.cache, k))
  }

  /** The get ends before it reaches the cache. */
  predicate InMemory(s: State, k: Blob)
  {
    || (k in s.active && Answers(s.active[k].read))
    || (QueueFirst(s.queue, k).Some? && Answers(QueueFirst(s.queue, k).value.read))
  }

  /** Every cell reads as what it encodes. */
  ghost predicate Faithful(s: State, k: Blob)
  {
    && (k in s.active ==> s.active[k].read == Meaning(s.active[k].op))
    && (QueueFirst(s.queue, k).Some? ==> QueueFirst(s.queue, k).value.read == Meaning(QueueFirst(s.queue, k).value.op))
  }

  function QueueOp(s: State, k: Blob): (op: Option<Op>)
  {
    match QueueFirst(s.queue, k)
    case None => None
    case Some(c) => Some(c.op)
  }

  /** A tombstone in memory lies above a value that the search then finds. */
  predicate Uncovered(s: State, k: Blob)
  {
    var below := CacheFirst(s.cache, k).Some? && CacheFirst(s.cache, k).value.Put?;
    if k in s.active then s.active[k].op.Delete? && ((QueueOp(s, k).Some? && QueueOp(s, k).value.Put?) || below)
    else QueueOp(s, k) == Some(Delete) && below
  }

  /** What queue and cache show between them. */
  function BelowHand(s: State, k: Blob): (q: Query)
  {
    var c := QueueFirst(s.queue, k);
    if c.Some? && Answers(c.value.read) then c.value.read else Shown(CacheFirst(s.cache, k))
  }

  /** The get answers as the newest-first lookup does exactly when no tombstone in memory lies
      above an older value; and while the key's newest record is in the writer's hand, exactly
      when the copies below it show the same. */
  lemma LiteralGetExact(s: State, k: Blob)
    requires Faithful(s, k)
    ensures LiteralGet(s, k) == Shown(Newest(s, k)) <==>
              if k !in s.active && k in Hand(s) then BelowHand(s, k) == Shown(Some(Hand(s)[k].op))
              else !Uncovered(s, k)
  {
  }

  /** So a value that is newest is read, unless it is in the writer's hand. */
  lemma ValueIsRead(s: State, k: Blob, v: Blob)
    requires Faithful(s, k) && k !in Hand(s) && Newest(s, k) == Some(Put(v))
    ensures LiteralGet(s, k) == Data(v)
  {
    LiteralGetExact(s, k);
  }

  /** A flushed value comes back after its key is deleted. */
  lemma DeletedKeyReturns(s: State, k: Blob, v: Blob)
    requires s.queue == [] && s.cache == [map[k := Put(v)]]
    requires s.active == map[k := Cell(Delete, Tombstone)]
    ensures LiteralGet(s, k) == Data(v) && Newest(s, k) == Some(Delete)
  {
    assert s.cache[0][k] == Put(v);
  }

  /** Run alone, the three reads of a get compute the literal get. */
  lemma GetAlone(s: State, k: Blob)
    requires s.reader.NoGet? || s.reader.Done?
    ensures var s1 := Apply(s, BeginGet(k));
            var s2 := Apply(s1, ReadMemtable);
            var s3 := if s2.reader.Done? then s2 else Apply(s2, ReadQueue);
            var s4 := if s3.reader.Done? then s3 else Apply(s3, SearchCache);
            s4.reader == Done(k, LiteralGet(s, k))
  {
  }
}
