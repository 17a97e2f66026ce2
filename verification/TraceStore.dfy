// What the in-memory store should do, on a plain list of traces ordered by
// receipt time; oldest first.
module StoreSpec {
  import opened Model
  import opened Sequences
  import opened KeyedLog

  datatype StoredTrace = StoredTrace(
    traceId: TraceID,
    tenantId: string,
    spans: seq<SpanData>,
    services: seq<string>,
    rootService: string,
    rootOp: string,
    duration: int,
    spanCount: int,
    errorCount: int,
    receivedAt: Time)

  datatype Op =
    | Upsert(trace: StoredTrace)
    | Delete(id: TraceID)
    | EvictOlderThan(cutoff: Time)

  function NotId(id: TraceID): StoredTrace -> bool {
    (t: StoredTrace) => t.traceId != id
  }

  function Without(log: seq<StoredTrace>, id: TraceID): seq<StoredTrace> {
    Keep(log, NotId(id))
  }

  function NotBefore(cutoff: Time): StoredTrace -> bool {
    (t: StoredTrace) => cutoff <= t.receivedAt
  }

  function From(log: seq<StoredTrace>, cutoff: Time): seq<StoredTrace> {
    Keep(log, NotBefore(cutoff))
  }

  // The new trace goes behind every trace received no later than it.
  function Inserted(log: seq<StoredTrace>, t: StoredTrace): seq<StoredTrace> {
    if log == [] then [t]
    else
      var last := log[|log| - 1];
      if last.receivedAt <= t.receivedAt then log + [t] else Inserted(log[..|log| - 1], t) + [last]
  }

  function Newest(log: seq<StoredTrace>, n: nat): seq<StoredTrace> {
    if |log| <= n then log else log[|log| - n..]
  }

  predicate Holds(log: seq<StoredTrace>, id: TraceID) {
    exists t :: t in log && t.traceId == id
  }

  // While an upsert makes room, the version it replaces is off the timeline but
  // still counted in the map.
  function Held(log: seq<StoredTrace>, id: TraceID): nat {
    if Holds(log, id) then 1 else 0
  }

  // Whether the operation returns at all; see EvictionLoopEnds.
  predicate Returns(log: seq<StoredTrace>, op: Op, maxSize: nat) {
    op.Upsert? ==> Held(log, op.trace.traceId) < maxSize
  }

  // What an upsert leaves of the store before it inserts.
  function Spared(log: seq<StoredTrace>, id: TraceID, maxSize: nat): seq<StoredTrace>
    requires Held(log, id) < maxSize
  {
    Newest(Without(log, id), maxSize - 1 - Held(log, id))
  }

  function Apply(log: seq<StoredTrace>, op: Op, maxSize: nat): seq<StoredTrace>
    requires Returns(log, op, maxSize)
  {
    match op
    case Upsert(t) => Inserted(Spared(log, t.traceId, maxSize), t)
    case Delete(id) => Without(log, id)
    case EvictOlderThan(cutoff) => From(log, cutoff)
  }

  // Every operation of the list returns, so that the next one gets its turn.
  predicate Completes(ops: seq<Op>, maxSize: nat)
    decreases |ops|, 0
  {
    ops == [] ||
    (Completes(ops[..|ops| - 1], maxSize) && Returns(Run(ops[..|ops| - 1], maxSize), ops[|ops| - 1], maxSize))
  }

  function Run(ops: seq<Op>, maxSize: nat): seq<StoredTrace>
    requires Completes(ops, maxSize)
    decreases |ops|, 1
  {
    if ops == [] then [] else Apply(Run(ops[..|ops| - 1], maxSize), ops[|ops| - 1], maxSize)
  }

  // With room for two traces every operation returns.
  lemma {:induction false} RoomForTwo(ops: seq<Op>, maxSize: nat)
    requires maxSize > 1
    ensures Completes(ops, maxSize)
  {
    if ops != [] {
      RoomForTwo(ops[..|ops| - 1], maxSize);
    }
  }

  // The timeline after n calls of evict; on an empty timeline evict does nothing.
  function AfterEvictions(rest: seq<StoredTrace>, n: nat): seq<StoredTrace> {
    if n <= |rest| then rest[n..] else []
  }

  // Upsert's eviction loop runs while the map holds maxSize traces or more; this
  // is its guard after n rounds.
  predicate LoopsOn(log: seq<StoredTrace>, id: TraceID, maxSize: nat, n: nat) {
    Held(log, id) + |AfterEvictions(Without(log, id), n)| >= maxSize
  }

  // The loop ends, and the upsert returns, unless the store has room for one
  // trace only and that one is being replaced.
  lemma EvictionLoopEnds(log: seq<StoredTrace>, t: StoredTrace, maxSize: nat)
    requires maxSize > 0
    ensures Returns(log, Upsert(t), maxSize) <==> maxSize > 1 || !Holds(log, t.traceId)
    ensures Returns(log, Upsert(t), maxSize) <==> exists n: nat :: !LoopsOn(log, t.traceId, maxSize, n)
  {
    var n := |Without(log, t.traceId)|;
    assert |AfterEvictions(Without(log, t.traceId), n)| == 0;
    assert Returns(log, Upsert(t), maxSize) ==> !LoopsOn(log, t.traceId, maxSize, n);
  }

  // Position of the last upsert of id, or -1.
  function LastUpsert(ops: seq<Op>, id: TraceID): (k: int)
    ensures -1 <= k < |ops|
    ensures k >= 0 ==> ops[k].Upsert? && ops[k].trace.traceId == id
  {
    if ops == [] then -1
    else
      var last := ops[|ops| - 1];
      if last.Upsert? && last.trace.traceId == id then |ops| - 1 else LastUpsert(ops[..|ops| - 1], id)
  }

  function IdOf(t: StoredTrace): TraceID { t.traceId }

  function ReceiptOf(t: StoredTrace): Time { t.receivedAt }

  ghost predicate OldestFirst(log: seq<StoredTrace>) {
    AscendingBy(log, ReceiptOf)
  }

  ghost predicate UniqueIds(log: seq<StoredTrace>) {
    UniqueBy(log, IdOf)
  }

  // a leaves the store before b: it was received earlier or, on a tie, its last
  // upsert came earlier.
  predicate EvictedBefore(ops: seq<Op>, a: StoredTrace, b: StoredTrace) {
    a.receivedAt < b.receivedAt ||
    (a.receivedAt == b.receivedAt && LastUpsert(ops, a.traceId) < LastUpsert(ops, b.traceId))
  }

  // The store in use: in eviction order, every trace as last upserted.
  ghost predicate Orderly(ops: seq<Op>, log: seq<StoredTrace>) {
    && (forall i, j :: 0 <= i < j < |log| ==> EvictedBefore(ops, log[i], log[j]))
    && (forall i :: 0 <= i < |log| ==>
          LastUpsert(ops, log[i].traceId) >= 0 && ops[LastUpsert(ops, log[i].traceId)].trace == log[i])
  }

  // Where the new trace lands: k is the number of traces received no later.
  lemma {:induction false} InsertedAt(log: seq<StoredTrace>, t: StoredTrace, k: nat)
    requires k <= |log|
    requires forall i :: 0 <= i < k ==> log[i].receivedAt <= t.receivedAt
    requires forall i :: k <= i < |log| ==> t.receivedAt < log[i].receivedAt
    ensures Inserted(log, t) == Put(log, k, t)
  {
    if |log| > k {
      var last := log[|log| - 1];
      InsertedAt(log[..|log| - 1], t, k);
      assert log[..|log| - 1][..k] == log[..k];
      assert log[k..] == log[..|log| - 1][k..] + [last];
    } else if log != [] {
      assert log[..k] == log && log[k..] == [];
    }
  }

  // In a sorted log the traces received no later than t come first.
  lemma InsertPoint(log: seq<StoredTrace>, t: StoredTrace) returns (k: nat)
    requires OldestFirst(log)
    ensures k <= |log|
    ensures forall i :: 0 <= i < k ==> log[i].receivedAt <= t.receivedAt
    ensures forall i :: k <= i < |log| ==> t.receivedAt < log[i].receivedAt
    ensures Inserted(log, t) == Put(log, k, t)
  {
    k := |log|;
    while k > 0 && t.receivedAt < log[k - 1].receivedAt
      invariant k <= |log|
      invariant forall i :: k <= i < |log| ==> t.receivedAt < log[i].receivedAt
    {
      k := k - 1;
    }
    InsertedAt(log, t, k);
  }

  lemma InsertedMembers(log: seq<StoredTrace>, t: StoredTrace)
    requires OldestFirst(log)
    ensures |Inserted(log, t)| == |log| + 1
    ensures forall x :: x in Inserted(log, t) <==> x in log || x == t
  {
    var k := InsertPoint(log, t);
    assert log == log[..k] + log[k..];
  }

  lemma OrderlyThinned(ops: seq<Op>, log: seq<StoredTrace>, sub: seq<StoredTrace>, at: seq<nat>)
    requires Orderly(ops, log) && Thinned(sub, log, at)
    ensures Orderly(ops, sub)
  {
  }

  lemma OrderlyStep(ops: seq<Op>, op: Op, log: seq<StoredTrace>)
    requires Orderly(ops, log)
    requires op.Upsert? ==> forall i :: 0 <= i < |log| ==> log[i].traceId != op.trace.traceId
    ensures Orderly(ops + [op], log)
  {
    assert (ops + [op])[..|ops|] == ops;
    forall i | 0 <= i < |log| ensures LastUpsert(ops + [op], log[i].traceId) == LastUpsert(ops, log[i].traceId) {}
  }

  lemma OrderlyInserted(ops: seq<Op>, t: StoredTrace, log: seq<StoredTrace>)
    requires Orderly(ops, log)
    requires forall i :: 0 <= i < |log| ==> log[i].traceId != t.traceId
    ensures Orderly(ops + [Upsert(t)], Inserted(log, t))
  {
    var longer := ops + [Upsert(t)];
    OrderlyStep(ops, Upsert(t), log);
    assert longer[..|ops|] == ops;
    assert LastUpsert(longer, t.traceId) == |ops| && longer[|ops|].trace == t;
    assert forall i :: 0 <= i < |log| ==> LastUpsert(longer, log[i].traceId) < |ops|;
    hide LastUpsert, Inserted;
    var k := InsertPoint(log, t);
    assert forall i :: 0 <= i < k ==> EvictedBefore(longer, log[i], t);
    assert forall j :: k <= j < |log| ==> EvictedBefore(longer, t, log[j]);
    hide EvictedBefore;
    InsertKeepsOrder(longer, log, t, k);
  }

  lemma InsertKeepsOrder(ops: seq<Op>, log: seq<StoredTrace>, t: StoredTrace, k: nat)
    requires k <= |log| && Orderly(ops, log) && Orderly(ops, [t])
    requires forall i :: 0 <= i < k ==> EvictedBefore(ops, log[i], t)
    requires forall j :: k <= j < |log| ==> EvictedBefore(ops, t, log[j])
    ensures Orderly(ops, Put(log, k, t))
  {
    hide EvictedBefore, LastUpsert;
    var after := Put(log, k, t);
    hide Put;
    assert [t][0] == t;
  }

  lemma OrderlyUnique(ops: seq<Op>, log: seq<StoredTrace>)
    requires Orderly(ops, log)
    ensures UniqueIds(log) && OldestFirst(log)
  {
    forall i, j | 0 <= i < j < |log|
      ensures log[i].traceId != log[j].traceId && log[i].receivedAt <= log[j].receivedAt
    {
      assert EvictedBefore(ops, log[i], log[j]);
    }
  }

  lemma SuffixOrderly(ops: seq<Op>, log: seq<StoredTrace>, cut: nat)
    requires Orderly(ops, log) && cut <= |log|
    ensures Orderly(ops, log[cut..])
    ensures forall i :: 0 <= i < |log| - cut ==> log[cut..][i] in log
  {
    hide EvictedBefore, LastUpsert;
  }

  lemma SparedOrderly(ops: seq<Op>, log: seq<StoredTrace>, id: TraceID, maxSize: nat)
    requires Held(log, id) < maxSize && Orderly(ops, log)
    ensures var rest := Without(log, id);
            var kept := Spared(log, id, maxSize);
            && Orderly(ops, rest) && Orderly(ops, kept)
            && (forall x :: x in rest <==> x in log && x.traceId != id)
            && |kept| <= |rest| && kept == rest[|rest| - |kept|..] && |kept| < maxSize
            && (|kept| < |rest| ==> |kept| == maxSize - 1 - Held(log, id))
            && (forall i :: 0 <= i < |kept| ==> kept[i].traceId != id)
  {
    hide Orderly, Keep;
    var at := KeepThins(log, NotId(id));
    var rest := Without(log, id);
    OrderlyThinned(ops, log, rest, at);
    var kept := Spared(log, id, maxSize);
    SuffixOrderly(ops, rest, |rest| - |kept|);
  }

  // In every reachable store: at most maxSize traces, each as last upserted, in
  // eviction order.
  lemma {:induction false} RunOrderly(ops: seq<Op>, maxSize: nat)
    requires Completes(ops, maxSize)
    ensures Orderly(ops, Run(ops, maxSize))
    ensures |Run(ops, maxSize)| <= maxSize
  {
    if ops != [] {
      RunOrderly(ops[..|ops| - 1], maxSize);
      assert ops == ops[..|ops| - 1] + [ops[|ops| - 1]];
      ApplyOrderly(ops[..|ops| - 1], ops[|ops| - 1], Run(ops[..|ops| - 1], maxSize), maxSize);
    }
  }

  lemma ApplyOrderly(ops: seq<Op>, op: Op, log: seq<StoredTrace>, maxSize: nat)
    requires Returns(log, op, maxSize)
    requires Orderly(ops, log) && |log| <= maxSize
    ensures Orderly(ops + [op], Apply(log, op, maxSize))
    ensures |Apply(log, op, maxSize)| <= maxSize
  {
    hide Orderly, Held;
    match op
    case Upsert(t) =>
      SparedOrderly(ops, log, t.traceId, maxSize);
      var kept := Spared(log, t.traceId, maxSize);
      OrderlyUnique(ops, kept);
      InsertedMembers(kept, t);
      OrderlyInserted(ops, t, kept);
    case Delete(id) =>
      var at := KeepThins(log, NotId(id));
      OrderlyThinned(ops, log, Without(log, id), at);
      OrderlyStep(ops, op, Without(log, id));
    case EvictOlderThan(cutoff) =>
      var at := KeepThins(log, NotBefore(cutoff));
      OrderlyThinned(ops, log, From(log, cutoff), at);
      OrderlyStep(ops, op, From(log, cutoff));
  }

  // An upsert always leaves the new trace in place. Whatever else it removes is
  // its own old version, or was next in eviction order and went because the
  // store was full. Replacing a trace in a full store removes one more than is
  // needed, and leaves the store one short of full.
  lemma UpsertEvictsOldest(ops: seq<Op>, t: StoredTrace, maxSize: nat)
    requires Completes(ops + [Upsert(t)], maxSize)
    ensures Completes(ops, maxSize)
    ensures var before := Run(ops, maxSize);
            var after := Run(ops + [Upsert(t)], maxSize);
            && t in after
            && (forall x :: x in after ==> x == t || (x in before && x.traceId != t.traceId))
            && (forall x :: x in before && x.traceId != t.traceId && x !in after ==>
                  && |after| == maxSize - Held(before, t.traceId) && |before| == maxSize
                  && (forall y :: y in after && y != t ==> EvictedBefore(ops, x, y)))
            && |after| == if |before| == maxSize then maxSize - Held(before, t.traceId)
                          else |before| + 1 - Held(before, t.traceId)
  {
    assert (ops + [Upsert(t)])[..|ops|] == ops;
    hide Orderly, EvictedBefore, Without, Newest, Inserted, Held;
    var before := Run(ops, maxSize);
    RunOrderly(ops, maxSize);
    SparedOrderly(ops, before, t.traceId, maxSize);
    var rest := Without(before, t.traceId);
    var kept := Spared(before, t.traceId, maxSize);
    OrderlyUnique(ops, before);
    WithoutSize(before, t.traceId);
    OrderlyUnique(ops, kept);
    InsertedMembers(kept, t);
    OrderlyHeadFirst(ops, rest, |rest| - |kept|);
  }

  lemma OrderlyHeadFirst(ops: seq<Op>, log: seq<StoredTrace>, cut: nat)
    requires Orderly(ops, log) && cut <= |log|
    ensures forall x, y :: x in log[..cut] && y in log[cut..] ==> EvictedBefore(ops, x, y)
    ensures forall x :: x in log ==> x in log[..cut] || x in log[cut..]
  {
  }

  // Taking an identifier out shortens the list by one if it is there at all.
  lemma WithoutSize(log: seq<StoredTrace>, id: TraceID)
    requires UniqueIds(log)
    ensures |Without(log, id)| == |log| - Held(log, id)
  {
    if Holds(log, id) {
      var t :| t in log && t.traceId == id;
      var i :| 0 <= i < |log| && log[i] == t;
      assert forall j :: 0 <= j < |log| && j != i ==> IdOf(log[j]) != IdOf(log[i]);
      KeepAllButOne(log, NotId(id), i);
    } else {
      assert forall i :: 0 <= i < |log| ==> log[i] in log;
      KeepAll(log, NotId(id));
    }
  }

  // Deletion and retention remove exactly what they name.
  lemma RemovalExact(ops: seq<Op>, maxSize: nat, id: TraceID, cutoff: Time)
    requires Completes(ops, maxSize)
    ensures Completes(ops + [Delete(id)], maxSize) && Completes(ops + [EvictOlderThan(cutoff)], maxSize)
    ensures forall x :: x in Run(ops + [Delete(id)], maxSize) <==> x in Run(ops, maxSize) && x.traceId != id
    ensures forall x :: x in Run(ops + [EvictOlderThan(cutoff)], maxSize) <==>
              x in Run(ops, maxSize) && cutoff <= x.receivedAt
  {
    assert (ops + [Delete(id)])[..|ops|] == ops && (ops + [EvictOlderThan(cutoff)])[..|ops|] == ops;
    var _ := KeepThins(Run(ops, maxSize), NotId(id));
    var _ := KeepThins(Run(ops, maxSize), NotBefore(cutoff));
  }
}
