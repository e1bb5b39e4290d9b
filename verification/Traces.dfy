/** Request traces, and what they ask of an allocator. */
module Traces {
  import opened Sizing

  datatype Request = Alloc(index: int, size: int) | Realloc(index: int, size: int) | Free(index: int)

  /** Requested sizes of the ids in use after the first i requests. */
  function InUse(ops: seq<Request>, i: nat): map<int, int>
    requires i <= |ops|
  {
    if i == 0 then map[]
    else
      var before := InUse(ops, i - 1);
      match ops[i - 1]
      case Alloc(index, size) => before[index := size]
      case Realloc(index, size) => before[index := size]
      case Free(index) => before - {index}
  }

  /** Request i names an id of the trace, in use unless it is to be allocated, and asks for at least one byte. */
  predicate RequestOk(ops: seq<Request>, numIds: int, i: nat)
    requires i < |ops|
  {
    && 0 <= ops[i].index < numIds
    && (!ops[i].Free? ==> 0 < ops[i].size < 0x8000_0000)
    && (!ops[i].Alloc? ==> ops[i].index in InUse(ops, i))
  }

  ghost predicate TraceOk(ops: seq<Request>, numIds: int) {
    forall i {:trigger RequestOk(ops, numIds, i)} :: 0 <= i < |ops| ==> RequestOk(ops, numIds, i)
  }

  /** The most the heap can grow while serving the first i requests. */
  function Demand(ops: seq<Request>, i: nat): int
    requires i <= |ops|
  {
    if i == 0 then 0
    else Demand(ops, i - 1) + match ops[i - 1]
      case Alloc(_, size) => Growth(Align(size + 8))
      case Realloc(_, _) => 0
      case Free(_) => 0
  }

  /** Bytes requested and not freed after the first i requests. */
  function Total(ops: seq<Request>, i: nat): int
    requires i <= |ops|
  {
    if i == 0 then 0
    else Total(ops, i - 1) + match ops[i - 1]
      case Alloc(_, size) => size
      case Realloc(index, size) => if index in InUse(ops, i - 1) then size - InUse(ops, i - 1)[index] else size
      case Free(index) => if index in InUse(ops, i - 1) then -InUse(ops, i - 1)[index] else 0
  }

  /** The highest total reached within the first i requests. */
  function HighWater(ops: seq<Request>, i: nat): int
    requires i <= |ops|
  {
    if i == 0 then 0
    else if !ops[i - 1].Free? && Total(ops, i) > HighWater(ops, i - 1) then Total(ops, i)
    else HighWater(ops, i - 1)
  }

  lemma {:induction false} InUsePositive(ops: seq<Request>, numIds: int, i: nat)
    requires TraceOk(ops, numIds) && i <= |ops|
    ensures forall id {:trigger id in InUse(ops, i)} :: id in InUse(ops, i) ==> InUse(ops, i)[id] > 0
  {
    if i > 0 {
      InUsePositive(ops, numIds, i - 1);
      assert RequestOk(ops, numIds, i - 1);
    }
  }

  /** No more bytes are in use after any number of requests than after the first i. */
  ghost predicate Highest(ops: seq<Request>, n: nat, i: nat) {
    i <= n <= |ops| && forall j {:trigger Total(ops, j)} :: 0 <= j <= n ==> Total(ops, j) <= Total(ops, i)
  }

  /** HighWater is the highest total: it is reached, and no total exceeds it, after a free least of all. */
  lemma {:induction false} HighWaterHighest(ops: seq<Request>, numIds: int, n: nat) returns (i: nat)
    requires TraceOk(ops, numIds) && n <= |ops|
    ensures Highest(ops, n, i) && HighWater(ops, n) == Total(ops, i)
  {
    if n == 0 { return 0; }
    i := HighWaterHighest(ops, numIds, n - 1);
    assert RequestOk(ops, numIds, n - 1);
    InUsePositive(ops, numIds, n - 1);
    if !ops[n - 1].Free? && Total(ops, n) > Total(ops, i) { i := n; }
  }

  /** No request for reallocation asks for more than the id has, both rounded up. */
  ghost predicate NeverGrows(ops: seq<Request>) {
    forall i {:trigger ops[i]} :: 0 <= i < |ops| && ops[i].Realloc? ==> GrowsNot(ops, i)
  }

  predicate GrowsNot(ops: seq<Request>, i: nat)
    requires i < |ops| && ops[i].Realloc?
  {
    ops[i].index in InUse(ops, i) ==> Align(ops[i].size + 8) <= Align(InUse(ops, i)[ops[i].index] + 8)
  }

  lemma {:induction false} DemandGrows(ops: seq<Request>, numIds: int, i: nat, j: nat)
    requires TraceOk(ops, numIds) && i <= j <= |ops|
    ensures Demand(ops, i) <= Demand(ops, j)
    decreases j
  {
    if i < j {
      assert RequestOk(ops, numIds, j - 1);
      DemandGrows(ops, numIds, i, j - 1);
    }
  }

  /** Where each id in use lives: the tables agree with the requests served, and ids share no block. */
  ghost predicate Tracks(blocks: seq<int>, sizes: seq<int>, use: map<int, int>, req: map<int, int>) {
    && |sizes| == |blocks|
    && (forall id {:trigger id in use} :: id in use ==> TracksAt(blocks, sizes, use, req, id))
    && (forall id, jd {:trigger blocks[id], blocks[jd]} ::
          id in use && jd in use && id != jd && 0 <= id < |blocks| && 0 <= jd < |blocks| ==>
            blocks[id] != blocks[jd])
  }

  ghost predicate TracksAt(blocks: seq<int>, sizes: seq<int>, use: map<int, int>, req: map<int, int>, id: int)
    requires |sizes| == |blocks| && id in use
  {
    0 <= id < |blocks| && blocks[id] in req && req[blocks[id]] == use[id] && sizes[id] == use[id]
  }

  lemma TracksAlloc(blocks: seq<int>, sizes: seq<int>, use: map<int, int>, req: map<int, int>, index: int, p: int,
      size: int)
    requires Tracks(blocks, sizes, use, req) && 0 <= index < |blocks| && p !in req
    ensures Tracks(blocks[index := p], sizes[index := size], use[index := size], req[p := size])
  {
    var b, z, u, r := blocks[index := p], sizes[index := size], use[index := size], req[p := size];
    forall id | id in u ensures TracksAt(b, z, u, r, id) {
      if id != index { assert TracksAt(blocks, sizes, use, req, id); }
    }
    forall id, jd | id in u && jd in u && id != jd && 0 <= id < |b| && 0 <= jd < |b| ensures b[id] != b[jd] {
      if id != index { assert TracksAt(blocks, sizes, use, req, id); }
      if jd != index { assert TracksAt(blocks, sizes, use, req, jd); }
      if id != index && jd != index { assert blocks[id] != blocks[jd]; }
    }
  }

  lemma TracksFree(blocks: seq<int>, sizes: seq<int>, use: map<int, int>, req: map<int, int>, index: int)
    requires Tracks(blocks, sizes, use, req) && index in use
    ensures TracksAt(blocks, sizes, use, req, index)
    ensures Tracks(blocks, sizes, use - {index}, req - {blocks[index]})
  {
    assert TracksAt(blocks, sizes, use, req, index);
    var u, r := use - {index}, req - {blocks[index]};
    forall id | id in u ensures TracksAt(blocks, sizes, u, r, id) {
      assert TracksAt(blocks, sizes, use, req, id) && blocks[id] != blocks[index];
    }
  }

  /** An id keeps its block, and has another size. */
  lemma TracksResize(blocks: seq<int>, sizes: seq<int>, use: map<int, int>, req: map<int, int>, index: int, size: int)
    requires Tracks(blocks, sizes, use, req) && index in use
    ensures TracksAt(blocks, sizes, use, req, index)
    ensures Tracks(blocks, sizes[index := size], use[index := size], req[blocks[index] := size])
  {
    assert TracksAt(blocks, sizes, use, req, index);
    var z, u, r := sizes[index := size], use[index := size], req[blocks[index] := size];
    forall id | id in u ensures TracksAt(blocks, z, u, r, id) {
      if id != index { assert TracksAt(blocks, sizes, use, req, id) && blocks[id] != blocks[index]; }
    }
  }
}
