/** Batch pacing of the save and load loops: in asynchronous mode a counter
    of processed items is reset, with a yield to the engine, every time it
    reaches the maximum batch count. The same counter appears in
    `CreateArrayOfZSerializers`, `LoadComponents` and `LoadReferences`; only
    the counter and the number of yields are modelled, not the scheduling. */
module Pacing {

  datatype SerializationType = Sync | Async

  /** The counter after `n` items, with the number of yields taken. In
      asynchronous mode with a positive batch size the items are cut into
      full batches, each ended by a yield, and the counter holds the size of
      the last, partial batch; a batch size of zero or less yields after
      every item. In synchronous mode the counter only grows. */
  method CountBatches(n: nat, serializationType: SerializationType, maxBatchCount: int)
    returns (currentComponentCount: nat, yieldCount: nat)
    ensures serializationType == Sync ==> currentComponentCount == n && yieldCount == 0
    ensures serializationType == Async && maxBatchCount >= 1 ==>
      yieldCount == n / maxBatchCount && currentComponentCount == n % maxBatchCount
    ensures serializationType == Async && maxBatchCount <= 0 ==>
      yieldCount == n && currentComponentCount == 0
  {
    currentComponentCount := 0;
    yieldCount := 0;
    var i := 0;
    while i < n
      invariant 0 <= i <= n
      invariant serializationType == Sync ==> currentComponentCount == i && yieldCount == 0
      invariant serializationType == Async && maxBatchCount >= 1 ==>
        yieldCount * maxBatchCount + currentComponentCount == i && currentComponentCount < maxBatchCount
      invariant serializationType == Async && maxBatchCount <= 0 ==>
        yieldCount == i && currentComponentCount == 0
    {
      currentComponentCount := currentComponentCount + 1;
      if serializationType == Async && currentComponentCount >= maxBatchCount {
        currentComponentCount := 0;
        yieldCount := yieldCount + 1;
      }
      i := i + 1;
    }
    if serializationType == Async && maxBatchCount >= 1 {
      DivModUnique(n, maxBatchCount, yieldCount, currentComponentCount);
    }
  }

  /** Quotient and remainder are the only such pair. */
  lemma DivModUnique(n: nat, m: int, q: nat, r: nat)
    requires m >= 1 && q * m + r == n && r < m
    ensures q == n / m && r == n % m
  {
    var q', r' := n / m, n % m;
    assert q' * m + r' == n;
    var d := q - q';
    assert d * m == q * m - q' * m;
    assert d * m == r' - r;
    if d > 0 {
      MulAtLeast(d, m);
    }
  }

  lemma MulAtLeast(d: int, m: int)
    requires d >= 1 && m >= 1
    ensures d * m >= m
  {
    assert d * m == (d - 1) * m + m;
    assert (d - 1) * m >= 0;
  }
}
