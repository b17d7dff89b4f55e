/**
 Payload chunking and box-index bookkeeping of the createCourierEnvelopes* handlers.
 A box index is its 64-bit counter; encryption and envelope encoding are left out, so a
 chunk paired with the index it is written to stands for the envelope.
 */
module Chunking {
  import opened Wrappers

  type Bytes = seq<nat>
  datatype Box = Box(index: nat, chunk: Bytes)
  datatype Error = InvalidRequest | InternalError
  datatype Destination = Destination(payload: Bytes, start: nat)

  const MAX_PAYLOAD_SIZE := 10 * 1024 * 1024

  // ------------------------------------------------ Specification

  function Chunks(payload: Bytes, max: nat): seq<Bytes>
    requires max > 0
    decreases |payload|
  {
    if |payload| == 0 then []
    else if |payload| <= max then [payload]
    else [payload[..max]] + Chunks(payload[max..], max)
  }

  function Boxes(payload: Bytes, start: nat, max: nat): seq<Box>
    requires max > 0
    decreases |payload|
  {
    if |payload| == 0 then []
    else if |payload| <= max then [Box(start, payload)]
    else [Box(start, payload[..max])] + Boxes(payload[max..], start + 1, max)
  }

  /** n / m, rounded up. */
  function CeilDiv(n: nat, m: nat): nat
    requires m > 0
  {
    if n == 0 then 0 else if n <= m then 1 else 1 + CeilDiv(n - m, m)
  }

  function Joined(boxes: seq<Box>): Bytes {
    if |boxes| == 0 then [] else boxes[0].chunk + Joined(boxes[1..])
  }

  /** All boxes of a call with several destinations, in order. */
  function AllBoxes(ds: seq<Destination>, max: nat): seq<Box>
    requires max > 0
  {
    if |ds| == 0 then []
    else AllBoxes(ds[..|ds| - 1], max) + Boxes(ds[|ds| - 1].payload, ds[|ds| - 1].start, max)
  }

  // ------------------------------------------------ What the boxes are

  /** CeilDiv(n, m) is the least number of pieces of size m that cover n. */
  lemma {:induction false} CeilDivLeast(n: nat, m: nat)
    requires m > 0
    ensures n <= CeilDiv(n, m) * m
    ensures n > 0 ==> (CeilDiv(n, m) - 1) * m < n
    decreases n
  {
    if n > m {
      CeilDivLeast(n - m, m);
      var k := CeilDiv(n - m, m);
      assert (k + 1) * m == k * m + m;
      assert (k - 1) * m + m == k * m;
    } else if n > 0 {
      assert 1 * m == m && 0 * m == 0;
    }
  }

  /**
   ceil(|payload| / max) boxes at consecutive indices from `start`; every chunk is non-empty
   and fits; only the last may be short; together they are the payload.
   */
  lemma {:induction false} BoxesCut(payload: Bytes, start: nat, max: nat)
    requires max > 0
    ensures |Boxes(payload, start, max)| == CeilDiv(|payload|, max)
    ensures forall i | 0 <= i < |Boxes(payload, start, max)| ::
      && Boxes(payload, start, max)[i].index == start + i
      && 0 < |Boxes(payload, start, max)[i].chunk| <= max
      && (i + 1 < |Boxes(payload, start, max)| ==> |Boxes(payload, start, max)[i].chunk| == max)
    ensures Joined(Boxes(payload, start, max)) == payload
    decreases |payload|
  {
    if |payload| > max {
      BoxesCut(payload[max..], start + 1, max);
      assert payload == payload[..max] + payload[max..];
    }
  }

  /** The advancing writer and the caller-advanced index cut the payload alike. */
  lemma {:induction false} BoxesAreChunks(payload: Bytes, start: nat, max: nat)
    requires max > 0
    ensures Boxes(payload, start, max) ==
      seq(|Chunks(payload, max)|, i requires 0 <= i < |Chunks(payload, max)| => Box(start + i, Chunks(payload, max)[i]))
    decreases |payload|
  {
    if |payload| > max {
      BoxesAreChunks(payload[max..], start + 1, max);
    }
  }

  function Min(a: nat, b: nat): nat {
    if a < b then a else b
  }

  lemma CutStep(k: nat, max: nat)
    ensures (k + 1) * max == k * max + max
  {
  }

  /** Slicing below a first full chunk. */
  lemma DropFirst(payload: Bytes, max: nat, p: nat, q: nat)
    requires max <= p <= q <= |payload|
    ensures payload[..q][max..] == payload[max..][..q - max]
    ensures payload[..q][..max] == payload[..max]
    ensures payload[max..][p - max..q - max] == payload[p..q]
  {
  }

  /** A prefix with room for a chunk begins with one. */
  lemma BoxesFirst(payload: Bytes, start: nat, max: nat, q: nat)
    requires 0 < max <= q <= |payload|
    ensures Boxes(payload[..q], start, max)
         == [Box(start, payload[..max])] + Boxes(payload[max..][..q - max], start + 1, max)
  {
    DropFirst(payload, max, q, q);
    if q == max { assert payload[max..][..0] == []; }
  }

  /** A chunk in front leaves the split behind it as it is. */
  lemma SplitBehind(payload: Bytes, start: nat, max: nat, p: nat, q: nat, last: seq<Box>)
    requires 0 < max <= p <= q <= |payload|
    requires Boxes(payload[max..][..q - max], start + 1, max) == Boxes(payload[max..][..p - max], start + 1, max) + last
    ensures Boxes(payload[..q], start, max) == Boxes(payload[..p], start, max) + last
  {
    BoxesFirst(payload, start, max, q);
    BoxesFirst(payload, start, max, p);
    var first, mid := [Box(start, payload[..max])], Boxes(payload[max..][..p - max], start + 1, max);
    assert first + (mid + last) == (first + mid) + last;
  }

  /** What the k-th chunk, from offset `p`, adds to the boxes of the part before it. */
  lemma {:induction false} BoxesSplit(payload: Bytes, start: nat, k: nat, p: nat, max: nat)
    requires max > 0 && p == k * max < |payload|
    ensures var q := Min(p + max, |payload|);
      Boxes(payload[..q], start, max) == Boxes(payload[..p], start, max) + [Box(start + k, payload[p..q])]
    decreases k
  {
    var q := Min(p + max, |payload|);
    if k == 0 {
      assert payload[0..q] == payload[..q];
    } else {
      CutStep(k - 1, max);
      BoxesSplit(payload[max..], start + 1, k - 1, p - max, max);
      DropFirst(payload, max, p, q);
      SplitBehind(payload, start, max, p, q, [Box(start + k, payload[p..q])]);
    }
  }

  lemma {:induction false} ChunksSplit(payload: Bytes, k: nat, p: nat, max: nat)
    requires max > 0 && p == k * max < |payload|
    ensures var q := Min(p + max, |payload|);
      Chunks(payload[..q], max) == Chunks(payload[..p], max) + [payload[p..q]]
    decreases k
  {
    var q := Min(p + max, |payload|);
    if k == 0 {
      assert payload[0..q] == payload[..q];
    } else {
      CutStep(k - 1, max);
      ChunksSplit(payload[max..], k - 1, p - max, max);
      DropFirst(payload, max, p, q);
      DropFirst(payload, max, p, p);
    }
  }

  // ------------------------------------------------ Chained calls

  /** Calls to one destination, each starting at the index the previous one returned. */
  function Chained(payloads: seq<Bytes>, start: nat, max: nat): seq<Box>
    requires max > 0
  {
    if |payloads| == 0 then []
    else Boxes(payloads[0], start, max) + Chained(payloads[1..], start + CeilDiv(|payloads[0]|, max), max)
  }

  function Concat(payloads: seq<Bytes>): Bytes {
    if |payloads| == 0 then [] else payloads[0] + Concat(payloads[1..])
  }

  lemma Assoc(a: Bytes, b: Bytes, c: Bytes)
    ensures a + (b + c) == (a + b) + c
  {
  }

  lemma {:induction false} JoinedConcat(a: seq<Box>, b: seq<Box>)
    ensures Joined(a + b) == Joined(a) + Joined(b)
  {
    if |a| == 0 {
      assert a + b == b;
    } else {
      JoinedConcat(a[1..], b);
      assert (a + b)[1..] == a[1..] + b;
      Assoc(a[0].chunk, Joined(a[1..]), Joined(b));
    }
  }

  /** The boxes lie at consecutive indices from `start`. */
  ghost predicate Consecutive(boxes: seq<Box>, start: nat) {
    forall i | 0 <= i < |boxes| :: boxes[i].index == start + i
  }

  lemma ConsecutiveConcat(a: seq<Box>, b: seq<Box>, start: nat)
    requires Consecutive(a, start) && Consecutive(b, start + |a|)
    ensures Consecutive(a + b, start)
  {
  }

  lemma BoxesInARow(payload: Bytes, start: nat, max: nat)
    requires max > 0
    ensures Consecutive(Boxes(payload, start, max), start)
    ensures |Boxes(payload, start, max)| == CeilDiv(|payload|, max) && Joined(Boxes(payload, start, max)) == payload
  {
    BoxesCut(payload, start, max);
  }

  /** What the boxes of a chain are to be. */
  ghost predicate InARow(boxes: seq<Box>, start: nat, written: Bytes) {
    Consecutive(boxes, start) && Joined(boxes) == written
  }

  lemma RowsJoin(a: seq<Box>, b: seq<Box>, start: nat, x: Bytes, y: Bytes)
    requires InARow(a, start, x) && InARow(b, start + |a|, y)
    ensures InARow(a + b, start, x + y)
  {
    ConsecutiveConcat(a, b, start);
    JoinedConcat(a, b);
  }

  lemma ChainedStep(payloads: seq<Bytes>, start: nat, max: nat)
    requires max > 0 && |payloads| > 0
    ensures Chained(payloads, start, max) == Boxes(payloads[0], start, max)
              + Chained(payloads[1..], start + |Boxes(payloads[0], start, max)|, max)
    ensures Concat(payloads) == payloads[0] + Concat(payloads[1..])
    ensures InARow(Boxes(payloads[0], start, max), start, payloads[0])
  {
    BoxesInARow(payloads[0], start, max);
  }

  /** A chain of calls uses every index from `start` once, and writes the payloads in order. */
  lemma {:induction false} ChainNeverReusesABox(payloads: seq<Bytes>, start: nat, max: nat)
    requires max > 0
    ensures InARow(Chained(payloads, start, max), start, Concat(payloads))
  {
    if |payloads| > 0 {
      ChainedStep(payloads, start, max);
      var first := Boxes(payloads[0], start, max);
      ChainNeverReusesABox(payloads[1..], start + |first|, max);
      RowsJoin(first, Chained(payloads[1..], start + |first|, max), start, payloads[0], Concat(payloads[1..]));
    }
  }

  // ------------------------------------------------ Several destinations

  /** How many boxes the destinations take in all. */
  function BoxCount(ds: seq<Destination>, max: nat): nat
    requires max > 0
  {
    if |ds| == 0 then 0 else BoxCount(ds[..|ds| - 1], max) + CeilDiv(|ds[|ds| - 1].payload|, max)
  }

  /** The boxes from `lo` to `hi` hold the destination's payload at its own indices, in chunks that fit. */
  ghost predicate Serves(boxes: seq<Box>, lo: nat, hi: nat, d: Destination, max: nat) {
    && lo <= hi <= |boxes|
    && InARow(boxes[lo..hi], d.start, d.payload)
    && forall i | lo <= i < hi :: 0 < |boxes[i].chunk| <= max
  }

  /** Destination by destination, in order, and nothing else. */
  ghost predicate ServesAll(boxes: seq<Box>, ds: seq<Destination>, max: nat)
    requires max > 0
  {
    && |boxes| == BoxCount(ds, max)
    && forall k | 0 <= k < |ds| :: Serves(boxes, BoxCount(ds[..k], max), BoxCount(ds[..k + 1], max), ds[k], max)
  }

  lemma ServesStill(boxes: seq<Box>, more: seq<Box>, lo: nat, hi: nat, d: Destination, max: nat)
    requires Serves(boxes, lo, hi, d, max)
    ensures Serves(boxes + more, lo, hi, d, max)
  {
    assert (boxes + more)[lo..hi] == boxes[lo..hi];
  }

  lemma ServesNext(boxes: seq<Box>, d: Destination, max: nat)
    requires max > 0
    ensures var all := boxes + Boxes(d.payload, d.start, max);
      |all| == |boxes| + CeilDiv(|d.payload|, max) && Serves(all, |boxes|, |all|, d, max)
  {
    BoxesCut(d.payload, d.start, max);
    var own := Boxes(d.payload, d.start, max);
    assert (boxes + own)[|boxes|..|boxes + own|] == own;
  }

  /** Further boxes leave the earlier destinations served. */
  lemma ServedStill(boxes: seq<Box>, more: seq<Box>, ds: seq<Destination>, max: nat, k: nat)
    requires max > 0 && k + 1 < |ds| && ServesAll(boxes, ds[..|ds| - 1], max)
    ensures Serves(boxes + more, BoxCount(ds[..k], max), BoxCount(ds[..k + 1], max), ds[k], max)
  {
    var p := ds[..|ds| - 1];
    assert p[..k] == ds[..k] && p[..k + 1] == ds[..k + 1];
    assert Serves(boxes, BoxCount(p[..k], max), BoxCount(p[..k + 1], max), p[k], max);
    ServesStill(boxes, more, BoxCount(ds[..k], max), BoxCount(ds[..k + 1], max), ds[k], max);
  }

  /** Each destination's share of the boxes is its own payload, cut, at its own indices. */
  lemma {:induction false} AllBoxesServe(ds: seq<Destination>, max: nat)
    requires max > 0
    ensures ServesAll(AllBoxes(ds, max), ds, max)
    decreases |ds|
  {
    if |ds| > 0 {
      var n := |ds| - 1;
      var before, own := AllBoxes(ds[..n], max), Boxes(ds[n].payload, ds[n].start, max);
      AllBoxesServe(ds[..n], max);
      ServesNext(before, ds[n], max);
      assert ds[..n + 1] == ds;
      forall k | 0 <= k < |ds|
        ensures Serves(before + own, BoxCount(ds[..k], max), BoxCount(ds[..k + 1], max), ds[k], max)
      {
        if k < n { ServedStill(before, own, ds, max, k); }
      }
    }
  }

  // ------------------------------------------------ The loops

  method ChunkPayload(payload: Bytes, maxChunkSize: nat) returns (chunks: seq<Bytes>)
    requires maxChunkSize > 0
    ensures chunks == Chunks(payload, maxChunkSize)
  {
    chunks := [];
    if |payload| == 0 { return; }
    var offset := 0;
    ghost var k := 0;
    while offset < |payload|
      invariant offset == k * maxChunkSize
      invariant chunks == Chunks(payload[..Min(offset, |payload|)], maxChunkSize)
      decreases |payload| - offset
    {
      var end := offset + maxChunkSize;
      if end > |payload| { end := |payload|; }
      ChunksSplit(payload, k, offset, maxChunkSize);
      CutStep(k, maxChunkSize);
      chunks := chunks + [payload[offset..end]];
      offset, k := offset + maxChunkSize, k + 1;
    }
    assert payload[..|payload|] == payload;
  }

  class StatefulWriter {
    var NextIndex: nat

    constructor (start: nat)
      ensures NextIndex == start
    {
      NextIndex := start;
    }

    /** Writes at the current index and moves on. */
    method EncryptNext(chunk: Bytes) returns (box: Box)
      modifies this
      ensures box == Box(old(NextIndex), chunk) && NextIndex == old(NextIndex) + 1
    {
      box := Box(NextIndex, chunk);
      NextIndex := NextIndex + 1;
    }

    /** Writes at the current index without moving. */
    method PrepareNext(chunk: Bytes) returns (box: Box)
      ensures box == Box(NextIndex, chunk)
    {
      box := Box(NextIndex, chunk);
    }
  }

  method CreateFromPayload(payload: Bytes, start: nat, maxPlaintext: nat)
    returns (r: Result<(seq<Box>, nat), Error>)
    ensures r.Err? <==> |payload| > 10_485_760 || maxPlaintext <= 4
    ensures r.Err? ==> r.error == InvalidRequest
    ensures r.Ok? ==> r.value.0 == Boxes(payload, start, maxPlaintext - 4)
                      && r.value.1 == start + CeilDiv(|payload|, maxPlaintext - 4)
                      && InARow(r.value.0, start, payload)
  {
    if |payload| > MAX_PAYLOAD_SIZE || maxPlaintext <= 4 {
      return Err(InvalidRequest);
    }
    var max := maxPlaintext - 4;
    var writer := new StatefulWriter(start);
    var chunks := ChunkPayload(payload, max);
    var boxes := [];
    for k := 0 to |chunks|
      invariant writer.NextIndex == start + k
      invariant boxes == seq(k, i requires 0 <= i < k => Box(start + i, chunks[i]))
    {
      var box := writer.EncryptNext(chunks[k]);
      boxes := boxes + [box];
    }
    BoxesAreChunks(payload, start, max);
    BoxesCut(payload, start, max);
    return Ok((boxes, writer.NextIndex));
  }

  /** One destination of the multi-destination handler: the caller advances the index. */
  method CutDestination(payload: Bytes, start: nat, max: nat) returns (boxes: seq<Box>, next: nat)
    requires max > 0
    ensures boxes == Boxes(payload, start, max)
    ensures next == start + CeilDiv(|payload|, max)
  {
    var writer := new StatefulWriter(start);
    boxes, next := [], start;
    var offset := 0;
    while offset < |payload|
      invariant next == start + |boxes| && offset == |boxes| * max
      invariant boxes == Boxes(payload[..Min(offset, |payload|)], start, max)
      decreases |payload| - offset
    {
      var end := offset + max;
      if end > |payload| { end := |payload|; }
      writer.NextIndex := next;
      var box := writer.PrepareNext(payload[offset..end]);
      BoxesSplit(payload, start, |boxes|, offset, max);
      CutStep(|boxes|, max);
      boxes := boxes + [box];
      next := next + 1;
      offset := offset + max;
    }
    assert payload[..|payload|] == payload;
    BoxesCut(payload, start, max);
  }

  predicate Acceptable(ds: seq<Destination>, maxPlaintext: nat) {
    |ds| > 0 && maxPlaintext > 4 && forall d | d in ds :: |d.payload| <= MAX_PAYLOAD_SIZE
  }

  method CreateFromPayloads(ds: seq<Destination>, maxPlaintext: nat)
    returns (r: Result<(seq<Box>, seq<nat>), Error>)
    ensures r.Ok? <==> Acceptable(ds, maxPlaintext)
    ensures r.Err? ==> r.error == if |ds| > 0 && maxPlaintext <= 4 then InternalError else InvalidRequest
    ensures r.Ok? ==>
      && r.value.0 == AllBoxes(ds, maxPlaintext - 4) && ServesAll(r.value.0, ds, maxPlaintext - 4)
      && r.value.1 == seq(|ds|, i requires 0 <= i < |ds| => ds[i].start + CeilDiv(|ds[i].payload|, maxPlaintext - 4))
  {
    if |ds| == 0 { return Err(InvalidRequest); }
    if maxPlaintext <= 4 { return Err(InternalError); }
    var max := maxPlaintext - 4;
    var boxes, next := [], [];
    for k := 0 to |ds|
      invariant forall j | 0 <= j < k :: |ds[j].payload| <= MAX_PAYLOAD_SIZE
      invariant boxes == AllBoxes(ds[..k], max)
      invariant next == seq(k, i requires 0 <= i < k => ds[i].start + CeilDiv(|ds[i].payload|, max))
    {
      if |ds[k].payload| > MAX_PAYLOAD_SIZE { return Err(InvalidRequest); }
      var bs, n := CutDestination(ds[k].payload, ds[k].start, max);
      assert ds[..k + 1][..k] == ds[..k];
      boxes := boxes + bs;
      next := next + [n];
    }
    assert ds[..|ds|] == ds;
    AllBoxesServe(ds, max);
    return Ok((boxes, next));
  }

  /** A range of tombstones takes exactly `maxCount` consecutive boxes. */
  method CreateFromTombstoneRange(start: nat, maxCount: nat) returns (boxes: seq<Box>, next: nat)
    ensures boxes == seq(maxCount, i requires 0 <= i < maxCount => Box(start + i, []))
    ensures next == start + maxCount
  {
    boxes, next := [], start;
    for i := 0 to maxCount
      invariant next == start + i
      invariant boxes == seq(i, j requires 0 <= j < i => Box(start + j, []))
    {
      boxes := boxes + [Box(next, [])];
      next := next + 1;
    }
  }
}
