/** `DilatedQueue`: a fixed-capacity circular buffer of shape
    (channels, maxLength) with a write cursor `inPos` and a read cursor
    `outPos`. `enqueue` writes one column; `dequeue` reads `numDeq` columns
    spaced `dilation` apart that end at `outPos`, through Python slices that
    are written out here as index sequences. */
module Queue {
  import opened Arith
  import opened Tensors

  /** Python's normalisation of a slice bound, for a positive step, on an
      axis of length `len`: a negative bound counts from the end, and the
      result is clamped to `[0, len]`. */
  function SliceBound(len: nat, i: int): (r: nat)
    ensures r <= len
  {
    if i < 0 then (if i + len < 0 then 0 else i + len)
    else if i > len then len
    else i
  }

  /** The positions `lo, lo + step, ...` below `hi`. */
  function Range(lo: nat, hi: nat, step: nat): (r: seq<nat>)
    requires step > 0
    ensures |r| == if lo < hi then CeilDiv(hi - lo, step) else 0
    ensures forall k | 0 <= k < |r| :: r[k] == lo + k * step && r[k] < hi
    decreases hi - lo
  {
    if lo >= hi then []
    else
      var rest := Range(lo + step, hi, step);
      CeilDivStep(hi - lo, step);
      forall k | 1 <= k < |rest| + 1 ensures (k - 1) * step + step == k * step {
      }
      [lo] + rest
  }

  /** The positions that `a[start:stop:step]` selects on an axis of length
      `len` (`a[start::step]` is `stop == len`). */
  function SliceIndices(len: nat, start: int, stop: int, step: nat): (r: seq<nat>)
    requires step > 0
    ensures forall k | 0 <= k < |r| :: r[k] < len
  {
    Range(SliceBound(len, start), SliceBound(len, stop), step)
  }

  /** The columns `dequeue(numDeq, dilation)` reads at read cursor `outPos`:
      from `start = outPos - (numDeq - 1) * dilation`, either one strided
      slice, or, when `start` is negative, the tail `data[start::dilation]`
      followed by `data[outPos % dilation : outPos + 1 : dilation]`. */
  function DequeueIndices(maxLength: nat, outPos: nat, numDeq: nat, dilation: nat): (r: seq<nat>)
    requires dilation > 0
    ensures forall k | 0 <= k < |r| :: r[k] < maxLength
  {
    var start := outPos - (numDeq - 1) * dilation;
    if start < 0 then
      SliceIndices(maxLength, start, maxLength, dilation) +
      SliceIndices(maxLength, outPos % dilation, outPos + 1, dilation)
    else
      SliceIndices(maxLength, start, outPos + 1, dilation)
  }

  /** The reference window: `numDeq` circular positions spaced `dilation`
      apart, oldest first, the last one at `outPos`. */
  function CircularWindow(maxLength: nat, outPos: nat, numDeq: nat, dilation: nat): (r: seq<nat>)
    requires maxLength > 0
  {
    seq(numDeq, k requires 0 <= k < numDeq => (outPos - (numDeq - 1 - k) * dilation) % maxLength)
  }

  /** No-wrap branch (`start >= 0`): one strided slice from `start` to
      `outPos` is exactly the circular window. */
  lemma {:induction false} DequeueNoWrap(maxLength: nat, outPos: nat, numDeq: nat, dilation: nat)
    requires maxLength > 0 && outPos < maxLength && dilation > 0 && numDeq > 0
    requires outPos - (numDeq - 1) * dilation >= 0
    ensures DequeueIndices(maxLength, outPos, numDeq, dilation) == CircularWindow(maxLength, outPos, numDeq, dilation)
  {
    var d := dilation;
    var start := outPos - (numDeq - 1) * d;
    var r := DequeueIndices(maxLength, outPos, numDeq, d);
    var w := CircularWindow(maxLength, outPos, numDeq, d);
    assert r == Range(start, outPos + 1, d);
    assert numDeq * d == (numDeq - 1) * d + d;
    CeilDivUnique(outPos + 1 - start, d, numDeq);
    forall k | 0 <= k < numDeq ensures r[k] == w[k] {
      assert start + k * d == outPos - (numDeq - 1 - k) * d;
      MulMono(0, numDeq - 1 - k, d);
      ModSmall(outPos - (numDeq - 1 - k) * d, maxLength);
    }
  }

  /** The split point of the wrap branch: with `m1 = ceil(-start / dilation)`
      window positions before the origin, the second slice starts at
      `outPos % dilation == start + m1 * dilation` and has `numDeq - m1` entries. */
  lemma {:induction false} WrapSplit(outPos: nat, numDeq: nat, dilation: nat)
    requires dilation > 0 && outPos < (numDeq - 1) * dilation
    ensures var m1 := CeilDiv((numDeq - 1) * dilation - outPos, dilation);
      outPos % dilation <= outPos && 0 < m1 <= numDeq &&
      outPos % dilation == outPos - (numDeq - 1) * dilation + m1 * dilation &&
      CeilDiv(outPos + 1 - outPos % dilation, dilation) == numDeq - m1
  {
    var d := dilation;
    var start := outPos - (numDeq - 1) * d;
    var m1 := CeilDiv(-start, d);
    var e := start + m1 * d;
    assert 0 <= e < d;
    assert outPos == (numDeq - 1 - m1) * d + e;
    DivModSplit(outPos, d);
    DivModUnique(numDeq - 1 - m1, e, outPos / d, outPos % d, d);
    assert (outPos / d + 1) * d == outPos / d * d + d;
    CeilDivUnique(outPos + 1 - outPos % d, d, outPos / d + 1);
  }

  /** Wrap branch (`start < 0`, at least `-maxLength`): the tail slice holds
      the window positions that lie before the buffer origin, shifted by
      `maxLength`, and the second slice, which starts at `outPos % dilation`,
      holds the rest. */
  lemma {:induction false} DequeueWrap(maxLength: nat, outPos: nat, numDeq: nat, dilation: nat)
    requires maxLength > 0 && outPos < maxLength && dilation > 0
    requires outPos < (numDeq - 1) * dilation <= outPos + maxLength
    ensures DequeueIndices(maxLength, outPos, numDeq, dilation) == CircularWindow(maxLength, outPos, numDeq, dilation)
  {
    var d, L := dilation, maxLength;
    var S := (numDeq - 1) * d;
    var r1 := Range(outPos - S + L, L, d);
    var r2 := Range(outPos % d, outPos + 1, d);
    var w := CircularWindow(L, outPos, numDeq, d);
    WrapSlices(L, outPos, numDeq, d);
    WrapSplit(outPos, numDeq, d);
    HeadAgrees(L, outPos, numDeq, d);
    TailAgrees(L, outPos, numDeq, d);
    ConcatSplit(r1, r2, w);
  }

  /** In the wrap branch `dequeue` reads the tail slice `data[start::dilation]`
      (start normalised to `start + maxLength`) and then
      `data[outPos % dilation : outPos + 1 : dilation]`. */
  lemma {:induction false} WrapSlices(L: nat, outPos: nat, numDeq: nat, d: nat)
    requires L > 0 && outPos < L && d > 0
    requires outPos < (numDeq - 1) * d <= outPos + L
    ensures DequeueIndices(L, outPos, numDeq, d) ==
      Range(outPos - (numDeq - 1) * d + L, L, d) + Range(outPos % d, outPos + 1, d)
  {
    var start := outPos - (numDeq - 1) * d;
    assert SliceBound(L, start) == start + L;
    assert outPos % d <= outPos by {
      DivModSplit(outPos, d);
      MulSign(outPos / d, d);
    }
    assert SliceBound(L, outPos % d) == outPos % d;
  }

  /** The tail slice agrees with the first `m1` window positions. */
  lemma {:induction false} HeadAgrees(L: nat, outPos: nat, numDeq: nat, d: nat)
    requires L > 0 && outPos < L && d > 0
    requires outPos < (numDeq - 1) * d <= outPos + L
    ensures var r1 := Range(outPos - (numDeq - 1) * d + L, L, d);
      forall k | 0 <= k < |r1| :: MatchesAt(r1, 0, CircularWindow(L, outPos, numDeq, d), k)
  {
    var r1 := Range(outPos - (numDeq - 1) * d + L, L, d);
    forall k | 0 <= k < |r1| ensures MatchesAt(r1, 0, CircularWindow(L, outPos, numDeq, d), k) {
      WrapHead(L, outPos, numDeq, d, k);
    }
  }

  /** The second slice agrees with the remaining window positions. */
  lemma {:induction false} TailAgrees(L: nat, outPos: nat, numDeq: nat, d: nat)
    requires L > 0 && outPos < L && d > 0
    requires outPos < (numDeq - 1) * d <= outPos + L
    ensures var m1 := CeilDiv((numDeq - 1) * d - outPos, d);
      var r2 := Range(outPos % d, outPos + 1, d);
      forall k | m1 <= k < numDeq :: MatchesAt(r2, m1, CircularWindow(L, outPos, numDeq, d), k)
  {
    var m1 := CeilDiv((numDeq - 1) * d - outPos, d);
    var r2 := Range(outPos % d, outPos + 1, d);
    forall k | m1 <= k < numDeq ensures MatchesAt(r2, m1, CircularWindow(L, outPos, numDeq, d), k) {
      WrapTail(L, outPos, numDeq, d, k);
    }
  }

  /** Entry `k - off` of `r` exists and equals entry `k` of `w`. */
  ghost predicate MatchesAt(r: seq<nat>, off: int, w: seq<int>, k: int) {
    0 <= k - off < |r| && 0 <= k < |w| && r[k - off] == w[k]
  }

  /** A sequence whose first `|r1|` entries are `r1` and whose rest is `r2`
      is `r1 + r2`. */
  lemma {:induction false} ConcatSplit(r1: seq<nat>, r2: seq<nat>, w: seq<int>)
    requires |r1| + |r2| == |w|
    requires forall k | 0 <= k < |r1| :: MatchesAt(r1, 0, w, k)
    requires forall k | |r1| <= k < |w| :: MatchesAt(r2, |r1|, w, k)
    ensures r1 + r2 == w
  {
    forall k | 0 <= k < |w| ensures (r1 + r2)[k] == w[k] {
      if k < |r1| {
        assert MatchesAt(r1, 0, w, k);
      } else {
        assert MatchesAt(r2, |r1|, w, k);
        assert (r1 + r2)[k] == r2[k - |r1|];
      }
    }
  }

  lemma {:induction false} WrapHead(L: nat, outPos: nat, numDeq: nat, d: nat, k: nat)
    requires L > 0 && outPos < L && d > 0
    requires outPos < (numDeq - 1) * d <= outPos + L
    requires k < CeilDiv((numDeq - 1) * d - outPos, d)
    ensures MatchesAt(Range(outPos - (numDeq - 1) * d + L, L, d), 0, CircularWindow(L, outPos, numDeq, d), k)
  {
    var S := (numDeq - 1) * d;
    var m1 := CeilDiv(S - outPos, d);
    var kd := k * d;
    MulSub(numDeq - 1, k, d);
    MulSub(m1, 1, d);
    MulMono(k, m1 - 1, d);
    MulMono(0, k, d);
    MulSub(numDeq, m1, d);
    MulSub(numDeq, 1, d);
    MulSign(numDeq - m1, d);
    assert outPos - (numDeq - 1 - k) * d == outPos - S + kd;
    ModNegative(outPos - (numDeq - 1 - k) * d, L);
  }

  lemma {:induction false} WrapTail(L: nat, outPos: nat, numDeq: nat, d: nat, k: nat)
    requires L > 0 && outPos < L && d > 0
    requires outPos < (numDeq - 1) * d
    requires CeilDiv((numDeq - 1) * d - outPos, d) <= k < numDeq
    ensures MatchesAt(Range(outPos % d, outPos + 1, d), CeilDiv((numDeq - 1) * d - outPos, d),
                      CircularWindow(L, outPos, numDeq, d), k)
  {
    var S := (numDeq - 1) * d;
    var m1 := CeilDiv(S - outPos, d);
    var e := outPos % d;
    var r := Range(e, outPos + 1, d);
    WrapSplit(outPos, numDeq, d);
    var kd, m1d := k * d, m1 * d;
    MulSub(k, m1, d);
    MulSub(numDeq - 1, k, d);
    MulMono(k, numDeq - 1, d);
    MulMono(m1, k, d);
    assert r[k - m1] == outPos - S + kd;
    assert outPos - (numDeq - 1 - k) * d == outPos - S + kd;
    ModSmall(outPos - (numDeq - 1 - k) * d, L);
  }

  /** Both branches of `dequeue` read the circular window, provided the
      window wraps at most once: `outPos - (numDeq - 1) * dilation >= -maxLength`. */
  lemma {:induction false} DequeueWindow(maxLength: nat, outPos: nat, numDeq: nat, dilation: nat)
    requires maxLength > 0 && outPos < maxLength && dilation > 0
    requires (numDeq - 1) * dilation <= outPos + maxLength
    ensures DequeueIndices(maxLength, outPos, numDeq, dilation) == CircularWindow(maxLength, outPos, numDeq, dilation)
  {
    var start := outPos - (numDeq - 1) * dilation;
    if numDeq == 0 {
      assert start == outPos + dilation;
      assert DequeueIndices(maxLength, outPos, numDeq, dilation) == Range(SliceBound(maxLength, start), outPos + 1, dilation);
    } else if start >= 0 {
      DequeueNoWrap(maxLength, outPos, numDeq, dilation);
    } else {
      DequeueWrap(maxLength, outPos, numDeq, dilation);
    }
  }

  /** Without that bound the tail slice's start is clamped to 0: on a
      two-column buffer, `dequeue(4, 1)` at `outPos == 0` reads three
      columns instead of the window's four. */
  lemma DequeueBeyondCapacity()
    ensures DequeueIndices(2, 0, 4, 1) == [0, 1, 0]
    ensures CircularWindow(2, 0, 4, 1) == [1, 0, 1, 0]
  {
    assert SliceBound(2, -3) == 0;
    assert Range(0, 2, 1) == [0] + Range(1, 2, 1);
    assert Range(1, 2, 1) == [1] + Range(2, 2, 1);
    assert Range(0, 1, 1) == [0] + Range(1, 1, 1);
  }

  /** The columns `idx` of a (channels, length) buffer, `buf[:, idx]`. */
  function Gather(buf: seq<seq<Scalar>>, idx: seq<nat>): (t: seq<seq<Scalar>>)
    requires forall ch, k | 0 <= ch < |buf| && 0 <= k < |idx| :: idx[k] < |buf[ch]|
    ensures |t| == |buf|
    ensures forall ch | 0 <= ch < |buf| :: |t[ch]| == |idx|
    ensures forall ch, k | 0 <= ch < |buf| && 0 <= k < |idx| :: t[ch][k] == buf[ch][idx[k]]
  {
    seq(|buf|, ch requires 0 <= ch < |buf| =>
      seq(|idx|, k requires 0 <= k < |idx| => buf[ch][idx[k]]))
  }

  /** Concatenating two column selections along the time axis selects the
      concatenated columns. */
  lemma GatherConcat(buf: seq<seq<Scalar>>, i1: seq<nat>, i2: seq<nat>)
    requires forall ch, k | 0 <= ch < |buf| && 0 <= k < |i1| :: i1[k] < |buf[ch]|
    requires forall ch, k | 0 <= ch < |buf| && 0 <= k < |i2| :: i2[k] < |buf[ch]|
    ensures forall ch, k | 0 <= ch < |buf| && 0 <= k < |i1 + i2| :: (i1 + i2)[k] < |buf[ch]|
    ensures Gather(buf, i1 + i2) ==
      seq(|buf|, ch requires 0 <= ch < |buf| => Gather(buf, i1)[ch] + Gather(buf, i2)[ch])
  {
    var g := Gather(buf, i1 + i2);
    var c := seq(|buf|, ch requires 0 <= ch < |buf| => Gather(buf, i1)[ch] + Gather(buf, i2)[ch]);
    forall ch | 0 <= ch < |buf| ensures g[ch] == c[ch] {
      var g1, g2 := Gather(buf, i1), Gather(buf, i2);
      assert c[ch] == g1[ch] + g2[ch];
      assert |g[ch]| == |i1 + i2| == |c[ch]|;
      forall k | 0 <= k < |g[ch]| ensures g[ch][k] == c[ch][k] {
        if k >= |i1| {
          assert (i1 + i2)[k] == i2[k - |i1|];
          assert c[ch][k] == g2[ch][k - |i1|];
        } else {
          assert c[ch][k] == g1[ch][k];
        }
      }
    }
  }

  /** The per-layer queue of recent inputs used during generation. */
  class DilatedQueue {
    /** The (numChannels, maxLength) buffer; `reset` replaces it. */
    var data: array2<Scalar>
    /** The column the next `enqueue` writes. */
    var inPos: nat
    /** The newest column the next `dequeue` reads. */
    var outPos: nat
    const maxLength: nat
    const numChannels: nat
    /** Stored by the constructor; `dequeue` takes its own arguments instead. */
    const dilation: nat
    const numDeq: nat

    ghost predicate Valid()
      reads this
    {
      data.Length0 == numChannels && data.Length1 == maxLength &&
      (inPos < maxLength || inPos == 0) && (outPos < maxLength || outPos == 0)
    }

    /** The buffer's contents, one row per channel. */
    ghost function Buffer(): (b: seq<seq<Scalar>>)
      reads this`data, data
      ensures |b| == data.Length0
      ensures forall ch | 0 <= ch < |b| :: |b[ch]| == data.Length1
      ensures forall ch, p | 0 <= ch < data.Length0 && 0 <= p < data.Length1 :: b[ch][p] == data[ch, p]
    {
      var a := data;
      seq(a.Length0, ch requires 0 <= ch < a.Length0 reads a =>
        seq(a.Length1, p requires 0 <= p < a.Length1 reads a => a[ch, p]))
    }

    /** A queue over a fresh all-zero buffer, both cursors at 0. */
    constructor (maxLength: nat, dilation: nat, numDeq: nat, numChannels: nat)
      ensures Valid() && fresh(data)
      ensures this.maxLength == maxLength && this.numChannels == numChannels
      ensures this.dilation == dilation && this.numDeq == numDeq
      ensures inPos == 0 && outPos == 0
      ensures forall ch, p | 0 <= ch < numChannels && 0 <= p < maxLength :: data[ch, p] == 0.0
    {
      this.maxLength := maxLength;
      this.numChannels := numChannels;
      this.dilation := dilation;
      this.numDeq := numDeq;
      data := new Scalar[numChannels, maxLength]((_, _) => 0.0);
      inPos, outPos := 0, 0;
    }

    /** A queue over a buffer the caller supplies; the queue shares it. */
    constructor FromBuffer(maxLength: nat, data: array2<Scalar>, dilation: nat, numDeq: nat, numChannels: nat)
      requires data.Length0 == numChannels && data.Length1 == maxLength
      ensures Valid() && this.data == data
      ensures this.maxLength == maxLength && this.numChannels == numChannels
      ensures this.dilation == dilation && this.numDeq == numDeq
      ensures inPos == 0 && outPos == 0
    {
      this.maxLength := maxLength;
      this.numChannels := numChannels;
      this.dilation := dilation;
      this.numDeq := numDeq;
      this.data := data;
      inPos, outPos := 0, 0;
    }

    /** Write `input` into column `inPos` and advance `inPos` circularly;
        every other column and `outPos` are left alone. */
    method Enqueue(input: seq<Scalar>)
      requires Valid() && maxLength > 0 && |input| == numChannels
      modifies this`inPos, data
      ensures Valid()
      ensures inPos == (old(inPos) + 1) % maxLength && outPos == old(outPos)
      ensures forall ch, p | 0 <= ch < numChannels && 0 <= p < maxLength ::
        data[ch, p] == if p == old(inPos) then input[ch] else old(data[ch, p])
    {
      forall ch | 0 <= ch < numChannels {
        data[ch, inPos] := input[ch];
      }
      inPos := (inPos + 1) % maxLength;
    }

    /** `data[:, idx]`: the listed columns, per channel. */
    method Columns(idx: seq<nat>) returns (t: seq<seq<Scalar>>)
      requires Valid()
      requires forall k | 0 <= k < |idx| :: idx[k] < maxLength
      ensures t == Gather(Buffer(), idx)
    {
      var a := data;
      t := seq(numChannels, ch requires 0 <= ch < a.Length0 reads a =>
        seq(|idx|, k requires 0 <= k < |idx| && idx[k] < a.Length1 reads a => a[ch, idx[k]]));
      assert forall ch | 0 <= ch < numChannels :: t[ch] == Gather(Buffer(), idx)[ch];
    }

    /** The slicing part of `dequeue`: the columns `DequeueIndices` names,
        read through one strided slice or, when `start` is negative, two
        slices joined along the time axis. */
    method Slices(numDeq: nat, dilation: nat) returns (t: seq<seq<Scalar>>)
      requires Valid() && maxLength > 0 && dilation > 0
      ensures t == Gather(Buffer(), DequeueIndices(maxLength, outPos, numDeq, dilation))
    {
      ghost var idx := DequeueIndices(maxLength, outPos, numDeq, dilation);
      var start := outPos - (numDeq - 1) * dilation;
      if start < 0 {
        var i1 := SliceIndices(maxLength, start, maxLength, dilation);
        var i2 := SliceIndices(maxLength, outPos % dilation, outPos + 1, dilation);
        assert idx == i1 + i2;
        var t1 := Columns(i1);
        var t2 := Columns(i2);
        t := seq(numChannels, ch requires 0 <= ch < numChannels => t1[ch] + t2[ch]);
        GatherConcat(Buffer(), i1, i2);
      } else {
        var i := SliceIndices(maxLength, start, outPos + 1, dilation);
        assert idx == i;
        t := Columns(i);
      }
    }

    /** Read `numDeq` columns spaced `dilation` apart ending at `outPos`, then
        advance `outPos` circularly; the buffer and `inPos` are untouched.
        Whenever the window wraps at most once around the buffer, the
        columns read are the circular window. */
    method Dequeue(numDeq: nat, dilation: nat) returns (t: seq<seq<Scalar>>)
      requires Valid() && maxLength > 0 && dilation > 0
      modifies this`outPos
      ensures Valid()
      ensures outPos == (old(outPos) + 1) % maxLength && inPos == old(inPos)
      ensures t == Gather(Buffer(), DequeueIndices(maxLength, old(outPos), numDeq, dilation))
      ensures (numDeq - 1) * dilation <= old(outPos) + maxLength ==>
        t == Gather(Buffer(), CircularWindow(maxLength, old(outPos), numDeq, dilation))
    {
      t := Slices(numDeq, dilation);
      if (numDeq - 1) * dilation <= outPos + maxLength {
        DequeueWindow(maxLength, outPos, numDeq, dilation);
      }
      outPos := (outPos + 1) % maxLength;
    }

    /** A fresh all-zero buffer and both cursors back at 0. */
    method Reset()
      requires Valid()
      modifies this
      ensures Valid() && fresh(data)
      ensures inPos == 0 && outPos == 0
      ensures forall ch, p | 0 <= ch < numChannels && 0 <= p < maxLength :: data[ch, p] == 0.0
    {
      data := new Scalar[numChannels, maxLength]((_, _) => 0.0);
      inPos, outPos := 0, 0;
    }
  }
}
