/** `dilate(x, dilation, init_dilation, pad_start)`: re-lay a batch of
    shape (n, c, l), laid out for `initDilation`, into the layout for
    `dilation`, so that a convolution with that dilation becomes an ordinary
    convolution. The length is zero-padded to a multiple of the dilation
    factor `dilation / initDilation`, then the data is regrouped by
    `permute(1, 2, 0)`, `view(c, l', n')` and `permute(2, 0, 1)`.

    The source divides as Python floats; here the same quantities are
    computed exactly on integers. */
module Dilation {
  import opened Arith
  import opened Tensors
  import opened ConstantPad

  /** `int(ceil(l / factor) * factor)` for `factor = dilation / initDilation`:
      `ceil(l * initDilation / dilation) * dilation / initDilation`, truncated. */
  function PaddedLength(l: nat, dilation: nat, initDilation: nat): (newL: nat)
    requires dilation > 0 && initDilation > 0
    ensures newL >= l
  {
    var q := CeilDiv(l * initDilation, dilation);
    DivLowerBound(q * dilation, l, initDilation);
    (q * dilation) / initDilation
  }

  /** The new length `ceil(newL * initDilation / dilation)`: the least
      `l2` with `l2 * dilation >= newL * initDilation`. */
  function DilatedLength(newL: nat, dilation: nat, initDilation: nat): (l2: nat)
    requires dilation > 0
    ensures l2 * dilation >= newL * initDilation
    ensures l2 * dilation < newL * initDilation + dilation
  {
    CeilDiv(newL * initDilation, dilation)
  }

  /** The new batch size `ceil(n * dilation / initDilation)`: the least
      `n2` with `n2 * initDilation >= n * dilation`. */
  function DilatedBatch(n: nat, dilation: nat, initDilation: nat): (n2: nat)
    requires initDilation > 0
    ensures n2 * initDilation >= n * dilation
    ensures n2 * initDilation < n * dilation + initDilation
  {
    CeilDiv(n * dilation, initDilation)
  }

  /** The padding step of `dilate`: the input zero-padded along its length to `newL` when
      that differs from its length (at the start when `padStart`, else at
      the end), the input itself otherwise. */
  function PadTo(x: Tensor3, newL: nat, padStart: bool): (p: Tensor3)
    requires x.Valid() && newL >= x.d2
    ensures p.Valid() && p.d0 == x.d0 && p.d1 == x.d1 && p.d2 == newL
    ensures newL == x.d2 ==> p == x
  {
    if newL != x.d2 then PadLast(x, newL, 0.0, padStart).value else x
  }

  /** The padded tensor holds the input at the pad offset: after the zeros
      when `padStart`, before them otherwise. */
  lemma {:induction false} PadToCopies(x: Tensor3, newL: nat, padStart: bool)
    requires x.Valid() && newL >= x.d2
    ensures forall b, ch, t | 0 <= b < x.d0 && 0 <= ch < x.d1 && 0 <= t < x.d2 ::
      PadTo(x, newL, padStart).v[b][ch][Offset(newL - x.d2, padStart) + t] == x.v[b][ch][t]
  {
    if newL != x.d2 {
      PadLastCopies(x, newL, 0.0, padStart);
    } else {
      assert Offset(newL - x.d2, padStart) == 0;
    }
  }

  /** Every other position of the padded tensor is zero. */
  lemma {:induction false} PadToZeros(x: Tensor3, newL: nat, padStart: bool)
    requires x.Valid() && newL >= x.d2
    ensures var off := Offset(newL - x.d2, padStart);
      forall b, ch, t | 0 <= b < x.d0 && 0 <= ch < x.d1 && 0 <= t < newL && !(off <= t < off + x.d2) ::
        PadTo(x, newL, padStart).v[b][ch][t] == 0.0
  {
    if newL != x.d2 {
      PadLastFills(x, newL, 0.0, padStart);
    }
  }

  /** The input padded to `PaddedLength`. */
  function PaddedInput(x: Tensor3, dilation: nat, initDilation: nat, padStart: bool): (p: Tensor3)
    requires x.Valid() && dilation > 0 && initDilation > 0
    ensures p.Valid() && p.d0 == x.d0 && p.d1 == x.d1
    ensures p.d2 == PaddedLength(x.d2, dilation, initDilation)
    ensures p.d2 == x.d2 ==> p == x
  {
    PadTo(x, PaddedLength(x.d2, dilation, initDilation), padStart)
  }

  /** The whole transform. A zero dilation or initial dilation divides by
      zero; a `view` whose element count differs from the padded input's is
      refused. */
  function Dilate(x: Tensor3, dilation: nat, initDilation: nat, padStart: bool): (r: Result<Tensor3>)
    requires x.Valid()
    ensures r.Ok? ==> r.value.Valid()
  {
    if initDilation == 0 || dilation == 0 then Err(DivisionByZero)
    else if dilation == initDilation then Ok(x)
    else
      var padded := PaddedInput(x, dilation, initDilation, padStart);
      var l2 := DilatedLength(padded.d2, dilation, initDilation);
      var n2 := DilatedBatch(x.d0, dilation, initDilation);
      var viewed :- View(Permute120(padded), x.d1, l2, n2);
      Ok(Permute201(viewed))
  }

  /** When `initDilation` divides `dilation` (factor `k`), the length is
      padded to `ceil(l / k) * k`: a multiple of `k`, at least `l`, less than
      `l + k`, and equal to `l` exactly when `k` divides `l`. */
  lemma {:induction false} PaddedLengthDilating(l: nat, dilation: nat, initDilation: nat)
    requires dilation > 0 && initDilation > 0 && dilation % initDilation == 0
    ensures var k := dilation / initDilation;
      var newL := PaddedLength(l, dilation, initDilation);
      k > 0 && newL == CeilDiv(l, k) * k && newL % k == 0 && l <= newL < l + k &&
      (newL == l <==> l % k == 0)
  {
    var i := initDilation;
    var k := dilation / i;
    DivModSplit(dilation, i);
    assert dilation == k * i;
    var c := CeilDiv(l, k);
    MulMono(l, c * k, i);
    MulStrictMono(c * k, l + k, i);
    MulAssoc(c, k, i);
    assert (l + k) * i == l * i + dilation;
    CeilDivUnique(l * i, dilation, c);
    MulDivCancel(c * k, i);
    MulDivCancel(c, k);
    if l % k == 0 {
      DivModSplit(l, k);
      CeilDivUnique(l, k, l / k);
    }
  }

  /** Among the multiples of the factor that are at least `l`, the padded
      length is the least. */
  lemma {:induction false} PaddedLengthIsLeast(l: nat, dilation: nat, initDilation: nat, m: nat)
    requires dilation > 0 && initDilation > 0 && dilation % initDilation == 0
    requires m >= l && m % (dilation / initDilation) == 0
    ensures PaddedLength(l, dilation, initDilation) <= m
  {
    PaddedLengthDilating(l, dilation, initDilation);
    CeilDivLeast(l, dilation / initDilation, m);
  }

  /** When `dilation` divides `initDilation` (undilating), no padding is needed. */
  lemma {:induction false} PaddedLengthUndilating(l: nat, dilation: nat, initDilation: nat)
    requires dilation > 0 && initDilation > 0 && initDilation % dilation == 0
    ensures PaddedLength(l, dilation, initDilation) == l
  {
    var k := initDilation / dilation;
    DivModSplit(initDilation, dilation);
    assert initDilation == k * dilation;
    MulAssoc(l, k, dilation);
    CeilDivUnique(l * initDilation, dilation, l * k);
    MulDivCancel(l, initDilation);
  }

  /** What `dilate` returns: a division-by-zero failure for a zero dilation,
      the input itself for equal dilations, and otherwise either the view
      failure or a tensor of shape (n', c, l') holding as many elements as
      the padded input. */
  lemma DilateOutcome(x: Tensor3, dilation: nat, initDilation: nat, padStart: bool)
    requires x.Valid()
    ensures dilation == 0 || initDilation == 0 <==> Dilate(x, dilation, initDilation, padStart) == Err(DivisionByZero)
    ensures dilation > 0 && dilation == initDilation ==> Dilate(x, dilation, initDilation, padStart) == Ok(x)
    ensures dilation > 0 && initDilation > 0 && dilation != initDilation ==>
      var r := Dilate(x, dilation, initDilation, padStart);
      var p := PaddedInput(x, dilation, initDilation, padStart);
      var l2 := DilatedLength(p.d2, dilation, initDilation);
      var n2 := DilatedBatch(x.d0, dilation, initDilation);
      (r.Ok? <==> x.d1 * p.d2 * x.d0 == x.d1 * l2 * n2) &&
      (r.Err? ==> r.error == ViewShapeMismatch) &&
      (r.Ok? ==> r.value.d0 == n2 && r.value.d1 == x.d1 && r.value.d2 == l2 && r.value.Numel() == p.Numel())
  {
    if dilation > 0 && initDilation > 0 && dilation != initDilation {
      var p := PaddedInput(x, dilation, initDilation, padStart);
      var l2 := DilatedLength(p.d2, dilation, initDilation);
      var n2 := DilatedBatch(x.d0, dilation, initDilation);
      var v := View(Permute120(p), x.d1, l2, n2);
      assert Dilate(x, dilation, initDilation, padStart) == if v.Ok? then Ok(Permute201(v.value)) else Err(v.error);
      if v.Ok? {
        MulRotate(n2, x.d1, l2);
        MulRotate(x.d0, x.d1, p.d2);
      }
    }
  }

  /** The regrouping steps of a successful `dilate` with distinct dilations. */
  lemma DilateUnfold(x: Tensor3, dilation: nat, initDilation: nat, padStart: bool)
    requires x.Valid() && dilation > 0 && initDilation > 0 && dilation != initDilation
    requires Dilate(x, dilation, initDilation, padStart).Ok?
    ensures var p := PaddedInput(x, dilation, initDilation, padStart);
      var l2 := DilatedLength(p.d2, dilation, initDilation);
      var n2 := DilatedBatch(x.d0, dilation, initDilation);
      View(Permute120(p), x.d1, l2, n2).Ok? &&
      Dilate(x, dilation, initDilation, padStart).value == Permute201(View(Permute120(p), x.d1, l2, n2).value)
  {
  }

  /** The row-major offset of `[ch][t][b]` in the (c, L, n) layout equals
      that of `[ch][j][a]` in its (c, l2, n2) view when `t * n + b == j * n2 + a`. */
  lemma {:induction false} ViewOffset(c: nat, L: nat, n: nat, l2: nat, n2: nat,
                                      ch: nat, j: nat, a: nat, t: nat, b: nat)
    requires c * L * n == c * l2 * n2
    requires ch < c && t * n + b == j * n2 + a
    ensures (ch * L + t) * n + b == (ch * l2 + j) * n2 + a
  {
    MulAssoc(c, L, n);
    MulAssoc(c, l2, n2);
    MulCancel(c, L * n, l2 * n2);
    FlatOffset(ch, L, t, n, b);
    FlatOffset(ch, l2, j, n2, a);
  }

  /** Every output position `[a][ch][j]` has a source: with `f = j * n' + a`,
      the padded input has a batch entry `f % n` and a time step `f / n`. */
  lemma {:induction false} DilateSourceInRange(x: Tensor3, dilation: nat, initDilation: nat, padStart: bool,
                                               a: nat, ch: nat, j: nat)
    requires x.Valid() && dilation > 0 && initDilation > 0 && dilation != initDilation
    requires Dilate(x, dilation, initDilation, padStart).Ok?
    requires var p := PaddedInput(x, dilation, initDilation, padStart);
      a < DilatedBatch(x.d0, dilation, initDilation) && ch < x.d1 && j < DilatedLength(p.d2, dilation, initDilation)
    ensures x.d0 > 0
    ensures var f := j * DilatedBatch(x.d0, dilation, initDilation) + a;
      f / x.d0 < PaddedInput(x, dilation, initDilation, padStart).d2 && f % x.d0 < x.d0
  {
    var p := PaddedInput(x, dilation, initDilation, padStart);
    var n, c, L := x.d0, x.d1, p.d2;
    var l2 := DilatedLength(L, dilation, initDilation);
    var n2 := DilatedBatch(n, dilation, initDilation);
    DilateUnfold(x, dilation, initDilation, padStart);
    MulAssoc(c, L, n);
    MulAssoc(c, l2, n2);
    MulCancel(c, L * n, l2 * n2);
    var f := j * n2 + a;
    FlatIndexBound(j, a, l2, n2);
    DivUpperBound(f, n, L);
  }

  /** The regrouping core: `[ch][j][a]` of the (c, l2, n2) view of
      `permute(1, 2, 0)` of an (n, c, L) tensor `p` is `p[b][ch][t]`
      whenever `t * n + b == j * n2 + a`. */
  lemma {:induction false} ViewPermuteAt(p: Tensor3, l2: nat, n2: nat, a: nat, ch: nat, j: nat, b: nat, t: nat)
    requires p.Valid() && View(Permute120(p), p.d1, l2, n2).Ok?
    requires a < n2 && ch < p.d1 && j < l2 && b < p.d0 && t < p.d2
    requires t * p.d0 + b == j * n2 + a
    ensures View(Permute120(p), p.d1, l2, n2).value.v[ch][j][a] == p.v[b][ch][t]
  {
    var P := Permute120(p);
    var s := Flat(P);
    var o1 := (ch * p.d2 + t) * p.d0 + b;
    var o2 := (ch * l2 + j) * n2 + a;
    assert o1 == o2 by {
      ViewOffset(p.d1, p.d2, p.d0, l2, n2, ch, j, a, t, b);
    }
    assert o1 < |s| && s[o1] == p.v[b][ch][t] by {
      FlatAt(P, ch, t, b);
    }
    assert FlatGet(s, p.d1, l2, n2, ch, j, a) == s[o2];
  }

  /** The index map: output `[a][ch][j]` is padded input `[b][ch][t]`
      whenever `t * n + b == j * n' + a`. */
  lemma {:induction false} DilateIndexMap(x: Tensor3, dilation: nat, initDilation: nat, padStart: bool,
                                          a: nat, ch: nat, j: nat, b: nat, t: nat)
    requires x.Valid() && dilation > 0 && initDilation > 0 && dilation != initDilation
    requires Dilate(x, dilation, initDilation, padStart).Ok?
    requires var p := PaddedInput(x, dilation, initDilation, padStart);
      a < DilatedBatch(x.d0, dilation, initDilation) && ch < x.d1 && j < DilatedLength(p.d2, dilation, initDilation) &&
      b < x.d0 && t < p.d2 && t * x.d0 + b == j * DilatedBatch(x.d0, dilation, initDilation) + a
    ensures Dilate(x, dilation, initDilation, padStart).value.v[a][ch][j] ==
      PaddedInput(x, dilation, initDilation, padStart).v[b][ch][t]
  {
    var p := PaddedInput(x, dilation, initDilation, padStart);
    var l2 := DilatedLength(p.d2, dilation, initDilation);
    var n2 := DilatedBatch(x.d0, dilation, initDilation);
    DilateUnfold(x, dilation, initDilation, padStart);
    ViewPermuteAt(p, l2, n2, a, ch, j, b, t);
  }

  /** The sizes when dilating by a factor `k`: `L` is a multiple of `k`,
      the new length is `L / k`, the new batch is `n * k`, and the element
      count is kept. */
  lemma {:induction false} DilatingSizes(l: nat, n: nat, c: nat, dilation: nat, initDilation: nat)
    requires dilation > 0 && initDilation > 0 && dilation % initDilation == 0
    ensures var k := dilation / initDilation;
      var L := PaddedLength(l, dilation, initDilation);
      k > 0 && L % k == 0 &&
      DilatedLength(L, dilation, initDilation) == L / k &&
      DilatedBatch(n, dilation, initDilation) == n * k &&
      c * L * n == c * (L / k) * (n * k)
  {
    var i := initDilation;
    var k := dilation / i;
    PaddedLengthDilating(l, dilation, i);
    DivModSplit(dilation, i);
    var L := PaddedLength(l, dilation, i);
    var m := CeilDiv(l, k);
    MulDivCancel(m, k);
    assert L / k == m;
    assert dilation == k * i;
    MulAssoc(m, k, i);
    assert L * i == m * dilation;
    CeilDivExact(m, dilation);
    assert DilatedLength(L, dilation, i) == m;
    MulAssoc(n, k, i);
    assert n * dilation == (n * k) * i;
    CeilDivExact(n * k, i);
    assert DilatedBatch(n, dilation, i) == n * k;
    calc {
      c * L * n;
      c * (m * k) * n;
      { MulAssoc(c, m * k, n); MulAssoc(m, k, n); }
      c * (m * (k * n));
      { MulAssoc(c, m, k * n); }
      c * m * (n * k);
    }
  }

  /** Dilating by a factor `k` (`initDilation` divides `dilation`) always
      succeeds: the padded length `L` is a multiple of `k` and the result
      has shape (n * k, c, L / k). */
  lemma {:induction false} DilateShapeDilating(x: Tensor3, dilation: nat, initDilation: nat, padStart: bool)
    requires x.Valid() && dilation > 0 && initDilation > 0 && dilation % initDilation == 0
    ensures var k := dilation / initDilation;
      var L := PaddedLength(x.d2, dilation, initDilation);
      var r := Dilate(x, dilation, initDilation, padStart);
      L % k == 0 && r.Ok? && r.value.d0 == x.d0 * k && r.value.d1 == x.d1 && r.value.d2 == L / k
  {
    DilatingSizes(x.d2, x.d0, x.d1, dilation, initDilation);
    DilateOutcome(x, dilation, initDilation, padStart);
    if dilation == initDilation {
      PaddedLengthUndilating(x.d2, dilation, initDilation);
      assert dilation / initDilation == 1;
    }
  }

  /** Undilating by a factor `k` (`dilation` divides `initDilation`) never
      pads; it succeeds exactly when `k` divides the batch size (or the
      tensor is empty), with shape (ceil(n / k), c, l * k). */
  lemma {:induction false} DilateShapeUndilating(x: Tensor3, dilation: nat, initDilation: nat, padStart: bool)
    requires x.Valid() && dilation > 0 && initDilation > 0 && initDilation % dilation == 0
    requires dilation != initDilation
    ensures var k := initDilation / dilation;
      var r := Dilate(x, dilation, initDilation, padStart);
      k > 1 && PaddedInput(x, dilation, initDilation, padStart) == x &&
      (r.Ok? <==> x.d1 * x.d2 == 0 || x.d0 % k == 0) &&
      (r.Ok? ==> r.value.d0 == CeilDiv(x.d0, k) && r.value.d1 == x.d1 && r.value.d2 == x.d2 * k)
  {
    var k := initDilation / dilation;
    PaddedLengthUndilating(x.d2, dilation, initDilation);
    UndilatingSizes(x.d2, x.d0, x.d1, dilation, initDilation);
    DilateOutcome(x, dilation, initDilation, padStart);
    UndilateCount(x.d1 * x.d2, x.d0, k);
  }

  /** The sizes when undilating by a factor `k`: the new length is `l * k`,
      the new batch is `ceil(n / k)`, and the element count of the view is
      `c * l` times `ceil(n / k) * k`. */
  lemma {:induction false} UndilatingSizes(l: nat, n: nat, c: nat, dilation: nat, initDilation: nat)
    requires dilation > 0 && initDilation > 0 && initDilation % dilation == 0
    requires dilation != initDilation
    ensures var k := initDilation / dilation;
      k > 1 &&
      DilatedLength(l, dilation, initDilation) == l * k &&
      DilatedBatch(n, dilation, initDilation) == CeilDiv(n, k) &&
      c * (l * k) * CeilDiv(n, k) == (c * l) * (CeilDiv(n, k) * k)
  {
    var d := dilation;
    var k := initDilation / d;
    DivModSplit(initDilation, d);
    assert initDilation == k * d;
    MulAssoc(l, k, d);
    CeilDivExact(l * k, d);
    CeilDivScaled(n, k, d);
    var q := CeilDiv(n, k);
    MulAssoc(c, l * k, q);
    MulAssoc(l, k, q);
    MulAssoc(c, l, k * q);
    assert k * q == q * k;
    MulSub(k, 1, d);
    MulSign(k - 1, d);
  }

  /** `m * n == m * (ceil(n / k) * k)` exactly when `m == 0` or `k` divides `n`. */
  lemma {:induction false} UndilateCount(m: nat, n: nat, k: nat)
    requires k > 0
    ensures m * n == m * (CeilDiv(n, k) * k) <==> m == 0 || n % k == 0
  {
    var q := CeilDiv(n, k);
    if m != 0 {
      if m * n == m * (q * k) {
        MulCancel(m, n, q * k);
        MulDivCancel(q, k);
      }
      if n % k == 0 {
        DivModSplit(n, k);
        CeilDivUnique(n, k, n / k);
      }
    }
  }

  /** One element of the round trip: undilating the dilated tensor puts the
      padded input's `[b][ch][t]` back at `[b][ch][t]`. */
  lemma {:induction false} RoundTripAt(x: Tensor3, dilation: nat, initDilation: nat, padStart: bool,
                                       b: nat, ch: nat, t: nat)
    requires x.Valid() && dilation > 0 && initDilation > 0 && dilation % initDilation == 0
    requires dilation != initDilation
    requires b < x.d0 && ch < x.d1 && t < PaddedLength(x.d2, dilation, initDilation)
    ensures var y := Dilate(x, dilation, initDilation, padStart);
      y.Ok? && var z := Dilate(y.value, initDilation, dilation, padStart);
      z.Ok? && z.value.Valid() && b < z.value.d0 && ch < z.value.d1 && t < z.value.d2 &&
      z.value.v[b][ch][t] == PaddedInput(x, dilation, initDilation, padStart).v[b][ch][t]
  {
    var p := PaddedInput(x, dilation, initDilation, padStart);
    var k := dilation / initDilation;
    var n, c, L := x.d0, x.d1, p.d2;
    DilatingSizes(L, n, c, dilation, initDilation);
    DilatingSizes(x.d2, n, c, dilation, initDilation);
    DilateShapeDilating(x, dilation, initDilation, padStart);
    DilateOutcome(x, dilation, initDilation, padStart);
    var y := Dilate(x, dilation, initDilation, padStart).value;
    var N, M := n * k, L / k;
    DivModSplit(L, k);
    assert M * k == L;
    DilateShapeUndilating(y, initDilation, dilation, padStart);
    DilateOutcome(y, initDilation, dilation, padStart);
    MulDivCancel(n, k);
    DivModSplit(N, k);
    CeilDivExact(n, k);
    assert DilatedBatch(N, initDilation, dilation) == n;
    assert DilatedLength(M, initDilation, dilation) == L;
    var f := t * n + b;
    FlatIndexBound(t, b, L, n);
    MulAssoc(M, k, n);
    assert f < M * N;
    DivModSplit(f, N);
    DivUpperBound(f, N, M);
    var a', j' := f % N, f / N;
    DilateIndexMap(y, initDilation, dilation, padStart, b, ch, t, a', j');
    DilateIndexMap(x, dilation, initDilation, padStart, a', ch, j', b, t);
  }

  /** The round trip restores the padded input's shape (n, c, L). */
  lemma {:induction false} RoundTripShape(x: Tensor3, dilation: nat, initDilation: nat, padStart: bool)
    requires x.Valid() && dilation > 0 && initDilation > 0 && dilation % initDilation == 0
    requires dilation != initDilation
    ensures var y := Dilate(x, dilation, initDilation, padStart);
      y.Ok? && var z := Dilate(y.value, initDilation, dilation, padStart);
      z.Ok? && z.value.Valid() && z.value.d0 == x.d0 && z.value.d1 == x.d1 &&
      z.value.d2 == PaddedLength(x.d2, dilation, initDilation)
  {
    var k := dilation / initDilation;
    DilateShapeDilating(x, dilation, initDilation, padStart);
    var y := Dilate(x, dilation, initDilation, padStart).value;
    var L := PaddedLength(x.d2, dilation, initDilation);
    DivModSplit(L, k);
    DilateShapeUndilating(y, initDilation, dilation, padStart);
    MulDivCancel(x.d0, k);
    CeilDivExact(x.d0, k);
  }

  /** Round trip: dilating by a factor `k` and undilating back gives the
      input zero-padded to a multiple of `k`; the undilating step itself
      never pads. */
  lemma {:induction false} DilateRoundTrip(x: Tensor3, dilation: nat, initDilation: nat, padStart: bool)
    requires x.Valid() && dilation > 0 && initDilation > 0 && dilation % initDilation == 0
    ensures var y := Dilate(x, dilation, initDilation, padStart);
      y.Ok? && Dilate(y.value, initDilation, dilation, padStart) == Ok(PaddedInput(x, dilation, initDilation, padStart))
  {
    var p := PaddedInput(x, dilation, initDilation, padStart);
    DilateShapeDilating(x, dilation, initDilation, padStart);
    if dilation == initDilation {
      PaddedLengthUndilating(x.d2, dilation, initDilation);
    } else {
      RoundTripShape(x, dilation, initDilation, padStart);
      var y := Dilate(x, dilation, initDilation, padStart).value;
      var z := Dilate(y, initDilation, dilation, padStart).value;
      forall b, ch, t | 0 <= b < x.d0 && 0 <= ch < x.d1 && 0 <= t < p.d2
        ensures z.v[b][ch][t] == p.v[b][ch][t]
      {
        RoundTripAt(x, dilation, initDilation, padStart, b, ch, t);
      }
      TensorExt(z, p);
    }
  }

  /** When the factor divides the length, the round trip is the identity. */
  lemma {:induction false} DilateRoundTripExact(x: Tensor3, dilation: nat, initDilation: nat, padStart: bool)
    requires x.Valid() && dilation > 0 && initDilation > 0 && dilation % initDilation == 0
    requires x.d2 % (dilation / initDilation) == 0
    ensures var y := Dilate(x, dilation, initDilation, padStart);
      y.Ok? && Dilate(y.value, initDilation, dilation, padStart) == Ok(x)
  {
    DilateRoundTrip(x, dilation, initDilation, padStart);
    PaddedLengthDilating(x.d2, dilation, initDilation);
  }
}
