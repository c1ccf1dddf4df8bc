/** `ConstantPad1d` and `constant_pad_1d`: pad one axis of a tensor to a
    target size with a constant, at its start or its end, and crop the same
    region back out for the gradient. The padded axis is the last one: the
    pure functions work on one row (`Pad`, `Crop`) and on every row of a
    three-dimensional tensor (`PadLast`, the form the dilation transform
    uses); the class works on one row. */
module ConstantPad {
  import opened Tensors

  /** Where the copied input starts inside the padded row: after the
      `numPad` fill values when padding at the start, at 0 otherwise. */
  function Offset(numPad: nat, padStart: bool): (off: nat)
    ensures off <= numPad
    ensures off == numPad <==> padStart || numPad == 0
    ensures off == 0 <==> !padStart || numPad == 0
  {
    if padStart then numPad else 0
  }

  /** The forward pass on one row: `targetSize - |s|` copies of `value`
      before or after `s`; a target below `|s|` is refused. */
  function Pad(s: seq<Scalar>, targetSize: int, value: Scalar, padStart: bool): (r: Result<seq<Scalar>>)
    ensures r.Ok? <==> targetSize >= |s|
    ensures r.Err? ==> r.error == PadTooShort
    ensures r.Ok? ==> |r.value| == targetSize
    ensures r.Ok? ==> var off := Offset(targetSize - |s|, padStart);
      (forall k | 0 <= k < |s| :: r.value[off + k] == s[k]) &&
      (forall k | 0 <= k < targetSize && !(off <= k < off + |s|) :: r.value[k] == value)
  {
    if targetSize < |s| then Err(PadTooShort)
    else
      var fill := seq(targetSize - |s|, _ => value);
      Ok(if padStart then fill + s else s + fill)
  }

  /** The backward pass on one row: the `|g| - numPad` entries of `g` at
      the offset where the forward pass copied its input. */
  function Crop(g: seq<Scalar>, numPad: nat, padStart: bool): (r: seq<Scalar>)
    requires numPad <= |g|
    ensures |r| == |g| - numPad
    ensures forall k | 0 <= k < |r| :: r[k] == g[Offset(numPad, padStart) + k]
  {
    if padStart then g[numPad..] else g[..|g| - numPad]
  }

  /** Backward undoes forward: cropping a padded row gives the row back. */
  lemma {:induction false} CropPad(s: seq<Scalar>, targetSize: int, value: Scalar, padStart: bool)
    requires targetSize >= |s|
    ensures Crop(Pad(s, targetSize, value, padStart).value, targetSize - |s|, padStart) == s
  {
    var p := Pad(s, targetSize, value, padStart).value;
    var c := Crop(p, targetSize - |s|, padStart);
    assert |c| == |s|;
    forall k | 0 <= k < |s| ensures c[k] == s[k] {
      assert c[k] == p[Offset(targetSize - |s|, padStart) + k];
    }
  }

  /** A gradient is routed only to the copied region: padding the crop of
      `g` with zeros restores `g` there and puts zeros in the fill region. */
  lemma {:induction false} PadCrop(g: seq<Scalar>, numPad: nat, padStart: bool, k: nat)
    requires numPad <= |g| && k < |g|
    ensures var p := Pad(Crop(g, numPad, padStart), |g|, 0.0, padStart);
      var off := Offset(numPad, padStart);
      p.Ok? && p.value[k] == if off <= k < off + |g| - numPad then g[k] else 0.0
  {
    var c := Crop(g, numPad, padStart);
    var off := Offset(numPad, padStart);
    var p := Pad(c, |g|, 0.0, padStart).value;
    assert |g| - |c| == numPad;
    if off <= k < off + |c| {
      assert p[off + (k - off)] == c[k - off];
    }
  }

  /** A row of `targetSize` entries holding `s` at the copy offset and
      `value` everywhere else is the padded row. */
  lemma {:induction false} PadPositions(o: seq<Scalar>, s: seq<Scalar>, targetSize: int, value: Scalar, padStart: bool)
    requires targetSize >= |s| && |o| == targetSize
    requires forall k | 0 <= k < |s| :: o[Offset(targetSize - |s|, padStart) + k] == s[k]
    requires forall k | 0 <= k < targetSize && !(Offset(targetSize - |s|, padStart) <= k < Offset(targetSize - |s|, padStart) + |s|) :: o[k] == value
    ensures Pad(s, targetSize, value, padStart) == Ok(o)
  {
    var off := Offset(targetSize - |s|, padStart);
    var p := Pad(s, targetSize, value, padStart).value;
    forall k | 0 <= k < targetSize ensures o[k] == p[k] {
      if off <= k < off + |s| {
        assert o[off + (k - off)] == s[k - off];
      }
    }
    assert o == p;
  }

  /** `constant_pad_1d(x, targetSize, dimension=2, value, padStart)` on a
      (d0, d1, d2) tensor: every row along the last axis padded alike. */
  function PadLast(x: Tensor3, targetSize: int, value: Scalar, padStart: bool): (r: Result<Tensor3>)
    requires x.Valid()
    ensures r.Ok? <==> targetSize >= x.d2
    ensures r.Err? ==> r.error == PadTooShort
    ensures r.Ok? ==> r.value.Valid() && r.value.d0 == x.d0 && r.value.d1 == x.d1 && r.value.d2 == targetSize
  {
    if targetSize < x.d2 then Err(PadTooShort)
    else
      Ok(Tensor3(x.d0, x.d1, targetSize,
        seq(x.d0, b requires 0 <= b < x.d0 =>
          seq(x.d1, ch requires 0 <= ch < x.d1 => Pad(x.v[b][ch], targetSize, value, padStart).value))))
  }

  /** Every row of `PadLast` along the last axis is the padded input row. */
  lemma {:induction false} PadLastRows(x: Tensor3, targetSize: int, value: Scalar, padStart: bool)
    requires x.Valid() && targetSize >= x.d2
    ensures forall b, ch | 0 <= b < x.d0 && 0 <= ch < x.d1 ::
      Pad(x.v[b][ch], targetSize, value, padStart) == Ok(PadLast(x, targetSize, value, padStart).value.v[b][ch])
  {
  }

  /** `PadLast` keeps every input element, shifted by the copy offset. */
  lemma {:induction false} PadLastCopies(x: Tensor3, targetSize: int, value: Scalar, padStart: bool)
    requires x.Valid() && targetSize >= x.d2
    ensures forall b, ch, t | 0 <= b < x.d0 && 0 <= ch < x.d1 && 0 <= t < x.d2 ::
      PadLast(x, targetSize, value, padStart).value.v[b][ch][Offset(targetSize - x.d2, padStart) + t] == x.v[b][ch][t]
  {
    var p := PadLast(x, targetSize, value, padStart).value;
    forall b, ch, t | 0 <= b < x.d0 && 0 <= ch < x.d1 && 0 <= t < x.d2
      ensures p.v[b][ch][Offset(targetSize - x.d2, padStart) + t] == x.v[b][ch][t]
    {
      PadLastRows(x, targetSize, value, padStart);
      assert Pad(x.v[b][ch], targetSize, value, padStart) == Ok(p.v[b][ch]);
    }
  }

  /** `PadLast` puts `value` at every position outside the copied region. */
  lemma {:induction false} PadLastFills(x: Tensor3, targetSize: int, value: Scalar, padStart: bool)
    requires x.Valid() && targetSize >= x.d2
    ensures var off := Offset(targetSize - x.d2, padStart);
      forall b, ch, t | 0 <= b < x.d0 && 0 <= ch < x.d1 && 0 <= t < targetSize && !(off <= t < off + x.d2) ::
        PadLast(x, targetSize, value, padStart).value.v[b][ch][t] == value
  {
    var p := PadLast(x, targetSize, value, padStart).value;
    var off := Offset(targetSize - x.d2, padStart);
    forall b, ch, t | 0 <= b < x.d0 && 0 <= ch < x.d1 && 0 <= t < targetSize && !(off <= t < off + x.d2)
      ensures p.v[b][ch][t] == value
    {
      PadLastRows(x, targetSize, value, padStart);
      assert Pad(x.v[b][ch], targetSize, value, padStart) == Ok(p.v[b][ch]);
    }
  }

  /** The autograd function object. `forward` records how much it padded
      and the input size, and `backward` reads them back. */
  class ConstantPad1d {
    const targetSize: int
    const value: Scalar
    const padStart: bool
    var numPad: int
    var inputSize: nat
    /** Whether a forward pass has succeeded, so that the recorded sizes exist. */
    ghost var forwarded: bool

    ghost predicate Valid()
      reads this
    {
      forwarded ==> numPad >= 0 && inputSize + numPad == targetSize
    }

    constructor (targetSize: int, value: Scalar, padStart: bool)
      ensures Valid() && !forwarded
      ensures this.targetSize == targetSize && this.value == value && this.padStart == padStart
    {
      this.targetSize := targetSize;
      this.value := value;
      this.padStart := padStart;
      numPad := 0;
      inputSize := 0;
      forwarded := false;
    }

    /** A buffer of `targetSize` filled with `value`, with the input copied
        into the narrowed region; fails when the input is longer than the
        target. */
    method Forward(input: seq<Scalar>) returns (r: Result<array<Scalar>>)
      requires Valid()
      modifies this
      ensures Valid()
      ensures numPad == targetSize - |input|
      ensures r.Ok? <==> targetSize >= |input|
      ensures r.Ok? ==> fresh(r.value) && forwarded && inputSize == |input|
      ensures r.Ok? ==> Pad(input, targetSize, value, padStart) == Ok(r.value[..])
      ensures r.Err? ==> r.error == PadTooShort && !forwarded && inputSize == old(inputSize)
    {
      numPad := targetSize - |input|;
      if numPad < 0 {
        forwarded := false;
        return Err(PadTooShort);
      }
      inputSize := |input|;
      var output := new Scalar[targetSize](_ => value);
      var off := Offset(numPad, padStart);
      forall k | 0 <= k < |input| {
        output[off + k] := input[k];
      }
      forwarded := true;
      PadPositions(output[..], input, targetSize, value, padStart);
      r := Ok(output);
    }

    /** A zero buffer of the recorded input size, with the narrowed region
        of the incoming gradient copied into it. */
    method Backward(gradOutput: seq<Scalar>) returns (gradInput: array<Scalar>)
      requires Valid() && forwarded
      requires |gradOutput| == targetSize
      ensures fresh(gradInput)
      ensures gradInput[..] == Crop(gradOutput, numPad, padStart)
    {
      gradInput := new Scalar[inputSize](_ => 0.0);
      var off := Offset(numPad, padStart);
      forall k | 0 <= k < inputSize {
        gradInput[k] := gradOutput[off + k];
      }
    }
  }

  /** `constant_pad_1d`: build the function object and run its forward pass. */
  method ApplyConstantPad1d(input: seq<Scalar>, targetSize: int, value: Scalar, padStart: bool)
    returns (r: Result<seq<Scalar>>)
    ensures r.Ok? <==> targetSize >= |input|
    ensures r == Pad(input, targetSize, value, padStart)
  {
    var f := new ConstantPad1d(targetSize, value, padStart);
    var out := f.Forward(input);
    if out.Err? {
      return Err(out.error);
    }
    r := Ok(out.value[..]);
  }
}
