/** The slice of the dense-tensor abstraction that the dilation transform
    uses: three-dimensional tensors, `permute` of their axes, `view` (a
    reinterpretation of the row-major element order under a new shape),
    and the failures these operations can raise. */
module Tensors {
  import opened Arith

  /** Tensor elements are only moved, never computed on. */
  type Scalar = real

  datatype Error =
    | PadTooShort        // ConstantPad1d: target size below the input size
    | DivisionByZero     // a zero dilation or initial dilation
    | ViewShapeMismatch  // `view` to a shape with another element count

  datatype Result<T> = Ok(value: T) | Err(error: Error) {
    predicate IsFailure() { Err? }

    function PropagateFailure<U>(): Result<U>
      requires Err?
    {
      Err(error)
    }

    function Extract(): T
      requires Ok?
    {
      value
    }
  }

  /** A dense (d0, d1, d2) tensor, outermost axis first. The shape is kept
      beside the elements so that it survives empty axes. */
  datatype Tensor3 = Tensor3(d0: nat, d1: nat, d2: nat, v: seq<seq<seq<Scalar>>>) {
    predicate Valid() {
      |v| == d0 &&
      (forall i | 0 <= i < d0 :: |v[i]| == d1) &&
      (forall i, j | 0 <= i < d0 && 0 <= j < d1 :: |v[i][j]| == d2)
    }

    function Numel(): nat {
      d0 * d1 * d2
    }
  }

  /** `permute(1, 2, 0)`: axes (d0, d1, d2) become (d1, d2, d0). */
  function Permute120(x: Tensor3): (r: Tensor3)
    requires x.Valid()
    ensures r.Valid() && r.d0 == x.d1 && r.d1 == x.d2 && r.d2 == x.d0
    ensures forall i, j, k | 0 <= i < x.d0 && 0 <= j < x.d1 && 0 <= k < x.d2 :: r.v[j][k][i] == x.v[i][j][k]
  {
    Tensor3(x.d1, x.d2, x.d0,
      seq(x.d1, j requires 0 <= j < x.d1 =>
        seq(x.d2, k requires 0 <= k < x.d2 =>
          seq(x.d0, i requires 0 <= i < x.d0 => x.v[i][j][k]))))
  }

  /** `permute(2, 0, 1)`: axes (d0, d1, d2) become (d2, d0, d1). */
  function Permute201(x: Tensor3): (r: Tensor3)
    requires x.Valid()
    ensures r.Valid() && r.d0 == x.d2 && r.d1 == x.d0 && r.d2 == x.d1
    ensures forall i, j, k | 0 <= i < x.d0 && 0 <= j < x.d1 && 0 <= k < x.d2 :: r.v[k][i][j] == x.v[i][j][k]
  {
    Tensor3(x.d2, x.d0, x.d1,
      seq(x.d2, k requires 0 <= k < x.d2 =>
        seq(x.d0, i requires 0 <= i < x.d0 =>
          seq(x.d1, j requires 0 <= j < x.d1 => x.v[i][j][k]))))
  }

  /** Concatenation of rows. */
  function Flatten(m: seq<seq<Scalar>>): seq<Scalar> {
    if m == [] then [] else m[0] + Flatten(m[1..])
  }

  /** Rows of a common width `w` flatten to `|m| * w` elements, element
      `[r][k]` landing at offset `r * w + k`. */
  lemma {:induction false} FlattenAt(m: seq<seq<Scalar>>, w: nat, r: nat, k: nat)
    requires forall i | 0 <= i < |m| :: |m[i]| == w
    requires r < |m| && k < w
    ensures |Flatten(m)| == |m| * w
    ensures r * w + k < |Flatten(m)| && Flatten(m)[r * w + k] == m[r][k]
  {
    FlattenLength(m, w);
    FlatIndexBound(r, k, |m|, w);
    if r > 0 {
      FlattenAt(m[1..], w, r - 1, k);
      assert r * w + k == w + ((r - 1) * w + k);
    }
  }

  lemma {:induction false} FlattenLength(m: seq<seq<Scalar>>, w: nat)
    requires forall i | 0 <= i < |m| :: |m[i]| == w
    ensures |Flatten(m)| == |m| * w
  {
    if m != [] {
      FlattenLength(m[1..], w);
      assert |m| * w == w + (|m| - 1) * w;
    }
  }

  /** Each outermost slice of `x`, flattened. */
  function Rows(x: Tensor3): (rows: seq<seq<Scalar>>)
    requires x.Valid()
    ensures |rows| == x.d0
    ensures forall i | 0 <= i < x.d0 :: rows[i] == Flatten(x.v[i]) && |rows[i]| == x.d1 * x.d2
  {
    var rows := seq(x.d0, i requires 0 <= i < x.d0 => Flatten(x.v[i]));
    forall i | 0 <= i < x.d0 ensures |rows[i]| == x.d1 * x.d2 {
      FlattenLength(x.v[i], x.d2);
    }
    rows
  }

  /** The elements of `x` in row-major order, as `contiguous()` lays them out. */
  function Flat(x: Tensor3): (s: seq<Scalar>)
    requires x.Valid()
    ensures |s| == x.Numel()
  {
    FlattenLength(Rows(x), x.d1 * x.d2);
    MulAssoc(x.d0, x.d1, x.d2);
    Flatten(Rows(x))
  }

  /** Element `[i][j][k]` sits at row-major offset `(i * d1 + j) * d2 + k`. */
  lemma FlatAt(x: Tensor3, i: nat, j: nat, k: nat)
    requires x.Valid() && i < x.d0 && j < x.d1 && k < x.d2
    ensures (i * x.d1 + j) * x.d2 + k < x.Numel()
    ensures Flat(x)[(i * x.d1 + j) * x.d2 + k] == x.v[i][j][k]
  {
    var rows := Rows(x);
    var w := x.d1 * x.d2;
    var off := j * x.d2 + k;
    FlatIndexBound(j, k, x.d1, x.d2);
    FlattenAt(x.v[i], x.d2, j, k);
    assert rows[i][off] == x.v[i][j][k];
    FlattenAt(rows, w, i, off);
    FlatOffset(i, j, k, x.d1, x.d2);
    MulAssoc(x.d0, x.d1, x.d2);
  }

  /** Element `s[(i * e1 + j) * e2 + k]` of a flat sequence read as (e0, e1, e2). */
  function FlatGet(s: seq<Scalar>, e0: nat, e1: nat, e2: nat, i: nat, j: nat, k: nat): Scalar
    requires |s| == e0 * e1 * e2 && i < e0 && j < e1 && k < e2
  {
    FlatIndexBound(i, j, e0, e1);
    FlatIndexBound(i * e1 + j, k, e0 * e1, e2);
    s[(i * e1 + j) * e2 + k]
  }

  /** `view(e0, e1, e2)`: the same row-major elements under a new shape; a
      shape with a different element count is refused. */
  function View(x: Tensor3, e0: nat, e1: nat, e2: nat): (r: Result<Tensor3>)
    requires x.Valid()
    ensures r.Ok? <==> x.Numel() == e0 * e1 * e2
    ensures r.Err? ==> r.error == ViewShapeMismatch
    ensures r.Ok? ==> r.value.Valid() && r.value.d0 == e0 && r.value.d1 == e1 && r.value.d2 == e2
    ensures r.Ok? ==> forall i, j, k | 0 <= i < e0 && 0 <= j < e1 && 0 <= k < e2 ::
      r.value.v[i][j][k] == FlatGet(Flat(x), e0, e1, e2, i, j, k)
  {
    if x.Numel() != e0 * e1 * e2 then Err(ViewShapeMismatch)
    else
      var s := Flat(x);
      Ok(Tensor3(e0, e1, e2,
        seq(e0, i requires 0 <= i < e0 =>
          seq(e1, j requires 0 <= j < e1 =>
            seq(e2, k requires 0 <= k < e2 => FlatGet(s, e0, e1, e2, i, j, k))))))
  }

  /** Tensors of one shape with equal elements are equal. */
  lemma TensorExt(x: Tensor3, y: Tensor3)
    requires x.Valid() && y.Valid() && x.d0 == y.d0 && x.d1 == y.d1 && x.d2 == y.d2
    requires forall i, j, k | 0 <= i < x.d0 && 0 <= j < x.d1 && 0 <= k < x.d2 :: x.v[i][j][k] == y.v[i][j][k]
    ensures x == y
  {
    forall i | 0 <= i < x.d0 ensures x.v[i] == y.v[i] {
      forall j | 0 <= j < x.d1 ensures x.v[i][j] == y.v[i][j] {
        assert x.v[i][j] == y.v[i][j];
      }
    }
    assert x.v == y.v;
  }
}
