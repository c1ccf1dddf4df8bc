# WaveNet layer utilities: dilation, constant padding, dilated queue

This project models the integer and indexing core of `wavenet_modules.py`, the helper module of a PyTorch WaveNet. The model has three parts.

- **`dilate(x, dilation, init_dilation, pad_start)`** (module `Dilation`, `dilate.dfy`) re-lays a batch of shape (n, c, l). The input is laid out for `init_dilation`, and the output is laid out for `dilation`.
  - The length axis is zero-padded to a multiple of the dilation factor, at the start or at the end.
  - The data is then regrouped by `permute(1, 2, 0)`, `view(c, l', n')` and `permute(2, 0, 1)`.
  - Tensors are values: `Tensor3` in module `Tensors` (`tensors.dfy`) holds a shape and nested sequences. `Permute120`, `Permute201` and `View` model the three torch operations. `View` reads elements in row-major order.
- **`ConstantPad1d` / `constant_pad_1d`** (module `ConstantPad`, `constant_pad.dfy`) pad one axis to a target size with a fill value and crop the same region back out for the gradient.
  - `Pad` and `Crop` are the pure specification on one row.
  - `PadLast` pads every row of a three-dimensional tensor along its last axis, as `dilate` calls it.
  - The class `ConstantPad1d` is imperative, as in the source. `Forward` allocates a filled buffer and copies the input into the narrowed region. `Backward` allocates a zero buffer and copies the narrowed gradient into it. Both are proved against `Pad` and `Crop`.
- **`DilatedQueue`** (module `Queue`, `dilated_queue.dfy`) is a class over an `array2` of shape (channels, maxLength) with two circular cursors.
  - Python's slice semantics (negative bounds, clamping, steps) become explicit index-sequence functions: `SliceBound`, `Range` and `SliceIndices`.
  - `DequeueIndices` gives the columns that `dequeue` reads, and `CircularWindow` is the reference window they are proved equal to.

Module `Arith` (`arith.dfy`) holds the integer facts behind the shape arithmetic. Its main function is `CeilDiv`, an exact `math.ceil(a / b)` on naturals.

Python's float divisions in `dilate` (`dilation / init_dilation`, `l / dilation_factor`, and so on) are computed exactly on integers. The padded length is `floor(ceil(l * init / d) * d / init)`, the new length is `ceil(L * init / d)` and the new batch is `ceil(n * d / init)`. The results agree with the float computation whenever the float ratios are exact, for example when both dilations are powers of two, as in WaveNet. They need not agree otherwise: with `dilation = 1` and `init_dilation = 3` the float ratio `1/3` is already rounded. A zero `dilation` or `init_dilation` is Python's `ZeroDivisionError`. It is modelled as `Err(DivisionByZero)`.

The docstring of `dilate` describes the output as (dilation, C, L*N / dilation). The code returns shape (ceil(n * dilation / init_dilation), c, ceil(L * init_dilation / dilation)). The model follows the code.

## Model

| member | source | states |
|---|---|---|
| Arith.CeilDiv | wavenet_modules.py:31-32 | `ceil(a / b)`: the least `q` with `q * b >= a` (`q * b` lies in `[a, a + b)`) |
| Dilation.PaddedLength | wavenet_modules.py:24 | the padded length is never below the input length |
| Dilation.PaddedLengthDilating | wavenet_modules.py:24-27 | for a factor `k = dilation / init_dilation`, the padded length is `ceil(l / k) * k`: a multiple of `k`, in `[l, l + k)`, and equal to `l` exactly when `k` divides `l` (so padding happens iff `k` does not divide `l`) |
| Dilation.PaddedLengthIsLeast | wavenet_modules.py:24 | the padded length is the smallest multiple of the factor that is at least `l` |
| Dilation.PaddedLengthUndilating | wavenet_modules.py:24-27 | when `dilation` divides `init_dilation`, the padded length is `l`: undilating never pads |
| Dilation.PadTo | wavenet_modules.py:25-27 | padding to `new_l >= l` keeps batch and channels, has length `new_l`, and is the input itself when `new_l == l` |
| Dilation.PadToCopies | wavenet_modules.py:25-27 | the padded tensor holds the input at the pad offset: after the zeros when `pad_start`, before them otherwise |
| Dilation.PadToZeros | wavenet_modules.py:25-27 | every position of the padded tensor outside the copied region is zero |
| Dilation.PaddedInput | wavenet_modules.py:24-27 | the padded tensor keeps batch and channels, has the padded length, and is the input itself when no padding is needed |
| Dilation.DilatedLength | wavenet_modules.py:31 | the new length `ceil(L * init_dilation / dilation)`: the least `l'` with `l' * dilation >= L * init_dilation` |
| Dilation.DilatedBatch | wavenet_modules.py:32 | the new batch `ceil(n * dilation / init_dilation)`: the least `n'` with `n' * init_dilation >= n * dilation` |
| Dilation.Dilate | wavenet_modules.py:10-39 | every successful result is a well-formed tensor; its outcome and shape are stated by `DilateOutcome`, its elements by `DilateIndexMap` and its round trip by `DilateRoundTrip` |
| Dilation.DilateOutcome | wavenet_modules.py:18-37 | a zero dilation or init dilation fails with division by zero (and only then); equal dilations return the input unchanged; otherwise the result is the `view` failure or a tensor of shape (n', c, l') with the padded input's element count |
| Dilation.DilateUnfold | wavenet_modules.py:34-37 | a successful `dilate` with distinct dilations is `permute(2,0,1)` of the `view(c, l', n')` of `permute(1,2,0)` of the padded input |
| Dilation.DilateSourceInRange | wavenet_modules.py:31-37 | every output position `[a][ch][j]` has a source in the padded input: `f = j * n' + a` gives time `f / n < L` and batch `f % n < n` |
| Dilation.ViewPermuteAt | wavenet_modules.py:35-36 | `view(c, l', n')` of `permute(1, 2, 0)` of a tensor holds its element `[b][ch][t]` at `[ch][j][a]` whenever `t * n + b == j * n' + a` |
| Dilation.DilateIndexMap | wavenet_modules.py:31-37 | output `[a][ch][j]` equals padded input `[b][ch][t]` whenever `t * n + b == j * n' + a` |
| Dilation.DilatingSizes | wavenet_modules.py:24-32 | when dilating by a factor `k`, the padded length `L` is a multiple of `k`, `l' = L / k`, `n' = n * k`, and the element count is preserved |
| Dilation.DilateShapeDilating | wavenet_modules.py:18-37 | dilating by a factor `k` always succeeds, with shape (n * k, c, L / k) |
| Dilation.DilateShapeUndilating | wavenet_modules.py:18-37 | undilating by a factor `k > 1` does not pad; it succeeds exactly when `k` divides the batch size (or the tensor is empty), with shape (ceil(n / k), c, l * k) |
| Dilation.UndilatingSizes | wavenet_modules.py:31-32 | when undilating by a factor `k > 1`, `l' = l * k`, `n' = ceil(n / k)`, and the view's element count is `c * l` times `ceil(n / k) * k` |
| Dilation.UndilateCount | wavenet_modules.py:36 | the element counts `c * l * n` and `c * l * ceil(n / k) * k` agree exactly when `c * l == 0` or `k` divides `n` |
| Dilation.RoundTripShape | wavenet_modules.py:10-39 | dilating then undilating restores the padded input's shape (n, c, L) |
| Dilation.RoundTripAt | wavenet_modules.py:10-39 | dilating then undilating puts each padded input element `[b][ch][t]` back at `[b][ch][t]` |
| Dilation.DilateRoundTrip | wavenet_modules.py:10-39 | `dilate(dilate(x, d, i), i, d)` succeeds and equals `x` zero-padded to a multiple of the factor |
| Dilation.DilateRoundTripExact | wavenet_modules.py:10-39 | when the factor divides the length, the round trip returns `x` exactly |
| Tensors.Permute120 | wavenet_modules.py:35 | `permute(1, 2, 0)`: shape (d1, d2, d0) and `r[j][k][i] == x[i][j][k]` |
| Tensors.Permute201 | wavenet_modules.py:37 | `permute(2, 0, 1)`: shape (d2, d0, d1) and `r[k][i][j] == x[i][j][k]` |
| Tensors.FlatAt | wavenet_modules.py:35-36 | in the contiguous row-major layout, element `[i][j][k]` sits at offset `(i * d1 + j) * d2 + k` |
| Tensors.View | wavenet_modules.py:36 | `view(e0, e1, e2)` succeeds iff the element count is unchanged, and then reads the row-major elements under the new shape |
| Tensors.TensorExt | wavenet_modules.py:36-37 | tensors of one shape with equal elements are equal |
| ConstantPad.Offset | wavenet_modules.py:100-103 | the start of the narrowed region lies within the fill count: it is `num_pad` (after all the fill) exactly when padding at the start, and 0 exactly when padding at the end (the two coincide when nothing is padded) |
| ConstantPad.Pad | wavenet_modules.py:88-106 | forward on a row succeeds iff the target is at least the input length (else `PadTooShort`); the output has the target length, the input at the pad offset (`num_pad` when `pad_start`, else 0) and `value` everywhere else |
| ConstantPad.Crop | wavenet_modules.py:108-119 | backward on a row keeps `|g| - num_pad` entries, those of the narrowed region |
| ConstantPad.CropPad | wavenet_modules.py:88-119 | `backward(forward(x)) == x` for the same target size and `pad_start` |
| ConstantPad.PadCrop | wavenet_modules.py:88-119 | padding the cropped gradient with zeros restores it on the copied region and gives zeros on the fill region: the gradient flows only where the input was copied |
| ConstantPad.PadPositions | wavenet_modules.py:96-105 | a buffer of the target size holding `value` outside the narrowed region and the input inside it is the padded row |
| ConstantPad.PadLast | wavenet_modules.py:27 | `constant_pad_1d(x, new_l, dimension=2, ...)`: fails with `PadTooShort` iff the target is below the length; otherwise batch and channels are unchanged and the length is the target |
| ConstantPad.PadLastRows | wavenet_modules.py:27 | every row of the padded tensor along the last axis is `Pad` of the input row |
| ConstantPad.PadLastCopies | wavenet_modules.py:27 | every input element reappears in its row, shifted by the copy offset |
| ConstantPad.PadLastFills | wavenet_modules.py:27 | every position outside the copied region holds the fill value |
| ConstantPad.ConstantPad1d.constructor | wavenet_modules.py:81-86 | records target size, value and `pad_start`; no forward pass has happened |
| ConstantPad.ConstantPad1d.Forward | wavenet_modules.py:88-106 | records `num_pad = target - |input|`; fails with `PadTooShort` iff it is negative; otherwise records the input size and returns a fresh buffer equal to `Pad(input, ...)` |
| ConstantPad.ConstantPad1d.Backward | wavenet_modules.py:108-119 | returns a fresh buffer of the recorded input size equal to `Crop(gradOutput, num_pad, pad_start)` |
| ConstantPad.ApplyConstantPad1d | wavenet_modules.py:122-127 | `constant_pad_1d` equals `Pad` on the row: success iff the target is at least the input length |
| Queue.SliceBound | wavenet_modules.py:65-69 | a normalised slice bound lies in `[0, len]` |
| Queue.Range | wavenet_modules.py:65-69 | the strided positions `lo, lo + step, ...` below `hi`: `ceil((hi - lo) / step)` of them, element `k` equal to `lo + k * step` |
| Queue.SliceIndices | wavenet_modules.py:65-69 | every position a slice selects is inside the axis |
| Queue.DequeueIndices | wavenet_modules.py:63-69 | every column `dequeue` reads is inside the buffer |
| Queue.DequeueNoWrap | wavenet_modules.py:68-69 | when `start >= 0`, the single strided slice is the circular window |
| Queue.WrapSplit | wavenet_modules.py:64-66 | when `start < 0`, the tail slice has `m1 = ceil(-start / dilation)` entries, and the second slice starts at `out_pos % dilation == start + m1 * dilation` and has `num_deq - m1` entries |
| Queue.WrapSlices | wavenet_modules.py:64-66 | when `-max_length <= start < 0`, the columns read are those of `data[start + max_length::dilation]` followed by those of `data[out_pos % dilation : out_pos + 1 : dilation]` |
| Queue.HeadAgrees | wavenet_modules.py:65 | every entry of the first slice is the window position of the same rank |
| Queue.TailAgrees | wavenet_modules.py:66 | entry `k - m1` of the second slice is window position `k`, for every `k` from `m1` to `num_deq - 1` |
| Queue.WrapHead | wavenet_modules.py:65 | entry `k < m1` of `data[start::dilation]` is the window position `(out_pos - (num_deq-1-k) * dilation) mod max_length` |
| Queue.WrapTail | wavenet_modules.py:66 | entry `k - m1` of `data[out_pos % dilation : out_pos + 1 : dilation]` is window position `k` |
| Queue.DequeueWrap | wavenet_modules.py:64-67 | when `-max_length <= start < 0`, the concatenated slices are the circular window |
| Queue.DequeueWindow | wavenet_modules.py:59-72 | for `start >= -max_length`, both branches read exactly `num_deq` columns, at the circular positions `(out_pos - (num_deq-1-k) * dilation) mod max_length`, k = 0..num_deq-1 |
| Queue.DequeueBeyondCapacity | wavenet_modules.py:63-67 | below `-max_length` the slice start is clamped: on a 2-column buffer `dequeue(4, 1)` at `out_pos == 0` reads columns [0, 1, 0], while the window is [1, 0, 1, 0] |
| Queue.Gather | wavenet_modules.py:65-69 | `data[:, idx]`: one row per channel, `|idx|` entries per row, entry `k` of channel `ch` equal to `data[ch][idx[k]]` |
| Queue.GatherConcat | wavenet_modules.py:65-67 | `torch.cat((t1, t2), 1)` of two column selections is the selection of the concatenated columns |
| Queue.DilatedQueue.constructor | wavenet_modules.py:43-53 | a new queue has a fresh all-zero (channels, max_length) buffer and both cursors at 0 |
| Queue.DilatedQueue.FromBuffer | wavenet_modules.py:43-52 | a queue over a buffer the caller supplies shares that buffer; both cursors start at 0 |
| Queue.DilatedQueue.Enqueue | wavenet_modules.py:55-57 | writes the input into column `in_pos` only, leaves every other column and `out_pos` unchanged, and sets `in_pos := (in_pos + 1) % max_length` |
| Queue.DilatedQueue.Columns | wavenet_modules.py:65-69 | `data[:, idx]` reads the listed columns of every channel |
| Queue.DilatedQueue.Slices | wavenet_modules.py:63-69 | both branches of `dequeue` (two slices joined by `torch.cat`, or one slice) read exactly the columns `DequeueIndices` names, without changing the queue |
| Queue.DilatedQueue.Dequeue | wavenet_modules.py:59-72 | returns the columns `DequeueIndices` names, and the circular window whenever `start >= -max_length`; leaves the buffer and `in_pos` unchanged and sets `out_pos := (out_pos + 1) % max_length` |
| Queue.DilatedQueue.Reset | wavenet_modules.py:74-77 | replaces the buffer with a fresh all-zero one and sets both cursors to 0 |

## Left out

- `discretized_mix_logistic_loss`, `sample_from_discretized_mix_logistic`, `log_sum_exp`, `log_prob_from_logits` and `to_one_hot` are not part of this model. They are floating-point numerics, random sampling and device placement, with no exact specification.
- Float rounding: `dilate` divides as Python floats. The model computes the same quantities exactly on integers, so it does not capture rounding error when the ratios are not exact.
- Tensor elements are `real` values that are only moved. dtype, device, `Variable` wrapping, autograd `Function` registration and `contiguous()` memory layout are not modelled. `contiguous()` is the row-major order `View` reads.
- ConstantPad1d: the `dimension` argument is not modelled in general. The class works on one row (a 1-D tensor), and `PadLast` pads the last axis of a three-dimensional tensor, the only axis `dilate` uses.
- ConstantPad.ConstantPad1d.Forward: a failing forward pass is an `Err` result rather than an `AssertionError`. Python would not record `input_size` in that case; the model keeps the old value.
- Queue.DilatedQueue.Enqueue: torch broadcasting of `input` into the column is not modelled. The input is exactly one value per channel.
- Queue.DilatedQueue.Enqueue, Dequeue: they require `max_length > 0`, and Dequeue also requires `dilation > 0`. With those values the source raises (`% 0`, a zero slice step, or an index into an empty axis), so no error path is modelled for them.
- Queue.DilatedQueue: the `dtype` argument is not modelled; the buffer always holds `real` values. The stored `num_deq` and `dilation` are kept as fields but only recorded. `dequeue` takes its own arguments, as in the source.
- Queue.DilatedQueue.Dequeue: the model returns a copy of the columns read, as a `seq`. In the branch without wrap-around the source returns a strided view that shares storage with the buffer, so a later `enqueue` would change the tensor the caller holds. That aliasing is not captured; the wrap branch's `torch.cat` is a copy in the source too.
- Queue.DilatedQueue.FromBuffer: the supplied buffer must have shape (num_channels, max_length). The source accepts any tensor as `data`, and its negative slices would then count from that tensor's own width.
