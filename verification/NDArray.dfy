/** Multi-dimensional arrays whose innermost rows are padded to the vector width:
    sizes, offsets and truncation, in 64-bit arithmetic. */
module NDArray {
  import opened Wrappers
  import opened Bits

  function Wrap(x: nat): nat { x % WORD }

  // ----- products of shapes -----

  function Product(shape: seq<nat>): nat
  {
    if shape == [] then 1 else shape[0] * Product(shape[1..])
  }

  lemma ProductFrom(shape: seq<nat>, i: nat)
    requires i < |shape|
    ensures Product(shape[i..]) == shape[i] * Product(shape[i + 1..])
  {
    assert shape[i..][1..] == shape[i + 1..];
  }

  predicate Fitting(shape: seq<nat>)
  {
    forall i | 0 <= i <= |shape| :: Product(shape[i..]) <= SIZE_MAX
  }

  /** The overflow test by division is exact. */
  lemma DivisionDetectsOverflow(a: nat, b: nat)
    requires b != 0
    ensures a > SIZE_MAX / b <==> a * b > SIZE_MAX
  {
    var q, r := SIZE_MAX / b, SIZE_MAX % b;
    assert SIZE_MAX == q * b + r;
    if a > q { MulMonotone(b, q + 1, a); } else { MulMonotone(b, a, q); }
  }

  lemma WrapSmall(x: nat)
    requires x <= SIZE_MAX
    ensures Wrap(x) == x
  {
  }

  /** One axis more: the overflow test is exact, and passing it the product is. */
  lemma AxisStep(shape: seq<nat>, axis: nat, size: nat)
    requires axis < |shape| && size == Product(shape[axis + 1..]) <= SIZE_MAX
    ensures shape[axis] != 0 ==> (size > SIZE_MAX / shape[axis] <==> Product(shape[axis..]) > SIZE_MAX)
    ensures shape[axis] == 0 || Product(shape[axis..]) <= SIZE_MAX ==>
      Wrap(size * shape[axis]) == Product(shape[axis..]) <= SIZE_MAX
  {
    hide Product;
    ProductFrom(shape, axis);
    if shape[axis] != 0 { DivisionDetectsOverflow(size, shape[axis]); }
    if size * shape[axis] <= SIZE_MAX { WrapSmall(size * shape[axis]); }
  }

  /** None is an abort: some product of trailing axes does not fit. */
  method ComputeSizes(shape: seq<nat>) returns (r: Option<seq<nat>>)
    ensures r.Some? <==> Fitting(shape)
    ensures r.Some? ==> |r.value| == |shape| + 1 && forall i | 0 <= i <= |shape| :: r.value[i] == Product(shape[i..])
  {
    var axis := |shape|;
    var sizes := seq(axis + 1, _ => 0);
    sizes := sizes[axis := 1];
    while axis > 0
      invariant 0 <= axis <= |shape| && |sizes| == |shape| + 1
      invariant forall i | axis <= i <= |shape| :: sizes[i] == Product(shape[i..]) <= SIZE_MAX
    {
      hide Product, Wrap;
      axis := axis - 1;
      AxisStep(shape, axis, sizes[axis + 1]);
      if shape[axis] != 0 {
        if sizes[axis + 1] > SIZE_MAX / shape[axis] {
          assert Product(shape[axis..]) > SIZE_MAX;
          return None;
        }
      }
      sizes := sizes[axis := Wrap(sizes[axis + 1] * shape[axis])];
    }
    return Some(sizes);
  }

  lemma {:induction false} ProductMonotone(a: seq<nat>, b: seq<nat>)
    requires |a| == |b| && forall i | 0 <= i < |a| :: a[i] <= b[i]
    ensures Product(a) <= Product(b)
  {
    if a != [] {
      ProductMonotone(a[1..], b[1..]);
      MulMonotone(a[0], Product(a[1..]), Product(b[1..]));
      MulMonotone(Product(b[1..]), a[0], b[0]);
    }
  }

  // ----- rounding up -----

  function DivCeil(a: nat, b: nat): nat
    requires b > 0
  {
    Wrap(a + b - 1) / b
  }

  function RoundUpTo(what: nat, align: nat): nat
    requires align > 0
  {
    Wrap(DivCeil(what, align) * align)
  }

  /** The next multiple, or zero if the addition wraps around. */
  lemma RoundUpMeaning(what: nat, align: nat)
    requires 0 < align <= SIZE_MAX && what <= SIZE_MAX
    ensures what + align - 1 > SIZE_MAX ==> RoundUpTo(what, align) == 0
    ensures what + align - 1 <= SIZE_MAX ==>
              what <= RoundUpTo(what, align) < what + align && RoundUpTo(what, align) % align == 0
  {
    var sum := what + align - 1;
    if sum > SIZE_MAX {
      ModuloUnique(sum, WORD, 1, sum - WORD);
      ModuloUnique(sum - WORD, align, 0, sum - WORD);
    } else {
      LargestMultiple(sum, align);
      WrapSmall(sum);
      WrapSmall(sum / align * align);
    }
  }

  /** The shape in memory: the innermost axis rounded up. */
  function Padded(shape: seq<nat>, vectorBytes: nat): seq<nat>
    requires shape != [] && vectorBytes > 0
  {
    shape[|shape| - 1 := RoundUpTo(shape[|shape| - 1], vectorBytes)]
  }

  lemma {:induction false} ZeroAxis(shape: seq<nat>, i: nat)
    requires i < |shape| && shape[i] == 0
    ensures Product(shape) == 0
  {
    if i > 0 { ZeroAxis(shape[1..], i - 1); }
  }

  /** `m` is `shape` with the innermost axis raised to the least multiple that covers it. */
  predicate PaddedTo(shape: seq<nat>, m: seq<nat>, vectorBytes: nat)
    requires shape != [] && vectorBytes > 0
  {
    var n := |shape| - 1;
    |m| == |shape| && m[..n] == shape[..n] && shape[n] <= m[n] < shape[n] + vectorBytes && m[n] % vectorBytes == 0
  }

  /** There is one such shape, and padding finds it unless the addition wraps around;
      then nothing is left to allocate. */
  lemma PaddingCovers(shape: seq<nat>, m: seq<nat>, vectorBytes: nat)
    requires shape != [] && 0 < vectorBytes <= SIZE_MAX && shape[|shape| - 1] <= SIZE_MAX
    ensures shape[|shape| - 1] + vectorBytes - 1 <= SIZE_MAX ==>
      (m == Padded(shape, vectorBytes) <==> PaddedTo(shape, m, vectorBytes))
    ensures shape[|shape| - 1] + vectorBytes - 1 > SIZE_MAX ==> Product(Padded(shape, vectorBytes)) == 0
  {
    hide Product, RoundUpTo;
    var n, padded := |shape| - 1, Padded(shape, vectorBytes);
    RoundUpMeaning(shape[n], vectorBytes);
    if shape[n] + vectorBytes - 1 > SIZE_MAX {
      ZeroAxis(padded, n);
    } else {
      assert padded[..n] == shape[..n];
      if PaddedTo(shape, m, vectorBytes) {
        LeastMultipleUnique(shape[n], vectorBytes, m[n], padded[n]);
        assert forall i | 0 <= i < n :: m[i] == m[..n][i] == shape[..n][i] == padded[i];
      }
    }
  }

  lemma LeastMultipleUnique(x: nat, m: nat, a: nat, b: nat)
    requires m > 0 && x <= a < x + m && x <= b < x + m && a % m == 0 && b % m == 0
    ensures a == b
  {
    var i, j := a / m, b / m;
    assert a == m * i && b == m * j;
    if i < j { MulMonotone(m, i + 1, j); }
    if j < i { MulMonotone(m, j + 1, i); }
  }

  // ----- offsets -----

  /** One index per axis but the innermost, each inside its axis. */
  predicate InRange(indices: seq<nat>, shape: seq<nat>)
  {
    |shape| == |indices| + 1 && forall i | 0 <= i < |indices| :: indices[i] < shape[i]
  }

  function OffsetOf(indices: seq<nat>, shape: seq<nat>): nat
    requires |shape| == |indices| + 1
  {
    if indices == [] then 0 else indices[0] * Product(shape[1..]) + OffsetOf(indices[1..], shape[1..])
  }

  function Inner(shape: seq<nat>): nat
    requires shape != []
  {
    shape[|shape| - 1]
  }

  lemma Nested(i: nat, m: nat, size: nat, x: nat)
    requires i < m && x <= size
    ensures i * size + x <= m * size
  {
    MulMonotone(size, i + 1, m);
  }

  /** The last row still fits. */
  lemma {:induction false} RowInside(indices: seq<nat>, shape: seq<nat>)
    requires InRange(indices, shape)
    ensures OffsetOf(indices, shape) + Inner(shape) <= Product(shape)
  {
    if indices == [] {
      assert Product(shape[1..]) == 1;
    } else {
      RowInside(indices[1..], shape[1..]);
      Nested(indices[0], shape[0], Product(shape[1..]), OffsetOf(indices[1..], shape[1..]) + Inner(shape));
    }
  }

  lemma {:induction false} EarlierRow(a: seq<nat>, b: seq<nat>, shape: seq<nat>)
    requires InRange(a, shape) && InRange(b, shape) && a != [] && a[0] < b[0]
    ensures OffsetOf(a, shape) + Inner(shape) <= OffsetOf(b, shape)
  {
    RowInside(a[1..], shape[1..]);
    Nested(a[0], b[0], Product(shape[1..]), OffsetOf(a[1..], shape[1..]) + Inner(shape));
  }

  /** The order in which nested loops over the axes come to the indices. */
  predicate Before(a: seq<nat>, b: seq<nat>)
    requires |a| == |b|
  {
    a != [] && (a[0] < b[0] || (a[0] == b[0] && Before(a[1..], b[1..])))
  }

  lemma {:induction false} OneIsBefore(a: seq<nat>, b: seq<nat>)
    requires |a| == |b| && a != b
    ensures Before(a, b) || Before(b, a)
  {
    if a[0] == b[0] {
      assert a == [a[0]] + a[1..] && b == [b[0]] + b[1..];
      OneIsBefore(a[1..], b[1..]);
    }
  }

  /** Rows lie in row-major order, at least one padded row apart. */
  lemma {:induction false} RowMajor(a: seq<nat>, b: seq<nat>, shape: seq<nat>)
    requires InRange(a, shape) && InRange(b, shape) && Before(a, b)
    ensures OffsetOf(a, shape) + Inner(shape) <= OffsetOf(b, shape)
  {
    if a[0] < b[0] { EarlierRow(a, b, shape); } else { RowMajor(a[1..], b[1..], shape[1..]); }
  }

  /** So rows of different indices do not meet. */
  lemma RowsApart(a: seq<nat>, b: seq<nat>, shape: seq<nat>)
    requires InRange(a, shape) && InRange(b, shape) && a != b
    ensures OffsetOf(a, shape) + Inner(shape) <= OffsetOf(b, shape)
         || OffsetOf(b, shape) + Inner(shape) <= OffsetOf(a, shape)
  {
    OneIsBefore(a, b);
    if Before(a, b) { RowMajor(a, b, shape); } else { RowMajor(b, a, shape); }
  }

  lemma Regroup(a: nat, n: nat, r: nat, k: nat)
    ensures a * (n * k) + r * k == (a * n + r) * k
  {
    assert a * (n * k) == (a * n) * k;
  }

  /** Products and offsets count whole padded rows. */
  lemma {:induction false} WholeRows(indices: seq<nat>, shape: seq<nat>) returns (rows: nat, all: nat)
    requires |shape| == |indices| + 1
    ensures OffsetOf(indices, shape) == rows * Inner(shape) && Product(shape) == all * Inner(shape)
  {
    if indices == [] {
      rows, all := 0, 1;
      assert Product(shape[1..]) == 1;
    } else {
      var r, n := WholeRows(indices[1..], shape[1..]);
      rows, all := indices[0] * n + r, shape[0] * n;
      Regroup(indices[0], n, r, Inner(shape));
      Regroup(shape[0], n, 0, Inner(shape));
    }
  }

  lemma PaddedIsWithin(shape: seq<nat>, m: seq<nat>, vectorBytes: nat)
    requires shape != [] && vectorBytes > 0 && PaddedTo(shape, m, vectorBytes)
    ensures Within(shape, m) && Inner(m) % vectorBytes == 0
  {
    assert forall i | 0 <= i < |shape| - 1 :: shape[i] == shape[..|shape| - 1][i] == m[..|shape| - 1][i];
  }

  predicate Within(shape: seq<nat>, memoryShape: seq<nat>)
  {
    |shape| == |memoryShape| && forall i | 0 <= i < |shape| :: shape[i] <= memoryShape[i]
  }

  /** The rows of an array lie inside its buffer, start on whole padded rows, and
      overlap only when they are the same row. */
  lemma RowsLaidOut(a: seq<nat>, b: seq<nat>, shape: seq<nat>, memoryShape: seq<nat>)
    requires InRange(a, shape) && InRange(b, shape) && Within(shape, memoryShape)
    ensures OffsetOf(a, memoryShape) + Inner(shape) <= Product(memoryShape)
    ensures Inner(memoryShape) > 0 ==> OffsetOf(a, memoryShape) % Inner(memoryShape) == 0
    ensures a != b ==>
      var x, y := OffsetOf(a, memoryShape), OffsetOf(b, memoryShape);
      x + Inner(shape) <= y || y + Inner(shape) <= x
  {
    hide Product, OffsetOf;
    RowInside(a, memoryShape);
    var rows, all := WholeRows(a, memoryShape);
    if Inner(memoryShape) > 0 { ModuloUnique(rows * Inner(memoryShape), Inner(memoryShape), rows, 0); }
    if a != b { RowsApart(a, b, memoryShape); }
  }

  /** One step of the sum; what is left to add is less than the axis holds. */
  lemma OffsetStep(indices: seq<nat>, shape: seq<nat>, i: nat)
    requires |shape| == |indices| + 1 && i < |indices|
    ensures OffsetOf(indices[i..], shape[i..]) ==
      Product(shape[i + 1..]) * indices[i] + OffsetOf(indices[i + 1..], shape[i + 1..])
    ensures 0 <= Product(shape[i + 1..]) * indices[i]
    ensures indices[i] < shape[i] ==>
      Product(shape[i + 1..]) * indices[i] + Product(shape[i + 1..]) <= Product(shape[i..])
  {
    assert indices[i..][1..] == indices[i + 1..] && shape[i..][1..] == shape[i + 1..];
    ProductFrom(shape, i);
    if indices[i] < shape[i] { Nested(indices[i], shape[i], Product(shape[i + 1..]), Product(shape[i + 1..])); }
  }

  lemma OffsetEnd(indices: seq<nat>, shape: seq<nat>)
    requires |shape| == |indices| + 1
    ensures OffsetOf(indices[|indices|..], shape[|indices|..]) == 0
  {
  }

  lemma InRangeAt(indices: seq<nat>, shape: seq<nat>, i: nat)
    requires i < |indices| && i < |shape|
    ensures InRange(indices, shape) ==> indices[i] < shape[i]
  {
  }

  lemma AllInRange(indices: seq<nat>, shape: seq<nat>)
    requires |shape| == |indices| + 1 && forall i | 0 <= i < |indices| :: indices[i] < shape[i]
    ensures InRange(indices, shape)
  {
  }

  lemma SmallerFits(a: seq<nat>, b: seq<nat>)
    requires |a| == |b| && Fitting(b) && forall i | 0 <= i < |a| :: a[i] <= b[i]
    ensures Fitting(a)
  {
    forall i | 0 <= i <= |a| ensures Product(a[i..]) <= SIZE_MAX { ProductMonotone(a[i..], b[i..]); }
  }

  /** Part of a buffer: elements `start` up to `start + length`. */
  datatype Span = Span(start: nat, length: nat)

  class AlignedNDArray {
    const vectorBytes: nat
    var shape: seq<nat>
    var memoryShape: seq<nat>
    var sizes: seq<nat>
    var memorySizes: seq<nat>

    ghost predicate Valid()
      reads this
    {
      && shape != [] && 0 < vectorBytes <= SIZE_MAX && Within(shape, memoryShape)
      && Fitting(shape) && Fitting(memoryShape) && Inner(memoryShape) % vectorBytes == 0
      && |sizes| == |memorySizes| == |shape| + 1
      && (forall i | 0 <= i <= |shape| :: sizes[i] == Product(shape[i..]))
      && (forall i | 0 <= i <= |shape| :: memorySizes[i] == Product(memoryShape[i..]))
    }

    constructor (shape: seq<nat>, memoryShape: seq<nat>, sizes: seq<nat>, memorySizes: seq<nat>, vectorBytes: nat)
      ensures this.shape == shape && this.memoryShape == memoryShape && this.sizes == sizes
      ensures this.memorySizes == memorySizes && this.vectorBytes == vectorBytes
    {
      this.shape, this.memoryShape, this.sizes, this.memorySizes := shape, memoryShape, sizes, memorySizes;
      this.vectorBytes := vectorBytes;
    }

    /** Null is an abort: a size overflows, or there is nothing to allocate. */
    static method Create(shape: seq<nat>, vectorBytes: nat) returns (a: AlignedNDArray?)
      requires shape != [] && 0 < vectorBytes <= SIZE_MAX && forall i | 0 <= i < |shape| :: shape[i] <= SIZE_MAX
      ensures a != null <==>
        && Fitting(shape) && shape[|shape| - 1] + vectorBytes - 1 <= SIZE_MAX
        && exists m :: PaddedTo(shape, m, vectorBytes) && Fitting(m) && Product(m) != 0
      ensures a != null ==> fresh(a) && a.Valid() && a.shape == shape && a.vectorBytes == vectorBytes
      ensures a != null ==> PaddedTo(shape, a.memoryShape, vectorBytes)
    {
      hide Product, Padded, PaddedTo, RoundUpTo;
      forall m ensures shape[|shape| - 1] + vectorBytes - 1 <= SIZE_MAX ==>
          (m == Padded(shape, vectorBytes) <==> PaddedTo(shape, m, vectorBytes))
      {
        PaddingCovers(shape, m, vectorBytes);
      }
      var sizes := ComputeSizes(shape);
      if sizes.None? { return null; }
      var memoryShape := Padded(shape, vectorBytes);
      var memorySizes := ComputeSizes(memoryShape);
      if memorySizes.None? { return null; }
      assert memoryShape[0..] == memoryShape;
      if memorySizes.value[0] == 0 { return null; }
      PaddingCovers(shape, memoryShape, vectorBytes);
      PaddedIsWithin(shape, memoryShape, vectorBytes);
      a := new AlignedNDArray(shape, memoryShape, sizes.value, memorySizes.value, vectorBytes);
    }

    /** None is an abort: an index outside its axis. */
    method Offset(indices: seq<nat>) returns (r: Option<nat>)
      requires Valid() && |indices| == |shape| - 1
      ensures r.Some? <==> InRange(indices, shape)
      ensures r.Some? ==> r.value == OffsetOf(indices, memoryShape)
    {
      hide Product, OffsetOf, Wrap, InRange;
      var offset: nat := 0;
      assert indices[0..] == indices && memoryShape[0..] == memoryShape;
      assert Product(memoryShape[0..]) <= SIZE_MAX;
      OffsetEnd(indices, memoryShape);
      for i := 0 to |indices|
        invariant forall j | 0 <= j < i :: indices[j] < shape[j]
        invariant offset + Product(memoryShape[i..]) <= Product(memoryShape)
        invariant offset + OffsetOf(indices[i..], memoryShape[i..]) == OffsetOf(indices, memoryShape)
      {
        InRangeAt(indices, shape, i);
        if indices[i] >= shape[i] { return None; }
        OffsetStep(indices, memoryShape, i);
        assert memorySizes[i + 1] == Product(memoryShape[i + 1..]);
        WrapSmall(offset + memorySizes[i + 1] * indices[i]);
        offset := Wrap(offset + memorySizes[i + 1] * indices[i]);
      }
      AllInRange(indices, shape);
      return Some(offset);
    }

    /** Where the row at `indices` lies. */
    ghost function SpanOf(indices: seq<nat>): Span
      requires Valid() && |indices| == |shape| - 1
      reads this
    {
      Span(OffsetOf(indices, memoryShape), Inner(shape))
    }

    method Row(indices: seq<nat>) returns (r: Option<Span>)
      requires Valid() && |indices| == |shape| - 1
      ensures r.Some? <==> InRange(indices, shape)
      ensures r.Some? ==> r.value == SpanOf(indices) == Span(OffsetOf(indices, memoryShape), shape[|shape| - 1])
    {
      var offset := Offset(indices);
      if offset.None? { return None; }
      return Some(Span(offset.value, sizes[|indices|]));
    }

    /** Shrinks the array in place; the memory stays as it was laid out. */
    method Truncate(newShape: seq<nat>)
      requires Valid() && |newShape| == |shape| && forall i | 0 <= i < |shape| :: newShape[i] <= shape[i]
      modifies this`shape, this`sizes
      ensures Valid() && shape == newShape
      ensures forall indices | InRange(indices, shape) :: InRange(indices, old(shape)) &&
                SpanOf(indices).start == old(SpanOf(indices)).start &&
                SpanOf(indices).length <= old(SpanOf(indices)).length
    {
      SmallerFits(newShape, shape);
      var newSizes := ComputeSizes(newShape);
      shape := newShape;
      sizes := newSizes.value;
    }
  }
}
