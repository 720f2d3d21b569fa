/** Row-major indexing: multi-indices and the cells of a flat buffer. */
module RowMajor {
  import opened Arithmetic

  // ----- shapes and indices -----

  function Size(dims: seq<nat>): nat {
    if dims == [] then 1 else dims[0] * Size(dims[1..])
  }

  ghost predicate InRange(idx: seq<int>, dims: seq<nat>) {
    |idx| == |dims| && forall i | 0 <= i < |idx| :: 0 <= idx[i] < dims[i]
  }

  /** The cell of a multi-index: the last index moves fastest. */
  function Flat(idx: seq<int>, dims: seq<nat>): int
    requires |idx| == |dims|
  {
    if dims == [] then 0 else idx[0] * Size(dims[1..]) + Flat(idx[1..], dims[1..])
  }

  /** The multi-index of a cell, by division and remainder. */
  function Digits(n: nat, dims: seq<nat>): (idx: seq<int>)
    requires n < Size(dims)
    ensures |idx| == |dims|
  {
    if dims == [] then []
    else
      var tail := dims[1..];
      var s := Size(tail);
      PositiveTail(dims);
      var split := Split(n, dims[0], s);
      [split.0] + Digits(split.1, tail)
  }

  lemma PositiveTail(dims: seq<nat>)
    requires dims != [] && Size(dims) > 0
    ensures dims[0] > 0 && Size(dims[1..]) > 0
  {
  }

  lemma DigitBounds(n: nat, d: nat, s: nat)
    requires s > 0 && n < d * s
    ensures n / s < d && n % s < s && n == n / s * s + n % s
  {
  }

  function Split(n: nat, d: nat, s: nat): (r: (nat, nat))
    requires s > 0 && n < d * s
    ensures r.0 < d && r.1 < s && n == r.0 * s + r.1
  {
    DigitBounds(n, d, s);
    (n / s, n % s)
  }

  // ----- the bijection -----

  /** In-range multi-indices land inside the buffer. */
  lemma {:induction false} FlatInBounds(idx: seq<int>, dims: seq<nat>)
    requires InRange(idx, dims)
    ensures 0 <= Flat(idx, dims) < Size(dims)
  {
    if dims != [] {
      FlatInBounds(idx[1..], dims[1..]);
      var s := Size(dims[1..]);
      MulMonotone(idx[0] + 1, dims[0], s);
      assert (idx[0] + 1) * s == idx[0] * s + s;
      MulMonotone(0, idx[0], s);
    }
  }

  /** Decomposing the cell of a multi-index gives the multi-index back. */
  lemma {:induction false} DigitsOfFlat(idx: seq<int>, dims: seq<nat>)
    requires InRange(idx, dims)
    ensures 0 <= Flat(idx, dims) < Size(dims) && Digits(Flat(idx, dims), dims) == idx
  {
    FlatInBounds(idx, dims);
    if dims != [] {
      DigitsOfFlat(idx[1..], dims[1..]);
      FlatInBounds(idx[1..], dims[1..]);
      PositiveTail(dims);
      DivMod(idx[0], Flat(idx[1..], dims[1..]), Size(dims[1..]));
      assert [idx[0]] + idx[1..] == idx;
    }
  }

  /** Every cell is the cell of its decomposition. */
  lemma {:induction false} FlatOfDigits(n: nat, dims: seq<nat>)
    requires n < Size(dims)
    ensures InRange(Digits(n, dims), dims) && Flat(Digits(n, dims), dims) == n
  {
    if dims != [] {
      PositiveTail(dims);
      var split := Split(n, dims[0], Size(dims[1..]));
      FlatOfDigits(split.1, dims[1..]);
      assert Digits(n, dims)[1..] == Digits(split.1, dims[1..]);
    }
  }

  /** Different in-range multi-indices have different cells. */
  lemma FlatInjective(a: seq<int>, b: seq<int>, dims: seq<nat>)
    requires InRange(a, dims) && InRange(b, dims) && Flat(a, dims) == Flat(b, dims)
    ensures a == b
  {
    DigitsOfFlat(a, dims);
    DigitsOfFlat(b, dims);
  }

  /** The first index in which they differ is smaller in a. */
  ghost predicate Before(a: seq<int>, b: seq<int>)
    requires |a| == |b|
  {
    exists i | 0 <= i < |a| :: a[..i] == b[..i] && a[i] < b[i]
  }

  lemma BeforeUnfolds(a: seq<int>, b: seq<int>)
    requires |a| == |b| && a != []
    ensures Before(a, b) <==> a[0] < b[0] || (a[0] == b[0] && Before(a[1..], b[1..]))
  {
    if i :| 0 <= i < |a| && a[..i] == b[..i] && a[i] < b[i] {
      if i > 0 {
        assert a[..i][0] == b[..i][0];
        assert a[1..][..i - 1] == a[..i][1..] && b[1..][..i - 1] == b[..i][1..];
        assert a[1..][i - 1] < b[1..][i - 1];
      }
    }
    if a[0] < b[0] {
      assert a[..0] == b[..0];
    }
    if a[0] == b[0] && Before(a[1..], b[1..]) {
      var i :| 0 <= i < |a[1..]| && a[1..][..i] == b[1..][..i] && a[1..][i] < b[1..][i];
      assert a[..i + 1] == [a[0]] + a[1..][..i] && b[..i + 1] == [b[0]] + b[1..][..i];
      assert a[i + 1] < b[i + 1];
    }
  }

  /** Row-major order: cells come in the order of their multi-indices, the last index moving fastest. */
  lemma {:induction false} FlatIsOrdered(a: seq<int>, b: seq<int>, dims: seq<nat>)
    requires InRange(a, dims) && InRange(b, dims)
    ensures Flat(a, dims) < Flat(b, dims) <==> Before(a, b)
  {
    if dims != [] {
      var s := Size(dims[1..]);
      FlatIsOrdered(a[1..], b[1..], dims[1..]);
      FlatInBounds(a[1..], dims[1..]);
      FlatInBounds(b[1..], dims[1..]);
      BeforeUnfolds(a, b);
      if a[0] < b[0] {
        RowsApart(a[0], b[0], Flat(a[1..], dims[1..]), Flat(b[1..], dims[1..]), s);
      } else if a[0] > b[0] {
        RowsApart(b[0], a[0], Flat(b[1..], dims[1..]), Flat(a[1..], dims[1..]), s);
      }
    }
  }

  lemma RowsApart(x: int, y: int, u: int, v: int, s: nat)
    requires 0 <= x < y && 0 <= u < s && 0 <= v
    ensures x * s + u < y * s + v
  {
    MulMonotone(x + 1, y, s);
    assert (x + 1) * s == x * s + s;
  }

  // ----- the stride loop -----

  lemma {:induction false} FlatSuffix(idx: seq<int>, dims: seq<nat>, i: nat)
    requires |idx| == |dims| && i < |dims|
    ensures Flat(idx[i..], dims[i..]) == idx[i] * Size(dims[i + 1..]) + Flat(idx[i + 1..], dims[i + 1..])
    ensures Size(dims[i..]) == dims[i] * Size(dims[i + 1..])
  {
  }

  /** The loop from the last dimension to the first. Any indices are accepted, in range or not; too
      few are an error. */
  method FlatIndex(idx: seq<int>, dims: seq<nat>) returns (flat: int, ok: bool)
    ensures ok <==> |idx| >= |dims|
    ensures ok ==> flat == Flat(idx[..|dims|], dims)
  {
    flat, ok := 0, true;
    var stride := 1;
    var i := |dims|;
    while i > 0
      invariant 0 <= i <= |dims| && (i < |dims| ==> |idx| >= |dims|)
      invariant stride == Size(dims[i..])
      invariant |idx| >= |dims| ==> flat == Flat(idx[..|dims|][i..], dims[i..])
    {
      i := i - 1;
      if i >= |idx| {
        return 0, false;
      }
      if |idx| >= |dims| {
        FlatSuffix(idx[..|dims|], dims, i);
      }
      flat := flat + idx[i] * stride;
      stride := stride * dims[i];
    }
    if |idx| >= |dims| {
      assert idx[..|dims|][0..] == idx[..|dims|] && dims[0..] == dims;
    }
  }

  // ----- tensors as arrays -----

  /** The position an int index selects in a buffer of n cells: negative ones count from the end. */
  function Position(n: nat, i: int): int {
    if i < 0 then i + n else i
  }

  datatype Access<T> = Cell(value: T) | IndexError

  class Tensor<T> {
    const shape: seq<nat>
    const data: array<T>

    constructor (data: array<T>, shape: seq<nat>)
      ensures this.data == data && this.shape == shape
    {
      this.data, this.shape := data, shape;
    }

    /** The buffer holds one cell for every multi-index. */
    ghost predicate Allocated() {
      data.Length == Size(shape)
    }

    /** The tensor as a map from in-range multi-indices. */
    ghost function At(idx: seq<int>): T
      requires Allocated() && InRange(idx, shape)
      reads data
    {
      FlatInBounds(idx, shape);
      data[Flat(idx, shape)]
    }

    /** The buffer position an access goes to, if it goes through. */
    method Locate(idx: seq<int>) returns (pos: int, ok: bool)
      ensures ok <==> |idx| >= |shape| && 0 <= Position(data.Length, Flat(idx[..|shape|], shape)) < data.Length
      ensures ok ==> pos == Position(data.Length, Flat(idx[..|shape|], shape))
    {
      pos, ok := FlatIndex(idx, shape);
      if ok {
        pos := Position(data.Length, pos);
        ok := 0 <= pos < data.Length;
      }
    }

    method GetItem(idx: seq<int>) returns (r: Access<T>)
      ensures r.Cell? <==> |idx| >= |shape| && -data.Length <= Flat(idx[..|shape|], shape) < data.Length
      ensures r.Cell? ==> var cell := Flat(idx[..|shape|], shape);
        r.value == if cell >= 0 then data[cell] else data[data.Length + cell]
      ensures Allocated() && InRange(idx, shape) ==> r == Cell(At(idx))
    {
      var pos, ok := Locate(idx);
      r := if ok then Cell(data[pos]) else IndexError;
      if Allocated() && InRange(idx, shape) {
        FlatInBounds(idx, shape);
        assert idx[..|shape|] == idx;
      }
    }

    /** Setting an in-range multi-index changes the tensor there and nowhere else. */
    method SetItem(idx: seq<int>, value: T) returns (ok: bool)
      modifies data
      ensures ok <==> |idx| >= |shape| && -data.Length <= Flat(idx[..|shape|], shape) < data.Length
      ensures ok ==> var cell := Flat(idx[..|shape|], shape);
        data[..] == old(data[..])[if cell >= 0 then cell else data.Length + cell := value]
      ensures !ok ==> data[..] == old(data[..])
      ensures Allocated() && InRange(idx, shape) ==> ok && At(idx) == value
      ensures Allocated() && InRange(idx, shape) ==>
        forall other | InRange(other, shape) && other != idx :: At(other) == old(At(other))
    {
      var pos: int;
      pos, ok := Locate(idx);
      if ok {
        data[pos] := value;
      }
      if Allocated() && InRange(idx, shape) {
        FlatInBounds(idx, shape);
        assert idx[..|shape|] == idx;
        forall other | InRange(other, shape) && other != idx
          ensures At(other) == old(At(other))
        {
          FlatInBounds(other, shape);
          if Flat(other, shape) == pos {
            FlatInjective(other, idx, shape);
          }
        }
      }
    }
  }

  /** Multi-indices out of range are not rejected as such: an access fails exactly when its flat cell
      is outside the buffer, and row 0, column 5 of a 2 by 3 tensor is row 1, column 2. */
  lemma OutOfRangeAliases()
    ensures !InRange([0, 5], [2, 3]) && Flat([0, 5], [2, 3]) == Flat([1, 2], [2, 3]) && InRange([1, 2], [2, 3])
  {
    assert [2 as nat, 3][1..] == [3] && [3 as nat][1..] == [];
    assert Size([3]) == 3 && Size([2, 3]) == 6;
    assert [0, 5][1..] == [5] && [1, 2][1..] == [2];
    assert Flat([5], [3]) == 5 && Flat([2], [3]) == 2;
  }

  // ----- the verifier's index -----

  /** The same loop in the verifier's 64-bit arithmetic, which skips the last stride update. */
  method VerifierIndex(idx: seq<int>, dims: seq<nat>) returns (flat: nat)
    requires |idx| == |dims|
    ensures flat == Flat(idx, dims) % 0x1_0000_0000_0000_0000
  {
    flat := 0;
    var stride := 1;
    var i := |dims|;
    while i > 0
      invariant 0 <= i <= |dims|
      invariant i > 0 ==> stride == Size(dims[i..]) % 0x1_0000_0000_0000_0000
      invariant flat == Flat(idx[i..], dims[i..]) % 0x1_0000_0000_0000_0000
    {
      i := i - 1;
      FlatSuffix(idx, dims, i);
      ModOfProduct(idx[i], Size(dims[i + 1..]), 0x1_0000_0000_0000_0000);
      ModOfSum(Flat(idx[i + 1..], dims[i + 1..]), idx[i] * Size(dims[i + 1..]), 0x1_0000_0000_0000_0000);
      var term := idx[i] * stride % 0x1_0000_0000_0000_0000;
      flat := (flat + term) % 0x1_0000_0000_0000_0000;
      if i > 0 {
        ModOfProduct(dims[i], Size(dims[i + 1..]), 0x1_0000_0000_0000_0000);
        stride := stride * dims[i] % 0x1_0000_0000_0000_0000;
      }
    }
    assert idx[0..] == idx && dims[0..] == dims;
  }

  lemma ModOfProduct(a: int, b: int, m: nat)
    requires m > 0
    ensures a * (b % m) % m == a * b % m && (b % m) * a % m == b * a % m
  {
    var q := b / m;
    assert b == q * m + b % m;
    assert a * b == a * (b % m) + (a * q) * m;
    ModShift(a * (b % m), a * q, m);
  }

  lemma ModOfSum(a: int, b: int, m: nat)
    requires m > 0
    ensures (a % m + b % m) % m == (a + b) % m
  {
    assert a == (a / m) * m + a % m && b == (b / m) * m + b % m;
    ModShift(a % m + b % m, a / m + b / m, m);
    assert a + b == a % m + b % m + (a / m + b / m) * m;
  }

  /** For tensors that fit a signed 64-bit index the verifier selects the cell the program does. */
  lemma VerifierIndexIsCell(idx: seq<int>, dims: seq<nat>)
    requires InRange(idx, dims) && Size(dims) <= 0x8000_0000_0000_0000
    ensures Flat(idx, dims) % 0x1_0000_0000_0000_0000 == Flat(idx, dims) < 0x8000_0000_0000_0000
  {
    FlatInBounds(idx, dims);
  }
}
