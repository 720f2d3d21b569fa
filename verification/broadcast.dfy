/** The broadcast kernel: a flat loop over the target that recovers each cell's multi-index by
    division and reads the source through strides that are zero where a dimension is stretched. */
module Broadcast {
  import opened Arithmetic
  import opened RowMajor

  // ----- what broadcasting means -----

  /** Target axis k is aligned from the right with this source axis; negative when there is none. */
  function AxisOf(source: seq<nat>, target: seq<nat>, k: nat): int {
    k - |target| + |source|
  }

  /** The source multi-index behind a target multi-index: along an axis of equal size the same
      coordinate, along any other axis coordinate 0. */
  function Project(idx: seq<int>, target: seq<nat>, source: seq<nat>): (p: seq<int>)
    requires |idx| == |target|
    ensures |p| == |source|
  {
    seq(|source|, i requires 0 <= i < |source| =>
      var k := i - |source| + |target|;
      if k >= 0 && source[i] == target[k] then idx[k] else 0)
  }

  predicate Positive(dims: seq<nat>) {
    forall i | 0 <= i < |dims| :: dims[i] > 0
  }

  /** Right-aligned, every source axis has the target's size or size one. */
  ghost predicate Compatible(source: seq<nat>, target: seq<nat>) {
    |source| <= |target| && forall i | 0 <= i < |source| ::
      source[i] == target[i - |source| + |target|] || source[i] == 1
  }

  /** Every read is inside the source. */
  lemma ProjectInRange(idx: seq<int>, target: seq<nat>, source: seq<nat>)
    requires InRange(idx, target) && Positive(source)
    ensures InRange(Project(idx, target, source), source)
  {
  }

  /** Along compatible shapes only axes of size one are stretched: an axis of any other size keeps its
      coordinate. */
  lemma CompatibleProjects(idx: seq<int>, target: seq<nat>, source: seq<nat>, i: nat)
    requires InRange(idx, target) && Compatible(source, target) && i < |source|
    ensures Project(idx, target, source)[i] == if source[i] == 1 then 0 else idx[i - |source| + |target|]
  {
  }

  // ----- strides -----

  function Strides(dims: seq<nat>): (s: seq<nat>)
    ensures |s| == |dims| && forall i | 0 <= i < |dims| :: s[i] == Size(dims[i + 1..])
  {
    seq(|dims|, i requires 0 <= i < |dims| => Size(dims[i + 1..]))
  }

  function StrideAt(source: seq<nat>, target: seq<nat>, k: nat): nat
    requires k < |target|
  {
    var i := AxisOf(source, target, k);
    if i >= 0 && source[i] == target[k] then Size(source[i + 1..]) else 0
  }

  function BroadcastStrides(source: seq<nat>, target: seq<nat>): (s: seq<nat>)
    ensures |s| == |target| && forall k | 0 <= k < |target| :: s[k] == StrideAt(source, target, k)
  {
    seq(|target|, k requires 0 <= k < |target| => StrideAt(source, target, k))
  }

  function Dot(a: seq<int>, b: seq<nat>): int
    requires |a| == |b|
  {
    if a == [] then 0 else a[0] * b[0] + Dot(a[1..], b[1..])
  }

  lemma {:induction false} DotAppend(a: seq<int>, b: seq<nat>, i: nat)
    requires |a| == |b| && i < |a|
    ensures Dot(a[..i + 1], b[..i + 1]) == Dot(a[..i], b[..i]) + a[i] * b[i]
    decreases i
  {
    if i > 0 {
      DotAppend(a[1..], b[1..], i - 1);
      assert a[..i + 1][1..] == a[1..][..i] && b[..i + 1][1..] == b[1..][..i];
      assert a[..i][1..] == a[1..][..i - 1] && b[..i][1..] == b[1..][..i - 1];
    }
  }

  /** A target axis without a source axis adds nothing. */
  lemma DropTarget(idx: seq<int>, target: seq<nat>, source: seq<nat>)
    requires |idx| == |target| > |source|
    ensures Dot(idx, BroadcastStrides(source, target)) == Dot(idx[1..], BroadcastStrides(source, target[1..]))
    ensures Project(idx[1..], target[1..], source) == Project(idx, target, source)
  {
    assert BroadcastStrides(source, target)[1..] == BroadcastStrides(source, target[1..]);
  }

  /** A source axis without a target axis has coordinate zero. */
  lemma DropSource(idx: seq<int>, target: seq<nat>, source: seq<nat>)
    requires |idx| == |target| < |source|
    ensures BroadcastStrides(source[1..], target) == BroadcastStrides(source, target)
    ensures Project(idx, target, source)[1..] == Project(idx, target, source[1..])
      && Project(idx, target, source)[0] == 0
  {
  }

  lemma DropBoth(idx: seq<int>, target: seq<nat>, source: seq<nat>)
    requires |idx| == |target| == |source| > 0
    ensures BroadcastStrides(source, target)[1..] == BroadcastStrides(source[1..], target[1..])
    ensures Project(idx, target, source)[1..] == Project(idx[1..], target[1..], source[1..])
    ensures idx[0] * BroadcastStrides(source, target)[0] == Project(idx, target, source)[0] * Size(source[1..])
  {
  }

  /** The strided sum over the target's coordinates is the source cell of the projected index. */
  lemma {:induction false} DotIsFlat(idx: seq<int>, target: seq<nat>, source: seq<nat>)
    requires |idx| == |target|
    ensures Dot(idx, BroadcastStrides(source, target)) == Flat(Project(idx, target, source), source)
    decreases |source| + |target|
  {
    hide BroadcastStrides, Project, StrideAt, Size;
    if |target| > |source| {
      DropTarget(idx, target, source);
      DotIsFlat(idx[1..], target[1..], source);
    } else if |source| > |target| {
      DropSource(idx, target, source);
      DotIsFlat(idx, target, source[1..]);
    } else if source != [] {
      DropBoth(idx, target, source);
      DotIsFlat(idx[1..], target[1..], source[1..]);
    }
  }

  // ----- the kernel -----

  method SizeOf(dims: seq<nat>) returns (total: nat)
    ensures total == Size(dims)
  {
    total := 1;
    for i := 0 to |dims|
      invariant total * Size(dims[i..]) == Size(dims)
    {
      assert dims[i..][1..] == dims[i + 1..];
      MulAssociates(total, dims[i], Size(dims[i + 1..]));
      total := total * dims[i];
    }
  }

  lemma MulAssociates(a: int, b: int, c: int)
    ensures a * b * c == a * (b * c)
  {
  }

  method SourceStrides(dims: seq<nat>) returns (strides: seq<nat>)
    ensures strides == Strides(dims)
  {
    strides := seq(|dims|, i => 1);
    var i := |dims| - 1;
    while i > 0
      invariant -1 <= i < |dims| && |strides| == |dims| && (|dims| > 0 ==> i >= 0)
      invariant forall k | i <= k < |dims| && k >= 0 :: strides[k] == Size(dims[k + 1..])
    {
      assert dims[i..][1..] == dims[i + 1..] && dims[i..][0] == dims[i];
      strides := strides[i - 1 := strides[i] * dims[i]];
      i := i - 1;
    }
  }

  method TargetStrides(source: seq<nat>, target: seq<nat>) returns (strides: seq<nat>)
    ensures strides == BroadcastStrides(source, target)
  {
    var sourceStrides := SourceStrides(source);
    strides := seq(|target|, i => 0);
    for i := 0 to |target|
      invariant |strides| == |target|
      invariant forall k | 0 <= k < |target| - i :: strides[k] == 0
      invariant forall k | |target| - i <= k < |target| :: strides[k] == StrideAt(source, target, k)
    {
      var t := |target| - 1 - i;
      var s := |source| - 1 - i;
      if s >= 0 {
        if source[s] == target[t] {
          strides := strides[t := sourceStrides[s]];
        } else if source[s] == 1 {
          strides := strides[t := 0];
        }
      }
    }
  }

  /** One step of the decomposition: the next coordinate and what is left. */
  lemma NextDigit(n: nat, target: seq<nat>, j: nat, rest: nat)
    requires n < Size(target) && j < |target| && rest < Size(target[j..])
      && Digits(rest, target[j..]) == Digits(n, target)[j..]
    ensures Size(target[j + 1..]) > 0 && target[j] > 0
    ensures Size(target[j..]) / target[j] == Size(target[j + 1..])
    ensures rest / Size(target[j + 1..]) == Digits(n, target)[j]
    ensures rest % Size(target[j + 1..]) < Size(target[j + 1..])
    ensures Digits(rest % Size(target[j + 1..]), target[j + 1..]) == Digits(n, target)[j + 1..]
  {
    var tail := target[j..];
    assert tail[1..] == target[j + 1..] && tail[0] == target[j];
    PositiveTail(tail);
    var s := Size(tail[1..]);
    ExactQuotient(target[j], s);
    DigitsUnfold(rest, tail);
    assert Digits(n, target)[j + 1..] == Digits(n, target)[j..][1..];
  }

  lemma ExactQuotient(d: nat, s: nat)
    requires d > 0
    ensures d * s / d == s
  {
    DivMod(s, 0, d);
  }

  lemma DigitsUnfold(n: nat, dims: seq<nat>)
    requires dims != [] && n < Size(dims) && Size(dims[1..]) > 0
    ensures var s := Size(dims[1..]);
      n % s < s && Digits(n, dims)[0] == n / s && Digits(n, dims)[1..] == Digits(n % s, dims[1..])
  {
  }

  /** The source offset of one target cell. */
  method SourceOffset(n: nat, target: seq<nat>, strides: seq<nat>, total: nat) returns (offset: int)
    requires total == Size(target) && n < total && |strides| == |target|
    ensures offset == Dot(Digits(n, target), strides)
  {
    ghost var digits := Digits(n, target);
    var rest := n;
    var stride := total;
    offset := 0;
    assert target[0..] == target && digits[0..] == digits;
    for j := 0 to |target|
      invariant stride == Size(target[j..]) && rest < stride
      invariant Digits(rest, target[j..]) == digits[j..]
      invariant offset == Dot(digits[..j], strides[..j])
    {
      NextDigit(n, target, j, rest);
      DotAppend(digits, strides, j);
      stride := stride / target[j];
      var dim := rest / stride;
      offset := offset + dim * strides[j];
      rest := rest % stride;
    }
    assert digits[..|target|] == digits && strides[..|target|] == strides;
  }

  /** The cell of the source that cell n of the target shows. */
  function SourceCell(n: nat, source: seq<nat>, target: seq<nat>): (c: nat)
    requires n < Size(target) && Positive(source)
    ensures c < Size(source)
  {
    FlatOfDigits(n, target);
    ProjectInRange(Digits(n, target), target, source);
    FlatInBounds(Project(Digits(n, target), target, source), source);
    Flat(Project(Digits(n, target), target, source), source)
  }

  lemma OffsetIsCell(n: nat, source: seq<nat>, target: seq<nat>)
    requires n < Size(target) && Positive(source)
    ensures Dot(Digits(n, target), BroadcastStrides(source, target)) == SourceCell(n, source, target)
  {
    DotIsFlat(Digits(n, target), target, source);
  }

  /** x is what cell n of the target shows. */
  ghost predicate Shows<T>(source: seq<T>, sourceDims: seq<nat>, targetDims: seq<nat>, n: nat, x: T)
    requires |source| == Size(sourceDims)
  {
    Positive(sourceDims) && n < Size(targetDims) && x == source[SourceCell(n, sourceDims, targetDims)]
  }

  /** An empty source is read only for an empty target. */
  ghost predicate CanRead(source: seq<nat>, target: seq<nat>) {
    Size(target) > 0 ==> Positive(source)
  }

  /** Compatible shapes are of this kind, with sizes of zero too. */
  lemma CompatibleCanRead(source: seq<nat>, target: seq<nat>)
    requires Compatible(source, target)
    ensures CanRead(source, target)
  {
    if Size(target) > 0 {
      PositiveFactors(target);
    }
  }

  /** A tensor with cells has no axis of size zero. */
  lemma {:induction false} PositiveFactors(dims: seq<nat>)
    requires Size(dims) > 0
    ensures Positive(dims)
  {
    if dims != [] {
      assert Size(dims) == dims[0] * Size(dims[1..]);
      assert dims[0] > 0 && Size(dims[1..]) > 0;
      PositiveFactors(dims[1..]);
    }
  }

  /** The kernel: target cell n gets the source cell at the projection of n's multi-index; cells are
      written once each, in order, and every read is inside the source. */
  method BroadcastTensor<T>(source: array<T>, sourceDims: seq<nat>, targetDims: seq<nat>, fill: T)
      returns (dest: array<T>, ghost writes: seq<nat>)
    requires CanRead(sourceDims, targetDims) && source.Length == Size(sourceDims)
    ensures fresh(dest) && dest.Length == Size(targetDims)
    ensures forall n | 0 <= n < dest.Length :: Shows(source[..], sourceDims, targetDims, n, dest[n])
    ensures |writes| == dest.Length && forall n | 0 <= n < |writes| :: writes[n] == n
  {
    hide Size, SourceCell, Digits, Dot, BroadcastStrides, Positive;
    var total := SizeOf(targetDims);
    dest := new T[total](_ => fill);
    var strides := TargetStrides(sourceDims, targetDims);
    writes := [];
    for n := 0 to total
      invariant forall k | 0 <= k < n :: Shows(source[..], sourceDims, targetDims, k, dest[k])
      invariant |writes| == n && forall k | 0 <= k < n :: writes[k] == k
    {
      assert Positive(sourceDims);
      OffsetIsCell(n, sourceDims, targetDims);
      var offset := SourceOffset(n, targetDims, strides, total);
      dest[n] := source[offset];
      writes := writes + [n];
    }
  }

  /** Seen through multi-indices: for every in-range target multi-index the broadcast tensor shows the
      source at the projected multi-index. */
  lemma BroadcastShows<T>(source: seq<T>, dest: seq<T>, sourceDims: seq<nat>, targetDims: seq<nat>, idx: seq<int>)
    requires CanRead(sourceDims, targetDims) && |source| == Size(sourceDims) && |dest| == Size(targetDims)
    requires forall n | 0 <= n < |dest| :: Shows(source, sourceDims, targetDims, n, dest[n])
    requires InRange(idx, targetDims)
    ensures Positive(sourceDims) && InRange(Project(idx, targetDims, sourceDims), sourceDims)
    ensures 0 <= Flat(idx, targetDims) < |dest|
    ensures 0 <= Flat(Project(idx, targetDims, sourceDims), sourceDims) < |source|
    ensures dest[Flat(idx, targetDims)] == source[Flat(Project(idx, targetDims, sourceDims), sourceDims)]
  {
    FlatInBounds(idx, targetDims);
    DigitsOfFlat(idx, targetDims);
    ProjectInRange(idx, targetDims, sourceDims);
    var n := Flat(idx, targetDims);
    assert Shows(source, sourceDims, targetDims, n, dest[n]);
    FlatInBounds(Project(idx, targetDims, sourceDims), sourceDims);
  }
}
