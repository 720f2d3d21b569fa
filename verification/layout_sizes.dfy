/** What sizes and offsets are for: every part of a value has its own aligned room, and no byte more is
    taken than alignment asks for. Said without the rounding arithmetic. */
module LayoutSizes {
  import opened Arithmetic
  import opened Layout

  /** n is the first multiple of a at or after from. */
  ghost predicate First(n: nat, from: nat, a: nat)
    requires a > 0
  {
    n % a == 0 && from <= n && forall m: nat | m % a == 0 && from <= m :: n <= m
  }

  lemma RoundUpIsFirst(from: nat, a: nat)
    requires IsPow2(a)
    ensures a > 0 && First(RoundUp(from, a), from, a)
  {
    RoundUpIsLeast(from, a, 0);
    hide RoundUp;
    forall m: nat | m % a == 0 && from <= m
      ensures RoundUp(from, a) <= m
    {
      RoundUpIsLeast(from, a, m);
    }
  }

  // ----- alignment -----

  /** a is the greatest alignment of the types, or one where there is none greater. */
  ghost predicate Greatest(layouts: Layouts, ts: seq<Type>, a: nat, rank: string -> nat)
    requires Acyclic(layouts, rank)
  {
    && a >= 1 && (forall t | t in ts :: Align(layouts, t, rank) <= a)
    && (a == 1 || exists t | t in ts :: Align(layouts, t, rank) == a)
  }

  lemma {:induction false} MaxAlignIsGreatest(layouts: Layouts, ts: seq<Type>, rank: string -> nat)
    requires Acyclic(layouts, rank)
    ensures Greatest(layouts, ts, MaxAlign(layouts, ts, rank), rank)
    decreases |ts|
  {
    if ts != [] {
      var front, last := ts[..|ts| - 1], ts[|ts| - 1];
      MaxAlignIsGreatest(layouts, front, rank);
      assert ts == front + [last] && last in ts;
      hide Align, Acyclic;
    }
  }

  // ----- optionals and enums -----

  /** A value that is a tag byte and, from p on, any one of the payloads: everything fits, and in no
      smaller size of that alignment. */
  ghost predicate TaggedRoom(size: nat, a: nat, payloads: iset<nat>)
    requires a > 0
  {
    exists p: nat :: First(p, 1, a) && RoomFrom(p, size, a, payloads)
  }

  ghost predicate RoomFrom(p: nat, size: nat, a: nat, payloads: iset<nat>)
    requires a > 0
  {
    && size % a == 0 && p <= size && (forall s | s in payloads :: p + s <= size)
    && forall m: nat | m % a == 0 && p <= m && (forall s | s in payloads :: p + s <= m) :: size <= m
  }

  lemma TaggedHasRoom(payload: nat, a: nat, payloads: iset<nat>)
    requires IsPow2(a) && (forall s | s in payloads :: s <= payload)
    requires payload == 0 || payload in payloads
    ensures a > 0 && TaggedRoom(TaggedSize(payload, a), a, payloads)
  {
    var p := RoundUp(1, a);
    RoundUpIsFirst(1, a);
    RoundUpIsFirst(p + payload, a);
    hide RoundUp, IsPow2;
    assert RoomFrom(p, TaggedSize(payload, a), a, payloads);
  }

  ghost function SizesOf(layouts: Layouts, ts: seq<Type>, rank: string -> nat): iset<nat>
    requires Acyclic(layouts, rank)
  {
    iset t | t in ts :: Size(layouts, t, rank)
  }

  lemma {:induction false} MaxSizeIsGreatest(layouts: Layouts, ts: seq<Type>, rank: string -> nat)
    requires Acyclic(layouts, rank)
    ensures forall s | s in SizesOf(layouts, ts, rank) :: s <= MaxSize(layouts, ts, rank)
    ensures MaxSize(layouts, ts, rank) == 0 || MaxSize(layouts, ts, rank) in SizesOf(layouts, ts, rank)
    decreases |ts|
  {
    if ts != [] {
      var front, last := ts[..|ts| - 1], ts[|ts| - 1];
      MaxSizeIsGreatest(layouts, front, rank);
      assert ts == front + [last] && last in ts;
      hide Size, Acyclic;
      assert Size(layouts, last, rank) in SizesOf(layouts, ts, rank);
      assert forall s | s in SizesOf(layouts, ts, rank) ::
        s in SizesOf(layouts, front, rank) || s == Size(layouts, last, rank);
      assert forall s | s in SizesOf(layouts, front, rank) :: s in SizesOf(layouts, ts, rank);
    }
  }

  // ----- fields in a row -----

  /** Each field starts at the first aligned offset after the one before it ends. */
  ghost predicate InARow(layouts: Layouts, ts: seq<Type>, size: nat, rank: string -> nat)
    requires Acyclic(layouts, rank)
  {
    && (forall i | 0 <= i < |ts| ::
          First(Offset(layouts, ts, i, rank), EndBefore(layouts, ts, i, rank), Align(layouts, ts[i], rank)))
    && First(size, EndBefore(layouts, ts, |ts|, rank), MaxAlign(layouts, ts, rank))
  }

  ghost function EndBefore(layouts: Layouts, ts: seq<Type>, i: nat, rank: string -> nat): nat
    requires Acyclic(layouts, rank) && i <= |ts|
  {
    if i == 0 then 0 else Offset(layouts, ts, i - 1, rank) + Size(layouts, ts[i - 1], rank)
  }

  lemma EndIsBefore(layouts: Layouts, ts: seq<Type>, i: nat, rank: string -> nat)
    requires Acyclic(layouts, rank) && i <= |ts|
    ensures End(layouts, ts[..i], rank) == EndBefore(layouts, ts, i, rank)
  {
    if i > 0 {
      hide Offset, Size, Acyclic, End;
      EndUnfolds(layouts, ts, i - 1, rank);
    } else {
      EndOfNone(layouts, ts, rank);
    }
  }

  lemma PaddedIsInARow(layouts: Layouts, ts: seq<Type>, rank: string -> nat)
    requires Acyclic(layouts, rank)
    ensures InARow(layouts, ts, PaddedSize(layouts, ts, rank), rank)
  {
    hide Acyclic, RoundUp, Size, Align, MaxAlign, IsPow2, First, End, EndBefore;
    forall i | 0 <= i < |ts|
      ensures First(Offset(layouts, ts, i, rank), EndBefore(layouts, ts, i, rank), Align(layouts, ts[i], rank))
    {
      EndIsBefore(layouts, ts, i, rank);
      AlignIsPow2(layouts, ts[i], rank);
      RoundUpIsFirst(End(layouts, ts[..i], rank), Align(layouts, ts[i], rank));
    }
    EndIsBefore(layouts, ts, |ts|, rank);
    assert ts[..|ts|] == ts;
    MaxAlignIsPow2(layouts, ts, rank);
    RoundUpIsFirst(End(layouts, ts, rank), MaxAlign(layouts, ts, rank));
  }

  // ----- every type -----

  /** The i-th of count elements is aligned and inside, and the last ends where the array does. */
  ghost predicate Elements(element: nat, a: nat, count: nat, size: nat)
    requires a > 0
  {
    && (forall i: nat | i < count :: Product(i, element) % a == 0 && Product(i, element) + element <= size)
    && (if count == 0 then size == 0 else Product(count - 1, element) + element == size)
  }

  lemma ElementsFit(element: nat, a: nat, count: nat)
    requires a > 0 && element % a == 0
    ensures Elements(element, a, count, Product(count, element))
  {
    forall i: nat | i < count
      ensures Product(i, element) % a == 0 && Product(i, element) + element <= Product(count, element)
    {
      MultipleOfScaled(i, element, a);
      MulMonotone(i + 1, count, element);
      assert (i + 1) * element == i * element + element;
    }
    if count > 0 {
      assert (count - 1 + 1) * element == (count - 1) * element + element;
    }
  }

  /** What the alignment and the size of each type are for. */
  ghost predicate LaidOut(layouts: Layouts, ty: Type, align: nat, size: nat, rank: string -> nat)
    requires Acyclic(layouts, rank)
  {
    match ty
    case Word(k) => align == size == Pow2(k)
    case Buffer => align == 8 && size == 16
    case Fixed(inner, count) =>
      align == Align(layouts, inner, rank) && Elements(Size(layouts, inner, rank), align, count, size)
    case Wrapped(inner) => align == Align(layouts, inner, rank) && size == Size(layouts, inner, rank)
    case Optional(inner) =>
      align == Align(layouts, inner, rank) && TaggedRoom(size, align, iset{Size(layouts, inner, rank)})
    case Tuple(ts) => Greatest(layouts, ts, align, rank) && InARow(layouts, ts, size, rank)
    case Record(s) =>
      if s !in layouts then align == 1 && size == 0
      else Greatest(layouts, TypesOf(layouts[s]), align, rank) && InARow(layouts, TypesOf(layouts[s]), size, rank)
    case Enum(s) =>
      if s !in layouts then align == 1 && size == 0
      else
        && Greatest(layouts, TypesOf(layouts[s]), align, rank)
        && TaggedRoom(size, align, SizesOf(layouts, TypesOf(layouts[s]), rank))
  }

  /** Every type is laid out with room for all its parts, and with no more than that. */
  lemma SizeHasRoom(layouts: Layouts, ty: Type, rank: string -> nat)
    requires Acyclic(layouts, rank)
    ensures LaidOut(layouts, ty, Align(layouts, ty, rank), Size(layouts, ty, rank), rank)
  {
    hide Elements, TaggedRoom, InARow, Greatest, TaggedSize, MaxSize, PaddedSize, SizesOf, Acyclic, Product, MaxAlign;
    match ty
    case Fixed(inner, count) =>
      SizeIsAligned(layouts, inner, rank);
      ElementsFit(Size(layouts, inner, rank), Align(layouts, inner, rank), count);
    case Optional(inner) =>
      AlignIsPow2(layouts, inner, rank);
      TaggedHasRoom(Size(layouts, inner, rank), Align(layouts, inner, rank), iset{Size(layouts, inner, rank)});
    case Tuple(ts) =>
      MaxAlignIsGreatest(layouts, ts, rank);
      PaddedIsInARow(layouts, ts, rank);
    case Record(s) =>
      if s in layouts {
        MaxAlignIsGreatest(layouts, TypesOf(layouts[s]), rank);
        PaddedIsInARow(layouts, TypesOf(layouts[s]), rank);
      }
    case Enum(s) =>
      if s in layouts {
        var ts := TypesOf(layouts[s]);
        MaxAlignIsGreatest(layouts, ts, rank);
        MaxAlignIsPow2(layouts, ts, rank);
        MaxSizeIsGreatest(layouts, ts, rank);
        TaggedHasRoom(MaxSize(layouts, ts, rank), MaxAlign(layouts, ts, rank), SizesOf(layouts, ts, rank));
      }
    case _ =>
  }

  // ----- leaves -----

  /** Going down the path of field numbers from a value of type ty at base ends at the leaf. */
  ghost predicate LeafAt(layouts: Layouts, ty: Type, base: nat, path: seq<nat>, leaf: Leaf, rank: string -> nat)
    requires Acyclic(layouts, rank)
    decreases |path|, 1, ty
  {
    match ty
    case Wrapped(inner) => LeafAt(layouts, inner, base, path, leaf, rank)
    case Record(s) => s in layouts && FieldLeafAt(layouts, TypesOf(layouts[s]), base, path, leaf, rank)
    case Tuple(ts) => FieldLeafAt(layouts, ts, base, path, leaf, rank)
    case _ => path == [] && leaf == (base, ty)
  }

  ghost predicate FieldLeafAt(layouts: Layouts, ts: seq<Type>, base: nat, path: seq<nat>, leaf: Leaf,
      rank: string -> nat)
    requires Acyclic(layouts, rank)
    decreases |path|, 0
  {
    && path != [] && path[0] < |ts|
    && LeafAt(layouts, ts[path[0]], base + Offset(layouts, ts, path[0], rank), path[1..], leaf, rank)
  }

  /** The flattened leaves are the fields that are no aggregates, at any depth, each at the sum of the
      offsets on the way to it. */
  lemma {:induction false} LeavesAreFields(layouts: Layouts, ty: Type, base: nat, leaf: Leaf, rank: string -> nat)
    requires Acyclic(layouts, rank)
    ensures leaf in Leaves(layouts, ty, base, rank) <==> exists path :: LeafAt(layouts, ty, base, path, leaf, rank)
    decreases RankOf(ty, rank), ty
  {
    if ty.Record? && ty.name in layouts {
      LeavesOfFields(layouts, TypesOf(layouts[ty.name]), base, leaf, rank);
      AggregatePaths(layouts, ty, TypesOf(layouts[ty.name]), base, leaf, rank);
    } else if ty.Tuple? {
      LeavesOfFields(layouts, ty.types, base, leaf, rank);
      AggregatePaths(layouts, ty, ty.types, base, leaf, rank);
    } else if ty.Wrapped? {
      LeavesAreFields(layouts, ty.inner, base, leaf, rank);
      WrappedPaths(layouts, ty.inner, base, leaf, rank);
    } else if !ty.Record? {
      LeafIsItself(layouts, ty, base, leaf, rank);
    }
  }

  lemma AggregatePaths(layouts: Layouts, ty: Type, ts: seq<Type>, base: nat, leaf: Leaf, rank: string -> nat)
    requires Acyclic(layouts, rank)
    requires (ty.Record? && ty.name in layouts && ts == TypesOf(layouts[ty.name])) || ty == Tuple(ts)
    ensures Leaves(layouts, ty, base, rank) == FieldLeaves(layouts, ts, base, rank)
    ensures (exists path :: LeafAt(layouts, ty, base, path, leaf, rank)) <==> LedTo(layouts, ts, |ts|, base, leaf, rank)
  {
    if path :| LeafAt(layouts, ty, base, path, leaf, rank) {
      assert FieldLeafAt(layouts, ts, base, path, leaf, rank);
    }
    if path :| FieldLeafAt(layouts, ts, base, path, leaf, rank) {
      assert LeafAt(layouts, ty, base, path, leaf, rank);
      assert exists p :: LeafAt(layouts, ty, base, p, leaf, rank);
    }
  }

  lemma WrappedPaths(layouts: Layouts, inner: Type, base: nat, leaf: Leaf, rank: string -> nat)
    requires Acyclic(layouts, rank)
    ensures (exists path :: LeafAt(layouts, Wrapped(inner), base, path, leaf, rank))
      <==> exists path :: LeafAt(layouts, inner, base, path, leaf, rank)
  {
    if path :| LeafAt(layouts, Wrapped(inner), base, path, leaf, rank) {
      assert LeafAt(layouts, inner, base, path, leaf, rank);
      assert exists p :: LeafAt(layouts, inner, base, p, leaf, rank);
    }
    if path :| LeafAt(layouts, inner, base, path, leaf, rank) {
      assert LeafAt(layouts, Wrapped(inner), base, path, leaf, rank);
      assert exists p :: LeafAt(layouts, Wrapped(inner), base, p, leaf, rank);
    }
  }

  lemma LeafIsItself(layouts: Layouts, ty: Type, base: nat, leaf: Leaf, rank: string -> nat)
    requires Acyclic(layouts, rank) && !ty.Record? && !ty.Tuple? && !ty.Wrapped?
    ensures leaf in Leaves(layouts, ty, base, rank) <==> exists path :: LeafAt(layouts, ty, base, path, leaf, rank)
  {
    assert Leaves(layouts, ty, base, rank) == [(base, ty)];
    var none: seq<nat> := [];
    if leaf == (base, ty) {
      assert LeafAt(layouts, ty, base, none, leaf, rank);
      assert exists path :: LeafAt(layouts, ty, base, path, leaf, rank);
    }
  }

  /** One of the first n fields leads to the leaf. */
  ghost predicate LedTo(layouts: Layouts, ts: seq<Type>, n: nat, base: nat, leaf: Leaf, rank: string -> nat)
    requires Acyclic(layouts, rank)
  {
    exists path :: FieldLeafAt(layouts, ts, base, path, leaf, rank) && path[0] < n
  }

  lemma {:induction false} LeavesOfFields(layouts: Layouts, ts: seq<Type>, base: nat, leaf: Leaf, rank: string -> nat)
    requires Acyclic(layouts, rank)
    ensures leaf in FieldLeaves(layouts, ts, base, rank) <==> LedTo(layouts, ts, |ts|, base, leaf, rank)
    decreases RankAll(ts, rank), ts, 1
  {
    LeavesOfPrefix(layouts, ts, |ts|, base, leaf, rank);
    assert ts[..|ts|] == ts;
  }

  lemma {:induction false} LeavesOfPrefix(layouts: Layouts, ts: seq<Type>, n: nat, base: nat, leaf: Leaf,
      rank: string -> nat)
    requires Acyclic(layouts, rank) && n <= |ts|
    ensures leaf in FieldLeaves(layouts, ts[..n], base, rank) <==> LedTo(layouts, ts, n, base, leaf, rank)
    decreases RankAll(ts, rank), ts, 0, n
  {
    if n > 0 {
      hide Offset, Acyclic, LeafAt, Leaves, FieldLeaves, RankOf, RankAll, FieldLeafAt, LedTo;
      var i := n - 1;
      LeavesOfPrefix(layouts, ts, i, base, leaf, rank);
      LeavesOfNext(layouts, ts, i, base, leaf, rank);
      RankInAll(ts, i, rank);
      var at := base + Offset(layouts, ts, i, rank);
      LeavesAreFields(layouts, ts[i], at, leaf, rank);
      LedToNext(layouts, ts, i, base, at, leaf, rank);
    }
  }

  lemma LeavesOfNext(layouts: Layouts, ts: seq<Type>, i: nat, base: nat, leaf: Leaf, rank: string -> nat)
    requires Acyclic(layouts, rank) && i < |ts|
    ensures leaf in FieldLeaves(layouts, ts[..i + 1], base, rank)
      <==> (leaf in FieldLeaves(layouts, ts[..i], base, rank)
            || leaf in Leaves(layouts, ts[i], base + Offset(layouts, ts, i, rank), rank))
  {
    hide Offset, Acyclic, Leaves, FieldLeaves;
    FieldLeavesStep(layouts, ts, i, base, rank);
  }

  /** Paths whose first step is i are the paths from field i on. */
  lemma LedToNext(layouts: Layouts, ts: seq<Type>, i: nat, base: nat, at: nat, leaf: Leaf, rank: string -> nat)
    requires Acyclic(layouts, rank) && i < |ts| && at == base + Offset(layouts, ts, i, rank)
    ensures LedTo(layouts, ts, i + 1, base, leaf, rank)
      <==> (LedTo(layouts, ts, i, base, leaf, rank) || exists path :: LeafAt(layouts, ts[i], at, path, leaf, rank))
  {
    hide Offset, Acyclic, LeafAt;
    if path :| LeafAt(layouts, ts[i], at, path, leaf, rank) {
      var longer: seq<nat> := [i] + path;
      assert longer[0] == i && longer[1..] == path;
      assert FieldLeafAt(layouts, ts, base, longer, leaf, rank);
    }
    if path :| FieldLeafAt(layouts, ts, base, path, leaf, rank) && path[0] == i {
      assert LeafAt(layouts, ts[i], at, path[1..], leaf, rank);
      assert exists p :: LeafAt(layouts, ts[i], at, p, leaf, rank);
    }
  }

  // ----- two layouts -----

  lemma TupleOfNext(layouts: Layouts, ts: seq<Type>, t: Type, rank: string -> nat)
    requires Acyclic(layouts, rank)
    ensures End(layouts, ts + [t], rank)
      == RoundUp(End(layouts, ts, rank), Align(layouts, t, rank)) + Size(layouts, t, rank)
    ensures MaxAlign(layouts, ts + [t], rank) == Max(MaxAlign(layouts, ts, rank), Align(layouts, t, rank))
    ensures Size(layouts, Tuple(ts), rank) == RoundUp(End(layouts, ts, rank), MaxAlign(layouts, ts, rank))
  {
    hide RoundUp;
    assert (ts + [t])[..|ts|] == ts;
  }

  lemma WordAndOptional(layouts: Layouts, k: nat, rank: string -> nat)
    requires Acyclic(layouts, rank)
    ensures Size(layouts, Word(k), rank) == Align(layouts, Word(k), rank) == Pow2(k)
    ensures Size(layouts, Optional(Word(k)), rank) == RoundUp(RoundUp(1, Pow2(k)) + Pow2(k), Pow2(k))
  {
    hide RoundUp;
  }

  /** An optional 64-bit integer takes sixteen bytes; a byte, a 64-bit and a 16-bit field take 24. */
  lemma KnownLayouts(rank: string -> nat)
    ensures Acyclic(map[], rank) && Size(map[], Optional(Word(3)), rank) == 16
    ensures Size(map[], Tuple([Word(0), Word(3), Word(1)]), rank) == 24
  {
    hide Size, Align, End, MaxAlign, RoundUp;
    assert Pow2(0) == 1 && Pow2(1) == 2 && Pow2(3) == 8;
    RoundUpIs(1, 8);
    RoundUpIs(16, 8);
    RoundUpIs(0, 1);
    RoundUpIs(16, 2);
    RoundUpIs(18, 8);
    hide Pow2, IsPow2;
    WordAndOptional(map[], 0, rank);
    WordAndOptional(map[], 1, rank);
    WordAndOptional(map[], 3, rank);
    TupleOfNext(map[], [], Word(0), rank);
    TupleOfNext(map[], [Word(0)], Word(3), rank);
    TupleOfNext(map[], [Word(0), Word(3)], Word(1), rank);
    TupleOfNext(map[], [Word(0), Word(3), Word(1)], Word(1), rank);
    assert [] + [Word(0)] == [Word(0)] && [Word(0)] + [Word(3)] == [Word(0), Word(3)];
    assert [Word(0), Word(3)] + [Word(1)] == [Word(0), Word(3), Word(1)];
    NoFields(rank);
  }

  lemma NoFields(rank: string -> nat)
    ensures Acyclic(map[], rank) && End(map[], [], rank) == 0 && MaxAlign(map[], [], rank) == 1
  {
  }
}
