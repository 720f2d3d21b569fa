/** Byte layout of by-value types: alignment, size, padding, flattened leaves and field offsets. */
module Layout {
  import opened Arithmetic

  // ----- types -----

  /** Types by what decides their layout: `Word` for everything that takes one or more machine bytes
      aligned to its size, `Buffer` for a pointer and a length, `Record` for structs, typed dicts and
      named tuples, `Wrapped` for refined and literal types, and `Enum` for tagged unions. */
  datatype Type =
    | Word(log2: nat)
    | Buffer
    | Fixed(inner: Type, count: nat)
    | Record(name: string)
    | Tuple(types: seq<Type>)
    | Wrapped(inner: Type)
    | Optional(inner: Type)
    | Enum(name: string)

  type Field = (string, Type)

  type Layouts = map<string, seq<Field>>

  /** One more than the highest rank of a name that ty contains by value. */
  ghost function RankOf(ty: Type, rank: string -> nat): nat {
    match ty
    case Record(s) => rank(s) + 1
    case Enum(s) => rank(s) + 1
    case Tuple(ts) => RankAll(ts, rank)
    case Fixed(inner, _) => RankOf(inner, rank)
    case Wrapped(inner) => RankOf(inner, rank)
    case Optional(inner) => RankOf(inner, rank)
    case _ => 0
  }

  ghost function RankAll(ts: seq<Type>, rank: string -> nat): nat {
    if ts == [] then 0 else Max(RankAll(ts[..|ts| - 1], rank), RankOf(ts[|ts| - 1], rank))
  }

  /** No type contains itself by value. */
  ghost predicate Acyclic(layouts: Layouts, rank: string -> nat) {
    forall name | name in layouts :: RankAll(TypesOf(layouts[name]), rank) <= rank(name)
  }

  function TypesOf(fields: seq<Field>): (ts: seq<Type>)
    ensures |ts| == |fields| && forall i | 0 <= i < |ts| :: ts[i] == fields[i].1
  {
    seq(|fields|, i requires 0 <= i < |fields| => fields[i].1)
  }

  // ----- rounding up -----

  /** x & !y on the bits of naturals. */
  function AndNot(x: nat, y: nat): nat {
    if x == 0 then 0 else 2 * AndNot(x / 2, y / 2) + (if x % 2 == 1 && y % 2 == 0 then 1 else 0)
  }

  function RoundUp(offset: nat, align: nat): nat
    requires align > 0
  {
    AndNot(offset + align - 1, align - 1)
  }

  ghost predicate IsPow2(a: nat) {
    exists k :: a == Pow2(k)
  }

  // ----- alignment and size -----

  function Max(a: nat, b: nat): nat {
    if b > a then b else a
  }

  function Align(layouts: Layouts, ty: Type, ghost rank: string -> nat): (a: nat)
    requires Acyclic(layouts, rank)
    ensures a > 0
    decreases RankOf(ty, rank), ty
  {
    match ty
    case Word(k) => Pow2(k)
    case Buffer => 8
    case Fixed(inner, _) => Align(layouts, inner, rank)
    case Record(s) => if s in layouts then MaxAlign(layouts, TypesOf(layouts[s]), rank) else 1
    case Enum(s) => if s in layouts then MaxAlign(layouts, TypesOf(layouts[s]), rank) else 1
    case Tuple(ts) => MaxAlign(layouts, ts, rank)
    case Wrapped(inner) => Align(layouts, inner, rank)
    case Optional(inner) => Align(layouts, inner, rank)
  }

  function MaxAlign(layouts: Layouts, ts: seq<Type>, ghost rank: string -> nat): (a: nat)
    requires Acyclic(layouts, rank)
    ensures a > 0
    decreases RankAll(ts, rank), ts
  {
    if ts == [] then 1
    else Max(MaxAlign(layouts, ts[..|ts| - 1], rank), Align(layouts, ts[|ts| - 1], rank))
  }

  function Size(layouts: Layouts, ty: Type, ghost rank: string -> nat): nat
    requires Acyclic(layouts, rank)
    decreases RankOf(ty, rank), ty
  {
    match ty
    case Word(k) => Pow2(k)
    case Buffer => 16
    case Fixed(inner, count) => Product(count, Size(layouts, inner, rank))
    case Record(s) => if s in layouts then PaddedSize(layouts, TypesOf(layouts[s]), rank) else 0
    case Tuple(ts) => PaddedSize(layouts, ts, rank)
    case Wrapped(inner) => Size(layouts, inner, rank)
    case Optional(inner) => TaggedSize(Size(layouts, inner, rank), Align(layouts, inner, rank))
    case Enum(s) => if s in layouts then EnumSize(layouts, TypesOf(layouts[s]), rank) else 0
  }

  function Product(a: nat, b: nat): nat {
    a * b
  }

  /** A one-byte tag followed by an aligned payload. */
  function TaggedSize(payload: nat, align: nat): nat
    requires align > 0
  {
    RoundUp(RoundUp(1, align) + payload, align)
  }

  function PaddedSize(layouts: Layouts, ts: seq<Type>, ghost rank: string -> nat): nat
    requires Acyclic(layouts, rank)
    decreases RankAll(ts, rank), ts, 1
  {
    RoundUp(End(layouts, ts, rank), MaxAlign(layouts, ts, rank))
  }

  function EnumSize(layouts: Layouts, ts: seq<Type>, ghost rank: string -> nat): nat
    requires Acyclic(layouts, rank)
    decreases RankAll(ts, rank), ts, 1
  {
    TaggedSize(MaxSize(layouts, ts, rank), MaxAlign(layouts, ts, rank))
  }

  /** Where the last field ends. */
  function End(layouts: Layouts, ts: seq<Type>, ghost rank: string -> nat): nat
    requires Acyclic(layouts, rank)
    decreases RankAll(ts, rank), ts, 0
  {
    if ts == [] then 0
    else
      var last := ts[|ts| - 1];
      RoundUp(End(layouts, ts[..|ts| - 1], rank), Align(layouts, last, rank)) + Size(layouts, last, rank)
  }

  function MaxSize(layouts: Layouts, ts: seq<Type>, ghost rank: string -> nat): nat
    requires Acyclic(layouts, rank)
    decreases RankAll(ts, rank), ts, 0
  {
    if ts == [] then 0
    else Max(MaxSize(layouts, ts[..|ts| - 1], rank), Size(layouts, ts[|ts| - 1], rank))
  }

  /** Where field i starts. */
  function Offset(layouts: Layouts, ts: seq<Type>, i: nat, ghost rank: string -> nat): nat
    requires Acyclic(layouts, rank) && i < |ts|
  {
    RoundUp(End(layouts, ts[..i], rank), Align(layouts, ts[i], rank))
  }

  // ----- rounding up is rounding up -----

  lemma {:induction false} AndNotZero(x: nat)
    ensures AndNot(x, 0) == x
  {
    if x > 0 {
      AndNotZero(x / 2);
    }
  }

  lemma AndNotStep(x: nat, p: nat)
    requires p > 0 && x > 0 && AndNot(x / 2, p - 1) == x / 2 - x / 2 % p
    ensures AndNot(x, 2 * p - 1) == x - x % (2 * p)
  {
    HalvedMod(x, p);
    var y := 2 * p - 1;
    assert y / 2 == p - 1 && y % 2 == 1;
    assert AndNot(x, y) == 2 * AndNot(x / 2, y / 2);
  }

  lemma {:induction false} AndNotPow2(x: nat, k: nat)
    ensures AndNot(x, Pow2(k) - 1) == x - x % Pow2(k)
    decreases k
  {
    if k == 0 {
      AndNotZero(x);
    } else if x == 0 {
      ModIs(0, 0, Pow2(k), 0);
    } else {
      AndNotPow2(x / 2, k - 1);
      AndNotStep(x, Pow2(k - 1));
    }
  }

  lemma HalvedMod(x: nat, p: nat)
    requires p > 0
    ensures x % (2 * p) == 2 * (x / 2 % p) + x % 2
  {
    var h := x / 2;
    assert h == p * (h / p) + h % p;
    var q := h / p;
    assert x == 2 * h + x % 2;
    assert 2 * (p * q) == 2 * p * q;
    ModIs(x, q, 2 * p, 2 * (h % p) + x % 2);
  }

  lemma RoundUpIs(offset: nat, align: nat)
    requires IsPow2(align)
    ensures RoundUp(offset, align) == (offset + align - 1) - (offset + align - 1) % align
  {
    var k :| align == Pow2(k);
    AndNotPow2(offset + align - 1, k);
  }

  /** The mask trick is right for powers of two: the least multiple of the alignment at or above the
      offset. */
  lemma RoundUpIsLeast(offset: nat, align: nat, m: nat)
    requires IsPow2(align)
    ensures RoundUp(offset, align) % align == 0 && offset <= RoundUp(offset, align) < offset + align
    ensures m % align == 0 && m >= offset ==> RoundUp(offset, align) <= m
  {
    assert align > 0;
    RoundUpIs(offset, align);
    hide RoundUp, IsPow2;
    MultipleBelow(offset + align - 1, align);
    if m % align == 0 && m >= offset {
      MultiplesApart(RoundUp(offset, align), m, align);
    }
  }

  lemma MultipleBelow(x: nat, a: nat)
    requires a > 0
    ensures (x - x % a) % a == 0 && x - x % a >= 0
  {
    assert x - x % a == a * (x / a) + 0;
    ModIs(x - x % a, x / a, a, 0);
  }

  /** Multiples of a that are less than a apart from above are in order. */
  lemma MultiplesApart(r: nat, m: nat, a: nat)
    requires a > 0 && r % a == 0 && m % a == 0 && r < m + a
    ensures r <= m
  {
    assert r == a * (r / a) && m == a * (m / a);
    assert (m / a + 1) * a == m / a * a + a;
    if r / a > m / a {
      MulMonotone(m / a + 1, r / a, a);
    } else {
      MulMonotone(r / a, m / a, a);
    }
  }

  // ----- powers of two -----

  lemma MaxPow2(a: nat, b: nat)
    requires IsPow2(a) && IsPow2(b)
    ensures IsPow2(Max(a, b)) && Max(a, b) % a == 0 && Max(a, b) % b == 0
  {
    var i :| a == Pow2(i);
    var j :| b == Pow2(j);
    if i <= j {
      Pow2Multiple(i, j);
    } else {
      Pow2Multiple(j, i);
    }
  }

  lemma {:induction false} Pow2Multiple(i: nat, j: nat)
    requires i <= j
    ensures Pow2(j) % Pow2(i) == 0 && Pow2(i) <= Pow2(j)
    decreases j
  {
    if i == j {
      ModIs(Pow2(i), 1, Pow2(i), 0);
    } else {
      Pow2Multiple(i, j - 1);
      var q := Pow2(j - 1) / Pow2(i);
      assert Pow2(j - 1) == Pow2(i) * q;
      assert Pow2(j) == Pow2(i) * (2 * q) + 0;
      ModIs(Pow2(j), 2 * q, Pow2(i), 0);
    }
  }

  lemma MultipleOfMultiple(x: nat, b: nat, a: nat)
    requires a > 0 && b > 0 && x % b == 0 && b % a == 0
    ensures x % a == 0
  {
    var p, q := x / b, b / a;
    assert x == b * p && b == a * q;
    assert x == a * (q * p) + 0;
    ModIs(x, q * p, a, 0);
  }

  lemma SumOfMultiples(x: nat, y: nat, a: nat)
    requires a > 0 && x % a == 0 && y % a == 0
    ensures (x + y) % a == 0
  {
    assert x == a * (x / a) && y == a * (y / a);
    assert x + y == a * (x / a + y / a) + 0;
    ModIs(x + y, x / a + y / a, a, 0);
  }

  lemma MultipleOfScaled(c: nat, x: nat, a: nat)
    requires a > 0 && x % a == 0
    ensures c * x % a == 0
  {
    assert x == a * (x / a);
    assert c * x == a * (c * (x / a)) + 0;
    ModIs(c * x, c * (x / a), a, 0);
  }

  // ----- alignments and sizes -----

  lemma {:induction false} AlignIsPow2(layouts: Layouts, ty: Type, rank: string -> nat)
    requires Acyclic(layouts, rank)
    ensures IsPow2(Align(layouts, ty, rank))
    decreases RankOf(ty, rank), ty
  {
    match ty
    case Word(k) =>
    case Buffer => assert Pow2(3) == 8;
    case Fixed(inner, _) => AlignIsPow2(layouts, inner, rank);
    case Record(s) => if s in layouts { MaxAlignIsPow2(layouts, TypesOf(layouts[s]), rank); }
      else { assert Pow2(0) == 1; }
    case Enum(s) => if s in layouts { MaxAlignIsPow2(layouts, TypesOf(layouts[s]), rank); }
      else { assert Pow2(0) == 1; }
    case Tuple(ts) => MaxAlignIsPow2(layouts, ts, rank);
    case Wrapped(inner) => AlignIsPow2(layouts, inner, rank);
    case Optional(inner) => AlignIsPow2(layouts, inner, rank);
  }

  /** The alignment of an aggregate is a multiple of each field's. */
  lemma {:induction false} MaxAlignIsPow2(layouts: Layouts, ts: seq<Type>, rank: string -> nat)
    requires Acyclic(layouts, rank)
    ensures IsPow2(MaxAlign(layouts, ts, rank))
    ensures forall t | t in ts :: MaxAlign(layouts, ts, rank) % Align(layouts, t, rank) == 0
    decreases RankAll(ts, rank), ts
  {
    if ts == [] {
      assert Pow2(0) == 1;
    } else {
      var front, last := ts[..|ts| - 1], ts[|ts| - 1];
      MaxAlignIsPow2(layouts, front, rank);
      AlignIsPow2(layouts, last, rank);
      MaxPow2(MaxAlign(layouts, front, rank), Align(layouts, last, rank));
      forall t | t in ts
        ensures MaxAlign(layouts, ts, rank) % Align(layouts, t, rank) == 0
      {
        if t in front {
          MultipleOfMultiple(MaxAlign(layouts, ts, rank), MaxAlign(layouts, front, rank), Align(layouts, t, rank));
        } else {
          assert ts == front + [last];
        }
      }
    }
  }

  /** Every size is a multiple of the alignment. */
  lemma {:induction false} SizeIsAligned(layouts: Layouts, ty: Type, rank: string -> nat)
    requires Acyclic(layouts, rank)
    ensures Size(layouts, ty, rank) % Align(layouts, ty, rank) == 0
    decreases ty
  {
    AlignIsPow2(layouts, ty, rank);
    match ty
    case Word(k) => ModIs(Pow2(k), 1, Pow2(k), 0);
    case Buffer =>
    case Fixed(inner, count) =>
      SizeIsAligned(layouts, inner, rank);
      MultipleOfScaled(count, Size(layouts, inner, rank), Align(layouts, inner, rank));
    case Record(s) => if s in layouts { RoundUpIsLeast(End(layouts, TypesOf(layouts[s]), rank),
      Align(layouts, ty, rank), 0); }
    case Tuple(ts) => RoundUpIsLeast(End(layouts, ts, rank), Align(layouts, ty, rank), 0);
    case Wrapped(inner) => SizeIsAligned(layouts, inner, rank);
    case Optional(inner) =>
      var a := Align(layouts, ty, rank);
      RoundUpIsLeast(RoundUp(1, a) + Size(layouts, inner, rank), a, 0);
    case Enum(s) =>
      if s in layouts {
        var a := Align(layouts, ty, rank);
        RoundUpIsLeast(RoundUp(1, a) + MaxSize(layouts, TypesOf(layouts[s]), rank), a, 0);
      }
  }

  // ----- fields -----

  lemma EndOfPrefix(layouts: Layouts, ts: seq<Type>, i: nat, rank: string -> nat)
    requires Acyclic(layouts, rank) && i < |ts|
    ensures End(layouts, ts[..i + 1], rank) == Offset(layouts, ts, i, rank) + Size(layouts, ts[i], rank)
    ensures End(layouts, ts[..i], rank) <= Offset(layouts, ts, i, rank)
    ensures Offset(layouts, ts, i, rank) % Align(layouts, ts[i], rank) == 0
  {
    assert ts[..i + 1][..i] == ts[..i];
    AlignIsPow2(layouts, ts[i], rank);
    RoundUpIsLeast(End(layouts, ts[..i], rank), Align(layouts, ts[i], rank), 0);
  }

  lemma {:induction false} EndGrows(layouts: Layouts, ts: seq<Type>, i: nat, j: nat, rank: string -> nat)
    requires Acyclic(layouts, rank) && i <= j <= |ts|
    ensures End(layouts, ts[..i], rank) <= End(layouts, ts[..j], rank)
    decreases j
  {
    hide End, Offset, Size, Align, Acyclic;
    if i < j {
      EndGrows(layouts, ts, i, j - 1, rank);
      EndOfPrefix(layouts, ts, j - 1, rank);
    }
  }

  /** Fields lie one after the other: aligned, apart from each other, inside the aggregate. */
  lemma FieldsApart(layouts: Layouts, ts: seq<Type>, i: nat, rank: string -> nat)
    requires Acyclic(layouts, rank) && i < |ts|
    ensures Offset(layouts, ts, i, rank) % Align(layouts, ts[i], rank) == 0
    ensures forall j | i < j < |ts| ::
      Offset(layouts, ts, i, rank) + Size(layouts, ts[i], rank) <= Offset(layouts, ts, j, rank)
    ensures Offset(layouts, ts, i, rank) + Size(layouts, ts[i], rank) <= End(layouts, ts, rank)
  {
    EndOfPrefix(layouts, ts, i, rank);
    forall j | i < j < |ts|
      ensures Offset(layouts, ts, i, rank) + Size(layouts, ts[i], rank) <= Offset(layouts, ts, j, rank)
    {
      EndGrows(layouts, ts, i + 1, j, rank);
      EndOfPrefix(layouts, ts, j, rank);
    }
    EndGrows(layouts, ts, i + 1, |ts|, rank);
    assert ts[..|ts|] == ts;
  }

  lemma EndFits(layouts: Layouts, ts: seq<Type>, rank: string -> nat)
    requires Acyclic(layouts, rank)
    ensures End(layouts, ts, rank) <= PaddedSize(layouts, ts, rank)
  {
    MaxAlignIsPow2(layouts, ts, rank);
    RoundUpIsLeast(End(layouts, ts, rank), MaxAlign(layouts, ts, rank), 0);
  }

  // ----- leaves -----

  type Leaf = (nat, Type)

  /** Records and tuples are flattened, wrappers looked through; everything else is a leaf. */
  function Leaves(layouts: Layouts, ty: Type, base: nat, ghost rank: string -> nat): seq<Leaf>
    requires Acyclic(layouts, rank)
    decreases RankOf(ty, rank), ty
  {
    match ty
    case Record(s) => if s in layouts then FieldLeaves(layouts, TypesOf(layouts[s]), base, rank) else []
    case Tuple(ts) => FieldLeaves(layouts, ts, base, rank)
    case Wrapped(inner) => Leaves(layouts, inner, base, rank)
    case _ => [(base, ty)]
  }

  function FieldLeaves(layouts: Layouts, ts: seq<Type>, base: nat, ghost rank: string -> nat): seq<Leaf>
    requires Acyclic(layouts, rank)
    decreases RankAll(ts, rank), ts
  {
    if ts == [] then []
    else
      var i := |ts| - 1;
      FieldLeaves(layouts, ts[..i], base, rank) + Leaves(layouts, ts[i], base + Offset(layouts, ts, i, rank), rank)
  }

  /** The leaf is aligned and lies between from and to. */
  ghost predicate Placed(layouts: Layouts, leaf: Leaf, from: nat, to: nat, rank: string -> nat)
    requires Acyclic(layouts, rank)
  {
    && leaf.0 % Align(layouts, leaf.1, rank) == 0
    && from <= leaf.0 && leaf.0 + Size(layouts, leaf.1, rank) <= to
  }

  /** All leaves are placed between from and to, in order and apart from each other. */
  ghost predicate WellPlaced(layouts: Layouts, leaves: seq<Leaf>, from: nat, to: nat, rank: string -> nat)
    requires Acyclic(layouts, rank)
  {
    && (forall i | 0 <= i < |leaves| :: Placed(layouts, leaves[i], from, to, rank))
    && (forall i, j | 0 <= i < j < |leaves| :: leaves[i].0 + Size(layouts, leaves[i].1, rank) <= leaves[j].0)
  }

  lemma WellPlacedAppend(layouts: Layouts, a: seq<Leaf>, b: seq<Leaf>, from: nat, mid: nat, next: nat, to: nat,
      rank: string -> nat)
    requires Acyclic(layouts, rank) && mid <= next && from <= next && mid <= to
    requires WellPlaced(layouts, a, from, mid, rank) && WellPlaced(layouts, b, next, to, rank)
    ensures WellPlaced(layouts, a + b, from, to, rank)
  {
  }

  /** The flattened leaves of an aligned value are aligned, do not overlap and stay inside its size. */
  lemma {:induction false} LeavesAreWellPlaced(layouts: Layouts, ty: Type, base: nat, rank: string -> nat)
    requires Acyclic(layouts, rank) && base % Align(layouts, ty, rank) == 0
    ensures WellPlaced(layouts, Leaves(layouts, ty, base, rank), base, base + Size(layouts, ty, rank), rank)
    decreases RankOf(ty, rank), ty
  {
    match ty
    case Record(s) =>
      if s in layouts {
        RecordLeaves(layouts, TypesOf(layouts[s]), base, rank);
      }
    case Tuple(ts) => RecordLeaves(layouts, ts, base, rank);
    case Wrapped(inner) => LeavesAreWellPlaced(layouts, inner, base, rank);
    case _ =>
  }

  lemma {:induction false} RecordLeaves(layouts: Layouts, ts: seq<Type>, base: nat, rank: string -> nat)
    requires Acyclic(layouts, rank) && base % MaxAlign(layouts, ts, rank) == 0
    ensures WellPlaced(layouts, FieldLeaves(layouts, ts, base, rank), base,
      base + PaddedSize(layouts, ts, rank), rank)
    decreases RankAll(ts, rank), ts, 1
  {
    MaxAlignIsPow2(layouts, ts, rank);
    forall t | t in ts
      ensures base % Align(layouts, t, rank) == 0
    {
      MultipleOfMultiple(base, MaxAlign(layouts, ts, rank), Align(layouts, t, rank));
    }
    FieldLeavesArePlaced(layouts, ts, base, rank);
    EndFits(layouts, ts, rank);
    var to := base + PaddedSize(layouts, ts, rank);
    assert WellPlaced(layouts, [], base, to, rank);
    WellPlacedAppend(layouts, FieldLeaves(layouts, ts, base, rank), [], base, base + End(layouts, ts, rank), to, to,
      rank);
    assert FieldLeaves(layouts, ts, base, rank) + [] == FieldLeaves(layouts, ts, base, rank);
  }

  lemma {:induction false} FieldLeavesArePlaced(layouts: Layouts, ts: seq<Type>, base: nat, rank: string -> nat)
    requires Acyclic(layouts, rank) && forall t | t in ts :: base % Align(layouts, t, rank) == 0
    ensures WellPlaced(layouts, FieldLeaves(layouts, ts, base, rank), base, base + End(layouts, ts, rank), rank)
    decreases RankAll(ts, rank), ts, 0
  {
    hide Leaves, Align, Size, Offset, RoundUp, Placed, Acyclic;
    if ts != [] {
      hide FieldLeaves, End, WellPlaced;
      var i := |ts| - 1;
      FieldLeavesArePlaced(layouts, ts[..i], base, rank);
      RankInAll(ts, i, rank);
      AlignAtOffset(layouts, ts, i, base, rank);
      LeavesAreWellPlaced(layouts, ts[i], base + Offset(layouts, ts, i, rank), rank);
      NextLeavesArePlaced(layouts, ts, base, rank);
    }
  }

  lemma AlignAtOffset(layouts: Layouts, ts: seq<Type>, i: nat, base: nat, rank: string -> nat)
    requires Acyclic(layouts, rank) && i < |ts| && base % Align(layouts, ts[i], rank) == 0
    ensures (base + Offset(layouts, ts, i, rank)) % Align(layouts, ts[i], rank) == 0
  {
    EndOfPrefix(layouts, ts, i, rank);
    SumOfMultiples(base, Offset(layouts, ts, i, rank), Align(layouts, ts[i], rank));
  }

  lemma NextLeavesArePlaced(layouts: Layouts, ts: seq<Type>, base: nat, rank: string -> nat)
    requires Acyclic(layouts, rank) && ts != []
    requires var i := |ts| - 1; var at := base + Offset(layouts, ts, i, rank);
      && WellPlaced(layouts, FieldLeaves(layouts, ts[..i], base, rank), base, base + End(layouts, ts[..i], rank), rank)
      && WellPlaced(layouts, Leaves(layouts, ts[i], at, rank), at, at + Size(layouts, ts[i], rank), rank)
    ensures WellPlaced(layouts, FieldLeaves(layouts, ts, base, rank), base, base + End(layouts, ts, rank), rank)
  {
    hide End, FieldLeaves, Leaves, Align, Size, Offset, RoundUp, RankOf, RankAll, Acyclic, WellPlaced;
    var i := |ts| - 1;
    EndOfPrefix(layouts, ts, i, rank);
    FieldLeavesStep(layouts, ts, i, base, rank);
    assert ts[..i + 1] == ts;
    var offset := Offset(layouts, ts, i, rank);
    WellPlacedAppend(layouts, FieldLeaves(layouts, ts[..i], base, rank), Leaves(layouts, ts[i], base + offset, rank),
      base, base + End(layouts, ts[..i], rank), base + offset, base + End(layouts, ts, rank), rank);
  }

  // ----- the loops -----

  lemma {:induction false} RankInAll(ts: seq<Type>, i: nat, rank: string -> nat)
    requires i < |ts|
    ensures RankOf(ts[i], rank) <= RankAll(ts, rank)
  {
    if i < |ts| - 1 {
      RankInAll(ts[..|ts| - 1], i, rank);
    }
  }

  lemma PrefixUnfolds(ts: seq<Type>, i: nat)
    requires i < |ts|
    ensures ts[..i + 1][..i] == ts[..i] && ts[..i + 1][i] == ts[i]
  {
  }

  method AlignOf(layouts: Layouts, ty: Type, ghost rank: string -> nat) returns (a: nat)
    requires Acyclic(layouts, rank)
    ensures a == Align(layouts, ty, rank)
    decreases RankOf(ty, rank), ty
  {
    match ty {
      case Word(k) => a := Pow2(k);
      case Buffer => a := 8;
      case Fixed(inner, _) => a := AlignOf(layouts, inner, rank);
      case Record(s) => if s in layouts { a := MaxAlignOf(layouts, TypesOf(layouts[s]), rank); } else { a := 1; }
      case Enum(s) => if s in layouts { a := MaxAlignOf(layouts, TypesOf(layouts[s]), rank); } else { a := 1; }
      case Tuple(ts) => a := MaxAlignOf(layouts, ts, rank);
      case Wrapped(inner) => a := AlignOf(layouts, inner, rank);
      case Optional(inner) => a := AlignOf(layouts, inner, rank);
    }
  }

  method MaxAlignOf(layouts: Layouts, ts: seq<Type>, ghost rank: string -> nat) returns (max: nat)
    requires Acyclic(layouts, rank)
    ensures max == MaxAlign(layouts, ts, rank)
    decreases RankAll(ts, rank), ts, 0
  {
    max := 1;
    for i := 0 to |ts|
      invariant max == MaxAlign(layouts, ts[..i], rank)
    {
      RankInAll(ts, i, rank);
      PrefixUnfolds(ts, i);
      var align := AlignOf(layouts, ts[i], rank);
      if align > max {
        max := align;
      }
    }
    assert ts[..|ts|] == ts;
  }

  method EndOf(layouts: Layouts, ts: seq<Type>, ghost rank: string -> nat) returns (offset: nat)
    requires Acyclic(layouts, rank)
    ensures offset == End(layouts, ts, rank)
    decreases RankAll(ts, rank), ts, 0
  {
    offset := 0;
    for i := 0 to |ts|
      invariant offset == End(layouts, ts[..i], rank)
    {
      RankInAll(ts, i, rank);
      PrefixUnfolds(ts, i);
      var align := AlignOf(layouts, ts[i], rank);
      offset := RoundUp(offset, align);
      var size := SizeOf(layouts, ts[i], rank);
      offset := offset + size;
    }
    assert ts[..|ts|] == ts;
  }

  method MaxSizeOf(layouts: Layouts, ts: seq<Type>, ghost rank: string -> nat) returns (max: nat)
    requires Acyclic(layouts, rank)
    ensures max == MaxSize(layouts, ts, rank)
    decreases RankAll(ts, rank), ts, 0
  {
    max := 0;
    for i := 0 to |ts|
      invariant max == MaxSize(layouts, ts[..i], rank)
    {
      RankInAll(ts, i, rank);
      PrefixUnfolds(ts, i);
      var size := SizeOf(layouts, ts[i], rank);
      if size > max {
        max := size;
      }
    }
    assert ts[..|ts|] == ts;
  }

  method SizeOf(layouts: Layouts, ty: Type, ghost rank: string -> nat) returns (size: nat)
    requires Acyclic(layouts, rank)
    ensures size == Size(layouts, ty, rank)
    decreases RankOf(ty, rank), ty, 0
  {
    hide RoundUp, TaggedSize, Align, MaxAlign, End, MaxSize, PaddedSize, EnumSize, Product, Pow2;
    match ty {
      case Word(k) => size := Pow2(k);
      case Buffer => size := 16;
      case Fixed(inner, count) =>
        size := SizeOf(layouts, inner, rank);
        size := Product(count, size);
      case Record(s) => if s in layouts { size := PaddedEnd(layouts, TypesOf(layouts[s]), rank); } else { size := 0; }
      case Tuple(ts) => size := PaddedEnd(layouts, ts, rank);
      case Wrapped(inner) => size := SizeOf(layouts, inner, rank);
      case Optional(inner) => size := OptionalSizeOf(layouts, inner, rank);
      case Enum(s) => if s in layouts { size := EnumSizeOf(layouts, TypesOf(layouts[s]), rank); } else { size := 0; }
    }
  }

  method OptionalSizeOf(layouts: Layouts, inner: Type, ghost rank: string -> nat) returns (size: nat)
    requires Acyclic(layouts, rank)
    ensures size == TaggedSize(Size(layouts, inner, rank), Align(layouts, inner, rank))
    decreases RankOf(inner, rank), inner, 1
  {
    hide RoundUp, Align, Size;
    var align := AlignOf(layouts, inner, rank);
    var payload := SizeOf(layouts, inner, rank);
    size := RoundUp(RoundUp(1, align) + payload, align);
  }

  method EnumSizeOf(layouts: Layouts, ts: seq<Type>, ghost rank: string -> nat) returns (size: nat)
    requires Acyclic(layouts, rank)
    ensures size == EnumSize(layouts, ts, rank)
    decreases RankAll(ts, rank), ts, 1
  {
    var payload := MaxSizeOf(layouts, ts, rank);
    var align := MaxAlignOf(layouts, ts, rank);
    size := RoundUp(RoundUp(1, align) + payload, align);
  }

  method PaddedEnd(layouts: Layouts, ts: seq<Type>, ghost rank: string -> nat) returns (size: nat)
    requires Acyclic(layouts, rank)
    ensures size == PaddedSize(layouts, ts, rank)
    decreases RankAll(ts, rank), ts, 1
  {
    var end := EndOf(layouts, ts, rank);
    var align := MaxAlignOf(layouts, ts, rank);
    size := RoundUp(end, align);
  }

  lemma AppendAssociates(a: seq<Leaf>, b: seq<Leaf>, c: seq<Leaf>)
    ensures a + b + c == a + (b + c)
  {
  }

  lemma FieldLeavesStep(layouts: Layouts, ts: seq<Type>, i: nat, base: nat, rank: string -> nat)
    requires Acyclic(layouts, rank) && i < |ts|
    ensures Offset(layouts, ts, i, rank) == RoundUp(End(layouts, ts[..i], rank), Align(layouts, ts[i], rank))
    ensures End(layouts, ts[..i + 1], rank) == Offset(layouts, ts, i, rank) + Size(layouts, ts[i], rank)
    ensures FieldLeaves(layouts, ts[..i + 1], base, rank)
      == FieldLeaves(layouts, ts[..i], base, rank) + Leaves(layouts, ts[i], base + Offset(layouts, ts, i, rank), rank)
  {
    hide RoundUp, Align, Size, Leaves, Acyclic, RankOf, RankAll;
    PrefixUnfolds(ts, i);
  }

  /** Appends the leaves of a type to those collected so far. */
  method LeafOffsets(layouts: Layouts, ty: Type, base: nat, collected: seq<Leaf>, ghost rank: string -> nat)
      returns (leaves: seq<Leaf>)
    requires Acyclic(layouts, rank)
    ensures leaves == collected + Leaves(layouts, ty, base, rank)
    decreases RankOf(ty, rank), ty
  {
    leaves := collected;
    if ty.Record? {
      if ty.name in layouts {
        leaves := FieldLeafOffsets(layouts, TypesOf(layouts[ty.name]), base, collected, rank);
      } else {
        assert collected + [] == collected;
      }
    } else if ty.Tuple? {
      leaves := FieldLeafOffsets(layouts, ty.types, base, collected, rank);
    } else if ty.Wrapped? {
      leaves := LeafOffsets(layouts, ty.inner, base, collected, rank);
    } else {
      leaves := leaves + [(base, ty)];
    }
  }

  method FieldLeafOffsets(layouts: Layouts, ts: seq<Type>, base: nat, collected: seq<Leaf>, ghost rank: string -> nat)
      returns (leaves: seq<Leaf>)
    requires Acyclic(layouts, rank)
    ensures leaves == collected + FieldLeaves(layouts, ts, base, rank)
    decreases RankAll(ts, rank), ts, 1
  {
    leaves := collected;
    var offset := 0;
    assert collected + [] == collected;
    for i := 0 to |ts|
      invariant offset == End(layouts, ts[..i], rank)
      invariant leaves == collected + FieldLeaves(layouts, ts[..i], base, rank)
    {
      FieldLeavesStep(layouts, ts, i, base, rank);
      AppendAssociates(collected, FieldLeaves(layouts, ts[..i], base, rank),
        Leaves(layouts, ts[i], base + Offset(layouts, ts, i, rank), rank));
      hide End, FieldLeaves, Leaves, Align, Size, Offset, RoundUp, RankOf, RankAll, Acyclic;
      offset, leaves := NextField(layouts, ts, i, base, offset, leaves, rank);
    }
    assert ts[..|ts|] == ts;
  }

  method NextField(layouts: Layouts, ts: seq<Type>, i: nat, base: nat, end: nat, collected: seq<Leaf>,
      ghost rank: string -> nat)
    returns (newEnd: nat, leaves: seq<Leaf>)
    requires Acyclic(layouts, rank) && i < |ts| && end == End(layouts, ts[..i], rank)
    ensures newEnd == Offset(layouts, ts, i, rank) + Size(layouts, ts[i], rank)
    ensures leaves == collected + Leaves(layouts, ts[i], base + Offset(layouts, ts, i, rank), rank)
    decreases RankAll(ts, rank), ts, 0
  {
    RankInAll(ts, i, rank);
    hide End, FieldLeaves, Leaves, Align, Size, RoundUp, RankOf, RankAll, Acyclic;
    var align := AlignOf(layouts, ts[i], rank);
    var offset := RoundUp(end, align);
    leaves := LeafOffsets(layouts, ts[i], base + offset, collected, rank);
    var size := SizeOf(layouts, ts[i], rank);
    newEnd := offset + size;
  }

  // ----- finding fields -----

  /** The offset of the first field with the name. */
  method GetFieldOffset(layouts: Layouts, record: string, field: string, ghost rank: string -> nat)
      returns (r: int, found: bool)
    requires Acyclic(layouts, rank)
    ensures !found <==> record !in layouts || forall f | f in layouts[record] :: f.0 != field
    ensures found ==> exists i :: NamedAt(layouts, record, field, i, r, rank)
  {
    if record !in layouts {
      return 0, false;
    }
    var fields := layouts[record];
    var ts := TypesOf(fields);
    var offset := 0;
    hide End, Align, Size, RoundUp, Offset, Acyclic, NamedAt;
    EndOfNone(layouts, ts, rank);
    for i := 0 to |fields|
      invariant offset == End(layouts, ts[..i], rank)
      invariant forall j | 0 <= j < i :: fields[j].0 != field
    {
      EndUnfolds(layouts, ts, i, rank);
      var align := AlignOf(layouts, ts[i], rank);
      offset := RoundUp(offset, align);
      if fields[i].0 == field {
        FirstOfName(layouts, record, field, i, offset, rank);
        return offset, true;
      }
      var size := SizeOf(layouts, ts[i], rank);
      offset := offset + size;
    }
    return 0, false;
  }

  lemma FirstOfName(layouts: Layouts, record: string, field: string, i: nat, offset: int, rank: string -> nat)
    requires Acyclic(layouts, rank) && record in layouts && i < |layouts[record]| && layouts[record][i].0 == field
    requires forall j | 0 <= j < i :: layouts[record][j].0 != field
    requires offset == Offset(layouts, TypesOf(layouts[record]), i, rank)
    ensures NamedAt(layouts, record, field, i, offset, rank)
  {
  }

  lemma EndOfNone(layouts: Layouts, ts: seq<Type>, rank: string -> nat)
    requires Acyclic(layouts, rank)
    ensures End(layouts, ts[..0], rank) == 0
  {
  }

  /** A field begins at the rounded-up end of those before it and is followed by its size. */
  lemma EndUnfolds(layouts: Layouts, ts: seq<Type>, i: nat, rank: string -> nat)
    requires Acyclic(layouts, rank) && i < |ts|
    ensures Align(layouts, ts[i], rank) > 0
    ensures Offset(layouts, ts, i, rank) == RoundUp(End(layouts, ts[..i], rank), Align(layouts, ts[i], rank))
    ensures End(layouts, ts[..i + 1], rank) == Offset(layouts, ts, i, rank) + Size(layouts, ts[i], rank)
  {
    PrefixUnfolds(ts, i);
  }

  /** The first field that starts at the offset. */
  method FieldAt(layouts: Layouts, record: string, offset: nat, ghost rank: string -> nat) returns (i: nat, found: bool)
    requires Acyclic(layouts, rank) && record in layouts
    ensures found ==> FirstAt(layouts, TypesOf(layouts[record]), offset, i, rank)
    ensures !found ==>
      forall j | 0 <= j < |layouts[record]| :: Offset(layouts, TypesOf(layouts[record]), j, rank) != offset
  {
    var ts := TypesOf(layouts[record]);
    var curr := 0;
    i := 0;
    while i < |ts|
      invariant i <= |ts| && curr == End(layouts, ts[..i], rank)
      invariant forall j | 0 <= j < i :: Offset(layouts, ts, j, rank) != offset
    {
      PrefixUnfolds(ts, i);
      var align := AlignOf(layouts, ts[i], rank);
      curr := RoundUp(curr, align);
      if curr == offset {
        return i, true;
      }
      var size := SizeOf(layouts, ts[i], rank);
      curr := curr + size;
      i := i + 1;
    }
    return i, false;
  }

  ghost predicate FirstAt(layouts: Layouts, ts: seq<Type>, offset: nat, i: nat, rank: string -> nat)
    requires Acyclic(layouts, rank)
  {
    i < |ts| && Offset(layouts, ts, i, rank) == offset
      && forall j | 0 <= j < i :: Offset(layouts, ts, j, rank) != offset
  }

  /** Field i is the first of that name and starts at the offset. */
  ghost predicate NamedAt(layouts: Layouts, record: string, field: string, i: nat, offset: int, rank: string -> nat)
    requires Acyclic(layouts, rank) && record in layouts
  {
    var fields := layouts[record];
    && i < |fields| && fields[i].0 == field && (forall j | 0 <= j < i :: fields[j].0 != field)
    && offset == Offset(layouts, TypesOf(fields), i, rank)
  }

  /** Searching for the offset of field i finds field i exactly when the field before it starts
      strictly earlier. */
  lemma SearchInvertsExactly(layouts: Layouts, ts: seq<Type>, i: nat, rank: string -> nat)
    requires Acyclic(layouts, rank) && i < |ts|
    ensures FirstAt(layouts, ts, Offset(layouts, ts, i, rank), i, rank)
      <==> (i == 0 || Offset(layouts, ts, i - 1, rank) < Offset(layouts, ts, i, rank))
  {
    if i > 0 {
      FieldsApart(layouts, ts, i - 1, rank);
      forall j | 0 <= j < i - 1
        ensures Offset(layouts, ts, j, rank) <= Offset(layouts, ts, i - 1, rank)
      {
        FieldsApart(layouts, ts, j, rank);
      }
    }
  }

  /** By name to offset and back: searching a record for the offset looked up for a name always finds
      some field, and one of that name exactly when the field before the named one starts strictly
      earlier; it is then the named field itself. */
  lemma NameComesBackExactly(layouts: Layouts, record: string, field: string, i: nat, offset: nat, k: nat,
      rank: string -> nat)
    requires Acyclic(layouts, rank) && record in layouts && NamedAt(layouts, record, field, i, offset, rank)
    ensures !(forall j | 0 <= j < |layouts[record]| :: Offset(layouts, TypesOf(layouts[record]), j, rank) != offset)
    ensures FirstAt(layouts, TypesOf(layouts[record]), offset, k, rank) ==>
      (layouts[record][k].0 == field <==> i == 0 || Offset(layouts, TypesOf(layouts[record]), i - 1, rank) < offset)
    ensures FirstAt(layouts, TypesOf(layouts[record]), offset, k, rank) && layouts[record][k].0 == field ==> k == i
  {
    var ts := TypesOf(layouts[record]);
    SearchInvertsExactly(layouts, ts, i, rank);
    assert FirstAt(layouts, ts, offset, k, rank) ==> k <= i;
  }

  /** With a field of positive size before it, a field is found again by its offset. */
  lemma SearchInvertsAfterData(layouts: Layouts, ts: seq<Type>, i: nat, rank: string -> nat)
    requires Acyclic(layouts, rank) && i < |ts| && (i > 0 ==> Size(layouts, ts[i - 1], rank) > 0)
    ensures FirstAt(layouts, ts, Offset(layouts, ts, i, rank), i, rank)
  {
    SearchInvertsExactly(layouts, ts, i, rank);
    if i > 0 {
      FieldsApart(layouts, ts, i - 1, rank);
    }
  }

  /** After an empty field (an empty tuple, say) the search finds the wrong one. */
  lemma EmptyFieldShadows(rank: string -> nat)
    ensures Acyclic(map[], rank)
    ensures var ts := [Tuple([]), Word(0)];
      Offset(map[], ts, 0, rank) == 0 && Offset(map[], ts, 1, rank) == 0 && !FirstAt(map[], ts, 0, 1, rank)
  {
    var ts := [Tuple([]), Word(0)];
    assert ts[..0] == [] && ts[..1] == [ts[0]] && [ts[0]][..0] == [];
    assert Pow2(0) == 1;
    assert MaxAlign(map[], [], rank) == 1;
    assert ts[0] == Tuple([]) && Align(map[], ts[0], rank) == 1;
    assert ts[1] == Word(0) && Align(map[], ts[1], rank) == 1;
    assert End(map[], [], rank) == 0 && RoundUp(0, 1) == 0;
    assert Size(map[], ts[0], rank) == 0;
    assert End(map[], [ts[0]], rank) == 0;
  }
}
