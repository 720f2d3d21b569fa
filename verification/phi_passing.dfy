/** Passing registers to block parameters is reading the phis: when it lines up, and where it does
    not. */
module PhiPassing {
  import opened IR
  import opened Semantics
  import opened PhiLowering

  // ----- lining up -----

  /** The operand of a phi takes as many registers as the phi has parameters. */
  ghost predicate CountsMatch(shapes: Value -> Shape, r: Records, k: Kind, p: BlockId)
    requires k.Phi?
  {
    && p in k.mappings && Registers(shapes, r, k.mappings[p]).Some?
    && |Registers(shapes, r, k.mappings[p]).value| == |ParamRegs(shapes, r, k.dest)|
  }

  ghost predicate AllCountsMatch(shapes: Value -> Shape, r: Records, insts: seq<Kind>, p: BlockId) {
    forall k | k in insts && k.Phi? :: CountsMatch(shapes, r, k, p)
  }

  /** At every instruction of the target as many arguments as parameters have been produced. */
  ghost predicate LinesUp(shapes: Value -> Shape, r: Records, insts: seq<Kind>, p: BlockId) {
    forall i | 0 <= i <= |insts| :: OffsetsAgree(shapes, r, insts, p, i)
  }

  ghost predicate OffsetsAgree(shapes: Value -> Shape, r: Records, insts: seq<Kind>, p: BlockId, i: nat)
    requires i <= |insts|
  {
    var args := ArgsOf(shapes, r, insts[..i], p);
    args.Some? && |args.value| == |ParamsOf(shapes, r, insts[..i])|
  }

  lemma PrefixStep(shapes: Value -> Shape, r: Records, insts: seq<Kind>, p: BlockId, i: nat)
    requires i < |insts|
    ensures var k := insts[i];
      var a, b := ArgsOf(shapes, r, insts[..i], p), ArgsOf(shapes, r, [k], p);
      && ArgsOf(shapes, r, insts[..i + 1], p) == (if a.Some? && b.Some? then Some(a.value + b.value) else None)
      && b == (if k.Phi? && p in k.mappings then Registers(shapes, r, k.mappings[p]) else Some([]))
      && ParamsOf(shapes, r, insts[..i + 1])
        == ParamsOf(shapes, r, insts[..i]) + (if k.Phi? then ParamRegs(shapes, r, k.dest) else [])
  {
    assert insts[..i + 1] == insts[..i] + [insts[i]];
    ArgsOfAppend(shapes, r, insts[..i], insts[i], p);
    ArgsOfOne(shapes, r, insts[i], p);
    ParamsOfAppend(shapes, r, insts[..i], insts[i]);
  }

  /** Arguments line up with parameters position by position exactly when each phi's operand takes as
      many registers as the phi has parameters. */
  lemma LinesUpExactly(shapes: Value -> Shape, r: Records, insts: seq<Kind>, p: BlockId)
    requires forall k | k in insts && k.Phi? :: p in k.mappings
    ensures LinesUp(shapes, r, insts, p) <==> AllCountsMatch(shapes, r, insts, p)
  {
    if LinesUp(shapes, r, insts, p) {
      forall k | k in insts && k.Phi?
        ensures CountsMatch(shapes, r, k, p)
      {
        var i :| 0 <= i < |insts| && insts[i] == k;
        PrefixStep(shapes, r, insts, p, i);
        assert OffsetsAgree(shapes, r, insts, p, i) && OffsetsAgree(shapes, r, insts, p, i + 1);
      }
    }
    if AllCountsMatch(shapes, r, insts, p) {
      forall i | 0 <= i <= |insts|
        ensures OffsetsAgree(shapes, r, insts, p, i)
      {
        OffsetsFromCounts(shapes, r, insts, p, i);
      }
    }
  }

  lemma {:induction false} OffsetsFromCounts(shapes: Value -> Shape, r: Records, insts: seq<Kind>, p: BlockId, i: nat)
    requires AllCountsMatch(shapes, r, insts, p) && i <= |insts|
    ensures OffsetsAgree(shapes, r, insts, p, i)
  {
    if i > 0 {
      OffsetsFromCounts(shapes, r, insts, p, i - 1);
      PrefixStep(shapes, r, insts, p, i - 1);
      assert insts[i - 1] in insts;
    }
  }

  /** The records a phi's operand needs to be one argument for each parameter of the phi: tensors no
      dimensions, but those recorded; unpacked tuples one register; named tuples as many as fields, or
      one by address. */
  ghost predicate CountsAgree(shapes: Value -> Shape, r: Records, v: Value) {
    match shapes(v)
    case Buffer => v in r.values && v in r.lengths
    case Tensor(_) => v in r.values && v in r.dims && r.dims[v] == []
    case Tuple(_) => if v in r.unpacked then |r.unpacked[v]| == 1 else v in r.values
    case NamedTuple(n) => if v in r.unpacked then |r.unpacked[v]| == n else v in r.values && n == 1
    case _ => v in r.values
  }

  /** For a phi and an operand of one shape, whatever is recorded for the operand, this decides whether
      the counts match. */
  lemma CountsMatchExactly(shapes: Value -> Shape, r: Records, k: Kind, p: BlockId)
    requires k.Phi? && p in k.mappings && shapes(k.mappings[p]) == shapes(k.dest)
    requires RecordedAsPhi(shapes, r, k.dest)
    ensures CountsMatch(shapes, r, k, p) <==> CountsAgree(shapes, r, k.mappings[p])
  {
  }

  /** The records an operand needs for its arguments to be formed at all. */
  ghost predicate Formable(shapes: Value -> Shape, r: Records, v: Value) {
    match shapes(v)
    case Buffer => v in r.values && v in r.lengths
    case Tensor(_) => v in r.values && v in r.dims
    case Tuple(_) => v in r.unpacked || v in r.values
    case NamedTuple(_) => v in r.unpacked || v in r.values
    case _ => v in r.values
  }

  /** The arguments of an edge can be formed exactly when those of each operand can. */
  lemma {:induction false} ArgsFormExactly(shapes: Value -> Shape, r: Records, insts: seq<Kind>, p: BlockId)
    ensures ArgsOf(shapes, r, insts, p).Some? <==>
      forall k | k in insts && k.Phi? && p in k.mappings :: Formable(shapes, r, k.mappings[p])
  {
    if insts != [] {
      ArgsFormExactly(shapes, r, insts[1..], p);
      assert insts == [insts[0]] + insts[1..];
    }
  }

  /** A phi over one-dimensional tensors is such a mismatch: one parameter, two arguments. */
  lemma TensorPhiDoesNotLineUp(shapes: Value -> Shape)
    requires shapes(0) == Shape.Tensor(1) && shapes(1) == Shape.Tensor(1)
    ensures var r := Records(map[0 := 10, 1 := 20], map[], map[], map[1 := [21]], map[]);
      var insts := [Phi(0, map[7 := 1])];
      && ParamsOf(shapes, r, insts) == [10] && ArgsOf(shapes, r, insts, 7) == Some([20, 21])
      && !LinesUp(shapes, r, insts, 7)
  {
    var r := Records(map[0 := 10, 1 := 20], map[], map[], map[1 := [21]], map[]);
    var k := Phi(0, map[7 := 1]);
    ArgsOfOne(shapes, r, k, 7);
    assert Registers(shapes, r, 1) == Some([20] + [21]) && [20] + [21] == [20, 21];
    assert k.mappings[7] == 1;
    assert [k] == [] + [k];
    ParamsOfAppend(shapes, r, [], k);
    assert [k][..1] == [k];
    assert !OffsetsAgree(shapes, r, [k], 7, 1);
  }

  /** A phi over tensors that reads a phi, as in a loop, is another, whatever their rank: lowering the
      edge fails for want of dimensions. */
  lemma TensorPhiOfPhiFails(shapes: Value -> Shape, rank: nat)
    requires shapes(0) == Shape.Tensor(rank) && shapes(1) == Shape.Tensor(rank)
    ensures var r := Records(map[0 := 10, 1 := 11], map[], map[], map[], map[]);
      var insts := [Phi(0, map[7 := 1]), Phi(1, map[7 := 0])];
      && AllRecorded(shapes, r, PhiDefs(insts)) && ArgsOf(shapes, r, insts, 7) == None
  {
    var r := Records(map[0 := 10, 1 := 11], map[], map[], map[], map[]);
    var k, l := Phi(0, map[7 := 1]), Phi(1, map[7 := 0]);
    assert [k, l][0] == k && k.mappings[7] == 1;
    assert PhiDefs([k, l]) == {0, 1};
  }

  /** A phi over tuples whose operand is unpacked into two registers is a third. */
  lemma TuplePhiDoesNotLineUp(shapes: Value -> Shape)
    requires shapes(0) == Shape.Tuple(2) && shapes(1) == Shape.Tuple(2)
    ensures var r := Records(map[0 := 10], map[1 := [20, 21]], map[], map[], map[]);
      var insts := [Phi(0, map[7 := 1])];
      && AllRecorded(shapes, r, PhiDefs(insts))
      && ParamsOf(shapes, r, insts) == [10] && ArgsOf(shapes, r, insts, 7) == Some([20, 21])
      && !LinesUp(shapes, r, insts, 7)
  {
    var r := Records(map[0 := 10], map[1 := [20, 21]], map[], map[], map[]);
    var k := Phi(0, map[7 := 1]);
    ArgsOfOne(shapes, r, k, 7);
    assert k.mappings[7] == 1;
    assert [k] == [] + [k];
    ParamsOfAppend(shapes, r, [], k);
    assert PhiDefs([k]) == {0};
    assert [k][..1] == [k];
    assert !OffsetsAgree(shapes, r, [k], 7, 1);
  }

  /** A phi over named tuples of three fields whose operand is held in memory, a call's result for
      instance, is a fourth: three parameters, one argument. */
  lemma NamedTupleInMemoryDoesNotLineUp(shapes: Value -> Shape)
    requires shapes(0) == NamedTuple(3) && shapes(1) == NamedTuple(3)
    ensures var r := Records(map[1 := 20], map[0 := [10, 11, 12]], map[], map[], map[]);
      var insts := [Phi(0, map[7 := 1])];
      && AllRecorded(shapes, r, PhiDefs(insts))
      && ParamsOf(shapes, r, insts) == [10, 11, 12] && ArgsOf(shapes, r, insts, 7) == Some([20])
      && !LinesUp(shapes, r, insts, 7)
  {
    var r := Records(map[1 := 20], map[0 := [10, 11, 12]], map[], map[], map[]);
    var k := Phi(0, map[7 := 1]);
    ArgsOfOne(shapes, r, k, 7);
    assert k.mappings[7] == 1;
    assert [k] == [] + [k];
    ParamsOfAppend(shapes, r, [], k);
    assert PhiDefs([k]) == {0};
    assert [k][..1] == [k];
    assert !OffsetsAgree(shapes, r, [k], 7, 1);
  }

  /** A buffer without a recorded length, as a call or a field leaves it, fails the edge. */
  lemma BufferWithoutLengthFails(shapes: Value -> Shape)
    requires shapes(0).Buffer? && shapes(1).Buffer?
    ensures var r := Records(map[0 := 10, 1 := 20], map[], map[0 := 11], map[], map[]);
      var insts := [Phi(0, map[7 := 1])];
      && AllRecorded(shapes, r, PhiDefs(insts)) && ArgsOf(shapes, r, insts, 7) == None
  {
    var r := Records(map[0 := 10, 1 := 20], map[], map[0 := 11], map[], map[]);
    var k := Phi(0, map[7 := 1]);
    ArgsOfOne(shapes, r, k, 7);
    assert k.mappings[7] == 1;
    assert PhiDefs([k]) == {0};
  }

  // ----- passing -----

  ghost function PositionOf(regs: seq<Reg>, x: Reg): (i: nat)
    requires x in regs
    ensures i < |regs| && regs[i] == x
  {
    var i :| 0 <= i < |regs| && regs[i] == x;
    i
  }

  /** A jump reads all its arguments and then sets all parameters. */
  ghost function Pass<V(!new)>(params: seq<Reg>, args: seq<Reg>, file: Reg -> V): Reg -> V
    requires |params| == |args|
  {
    (x: Reg) => if x in params then file(args[PositionOf(params, x)]) else file(x)
  }

  function Contents<V>(regs: seq<Reg>, file: Reg -> V): seq<V> {
    seq(|regs|, i requires 0 <= i < |regs| => file(regs[i]))
  }

  /** Where a phi's parameters and its operand's registers sit in the two lists. */
  lemma {:induction false} PhiSlot(shapes: Value -> Shape, r: Records, insts: seq<Kind>, p: BlockId, i: nat)
    requires AllCountsMatch(shapes, r, insts, p) && i < |insts| && insts[i].Phi?
    ensures var args := ArgsOf(shapes, r, insts, p); args.Some? && |args.value| == |ParamsOf(shapes, r, insts)|
    ensures var o := |ParamsOf(shapes, r, insts[..i])|; var n := |ParamRegs(shapes, r, insts[i].dest)|;
      && o + n <= |ParamsOf(shapes, r, insts)|
      && ParamsOf(shapes, r, insts)[o..o + n] == ParamRegs(shapes, r, insts[i].dest)
      && ArgsOf(shapes, r, insts, p).value[o..o + n] == Registers(shapes, r, insts[i].mappings[p]).value
  {
    var o := |ParamsOf(shapes, r, insts[..i])|;
    var n := |ParamRegs(shapes, r, insts[i].dest)|;
    assert insts[i] in insts && CountsMatch(shapes, r, insts[i], p);
    OffsetsFromCounts(shapes, r, insts, p, i);
    PrefixStep(shapes, r, insts, p, i);
    OffsetsFromCounts(shapes, r, insts, p, |insts|);
    assert insts[..|insts|] == insts;
    GrowsTo(shapes, r, insts, p, i + 1, |insts|);
  }

  /** Later phis only add at the end. */
  lemma {:induction false} GrowsTo(shapes: Value -> Shape, r: Records, insts: seq<Kind>, p: BlockId, i: nat, j: nat)
    requires AllCountsMatch(shapes, r, insts, p) && i <= j <= |insts|
    ensures ParamsOf(shapes, r, insts[..i]) <= ParamsOf(shapes, r, insts[..j])
    ensures var a, b := ArgsOf(shapes, r, insts[..i], p), ArgsOf(shapes, r, insts[..j], p);
      a.Some? && b.Some? && a.value <= b.value
    decreases j
  {
    OffsetsFromCounts(shapes, r, insts, p, i);
    OffsetsFromCounts(shapes, r, insts, p, j);
    if i < j {
      GrowsTo(shapes, r, insts, p, i, j - 1);
      PrefixStep(shapes, r, insts, p, j - 1);
    }
  }

  /** After the jump each phi's parameters hold what its operand's registers held before, whatever
      else was overwritten: swaps and loops included. */
  lemma PhiIsPassed<V(!new)>(shapes: Value -> Shape, r: Records, insts: seq<Kind>, p: BlockId, file: Reg -> V, k: Kind)
    requires AllCountsMatch(shapes, r, insts, p) && NoDuplicates(ParamsOf(shapes, r, insts))
    requires k in insts && k.Phi?
    ensures var args := ArgsOf(shapes, r, insts, p);
      && args.Some? && |args.value| == |ParamsOf(shapes, r, insts)|
      && Contents(ParamRegs(shapes, r, k.dest), Pass(ParamsOf(shapes, r, insts), args.value, file))
           == Contents(Registers(shapes, r, k.mappings[p]).value, file)
  {
    var i :| 0 <= i < |insts| && insts[i] == k;
    assert CountsMatch(shapes, r, k, p);
    PhiSlot(shapes, r, insts, p, i);
    hide ParamsOf, ArgsOf, ParamRegs, Registers, AllCountsMatch, NoDuplicates, Pass, Contents;
    SlicePassed(ParamsOf(shapes, r, insts), ArgsOf(shapes, r, insts, p).value, file,
      |ParamsOf(shapes, r, insts[..i])|, |ParamRegs(shapes, r, k.dest)|);
  }

  /** A slice of the parameters receives what the same slice of the arguments held. */
  lemma SlicePassed<V(!new)>(params: seq<Reg>, args: seq<Reg>, file: Reg -> V, o: nat, n: nat)
    requires |params| == |args| && NoDuplicates(params) && o + n <= |params|
    ensures Contents(params[o..o + n], Pass(params, args, file)) == Contents(args[o..o + n], file)
  {
  }

  // ----- refinement of the phi semantics -----

  /** Where code that reads a value finds its components: in registers, in memory behind an address, or
      for an array without a recorded stride behind a base, one element after the other. */
  datatype Place = InRegisters(regs: seq<Reg>) | InMemory(address: Reg) | Dense(base: Reg)

  function PlaceOf(shapes: Value -> Shape, r: Records, v: Value): Option<Place> {
    match shapes(v)
    case Plain => if v in r.values then Some(InRegisters([r.values[v]])) else None
    case Record => if v in r.values then Some(InMemory(r.values[v])) else None
    case Array =>
      if v in r.values then Some(if v in r.strides then InRegisters([r.values[v], r.strides[v]])
        else Dense(r.values[v]))
      else None
    case Buffer => if v in r.values && v in r.lengths then Some(InRegisters([r.values[v], r.lengths[v]])) else None
    case Tensor(_) =>
      if v in r.values then Some(InRegisters([r.values[v]] + if v in r.dims then r.dims[v] else [])) else None
    case Tuple(_) => PlaceOfTuple(r, v)
    case NamedTuple(_) => PlaceOfTuple(r, v)
  }

  function PlaceOfTuple(r: Records, v: Value): Option<Place> {
    if v in r.unpacked then Some(InRegisters(r.unpacked[v]))
    else if v in r.values then Some(InMemory(r.values[v]))
    else None
  }

  function RegsOf(place: Place): seq<Reg> {
    match place
    case InRegisters(regs) => regs
    case InMemory(a) => [a]
    case Dense(b) => [b]
  }

  /** What an edge leaves alone: the components stored behind each address, and the number one. */
  datatype Heap<!V> = Heap(stored: V -> seq<V>, one: V)

  /** The place holds the components x. */
  predicate Holds<V(==)>(place: Place, file: Reg -> V, heap: Heap<V>, x: seq<V>) {
    match place
    case InRegisters(regs) => Contents(regs, file) == x
    case InMemory(a) => heap.stored(file(a)) == x
    case Dense(b) => [file(b), heap.one] == x
  }

  /** Every listed value has a place that holds its components. */
  ghost predicate Represents<V(!new)>(shapes: Value -> Shape, r: Records, encode: Val -> seq<V>, file: Reg -> V,
      heap: Heap<V>, env: Store, vs: iset<Value>) {
    forall v | v in vs ::
      PlaceOf(shapes, r, v).Some? && Holds(PlaceOf(shapes, r, v).value, file, heap, encode(Get(env, v)))
  }

  /** A phi lives in its parameters: a tuple or record behind the address in its one parameter. */
  lemma PhiPlace(shapes: Value -> Shape, r: Records, dest: Value)
    requires RecordedAsPhi(shapes, r, dest)
    ensures PlaceOf(shapes, r, dest).Some? && RegsOf(PlaceOf(shapes, r, dest).value) == ParamRegs(shapes, r, dest)
  {
  }

  // ----- which operands keep their meaning -----

  /** The records an operand needs to arrive whole: a tensor no dimensions, but those recorded; an array
      no stride; a tuple held in memory; a named tuple unpacked into its fields; a buffer its length. */
  ghost predicate PassesWhole(shapes: Value -> Shape, r: Records, v: Value) {
    match shapes(v)
    case Array => v in r.values && v !in r.strides
    case Buffer => v in r.values && v in r.lengths
    case Tensor(_) => v in r.values && v in r.dims && r.dims[v] == []
    case Tuple(_) => v in r.values && v !in r.unpacked
    case NamedTuple(n) => v in r.unpacked && |r.unpacked[v]| == n
    case _ => v in r.values
  }

  /** The phi and its operand line up, and whatever the operand held before the jump the phi holds once
      its parameters have the contents of the operand's registers. */
  ghost predicate KeepsMeaning(shapes: Value -> Shape, r: Records, k: Kind, p: BlockId)
    requires k.Phi? && RecordedAsPhi(shapes, r, k.dest)
  {
    PhiPlace(shapes, r, k.dest);
    && CountsMatch(shapes, r, k, p) && PlaceOf(shapes, r, k.mappings[p]).Some?
    && forall before: Reg -> int, after: Reg -> int, heap: Heap<int>, x: seq<int> |
         Arrived(shapes, r, k, p, before, after) && Holds(PlaceOf(shapes, r, k.mappings[p]).value, before, heap, x) ::
         Holds(PlaceOf(shapes, r, k.dest).value, after, heap, x)
  }

  ghost predicate Arrived<V(!new)>(shapes: Value -> Shape, r: Records, k: Kind, p: BlockId, before: Reg -> V,
      after: Reg -> V)
    requires k.Phi? && CountsMatch(shapes, r, k, p)
  {
    Contents(ParamRegs(shapes, r, k.dest), after) == Contents(Registers(shapes, r, k.mappings[p]).value, before)
  }

  /** Which operands keep their meaning can be read off their records: those that arrive whole, and no
      others even where the counts match. */
  lemma KeepsMeaningExactly(shapes: Value -> Shape, r: Records, k: Kind, p: BlockId)
    requires k.Phi? && p in k.mappings && shapes(k.mappings[p]) == shapes(k.dest)
    requires RecordedAsPhi(shapes, r, k.dest)
    ensures KeepsMeaning(shapes, r, k, p) <==> PassesWhole(shapes, r, k.mappings[p])
  {
    if PassesWhole(shapes, r, k.mappings[p]) {
      WholeIsKept(shapes, r, k, p);
    } else if CountsMatch(shapes, r, k, p) && PlaceOf(shapes, r, k.mappings[p]).Some? {
      OtherIsLost(shapes, r, k, p);
    }
  }

  lemma WholeIsKept(shapes: Value -> Shape, r: Records, k: Kind, p: BlockId)
    requires k.Phi? && p in k.mappings && shapes(k.mappings[p]) == shapes(k.dest)
    requires RecordedAsPhi(shapes, r, k.dest) && PassesWhole(shapes, r, k.mappings[p])
    ensures KeepsMeaning(shapes, r, k, p)
  {
    CountsMatchExactly(shapes, r, k, p);
    forall before: Reg -> int, after: Reg -> int, heap: Heap<int>, x: seq<int> |
      Arrived(shapes, r, k, p, before, after) && Holds(PlaceOf(shapes, r, k.mappings[p]).value, before, heap, x)
      ensures Holds(PlaceOf(shapes, r, k.dest).value, after, heap, x)
    {
      WholeArrives(shapes, r, k, p, before, after, heap, x);
    }
  }

  /** Operand and phi have the same kind of place, so equal contents hold equal components. */
  lemma WholeArrives<V(!new)>(shapes: Value -> Shape, r: Records, k: Kind, p: BlockId, before: Reg -> V,
      after: Reg -> V, heap: Heap<V>, x: seq<V>)
    requires k.Phi? && p in k.mappings && shapes(k.mappings[p]) == shapes(k.dest)
    requires RecordedAsPhi(shapes, r, k.dest) && PassesWith(shapes, r, k.mappings[p], before, heap)
    requires CountsMatch(shapes, r, k, p) && Arrived(shapes, r, k, p, before, after)
    requires PlaceOf(shapes, r, k.mappings[p]).Some? && Holds(PlaceOf(shapes, r, k.mappings[p]).value, before, heap, x)
    ensures PlaceOf(shapes, r, k.dest).Some? && Holds(PlaceOf(shapes, r, k.dest).value, after, heap, x)
  {
    var v := k.mappings[p];
    if shapes(v).Record? || shapes(v).Tuple? || shapes(v).Array? {
      OneArrives(r.values[k.dest], r.values[v], before, after);
    }
    if shapes(v).Array? && v in r.strides {
      assert Contents([r.values[v], r.strides[v]], before) == [before(r.values[v]), before(r.strides[v])];
    }
  }

  lemma OneArrives<V(!new)>(param: Reg, arg: Reg, before: Reg -> V, after: Reg -> V)
    requires Contents([param], after) == Contents([arg], before)
    ensures after(param) == before(arg)
  {
    assert Contents([param], after)[0] == Contents([arg], before)[0];
  }

  /** The other operands that line up: an unpacked tuple of one register, a named tuple of one field in
      memory, an array with a stride. One can tell the difference. */
  lemma OtherIsLost(shapes: Value -> Shape, r: Records, k: Kind, p: BlockId)
    requires k.Phi? && p in k.mappings && shapes(k.mappings[p]) == shapes(k.dest)
    requires RecordedAsPhi(shapes, r, k.dest) && CountsMatch(shapes, r, k, p)
    requires PlaceOf(shapes, r, k.mappings[p]).Some? && !PassesWhole(shapes, r, k.mappings[p])
    ensures !KeepsMeaning(shapes, r, k, p)
  {
    var v := k.mappings[p];
    CountsMatchExactly(shapes, r, k, p);
    PhiPlace(shapes, r, k.dest);
    var file: Reg -> int := _ => 0;
    var heap: Heap<int> := Heap(_ => [1], 1);
    var x := if shapes(v).NamedTuple? then [1] else if shapes(v).Array? then [0, 0] else [0];
    ConstantContents(ParamRegs(shapes, r, k.dest), file, 0);
    ConstantContents(Registers(shapes, r, v).value, file, 0);
    assert Arrived(shapes, r, k, p, file, file);
    assert Holds(PlaceOf(shapes, r, v).value, file, heap, x);
    assert shapes(v).NamedTuple? ==> Contents(ParamRegs(shapes, r, k.dest), file)[0] == 0;
    assert !Holds(PlaceOf(shapes, r, k.dest).value, file, heap, x);
  }

  lemma ConstantContents<V(!new)>(regs: seq<Reg>, file: Reg -> V, x: V)
    requires forall reg :: file(reg) == x
    ensures Contents(regs, file) == seq(|regs|, _ => x)
  {
  }

  /** A declared phi that is read by a phi, as in loops and swaps, arrives whole for every shape but
      tensors, which have no dimensions recorded whatever their rank. */
  lemma PhiOperand(shapes: Value -> Shape, blocks: seq<Block>, params: map<BlockId, seq<Reg>>, r: Records, block: Block,
      v: Value)
    requires PhisDeclared(shapes, blocks, params, r) && block in blocks && v in PhiDefs(block.insts)
    ensures PassesWhole(shapes, r, v) <==> !shapes(v).Tensor?
    ensures shapes(v).Tensor? ==> Registers(shapes, r, v).None?
  {
    assert RecordedAsPhi(shapes, r, v);
  }

  /** A tuple of one element lines up and is lost: the phi is read behind the address its parameter
      holds, the operand passes the element itself. */
  lemma SingletonTupleIsLost(shapes: Value -> Shape)
    requires shapes(0) == Shape.Tuple(1) && shapes(1) == Shape.Tuple(1)
    ensures var r := Records(map[0 := 10, 1 := 21], map[1 := [20]], map[], map[], map[]);
      var k := Phi(0, map[7 := 1]);
      && RecordedAsPhi(shapes, r, 0) && CountsMatch(shapes, r, k, 7) && !KeepsMeaning(shapes, r, k, 7)
  {
    var r := Records(map[0 := 10, 1 := 21], map[1 := [20]], map[], map[], map[]);
    var k := Phi(0, map[7 := 1]);
    assert k.mappings[7] == 1;
    KeepsMeaningExactly(shapes, r, k, 7);
  }

  /** So is the stride of a sliced array: read through the phi its elements follow one another. */
  lemma SliceIsLost(shapes: Value -> Shape)
    requires shapes(0).Array? && shapes(1).Array?
    ensures var r := Records(map[0 := 10, 1 := 20], map[], map[], map[], map[1 := 21]);
      var k := Phi(0, map[7 := 1]);
      && RecordedAsPhi(shapes, r, 0) && CountsMatch(shapes, r, k, 7) && !KeepsMeaning(shapes, r, k, 7)
  {
    var r := Records(map[0 := 10, 1 := 20], map[], map[], map[], map[1 := 21]);
    var k := Phi(0, map[7 := 1]);
    assert k.mappings[7] == 1;
    KeepsMeaningExactly(shapes, r, k, 7);
  }

  // ----- what the instructions record -----

  /** Where values come from, as far as their records go: function arguments; phis; results of calls;
      tuple and record literals of parts that arrive whole; parts taken from something unpacked; parts
      found in memory by their offset; array slices; and other operations, tensor arithmetic and buffer
      stores among them. */
  datatype Producer = Argument | PhiResult | CallResult | Literal | UnpackedPart | MemoryPart | Slice | Operation

  /** The records a producer leaves for a value of its shape. */
  ghost predicate RecordedBy(shapes: Value -> Shape, r: Records, v: Value, q: Producer) {
    match q
    case Argument => RecordedAsArgument(shapes, r, v)
    case PhiResult => RecordedAsPhi(shapes, r, v)
    case CallResult => RecordedAsResult(shapes, r, v)
    case Literal => RecordedAsLiteral(shapes, r, v)
    case UnpackedPart => RecordedAsPart(shapes, r, v)
    case MemoryPart => OnlyValue(r, v)
    case Slice => shapes(v).Array? && v in r.values && v in r.strides
    case Operation => RecordedAsOperation(shapes, r, v)
  }

  ghost predicate OnlyValue(r: Records, v: Value) {
    v in r.values && v !in r.unpacked && v !in r.lengths && v !in r.dims && v !in r.strides
  }

  ghost predicate Unpacked(r: Records, v: Value, n: nat) {
    v in r.unpacked && |r.unpacked[v]| == n
  }

  ghost predicate RecordedAsArgument(shapes: Value -> Shape, r: Records, v: Value) {
    match shapes(v)
    case Buffer => v in r.values && v in r.lengths
    case Tensor(rank) => v in r.values && v in r.dims && |r.dims[v]| == rank
    case Tuple(n) => Unpacked(r, v, n)
    case NamedTuple(n) => Unpacked(r, v, n)
    case _ => OnlyValue(r, v)
  }

  /** Up to two registers come back unpacked, more through memory. */
  ghost predicate RecordedAsResult(shapes: Value -> Shape, r: Records, v: Value) {
    match shapes(v)
    case Tuple(n) => if n <= 2 then Unpacked(r, v, n) else OnlyValue(r, v)
    case NamedTuple(n) => if n <= 2 then Unpacked(r, v, n) else OnlyValue(r, v)
    case _ => OnlyValue(r, v)
  }

  ghost predicate RecordedAsLiteral(shapes: Value -> Shape, r: Records, v: Value) {
    match shapes(v)
    case Tuple(n) => v in r.values && Unpacked(r, v, n)
    case NamedTuple(n) => Unpacked(r, v, n)
    case Record => OnlyValue(r, v)
    case _ => false
  }

  ghost predicate RecordedAsPart(shapes: Value -> Shape, r: Records, v: Value) {
    match shapes(v)
    case Tuple(n) => Unpacked(r, v, n)
    case NamedTuple(n) => Unpacked(r, v, n)
    case Record => Unpacked(r, v, 1) && v !in r.values
    case _ => OnlyValue(r, v)
  }

  ghost predicate RecordedAsOperation(shapes: Value -> Shape, r: Records, v: Value) {
    match shapes(v)
    case Plain => OnlyValue(r, v)
    case Buffer => v in r.values && v in r.lengths
    case Tensor(rank) => v in r.values && v in r.dims && |r.dims[v]| == rank
    case _ => false
  }

  /** Which values may flow into a phi, by shape and producer. */
  predicate MayJoin(s: Shape, q: Producer) {
    match s
    case Plain => true
    case Record => q != UnpackedPart
    case Array => q != Slice
    case Buffer => q == Argument || q == PhiResult || q == Operation
    case Tensor(rank) => rank == 0 && (q == Argument || q == Operation)
    case Tuple(n) => q == PhiResult || q == MemoryPart || (q == CallResult && n > 2)
    case NamedTuple(n) => q != MemoryPart && !(q == CallResult && n > 2)
  }

  /** What a front end would have to respect: an operand arrives whole exactly when its producer leaves
      values of its shape the way phis of that shape take them. */
  lemma JoinsExactly(shapes: Value -> Shape, r: Records, v: Value, q: Producer)
    requires RecordedBy(shapes, r, v, q)
    ensures PassesWhole(shapes, r, v) <==> MayJoin(shapes(v), q)
  {
  }

  // ----- the whole edge -----

  lemma {:induction false} PhiValue(insts: seq<Kind>, from: Option<BlockId>, env: Store, bound: Store, k: Kind)
    requires DistinctPhis(insts) && k in insts && k.Phi?
    ensures Get(BindPhis(insts, from, env, bound), k.dest) == Incoming(k.mappings, from, env)
  {
    var rest := insts[1..];
    assert insts == [insts[0]] + rest;
    var next := if insts[0].Phi? then bound[insts[0].dest := Incoming(insts[0].mappings, from, env)] else bound;
    assert forall i | 0 <= i < |rest| :: rest[i] == insts[i + 1];
    if k in rest {
      PhiValue(rest, from, env, next, k);
    } else {
      forall j | j in rest && j.Phi?
        ensures j.dest != k.dest
      {
        var i :| 0 <= i < |rest| && rest[i] == j;
      }
      BindPhisFrame(rest, from, env, next, k.dest);
    }
  }

  /** A value keeps its place across the jump: none of its registers is a parameter of the target. */
  ghost predicate Untouched(shapes: Value -> Shape, r: Records, params: seq<Reg>, v: Value) {
    PlaceOf(shapes, r, v).Some? && Disjoint(RegsOf(PlaceOf(shapes, r, v).value), params)
  }

  lemma UntouchedKept<V(!new)>(params: seq<Reg>, args: seq<Reg>, file: Reg -> V, place: Place, heap: Heap<V>, x: seq<V>)
    requires |params| == |args| && Disjoint(RegsOf(place), params) && Holds(place, file, heap, x)
    ensures Holds(place, Pass(params, args, file), heap, x)
  {
    var after := Pass(params, args, file);
    forall reg | reg in RegsOf(place)
      ensures after(reg) == file(reg)
    {
    }
    hide Pass;
    assert Contents(RegsOf(place), after) == Contents(RegsOf(place), file);
  }

  /** On this run the operand arrives whole: its records say so, or it is a slice of step one. */
  ghost predicate PassesWith<V(!new)>(shapes: Value -> Shape, r: Records, v: Value, file: Reg -> V, heap: Heap<V>) {
    || PassesWhole(shapes, r, v)
    || (shapes(v).Array? && v in r.values && v in r.strides && file(r.strides[v]) == heap.one)
  }

  /** The edge from block p can be taken: every phi has an operand for it, of its own shape, that arrives
      whole. */
  ghost predicate EdgePasses<V(!new)>(shapes: Value -> Shape, r: Records, insts: seq<Kind>, p: BlockId, file: Reg -> V,
      heap: Heap<V>) {
    forall k | k in insts && k.Phi? ::
      && p in k.mappings && shapes(k.mappings[p]) == shapes(k.dest)
      && PassesWith(shapes, r, k.mappings[p], file, heap)
  }

  lemma EdgePassesCounts<V(!new)>(shapes: Value -> Shape, r: Records, insts: seq<Kind>, p: BlockId, file: Reg -> V,
      heap: Heap<V>)
    requires EdgePasses(shapes, r, insts, p, file, heap) && AllRecorded(shapes, r, PhiDefs(insts))
    ensures AllCountsMatch(shapes, r, insts, p)
    ensures var args := ArgsOf(shapes, r, insts, p); args.Some? && |args.value| == |ParamsOf(shapes, r, insts)|
  {
    forall k | k in insts && k.Phi?
      ensures CountsMatch(shapes, r, k, p)
    {
      assert k.dest in PhiDefs(insts);
      CountsMatchExactly(shapes, r, k, p);
    }
    OffsetsFromCounts(shapes, r, insts, p, |insts|);
    assert insts[..|insts|] == insts;
  }

  /** Passing arguments refines reading the phis of the target at once: places that hold the store before
      the jump hold the store with the phis bound after it. */
  lemma EdgeRefinesPhis<V(!new)>(shapes: Value -> Shape, r: Records, encode: Val -> seq<V>, insts: seq<Kind>,
      p: BlockId, file: Reg -> V, heap: Heap<V>, env: Store, vs: iset<Value>)
    requires EdgePasses(shapes, r, insts, p, file, heap) && AllRecorded(shapes, r, PhiDefs(insts))
    requires NoDuplicates(ParamsOf(shapes, r, insts)) && DistinctPhis(insts)
    requires Represents(shapes, r, encode, file, heap, env, vs) && forall k | k in insts
      && k.Phi? :: k.mappings[p] in vs
    ensures var args := ArgsOf(shapes, r, insts, p); args.Some? && |args.value| == |ParamsOf(shapes, r, insts)|
    ensures var params := ParamsOf(shapes, r, insts);
      Represents(shapes, r, encode, Pass(params, ArgsOf(shapes, r, insts, p).value, file), heap,
        BindPhis(insts, Some(p), env, env), iset v: Value | v in PhiDefs(insts)
          || (v in vs && Untouched(shapes, r, params, v)))
  {
    EdgePassesCounts(shapes, r, insts, p, file, heap);
    hide Pass, Contents, ParamsOf, ArgsOf, Registers, RecordedAsPhi, DistinctPhis, NoDuplicates, BindPhis, ParamRegs,
      PlaceOf, Holds;
    var params, args := ParamsOf(shapes, r, insts), ArgsOf(shapes, r, insts, p).value;
    var after, bound := Pass(params, args, file), BindPhis(insts, Some(p), env, env);
    forall v: Value | v in PhiDefs(insts) || (v in vs && Untouched(shapes, r, params, v))
      ensures PlaceOf(shapes, r, v).Some? && Holds(PlaceOf(shapes, r, v).value, after, heap, encode(Get(bound, v)))
    {
      if v in PhiDefs(insts) {
        var k :| k in insts && k.Phi? && k.dest == v;
        PhiArrives(shapes, r, encode, insts, p, file, heap, env, vs, k);
      } else {
        BindPhisFrame(insts, Some(p), env, env, v);
        UntouchedKept(params, args, file, PlaceOf(shapes, r, v).value, heap, encode(Get(env, v)));
      }
    }
  }

  lemma PhiArrives<V(!new)>(shapes: Value -> Shape, r: Records, encode: Val -> seq<V>, insts: seq<Kind>, p: BlockId,
      file: Reg -> V, heap: Heap<V>, env: Store, vs: iset<Value>, k: Kind)
    requires EdgePasses(shapes, r, insts, p, file, heap) && AllRecorded(shapes, r, PhiDefs(insts))
    requires NoDuplicates(ParamsOf(shapes, r, insts)) && DistinctPhis(insts)
    requires k in insts && k.Phi? && k.mappings[p] in vs && Represents(shapes, r, encode, file, heap, env, vs)
    ensures var args := ArgsOf(shapes, r, insts, p);
      && args.Some? && |args.value| == |ParamsOf(shapes, r, insts)| && PlaceOf(shapes, r, k.dest).Some?
      && Holds(PlaceOf(shapes, r, k.dest).value, Pass(ParamsOf(shapes, r, insts), args.value, file), heap,
           encode(Get(BindPhis(insts, Some(p), env, env), k.dest)))
  {
    assert k.dest in PhiDefs(insts) && RecordedAsPhi(shapes, r, k.dest);
    EdgePassesCounts(shapes, r, insts, p, file, heap);
    PhiIsPassed(shapes, r, insts, p, file, k);
    hide NoDuplicates, AllRecorded, ParamsOf, ArgsOf, Contents, Pass, PlaceOf, Holds, ParamRegs, Registers, PassesWith,
      RecordedAsPhi;
    PhiValue(insts, Some(p), env, env, k);
    var after := Pass(ParamsOf(shapes, r, insts), ArgsOf(shapes, r, insts, p).value, file);
    WholeArrives(shapes, r, k, p, file, after, heap, encode(Get(env, k.mappings[p])));
  }

  // ----- generated code -----

  lemma FindBlock(blocks: seq<Block>, block: Block)
    requires UniqueIds(blocks) && block in blocks
    ensures Find(blocks, block.id) == Some(block)
  {
    var i :| 0 <= i < |blocks| && blocks[i] == block;
    FindAt(blocks, i);
  }

  /** Lowering a terminator forms the arguments for one of its targets exactly when all operands of the
      edge are recorded the way their shape demands. */
  lemma LoweringSucceeds(shapes: Value -> Shape, blocks: seq<Block>, r: Records, p: BlockId, t: BlockId)
    requires UniqueIds(blocks)
    ensures EdgeArgsOf(shapes, r, blocks, p, t).Some? <==>
      forall block, k | block in blocks && block.id == t && k in block.insts && k.Phi?
        && p in k.mappings :: Formable(shapes, r, k.mappings[p])
  {
    if Find(blocks, t).Some? {
      var found := Find(blocks, t).value;
      ArgsFormExactly(shapes, r, found.insts, p);
      forall block | block in blocks && block.id == t
        ensures block == found
      {
        FindBlock(blocks, block);
      }
    }
  }

  /** What is represented after entering a block: its phis, and everything represented before whose
      registers are not parameters of the block, the phis of all other blocks among it. */
  ghost predicate Arrives(shapes: Value -> Shape, blocks: seq<Block>, params: map<BlockId, seq<Reg>>, r: Records,
      block: Block, vs: iset<Value>, v: Value) {
    || v in PhiDefs(block.insts)
    || (v in vs && (Untouched(shapes, r, ParamsIn(params, block.id), v)
                    || exists other | other in blocks :: other.id != block.id && v in PhiDefs(other.insts)))
  }

  lemma {:induction false} ParamsOfContains(shapes: Value -> Shape, r: Records, insts: seq<Kind>, k: Kind)
    requires k in insts && k.Phi?
    ensures forall x | x in ParamRegs(shapes, r, k.dest) :: x in ParamsOf(shapes, r, insts)
  {
    hide ParamRegs;
    if insts[0] != k {
      ParamsOfContains(shapes, r, insts[1..], k);
    }
  }

  lemma OtherPhiUntouched(shapes: Value -> Shape, blocks: seq<Block>, params: map<BlockId, seq<Reg>>, r: Records,
      block: Block, other: Block, v: Value)
    requires PhisDeclared(shapes, blocks, params, r) && block in blocks && other in blocks && other.id != block.id
    requires v in PhiDefs(other.insts)
    ensures Untouched(shapes, r, ParamsIn(params, block.id), v)
  {
    var k :| k in other.insts && k.Phi? && k.dest == v;
    assert AllRecorded(shapes, r, PhiDefs(other.insts)) && RecordedAsPhi(shapes, r, v);
    PhiPlace(shapes, r, v);
    ParamsOfContains(shapes, r, other.insts, k);
    assert Disjoint(ParamsIn(params, other.id), ParamsIn(params, block.id));
  }

  /** Leaving SSA preserves meaning. Once all phis are declared, the code generated for a terminator
      takes control from p to the block the terminator names, with one argument for each of its
      parameters, and passing them reads all phis of that block at once: values represented in
      registers or memory before the jump are represented after it, swaps, loops and trampolines
      included, provided the operands arrive whole. */
  lemma CodeRefinesPhis<V(!new)>(shapes: Value -> Shape, blocks: seq<Block>, params: map<BlockId, seq<Reg>>, r: Records,
      encode: Val -> seq<V>, p: BlockId, k: Kind, code: Code, block: Block, file: Reg -> V, heap: Heap<V>, env: Store,
      vs: iset<Value>)
    requires UniqueIds(blocks) && PhisApart(blocks) && PhisDeclared(shapes, blocks, params, r)
    requires PassesControl(shapes, r, blocks, p, k, code)
    requires Leave(k, env) == Goto(block.id) && block in blocks && EdgePasses(shapes, r, block.insts, p, file, heap)
    requires Represents(shapes, r, encode, file, heap, env, vs)
    requires forall phi | phi in block.insts && phi.Phi? :: phi.mappings[p] in vs
    ensures var x := Transfer(code, Operand(k, env)); x.0 == block.id && |x.1| == |ParamsIn(params, block.id)|
    ensures Represents(shapes, r, encode, Pass(ParamsIn(params, block.id), Transfer(code, Operand(k, env)).1, file),
      heap,
      BindPhis(block.insts, Some(p), env, env), iset v: Value | Arrives(shapes, blocks, params, r, block, vs, v))
  {
    FindBlock(blocks, block);
    assert Lands(shapes, r, blocks, p, Transfer(code, Operand(k, env)), block.id);
    EdgeRefinesPhis(shapes, r, encode, block.insts, p, file, heap, env, vs);
    hide Untouched, PhiDefs, Represents, PhisDeclared, Pass, EdgePasses, AllCountsMatch;
    var ps := ParamsOf(shapes, r, block.insts);
    forall v: Value | Arrives(shapes, blocks, params, r, block, vs, v)
      ensures v in PhiDefs(block.insts) || (v in vs && Untouched(shapes, r, ps, v))
    {
      if v !in PhiDefs(block.insts) && !Untouched(shapes, r, ps, v) {
        var other :| other in blocks && other.id != block.id && v in PhiDefs(other.insts);
        OtherPhiUntouched(shapes, blocks, params, r, block, other, v);
      }
    }
  }
}
