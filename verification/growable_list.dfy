/** The runtime's growable list: elements of one size packed into a byte buffer that doubles. */
module GrowableList {
  import opened Arithmetic

  type Byte = bv8

  type Element = seq<Byte>

  // ----- elements in a buffer -----

  lemma SlotBounds(i: nat, n: nat, elem: nat)
    requires i < n
    ensures 0 <= i * elem <= (i + 1) * elem <= n * elem && (i + 1) * elem == i * elem + elem
  {
  }

  function Slot(bytes: seq<Byte>, elem: nat, n: nat, i: nat): Element
    requires i < n && n * elem <= |bytes|
  {
    SlotBounds(i, n, elem);
    bytes[i * elem..(i + 1) * elem]
  }

  /** The first n elements of a buffer. */
  function Elements(bytes: seq<Byte>, elem: nat, n: nat): (s: seq<Element>)
    requires n * elem <= |bytes|
    ensures |s| == n && forall i | 0 <= i < n :: s[i] == Slot(bytes, elem, n, i)
  {
    seq(n, i requires 0 <= i < n => Slot(bytes, elem, n, i))
  }

  /** Buffers that agree on the first n slots hold the same elements. */
  lemma ElementsAgree(a: seq<Byte>, b: seq<Byte>, elem: nat, n: nat)
    requires n * elem <= |a| && n * elem <= |b| && a[..n * elem] == b[..n * elem]
    ensures Elements(a, elem, n) == Elements(b, elem, n)
  {
    forall i | 0 <= i < n
      ensures Slot(a, elem, n, i) == Slot(b, elem, n, i)
    {
      SlotBounds(i, n, elem);
      assert a[i * elem..(i + 1) * elem] == a[..n * elem][i * elem..(i + 1) * elem];
      assert b[i * elem..(i + 1) * elem] == b[..n * elem][i * elem..(i + 1) * elem];
    }
  }

  /** Where slots lie relative to slot k. */
  lemma SlotsApart(i: nat, k: nat, n: nat, elem: nat)
    requires i < n && k < n
    ensures 0 <= i * elem <= i * elem + elem <= n * elem && (i + 1) * elem == i * elem + elem
    ensures i < k ==> i * elem + elem <= k * elem
    ensures i > k ==> k * elem + elem <= i * elem
  {
    SlotBounds(i, n, elem);
    if i < k {
      SlotBounds(i, k, elem);
    } else if i > k {
      SlotBounds(k, i, elem);
    }
  }

  lemma SlotAfterWrite(a: seq<Byte>, b: seq<Byte>, at: nat, elem: nat, item: Element, from: nat)
    requires |a| == |b| && |item| == elem && at + elem <= |a| && from + elem <= |a|
    requires b == a[..at] + item + a[at + elem..]
    requires from + elem <= at || from == at || at + elem <= from
    ensures b[from..from + elem] == if from == at then item else a[from..from + elem]
  {
  }

  /** Writing one slot replaces one element. */
  lemma ElementsWrite(a: seq<Byte>, b: seq<Byte>, elem: nat, n: nat, k: nat, item: Element)
    requires k < n && n * elem <= |a| == |b| && |item| == elem && (k + 1) * elem == k * elem + elem
      && (k + 1) * elem <= |a|
    requires b == a[..k * elem] + item + a[(k + 1) * elem..]
    ensures Elements(b, elem, n) == Elements(a, elem, n)[k := item]
  {
    forall i | 0 <= i < n
      ensures Slot(b, elem, n, i) == if i == k then item else Slot(a, elem, n, i)
    {
      WrittenSlot(a, b, elem, n, k, item, i);
    }
  }

  lemma WrittenSlot(a: seq<Byte>, b: seq<Byte>, elem: nat, n: nat, k: nat, item: Element, i: nat)
    requires k < n && i < n && n * elem <= |a| == |b| && |item| == elem && (k + 1) * elem == k * elem + elem
      && (k + 1) * elem <= |a|
    requires b == a[..k * elem] + item + a[(k + 1) * elem..]
    ensures Slot(b, elem, n, i) == if i == k then item else Slot(a, elem, n, i)
  {
    SlotsApart(i, k, n, elem);
    if i == k {
      SlotAfterWrite(a, b, k * elem, elem, item, k * elem);
    } else if elem > 0 {
      SlotAfterWrite(a, b, k * elem, elem, item, i * elem);
    }
  }

  lemma ElementsExtend(bytes: seq<Byte>, elem: nat, n: nat)
    requires (n + 1) * elem <= |bytes| && n * elem <= |bytes|
    ensures Elements(bytes, elem, n + 1) == Elements(bytes, elem, n) + [Slot(bytes, elem, n + 1, n)]
  {
  }

  // ----- the list -----

  datatype Access = Found(item: Element) | OutOfRange

  /** Capacities a list can have. */
  ghost predicate IsCapacity(cap: nat) {
    cap == 0 || exists k: nat :: cap == 4 * Pow2(k)
  }

  method CopyPrefix(source: array<Byte>, target: array<Byte>, n: nat)
    requires n <= source.Length && n <= target.Length && source != target
    modifies target
    ensures target[..n] == source[..n]
  {
    for i := 0 to n
      invariant target[..i] == source[..i]
    {
      target[i] := source[i];
    }
  }

  class List {
    const elem: nat
    var data: array?<Byte>
    var len: nat
    var cap: nat
    /** Elements moved by growing so far. */
    ghost var copied: nat

    ghost predicate Valid()
      reads this, data
    {
      && elem > 0 && len <= cap && IsCapacity(cap)
      && (data == null <==> cap == 0) && (data != null ==> data.Length == cap * elem)
      && copied == (if cap == 0 then 0 else cap - 4) && (cap > 4 ==> cap < 2 * len) && (cap > 0 ==> len > 0)
      && len * elem <= cap * elem
    }

    ghost function Bytes(): seq<Byte>
      reads this, data
    {
      if data == null then [] else data[..]
    }

    ghost function Contents(): seq<Element>
      requires Valid()
      reads this, data
    {
      Elements(Bytes(), elem, len)
    }

    constructor (elem: nat)
      requires elem > 0
      ensures Valid() && Contents() == [] && this.elem == elem && copied == 0
    {
      this.elem, data, len, cap, copied := elem, null, 0, 0, 0;
    }

    /** Doubles the capacity, keeping the elements. */
    method Grow()
      requires Valid() && len == cap
      modifies this`data, this`cap, this`copied
      ensures data != null && fresh(data) && data.Length == cap * elem
      ensures cap == (if old(cap) == 0 then 4 else 2 * old(cap)) && IsCapacity(cap)
      ensures len * elem <= |old(Bytes())| <= data.Length && data[..len * elem] == old(Bytes())[..len * elem]
      ensures copied == old(copied) + len
    {
      var newCap := if cap == 0 then 4 else cap * 2;
      CapacityDoubles(cap);
      MulMonotone(cap, newCap, elem);
      var newData := new Byte[newCap * elem](_ => 0);
      if data != null {
        CopyPrefix(data, newData, len * elem);
      }
      copied := copied + len;
      data := newData;
      cap := newCap;
    }

    /** Copies an item into slot k of the buffer. */
    method Write(k: nat, item: Element)
      requires data != null && |item| == elem && (k + 1) * elem == k * elem + elem && (k + 1) * elem <= data.Length
      modifies data
      ensures data[..] == old(data[..k * elem]) + item + old(data[(k + 1) * elem..])
    {
      var at := k * elem;
      ghost var before := data[..];
      for i := 0 to elem
        invariant data[..] == before[..at] + item[..i] + before[at + i..]
      {
        data[at + i] := item[i];
      }
    }

    method Append(item: Element)
      requires Valid() && |item| == elem
      modifies this, data
      ensures Valid() && Contents() == old(Contents()) + [item]
      ensures data == old(data) || fresh(data)
      ensures old(len) < old(cap) ==> cap == old(cap) && copied == old(copied)
      ensures old(len) == old(cap) ==>
        cap == (if old(cap) == 0 then 4 else 2 * old(cap)) && copied == old(copied) + old(len)
    {
      ghost var bytes := Bytes();
      if len == cap {
        Grow();
      }
      SlotBounds(len, cap, elem);
      ElementsAgree(bytes, data[..], elem, len);
      ghost var grown := data[..];
      Write(len, item);
      AppendedElements(grown, data[..], elem, len, item);
      len := len + 1;
    }

    /** Negative indices count from the end, as the Python wrapper allows. */
    function Resolve(index: int): int
      reads this
    {
      if index < 0 then index + len else index
    }

    method Get(index: int) returns (r: Access)
      requires Valid()
      ensures 0 <= index < |Contents()| ==> r == Found(Contents()[index])
      ensures -|Contents()| <= index < 0 ==> r == Found(Contents()[|Contents()| + index])
      ensures index < -|Contents()| || index >= |Contents()| ==> r == OutOfRange
    {
      var i := Resolve(index);
      if i < 0 || i >= len {
        return OutOfRange;
      }
      SlotBounds(i, len, elem);
      r := Found(data[i * elem..(i + 1) * elem]);
      assert Slot(data[..], elem, len, i) == data[..][i * elem..(i + 1) * elem];
    }

    method Set(index: int, item: Element) returns (ok: bool)
      requires Valid() && |item| == elem
      modifies data
      ensures Valid() && |Contents()| == old(|Contents()|) && ok == (-|Contents()| <= index < |Contents()|)
      ensures ok ==> Contents() == old(Contents())[if index < 0 then |Contents()| + index else index := item]
      ensures !ok ==> Contents() == old(Contents())
    {
      var i := Resolve(index);
      if i < 0 || i >= len {
        return false;
      }
      SlotBounds(i, len, elem);
      ghost var before := data[..];
      Write(i, item);
      ElementsWrite(before, data[..], elem, len, i, item);
      ok := true;
    }
  }

  // ----- runs -----

  datatype Operation = Append(item: Element) | Get(index: int) | Set(index: int, item: Element)

  /** What an operation does to a sequence, and answers. */
  function Apply(s: seq<Element>, op: Operation): (seq<Element>, Access) {
    match op
    case Append(item) => (s + [item], OutOfRange)
    case Get(index) =>
      var i := if index < 0 then index + |s| else index;
      (s, if 0 <= i < |s| then Found(s[i]) else OutOfRange)
    case Set(index, item) =>
      var i := if index < 0 then index + |s| else index;
      if 0 <= i < |s| then (s[i := item], Found(item)) else (s, OutOfRange)
  }

  function ApplyAll(s: seq<Element>, ops: seq<Operation>): (r: (seq<Element>, seq<Access>))
    ensures |r.1| == |ops|
  {
    if ops == [] then (s, [])
    else
      var before := ApplyAll(s, ops[..|ops| - 1]);
      var step := Apply(before.0, ops[|ops| - 1]);
      (step.0, before.1 + [step.1])
  }

  function Appends(ops: seq<Operation>): nat {
    if ops == [] then 0 else Appends(ops[..|ops| - 1]) + if ops[|ops| - 1].Append? then 1 else 0
  }

  predicate ItemsFit(ops: seq<Operation>, elem: nat) {
    forall op | op in ops && !op.Get? :: |op.item| == elem
  }

  /** Any mix of operations on a new list answers like the sequence, and growing has moved fewer than
      two elements per append. */
  method RunOn(ops: seq<Operation>, elem: nat) returns (list: List, answers: seq<Access>)
    requires elem > 0 && ItemsFit(ops, elem)
    ensures fresh(list) && list.Valid() && list.elem == elem
    ensures (list.Contents(), answers) == ApplyAll([], ops)
    ensures list.len == Appends(ops) && (Appends(ops) > 0 ==> list.copied < 2 * Appends(ops))
      && (Appends(ops) == 0 ==> list.copied == 0)
  {
    list := new List(elem);
    answers := [];
    for i := 0 to |ops|
      invariant fresh(list) && list.Valid() && (list.data == null || fresh(list.data)) && list.elem == elem
      invariant (list.Contents(), answers) == ApplyAll([], ops[..i]) && list.len == Appends(ops[..i])
    {
      assert ops[..i + 1][..i] == ops[..i];
      assert ops[i] in ops;
      var answer := Perform(list, ops[i]);
      answers := answers + [answer];
    }
    assert ops[..|ops|] == ops;
  }

  method Perform(list: List, op: Operation) returns (answer: Access)
    requires list.Valid() && (!op.Get? ==> |op.item| == list.elem)
    modifies list, list.data
    ensures list.Valid() && (list.data == old(list.data) || fresh(list.data))
    ensures (list.Contents(), answer) == Apply(old(list.Contents()), op)
    ensures list.len == old(list.len) + if op.Append? then 1 else 0
  {
    match op {
      case Append(item) =>
        list.Append(item);
        answer := OutOfRange;
      case Get(index) =>
        answer := list.Get(index);
      case Set(index, item) =>
        var ok := list.Set(index, item);
        answer := if ok then Found(item) else OutOfRange;
    }
  }

  lemma CapacityDoubles(cap: nat)
    requires IsCapacity(cap)
    ensures IsCapacity(if cap == 0 then 4 else cap * 2)
  {
    if cap == 0 {
      assert 4 == 4 * Pow2(0);
    } else {
      var k: nat :| cap == 4 * Pow2(k);
      assert cap * 2 == 4 * Pow2(k + 1);
    }
  }

  lemma AppendedElements(a: seq<Byte>, b: seq<Byte>, elem: nat, n: nat, item: Element)
    requires |a| == |b| && |item| == elem && (n + 1) * elem == n * elem + elem && (n + 1) * elem <= |a|
    requires b == a[..n * elem] + item + a[(n + 1) * elem..]
    ensures Elements(b, elem, n + 1) == Elements(a, elem, n) + [item]
  {
    assert a[..n * elem] == b[..n * elem];
    ElementsAgree(a, b, elem, n);
    ElementsExtend(b, elem, n);
    SlotBounds(n, n + 1, elem);
    assert b[n * elem..(n + 1) * elem] == item;
  }
}
