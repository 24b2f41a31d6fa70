/** Closed byte intervals, as embedded by value in tree entries, insertion
    arguments and iterator states (interval.c). */
module Intervals {

  const BYTE_INDEX_MIN: int := 0
  const BYTE_INDEX_MAX: int := 0xFFFF_FFFF

  datatype Option<+T> = None | Some(value: T)

  /** `nonempty` is a flag of its own: the special empty interval has it cleared
      and has its bounds crossed. */
  datatype Interval = Interval(left: int, right: int, nonempty: bool)

  const EMPTY := Interval(BYTE_INDEX_MAX, BYTE_INDEX_MIN, false)
  const FULL := Interval(BYTE_INDEX_MIN, BYTE_INDEX_MAX, true)

  function Span(left: int, right: int): Interval {
    Interval(left, right, true)
  }

  predicate ContainsVal(i: Interval, x: int) {
    x >= i.left && x <= i.right
  }

  predicate ContainsInt(i: Interval, other: Interval) {
    i.left <= other.left && i.right >= other.right
  }

  predicate Overlaps(i: Interval, other: Interval) {
    i.right >= other.left && i.left <= other.right
  }

  predicate LeftOverlaps(i: Interval, other: Interval) {
    i.nonempty && ContainsVal(other, i.left)
  }

  predicate RightOverlaps(i: Interval, other: Interval) {
    i.nonempty && ContainsVal(other, i.right)
  }

  predicate LeftOfVal(i: Interval, x: int) {
    i.nonempty && i.right < x
  }

  predicate LeftOf(i: Interval, other: Interval) {
    LeftOfVal(i, other.left)
  }

  predicate RightOfVal(i: Interval, x: int) {
    i.nonempty && i.left > x
  }

  predicate RightOf(i: Interval, other: Interval) {
    RightOfVal(i, other.right)
  }

  function Max(x: int, y: int): int { if x > y then x else y }

  function Min(x: int, y: int): int { if x < y then x else y }

  /** Restriction that may come out as the special empty interval. */
  function Restrict(i: Interval, left: int, right: int): (r: Interval) {
    if Max(i.left, left) > Min(i.right, right) then EMPTY
    else i.(left := Max(i.left, left), right := Min(i.right, right))
  }

  /** Restriction where the caller rules out an empty result. */
  function RestrictNonempty(i: Interval, left: int, right: int): (r: Interval)
    requires Max(i.left, left) <= Min(i.right, right)
  {
    i.(left := Max(i.left, left), right := Min(i.right, right))
  }

  /** An interval that holds at least one byte index. */
  predicate Proper(i: Interval) {
    i.nonempty && BYTE_INDEX_MIN <= i.left <= i.right <= BYTE_INDEX_MAX
  }

  /** What a `valid` interval can be: proper, or the special empty one. */
  predicate ProperOrEmpty(i: Interval) {
    Proper(i) || i == EMPTY
  }

  /** The bytes an interval stands for. */
  predicate Has(i: Interval, b: int) {
    i.nonempty && i.left <= b <= i.right
  }

  /** Restricting intersects the byte sets, and keeps the representation of
      emptiness canonical. */
  lemma RestrictIsIntersection(i: Interval, left: int, right: int)
    requires ProperOrEmpty(i)
    ensures ProperOrEmpty(Restrict(i, left, right))
    ensures forall b :: Has(Restrict(i, left, right), b) <==> Has(i, b) && left <= b <= right
  {
  }

  /** Byte indices are `uint32_t`. `Unbounded` is the arithmetic the algorithm is
      written for, `Bits32` the one it is compiled with. */
  datatype Width = Unbounded | Bits32

  function Succ(w: Width, x: int): int {
    if w.Bits32? then (x + 1) % 0x1_0000_0000 else x + 1
  }

  function Pred(w: Width, x: int): int {
    if w.Bits32? then (x - 1) % 0x1_0000_0000 else x - 1
  }
}
