/** Rust primitives the scheduler is built on: the `i32` time type, the
    three-way `Ordering` of `core::cmp`, `Option`, and `Ord::cmp` on `i32`. */
module Primitives {

  const MinI32: int := -0x8000_0000
  const MaxI32: int := 0x7fff_ffff

  /** Rust's `i32`: simulated time and every time-valued field are of this type. */
  type I32 = x: int | MinI32 <= x <= MaxI32

  predicate InI32(x: int) {
    MinI32 <= x <= MaxI32
  }

  /** `core::cmp::Ordering`. */
  datatype Ordering = Less | Equal | Greater

  datatype Option<T> = None | Some(value: T)

  /** `Ordering::reverse`: swaps `Less` and `Greater`. */
  function Reverse(o: Ordering): (r: Ordering)
    ensures r == Equal <==> o == Equal
    ensures r == Less <==> o == Greater
  {
    match o
    case Less => Greater
    case Equal => Equal
    case Greater => Less
  }

  /** `Ord::cmp` on integers: the mathematical order, as a three-way answer. */
  function CompareInt(a: int, b: int): (r: Ordering)
    ensures r == Less <==> a < b
    ensures r == Equal <==> a == b
    ensures r == Greater <==> b < a
  {
    if a < b then Less else if a == b then Equal else Greater
  }

  /** Swapping the arguments of the integer comparison reverses its answer. */
  lemma CompareIntSwap(a: int, b: int)
    ensures CompareInt(b, a) == Reverse(CompareInt(a, b))
  {
  }
}
