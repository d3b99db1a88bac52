/** Shared vocabulary: bytes, options, unsigned widths, and a few facts about finite sets and folds. */
module Prelude {

  type Byte = n: nat | n < 256
  type Bytes = seq<Byte>

  datatype Option<+T> = None | Some(value: T)

  const U16_MAX: nat := 0xFFFF
  const U32_MAX: nat := 0xFFFF_FFFF
  const U64_MAX: nat := 0xFFFF_FFFF_FFFF_FFFF
  const U128_MAX: nat := 0xFFFF_FFFF_FFFF_FFFF_FFFF_FFFF_FFFF_FFFF

  function Min(a: int, b: int): int {
    if a <= b then a else b
  }

  function Max(a: int, b: int): int {
    if a >= b then a else b
  }

  /** `a.saturating_add(b)` at a given unsigned width. */
  function SatAdd(a: nat, b: nat, max: nat): nat {
    if a + b <= max then a + b else max
  }

  /** `a.saturating_sub(b)`. */
  function SatSub(a: nat, b: nat): nat {
    if a <= b then 0 else a - b
  }

  /** Bitwise and of two unsigned integers. */
  function And(a: nat, b: nat): nat
    decreases a
  {
    if a == 0 || b == 0 then 0 else (if a % 2 == 1 && b % 2 == 1 then 1 else 0) + 2 * And(a / 2, b / 2)
  }

  /** The chunks of a byte stream, put back together. */
  function Concat<T>(chunks: seq<seq<T>>): seq<T> {
    if chunks == [] then [] else chunks[0] + Concat(chunks[1..])
  }

  lemma {:induction false} SubsetSize<T>(a: set<T>, b: set<T>)
    requires a <= b
    ensures |a| <= |b|
    ensures |a| == |b| ==> a == b
  {
    assert b == a + (b - a);
    assert |b| == |a| + |b - a|;
  }

  /** Pigeonhole: if every element of `a` owns some element of `b` and no element of `b` has two owners, `a` is no larger. */
  lemma {:induction false} Pigeonhole<A, B>(a: set<A>, b: set<B>, owns: (A, B) -> bool)
    requires forall x :: x in a ==> exists y :: y in b && owns(x, y)
    requires forall x, x', y :: x in a && x' in a && y in b && owns(x, y) && owns(x', y) ==> x == x'
    ensures |a| <= |b|
    decreases a
  {
    if a != {} {
      var x :| x in a;
      var y :| y in b && owns(x, y);
      forall x' | x' in a - {x}
        ensures exists y' :: y' in b - {y} && owns(x', y')
      {
        var y' :| y' in b && owns(x', y');
        assert y' in b - {y};
      }
      Pigeonhole(a - {x}, b - {y}, owns);
    }
  }

  /** The naturals `k` with `lo <= k < hi`. */
  function Range(lo: nat, hi: nat): (r: set<nat>)
    requires lo <= hi
    ensures forall k :: k in r <==> lo <= k < hi
    ensures |r| == hi - lo
    decreases hi - lo
  {
    if lo == hi then {} else Range(lo, hi - 1) + {hi - 1}
  }
}
