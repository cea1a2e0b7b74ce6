/** Definitions several of the programs share. */
module Basics {

  type Byte = x: int | 0 <= x < 0x100

  /** Subtraction that stops at zero. */
  function Minus(a: nat, b: nat): nat {
    if b <= a then a - b else 0
  }

  function Concat<T>(parts: seq<seq<T>>): seq<T> {
    if parts == [] then [] else parts[0] + Concat(parts[1..])
  }

  lemma {:induction false} ConcatSnoc<T>(parts: seq<seq<T>>, part: seq<T>)
    ensures Concat(parts + [part]) == Concat(parts) + part
  {
    if parts != [] {
      assert (parts + [part])[1..] == parts[1..] + [part];
      ConcatSnoc(parts[1..], part);
    }
  }
}
