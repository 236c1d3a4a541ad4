/** Types and functions that several components share. */
module Basics {
  datatype Option<T> = None | Some(value: T)

  type Byte = b: int | 0 <= b < 0x100

  /** The number that bytes stand for, highest first. */
  function Number(s: seq<Byte>): nat {
    if s == [] then 0 else Number(s[..|s| - 1]) * 0x100 + s[|s| - 1]
  }

  /** How many numbers fit into n bytes. */
  function Power(n: nat): (r: nat)
    ensures r >= 1
  {
    if n == 0 then 1 else Power(n - 1) * 0x100
  }

  lemma {:induction false} NumberFits(s: seq<Byte>)
    ensures Number(s) < Power(|s|)
  {
    if s != [] { NumberFits(s[..|s| - 1]); }
  }
}
