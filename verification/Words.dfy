/** Fixed-width unsigned arithmetic as the C code uses it, written out on unbounded integers. */
module Words {
  type u32 = x: int | 0 <= x < 0x1_0000_0000
  type u64 = x: int | 0 <= x < 0x1_0000_0000_0000_0000

  function Trunc32(x: nat): u32 {
    x % 0x1_0000_0000
  }

  function Trunc64(x: nat): u64 {
    x % 0x1_0000_0000_0000_0000
  }

  lemma {:induction false} Trunc32Add(a: nat, b: nat)
    ensures Trunc32(Trunc32(a) + b) == Trunc32(a + b)
  {
  }

  lemma {:induction false} Trunc64Add(a: nat, b: nat)
    ensures Trunc64(Trunc64(a) + b) == Trunc64(a + b)
  {
  }

  /** Wrapping u64 subtraction. */
  function Sub64(a: u64, b: u64): u64 {
    if b <= a then a - b else a - b + 0x1_0000_0000_0000_0000
  }

  /** It is the difference modulo 2^64. */
  lemma {:induction false} Sub64IsModular(a: u64, b: u64)
    ensures exists k: int :: Sub64(a, b) == a - b + 0x1_0000_0000_0000_0000 * k
  {
    var k := if b <= a then 0 else 1;
    assert Sub64(a, b) == a - b + 0x1_0000_0000_0000_0000 * k;
  }

  function Max(a: int, b: int): int {
    if a < b then b else a
  }

  function Min(a: int, b: int): int {
    if b < a then b else a
  }

  /** The largest element of `xs`, or 0: every counter that the kernel code maximises starts at 0. */
  function MaxOf(xs: seq<nat>): (m: nat)
    ensures forall i :: 0 <= i < |xs| ==> xs[i] <= m
    ensures m == 0 || m in xs
  {
    if xs == [] then 0 else Max(MaxOf(xs[..|xs| - 1]), xs[|xs| - 1])
  }

  lemma {:induction false} MaxOfSnoc(xs: seq<nat>, x: nat)
    ensures MaxOf(xs + [x]) == Max(MaxOf(xs), x)
  {
    assert (xs + [x])[..|xs|] == xs;
  }

  lemma {:induction false} MulMono(a: int, b: int, c: nat)
    requires a <= b
    ensures a * c <= b * c
  {
  }

  datatype Option<+T> = None | Some(value: T)
}
