/**
 Constants of kern/mm.h and kern/process.h that several modules share.
 */
module Layout {

  const PAGE := 0x1000
  /** RAM_MAXPAGE: page frames of a 32-bit physical address space. */
  const FRAMES := 0x10_0000
  /** Frames below the end of the second 4MB kernel page. */
  const RESERVED := 0x800

  const KERN_PG_HEAP := 0x80_0000
  const KERN_PG_HEAP_LIM := 0x1000_0000
  const KERN_HEAP := 0x1000_0000
  const KERN_HEAP_LIM := 0x4000_0000
  const USER_OFFSET := 0x4000_0000
  const USER_STACK := 0xE000_0000

  const MAXPID := 32
  /** p_list has MAXPID + 1 slots. */
  const SLOTS := 33

  /** No value twice. */
  predicate Distinct<T(==)>(s: seq<T>) {
    forall i, j :: 0 <= i < j < |s| ==> s[i] != s[j]
  }

  /** Quotient and remainder are determined by what they add up to. */
  lemma {:induction false} DivUnique(x: nat, p: nat, q: nat, r: nat)
    requires p > 0 && r < p && x == q * p + r
    ensures x / p == q && x % p == r
  {
    var d, e := x / p, x % p;
    assert d * p + e == x;
    if d < q {
      MulStep(d, q, p);
    } else if q < d {
      MulStep(q, d, p);
    }
  }

  lemma {:induction false} MulStep(a: nat, b: nat, p: nat)
    requires a < b
    ensures a * p + p <= b * p
  {
    var k := b - a - 1;
    assert b * p == a * p + p + k * p;
  }
}
