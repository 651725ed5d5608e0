/**
 The page frame bitmap (kern/mm.h, kern/mm.c): one bit per 4096-byte frame, set when in use.
 */
module FrameBitmap {
  import opened Layout


  function Mask(k: nat): bv8
    requires k < 8
  {
    1 << k
  }

  predicate Bit(b: bv8, k: nat)
    requires k < 8
  {
    b & Mask(k) != 0
  }

  function SetBit(b: bv8, k: nat): bv8
    requires k < 8
  {
    b | Mask(k)
  }

  function ClearBit(b: bv8, k: nat): bv8
    requires k < 8
  {
    b & !Mask(k)
  }

  /** Stores to one bit leave the other seven alone. */
  lemma BitAfter(b: bv8, k: nat, j: nat)
    requires k < 8 && j < 8
    ensures Bit(SetBit(b, k), j) == (j == k || Bit(b, j))
    ensures Bit(ClearBit(b, k), j) == (j != k && Bit(b, j))
  {
    MaskNotZero(k);
    if j != k {
      MasksApart(k, j);
      OtherMask(b, Mask(k), Mask(j));
    } else {
      SameMask(b, Mask(k));
    }
  }

  lemma OtherMask(b: bv8, m: bv8, n: bv8)
    requires m & n == 0
    ensures (b | m) & n == b & n && (b & !m) & n == b & n
  {
  }

  lemma SameMask(b: bv8, m: bv8)
    ensures (b | m) & m == m && (b & !m) & m == 0
  {
  }

  lemma MasksApart(k: nat, j: nat)
    requires k < 8 && j < 8 && k != j
    ensures Mask(k) & Mask(j) == 0
  {
    MaskIs(k);
    MaskIs(j);
  }

  lemma MaskNotZero(k: nat)
    requires k < 8
    ensures Mask(k) != 0
  {
    MaskIs(k);
  }

  lemma MaskIs(k: nat)
    requires k < 8
    ensures Mask(k) == [1, 2, 4, 8, 16, 32, 64, 128][k]
  {
  }

  /** The test that lets get_page_frame skip a byte: all ones exactly when no bit is clear. */
  lemma FullByte(b: bv8)
    ensures b == 0xFF <==> forall k :: 0 <= k < 8 ==> Bit(b, k)
  {
    if forall k :: 0 <= k < 8 ==> Bit(b, k) {
      assert Bit(b, 0) && Bit(b, 1) && Bit(b, 2) && Bit(b, 3) && Bit(b, 4) && Bit(b, 5) && Bit(b, 6) && Bit(b, 7);
    } else {
      var k :| 0 <= k < 8 && !Bit(b, k);
      MaskIs(k);
    }
  }

  /** Frame p is in use, for a bitmap held in bits. */
  predicate UsedIn(bits: seq<bv8>, p: nat)
    requires |bits| == FRAMES / 8 && p < FRAMES
  {
    Bit(bits[p / 8], p % 8)
  }

  class Bitmap {
    const bits: array<bv8>

    ghost predicate Valid()
      reads this, bits
    {
      bits.Length == FRAMES / 8
    }

    /** The frames in use. */
    ghost function Used(): set<nat>
      reads this, bits
      requires Valid()
    {
      set p: nat | p < FRAMES && UsedIn(bits[..], p)
    }

    /**
     init_mm: a frame above the two 4MB kernel pages is free exactly if it is in a group of eight that lies below the
     end of memory; all others are in use.  high_mem counts kilobytes; its product with 1024 wraps at 32 bits.
     */
    constructor (highMem: nat)
      ensures Valid() && fresh(bits)
      ensures forall p: nat :: p < FRAMES ==>
                (p !in Used() <==> p >= 0x800 && (p / 8 + 1) * 8 * 0x1000 <= highMem * 1024 % 0x1_0000_0000)
    {
      var pgLimit := highMem * 1024 % 0x1_0000_0000 / PAGE;
      var a := new bv8[FRAMES / 8];
      for pg := 0 to pgLimit / 8
        invariant forall i :: 0 <= i < pg ==> a[i] == 0
      {
        a[pg] := 0;
      }
      for pg := pgLimit / 8 to FRAMES / 8
        invariant forall i :: 0 <= i < pg ==> a[i] == if i < pgLimit / 8 then 0 else 0xFF
      {
        a[pg] := 0xFF;
      }
      ghost var lim := pgLimit / 8 * 8;
      forall p: nat | p < FRAMES ensures UsedIn(a[..], p) <==> p >= lim {
        FullByte(0xFF);
      }
      for pg := 0 to RESERVED
        invariant forall p: nat :: p < FRAMES ==> (UsedIn(a[..], p) <==> p < pg || p >= lim)
      {
        ghost var before := a[..];
        a[pg / 8] := SetBit(a[pg / 8], pg % 8);
        forall p: nat | p < FRAMES ensures UsedIn(a[..], p) <==> p < pg + 1 || p >= lim {
          AfterSet(before, a[..], pg, p);
        }
      }
      forall p: nat | p < FRAMES ensures p < lim <==> (p / 8 + 1) * 8 * PAGE <= highMem * 1024 % 0x1_0000_0000 {
        GroupBelow(highMem * 1024 % 0x1_0000_0000, p);
      }
      bits := a;
    }

    /** get_page_frame: the lowest free frame, marked used; the outcome -1 when every frame is in use. */
    method GetFrame() returns (page: int)
      requires Valid()
      modifies bits
      ensures page == -1 <==> forall p: nat :: p < FRAMES ==> p in old(Used())
      ensures page == -1 ==> Used() == old(Used())
      ensures page != -1 ==> && 0 <= page < FRAMES && page !in old(Used())
                             && (forall p: nat :: p < page ==> p in old(Used()))
                             && Used() == old(Used()) + {page}
    {
      for byte := 0 to FRAMES / 8
        invariant bits[..] == old(bits[..])
        invariant forall p: nat :: p < 8 * byte ==> UsedIn(bits[..], p)
      {
        FullByte(bits[byte]);
        if bits[byte] != 0xFF {
          for bit := 0 to 8
            invariant bits[..] == old(bits[..])
            invariant forall k :: 0 <= k < bit ==> Bit(bits[byte], k)
          {
            if bits[byte] & (1 << bit) == 0 {
              page := 8 * byte + bit;
              assert forall p: nat :: p < page ==> UsedIn(bits[..], p);
              ghost var free: nat := page;
              assert !UsedIn(bits[..], free);
              assert free !in old(Used());
              SetFrame(page);
              return;
            }
          }
        }
        assert forall p: nat :: 8 * byte <= p < 8 * byte + 8 ==> UsedIn(bits[..], p) by {
          forall p: nat | 8 * byte <= p < 8 * byte + 8 ensures UsedIn(bits[..], p) {
            assert p / 8 == byte && Bit(bits[byte], p % 8);
          }
        }
      }
      page := -1;
    }

    /** set_page_frame_used */
    method SetFrame(page: nat)
      requires Valid() && page < FRAMES
      modifies bits
      ensures Used() == old(Used()) + {page}
    {
      bits[page / 8] := bits[page / 8] | (1 << (page % 8));
      forall p: nat | p < FRAMES ensures UsedIn(bits[..], p) <==> p == page || UsedIn(old(bits[..]), p) {
        AfterSet(old(bits[..]), bits[..], page, p);
      }
    }

    /** release_page_frame, given the physical address of a byte of the frame. */
    method ReleaseFrame(paddr: nat)
      requires Valid() && paddr < FRAMES * PAGE
      modifies bits
      ensures Used() == old(Used()) - {paddr / PAGE}
    {
      var page := paddr / PAGE;
      bits[page / 8] := bits[page / 8] & !(1 << (page % 8));
      forall p: nat | p < FRAMES ensures UsedIn(bits[..], p) <==> p != page && UsedIn(old(bits[..]), p) {
        AfterClear(old(bits[..]), bits[..], page, p);
      }
    }
  }

  /** Dividing by the page size and by eight, against multiplying. */
  lemma GroupBelow(bytes: nat, p: nat)
    ensures p < bytes / PAGE / 8 * 8 <==> (p / 8 + 1) * 8 * PAGE <= bytes
  {
    var g, r := bytes / PAGE / 8, bytes / PAGE % 8;
    assert bytes == (g * 8 + r) * PAGE + bytes % PAGE;
    assert p < g * 8 <==> p / 8 + 1 <= g;
  }

  lemma AfterSet(bits: seq<bv8>, bits': seq<bv8>, page: nat, p: nat)
    requires |bits| == |bits'| == FRAMES / 8 && page < FRAMES && p < FRAMES
    requires bits' == bits[page / 8 := SetBit(bits[page / 8], page % 8)]
    ensures UsedIn(bits', p) <==> p == page || UsedIn(bits, p)
  {
    BitAfter(bits[page / 8], page % 8, p % 8);
  }

  lemma AfterClear(bits: seq<bv8>, bits': seq<bv8>, page: nat, p: nat)
    requires |bits| == |bits'| == FRAMES / 8 && page < FRAMES && p < FRAMES
    requires bits' == bits[page / 8 := ClearBit(bits[page / 8], page % 8)]
    ensures UsedIn(bits', p) <==> p != page && UsedIn(bits, p)
  {
    BitAfter(bits[page / 8], page % 8, p % 8);
  }
}
