/**
 The mask of pending signals, a 32-bit word in which bit n - 1 stands for signal n: set_signal, clear_signal and
 is_signal (kern/signal.h), dequeue_signal and the effect of handle_signal on the mask (kern/signal.c).
 */
module Signals {
  import Bits
  import opened Words

  const SIGCHLD := 17

  /** Signal s is pending in a mask: bit s - 1 of its two's complement form. */
  predicate Pending(mask: int, s: nat)
    requires s >= 1
    decreases s, mask
  {
    if s == 1 then mask % 2 == 1 else Pending(mask / 2, s - 1)
  }

  lemma PendingHalf(m: int, s: nat)
    requires s >= 1
    ensures Pending(m / 2, s) == Pending(m, s + 1)
  {
  }

  /** 2 to the power k. */
  function Pow2(k: nat): (r: nat)
    ensures r >= 1
  {
    if k == 0 then 1 else 2 * Pow2(k - 1)
  }

  lemma DivTwice(m: int, p: nat)
    requires p >= 1
    ensures m / 2 / p == m / (2 * p)
  {
    var q, r := m / 2 / p, m / 2 % p;
    assert m / 2 == p * q + r;
    var t := m % 2 + 2 * r;
    assert m == 2 * p * q + t && 0 <= t < 2 * p;
    Quotient(m, 2 * p, q, t);
  }

  lemma Quotient(m: int, d: nat, q: int, t: nat)
    requires t < d && m == d * q + t
    ensures m / d == q
  {
    var e := m / d - q;
    assert m == d * (m / d) + m % d;
    assert d * e == t - m % d;
  }

  /** Pending is bit s - 1. */
  lemma {:induction false} PendingIs(mask: int, s: nat)
    requires s >= 1
    ensures Pending(mask, s) <==> mask / Pow2(s - 1) % 2 == 1
    decreases s
  {
    if s > 1 {
      PendingIs(mask / 2, s - 1);
      DivTwice(mask, Pow2(s - 2));
    }
  }

  /** The same word read as a signed int has the same bits. */
  lemma {:induction false} PendingSigned(m: int, k: nat, s: nat)
    requires 1 <= s <= k
    ensures Pending(m - Pow2(k), s) == Pending(m, s)
    decreases s
  {
    var y := Pow2(k - 1);
    assert Pow2(k) == 2 * y;
    assert (m - 2 * y) % 2 == m % 2 && (m - 2 * y) / 2 == m / 2 - y;
    if s > 1 {
      PendingSigned(m / 2, k - 1, s - 1);
    }
  }

  lemma {:induction false} PendingOr(a: nat, b: nat, s: nat)
    requires s >= 1
    ensures Pending(Bits.Or(a, b), s) <==> Pending(a, s) || Pending(b, s)
    decreases s
  {
    if a == 0 && b == 0 {
      PendingZero(s);
    } else {
      Bits.Half(Bits.Or(a / 2, b / 2), if a % 2 == 1 || b % 2 == 1 then 1 else 0);
      if s > 1 {
        PendingOr(a / 2, b / 2, s - 1);
      }
    }
  }

  lemma {:induction false} PendingAnd(a: nat, b: nat, s: nat)
    requires s >= 1
    ensures Pending(Bits.And(a, b), s) <==> Pending(a, s) && Pending(b, s)
    decreases s
  {
    if a == 0 {
      PendingZero(s);
    } else {
      Bits.Half(Bits.And(a / 2, b / 2), if a % 2 == 1 && b % 2 == 1 then 1 else 0);
      if s > 1 {
        PendingAnd(a / 2, b / 2, s - 1);
      }
    }
  }

  lemma {:induction false} PendingZero(s: nat)
    requires s >= 1
    ensures !Pending(0, s)
    decreases s
  {
    if s > 1 {
      PendingZero(s - 1);
    }
  }

  /** The word 1 shifted left by k has the one bit k. */
  lemma {:induction false} PendingOne(k: nat, s: nat)
    requires s >= 1
    ensures Pending(Bits.Shl(1, k), s) <==> s == k + 1
    decreases s
  {
    if k == 0 {
      if s > 1 {
        PendingZero(s - 1);
      }
    } else {
      Bits.Half(Bits.Shl(1, k - 1), 0);
      if s > 1 {
        PendingOne(k - 1, s - 1);
      }
    }
  }

  /** Complementing k bits. */
  lemma {:induction false} PendingNot(w: nat, k: nat, s: nat)
    requires 1 <= s <= k && w < Pow2(k)
    ensures Pending(Pow2(k) - 1 - w, s) <==> !Pending(w, s)
    decreases s
  {
    var y := Pow2(k - 1);
    assert Pow2(k) == 2 * y;
    assert (2 * y - 1 - w) % 2 == 1 - w % 2 && (2 * y - 1 - w) / 2 == y - 1 - w / 2;
    if s > 1 {
      PendingNot(w / 2, k - 1, s - 1);
    }
  }

  lemma {:induction false} Bit31()
    ensures Pow2(32) == 0x1_0000_0000
  {
    assert Pow2(8) == 0x100;
    assert Pow2(16) == 0x1_0000;
    assert Pow2(24) == 0x100_0000;
  }

  lemma {:induction false} OrBelow(a: nat, b: nat, k: nat)
    requires a < Pow2(k) && b < Pow2(k)
    ensures Bits.Or(a, b) < Pow2(k)
    decreases k
  {
    if k > 0 {
      OrBelow(a / 2, b / 2, k - 1);
    }
  }

  lemma {:induction false} OneBelow(i: nat, k: nat)
    requires i < k
    ensures Bits.Shl(1, i) < Pow2(k)
    decreases i
  {
    if i > 0 {
      OneBelow(i - 1, k - 1);
    }
  }

  lemma {:induction false} AndBelow(a: nat, b: nat)
    ensures Bits.And(a, b) <= a
    decreases a
  {
    if a > 0 {
      AndBelow(a / 2, b / 2);
    }
  }

  /** The word that the macros shift into place; the processor takes the count sig - 1 modulo 32. */
  function BitOf(sig: int): (b: u32)
    ensures forall s :: 1 <= s <= 32 ==> (Pending(b, s) <==> s == (sig - 1) % 32 + 1)
  {
    var k := (sig - 1) % 32;
    assert Bits.Shl(1, k) < 0x1_0000_0000 by { Bit31(); OneBelow(k, 32); }
    assert forall s :: 1 <= s <= 32 ==> (Pending(Bits.Shl(1, k), s) <==> s == (sig - 1) % 32 + 1) by {
      forall s | 1 <= s <= 32 ensures Pending(Bits.Shl(1, k), s) <==> s == (sig - 1) % 32 + 1 {
        PendingOne(k, s);
      }
    }
    Bits.Shl(1, k)
  }

  /** set_signal: the signal whose number agrees with sig modulo 32 is pending beside those that were. */
  function SetSignal(mask: u32, sig: int): (r: u32)
    ensures forall s :: 1 <= s <= 32 ==> (Pending(r, s) <==> Pending(mask, s) || s == (sig - 1) % 32 + 1)
  {
    assert Bits.Or(mask, BitOf(sig)) < 0x1_0000_0000 by { Bit31(); OrBelow(mask, BitOf(sig), 32); }
    assert forall s :: 1 <= s <= 32 ==>
             (Pending(Bits.Or(mask, BitOf(sig)), s) <==> Pending(mask, s) || Pending(BitOf(sig), s)) by {
      forall s | 1 <= s <= 32
        ensures Pending(Bits.Or(mask, BitOf(sig)), s) <==> Pending(mask, s) || Pending(BitOf(sig), s)
      {
        PendingOr(mask, BitOf(sig), s);
      }
    }
    Bits.Or(mask, BitOf(sig))
  }

  /** clear_signal: exactly that signal is not pending any more. */
  function ClearSignal(mask: u32, sig: int): (r: u32)
    ensures forall s :: 1 <= s <= 32 ==> (Pending(r, s) <==> Pending(mask, s) && s != (sig - 1) % 32 + 1)
  {
    var not := 0xFFFF_FFFF - BitOf(sig);
    AndBelow(mask, not);
    assert forall s :: 1 <= s <= 32 ==>
             (Pending(Bits.And(mask, not), s) <==> Pending(mask, s) && !Pending(BitOf(sig), s)) by {
      forall s | 1 <= s <= 32
        ensures Pending(Bits.And(mask, not), s) <==> Pending(mask, s) && !Pending(BitOf(sig), s)
      {
        PendingAnd(mask, not, s);
        Bit31();
        PendingNot(BitOf(sig), 32, s);
      }
    }
    Bits.And(mask, not)
  }

  /** A mask is its pending signals. */
  lemma {:induction false} SameMask(a: nat, b: nat, k: nat)
    requires a < Pow2(k) && b < Pow2(k) && forall s :: 1 <= s <= k ==> Pending(a, s) == Pending(b, s)
    ensures a == b
    decreases k
  {
    if k > 0 {
      assert Pending(a, 1) == Pending(b, 1);
      forall s | 1 <= s <= k - 1 ensures Pending(a / 2, s) == Pending(b / 2, s) {
        PendingHalf(a, s);
        PendingHalf(b, s);
        assert Pending(a, s + 1) == Pending(b, s + 1);
      }
      SameMask(a / 2, b / 2, k - 1);
    }
  }

  /** For a signal number n and any k, n + 32 * k makes exactly n pending beside those that were. */
  lemma SetExact(mask: u32, n: nat, k: int)
    requires 1 <= n <= 32
    ensures forall s :: 1 <= s <= 32 ==> (Pending(SetSignal(mask, n + 32 * k), s) <==> Pending(mask, s) || s == n)
  {
    SameCount(n, k);
  }

  /** Numbers that agree modulo 32 set the same bit. */
  lemma SetSame(mask: u32, n: nat, sig: int)
    requires 1 <= n <= 31 && sig % 32 == n
    ensures SetSignal(mask, sig) == SetSignal(mask, n)
  {
    assert (sig - 1) % 32 == (n - 1) % 32;
  }

  /** Every thirty-second number raises SIGCHLD: 17, 49, -15 and so on. */
  lemma ChildBit(mask: u32, sig: int)
    ensures Pending(SetSignal(mask, sig), SIGCHLD) <==> Pending(mask, SIGCHLD) || sig % 32 == 17
  {
  }

  /** Clearing signal n changes no other. */
  lemma ClearExact(mask: u32, n: nat)
    requires 1 <= n <= 32
    ensures forall s :: 1 <= s <= 32 ==> (Pending(ClearSignal(mask, n), s) <==> Pending(mask, s) && s != n)
  {
    SameCount(n, 0);
  }

  /** Clearing a signal that was not pending undoes setting it. */
  lemma ClearUndoesSet(mask: u32, n: nat, w: u32)
    requires 1 <= n <= 32 && !Pending(mask, n) && w == SetSignal(mask, n)
    ensures ClearSignal(w, n) == mask
  {
    var r := ClearSignal(w, n);
    forall s | 1 <= s <= 32 ensures Pending(r, s) == Pending(mask, s) {
      SetExact(mask, n, 0);
      ClearExact(w, n);
    }
    Bit31();
    SameMask(r, mask, 32);
  }

  lemma SameCount(n: nat, k: int)
    requires 1 <= n <= 32
    ensures (n + 32 * k - 1) % 32 == n - 1
  {
    assert n + 32 * k - 1 == (n - 1) + 32 * k;
  }

  // ---- dequeue_signal

  /** The mask as the int that dequeue_signal receives. */
  function Signed(mask: u32): (r: int)
    ensures -0x8000_0000 <= r < 0x8000_0000
    ensures forall s :: 1 <= s <= 32 ==> Pending(r, s) == Pending(mask, s)
  {
    assert forall s :: 1 <= s <= 32 ==> Pending(mask - 0x1_0000_0000, s) == Pending(mask, s) by {
      Bit31();
      forall s | 1 <= s <= 32 ensures Pending(mask - 0x1_0000_0000, s) == Pending(mask, s) {
        PendingSigned(mask, 32, s);
      }
    }
    if mask < 0x8000_0000 then mask else mask - 0x1_0000_0000
  }

  /** The lowest pending signal from s on, 0 if none is. */
  function Lowest(mask: int, s: nat): (n: nat)
    requires 1 <= s <= 33
    ensures n == 0 || s <= n <= 32
    ensures n != 0 ==> Pending(mask, n) && forall j :: s <= j < n ==> !Pending(mask, j)
    ensures n == 0 ==> forall j :: s <= j <= 32 ==> !Pending(mask, j)
    decreases 33 - s
  {
    if s == 33 then 0 else if Pending(mask, s) then s else Lowest(mask, s + 1)
  }

  lemma LowestIs(mask: int, n: nat)
    requires 1 <= n <= 32 && Pending(mask, n) && forall s :: 1 <= s < n ==> !Pending(mask, s)
    ensures Lowest(mask, 1) == n
  {
  }

  /** A signal sent to a process is the next to be delivered, unless a lower one is pending. */
  lemma {:induction false} SentIsNext(mask: u32, n: nat, k: int)
    requires 1 <= n <= 32
    ensures var was := Lowest(Signed(mask), 1);
            Lowest(Signed(SetSignal(mask, n + 32 * k)), 1) == if was == 0 || n < was then n else was
  {
    var was, now := Lowest(Signed(mask), 1), Signed(SetSignal(mask, n + 32 * k));
    SetExact(mask, n, k);
    assert forall s :: 1 <= s <= 32 ==> (Pending(now, s) <==> Pending(Signed(mask), s) || s == n);
    LowestIs(now, if was == 0 || n < was then n else was);
  }

  /** Sent to a process that has none pending, it is the next. */
  lemma SentAlone(n: nat, k: int)
    requires 1 <= n <= 32
    ensures Lowest(Signed(SetSignal(0, n + 32 * k)), 1) == n
  {
    SentIsNext(0, n, k);
    var was := Lowest(Signed(0), 1);
    if was != 0 {
      PendingZero(was);
    }
  }

  /** m is the mask shifted right by sig - 1. */
  ghost predicate Shifted(mask: int, m: int, sig: nat)
    requires sig >= 1
  {
    forall s :: s >= 1 ==> Pending(m, s) == Pending(mask, s + sig - 1)
  }

  lemma ShiftOn(mask: int, m: int, sig: nat)
    requires sig >= 1 && Shifted(mask, m, sig)
    ensures Pending(mask, sig) <==> m % 2 == 1
    ensures Shifted(mask, m / 2, sig + 1)
  {
    assert Pending(m, 1) == Pending(mask, sig);
    forall s | s >= 1 ensures Pending(m / 2, s) == Pending(mask, s + sig) {
      PendingHalf(m, s);
      assert Pending(m, s + 1) == Pending(mask, s + 1 + sig - 1);
    }
  }

  /** The lowest pending signal, 0 if none is; the mask is a 32-bit int, so the shift keeps its sign. */
  method DequeueSignal(mask: int) returns (sig: nat)
    requires -0x8000_0000 <= mask < 0x8000_0000
    ensures sig == 0 <==> mask == 0
    ensures sig != 0 ==> sig <= 32 && Pending(mask, sig) && forall s :: 1 <= s < sig ==> !Pending(mask, s)
    ensures sig == Lowest(mask, 1)
  {
    if mask == 0 {
      forall s | 1 <= s <= 32 ensures !Pending(mask, s) {
        PendingZero(s);
      }
      return 0;
    }
    var m := mask;
    sig := 1;
    Bits.Powers();
    while m % 2 == 0
      invariant m != 0 && 1 <= sig <= 32 && 0 - Bits.Shl(1, 32 - sig) <= m <= Bits.Shl(1, 32 - sig)
      invariant Shifted(mask, m, sig) && forall s :: 1 <= s < sig ==> !Pending(mask, s)
      decreases if m < 0 then -m else m
    {
      ShiftOn(mask, m, sig);
      m := m / 2;
      sig := sig + 1;
    }
    ShiftOn(mask, m, sig);
    LowestIs(mask, sig);
  }

  // ---- handle_signal

  datatype Handler = Ignore | Default | Custom

  /**
   handle_signal(sig) on the pending mask, when it does not lead to sys_exit: the signal is not pending any more,
   except SIGCHLD, which stays for sys_wait unless it is ignored.  No other bit changes.
   */
  function MaskAfter(mask: u32, sig: nat, h: Handler): (r: u32)
    requires 1 <= sig <= 32
    ensures sig == 17 && h != Ignore ==> r == mask
    ensures sig != 17 || h == Ignore ==> forall s :: 1 <= s <= 32 ==> (Pending(r, s) <==> Pending(mask, s) && s != sig)
  {
    match h
    case Ignore => ClearSignal(mask, sig)
    case Default => if sig == SIGCHLD then mask else ClearSignal(mask, sig)
    case Custom => if sig == SIGCHLD then mask else ClearSignal(mask, sig)
  }
}
