/**
 The user stack that load_task (kern/process.c) builds for main(argc, argv), and what the new
 program reads back from it.
 */
module UserStack {
  import opened Layout
  import opened Words
  import opened Bits

  /** An argument as strlen delimits it: no NUL inside. */
  predicate IsText(s: seq<u8>) {
    forall i :: 0 <= i < |s| ==> s[i] != 0
  }

  predicate AreTexts(args: seq<seq<u8>>) {
    forall i :: 0 <= i < |args| ==> IsText(args[i])
  }

  // ---- where things go

  /** Bytes of the first i strings with their terminators. */
  function StringBytes(args: seq<seq<u8>>, i: nat): nat
    requires i <= |args|
  {
    if i == 0 then 0 else StringBytes(args, i - 1) + |args[i - 1]| + 1
  }

  /** Strings go downwards from USER_STACK - 16, the first argument highest. */
  function StringAddr(args: seq<seq<u8>>, i: nat): int
    requires i < |args|
  {
    USER_STACK - 16 - StringBytes(args, i + 1)
  }

  /** The stack pointer of the new program. */
  function FinalSp(args: seq<seq<u8>>): int {
    if args == [] then USER_STACK - 16
    else (USER_STACK - 16 - StringBytes(args, |args|)) / 16 * 16 - 4 * |args| - 16
  }

  lemma {:induction false} StringBytesUp(args: seq<seq<u8>>, i: nat, j: nat)
    requires i <= j <= |args|
    ensures StringBytes(args, i) + (j - i) <= StringBytes(args, j)
    decreases j
  {
    if i < j {
      StringBytesUp(args, i, j - 1);
    }
  }

  // ---- memory [base, USER_STACK) as a byte string

  /** A word of the window m that starts at address base. */
  function WordAt(m: seq<u8>, base: nat, a: int): u32
    requires base <= a && a - base + 4 <= |m|
  {
    Read32(m, a - base)
  }

  /** The NUL-terminated string s lies at address a. */
  predicate StringAt(m: seq<u8>, base: nat, a: int, s: seq<u8>) {
    && base <= a && a - base + |s| < |m|
    && m[a - base..a - base + |s|] == s && m[a - base + |s|] == 0
  }

  /** m' differs from m only at addresses in [lo, hi). */
  predicate SameOutside(m: seq<u8>, m': seq<u8>, base: nat, lo: int, hi: int) {
    |m'| == |m| && forall i :: 0 <= i < |m| && !(lo <= base + i < hi) ==> m'[i] == m[i]
  }

  lemma StringKept(m: seq<u8>, m': seq<u8>, base: nat, lo: int, hi: int, a: int, s: seq<u8>)
    requires SameOutside(m, m', base, lo, hi) && StringAt(m, base, a, s) && (hi <= a || a + |s| + 1 <= lo)
    ensures StringAt(m', base, a, s)
  {
    var o := a - base;
    assert m'[o..o + |s|] == m[o..o + |s|];
  }

  lemma WordKept(m: seq<u8>, m': seq<u8>, base: nat, lo: int, hi: int, a: int)
    requires SameOutside(m, m', base, lo, hi) && (hi <= a || a + 4 <= lo)
    requires base <= a && a - base + 4 <= |m|
    ensures WordAt(m', base, a) == WordAt(m, base, a)
  {
    ReadUnchanged(m, m', a - base);
  }

  /** The first i strings are in place. */
  predicate StringsAt(m: seq<u8>, base: nat, args: seq<seq<u8>>, i: nat)
    requires i <= |args|
  {
    forall j :: 0 <= j < i ==> StringAt(m, base, StringAddr(args, j), args[j])
  }

  lemma StringsKept(m: seq<u8>, m': seq<u8>, base: nat, lo: int, hi: int, args: seq<seq<u8>>, i: nat)
    requires SameOutside(m, m', base, lo, hi) && i <= |args| && StringsAt(m, base, args, i)
    requires hi <= USER_STACK - 16 - StringBytes(args, i)
    ensures StringsAt(m', base, args, i)
  {
    forall j | 0 <= j < i ensures StringAt(m', base, StringAddr(args, j), args[j]) {
      StringBytesUp(args, j + 1, i);
      StringKept(m, m', base, lo, hi, StringAddr(args, j), args[j]);
    }
  }

  /** The words argv[i..] and the null pointer that ends them, from address a on. */
  predicate PointersAt(m: seq<u8>, base: nat, args: seq<seq<u8>>, i: nat, a: int)
    requires i <= |args|
  {
    && base <= a && a + 4 * (|args| - i) + 4 - base <= |m|
    && (forall j :: i <= j < |args| ==> WordAt(m, base, a + 4 * (j - i)) == StringAddr(args, j))
    && WordAt(m, base, a + 4 * (|args| - i)) == 0
  }

  lemma PointersKept(m: seq<u8>, m': seq<u8>, base: nat, lo: int, hi: int, args: seq<seq<u8>>, i: nat, a: int)
    requires i <= |args| && PointersAt(m, base, args, i, a) && SameOutside(m, m', base, lo, hi) && hi <= a
    ensures PointersAt(m', base, args, i, a)
  {
    forall j | i <= j < |args| ensures WordAt(m', base, a + 4 * (j - i)) == StringAddr(args, j) {
      WordKept(m, m', base, lo, hi, a + 4 * (j - i));
    }
    WordKept(m, m', base, lo, hi, a + 4 * (|args| - i));
  }

  lemma PointersMore(m: seq<u8>, m': seq<u8>, base: nat, args: seq<seq<u8>>, i: nat, a: int)
    requires i < |args| && PointersAt(m, base, args, i + 1, a + 4) && SameOutside(m, m', base, a, a + 4)
    requires base <= a && WordAt(m', base, a) == StringAddr(args, i)
    ensures PointersAt(m', base, args, i, a)
  {
    PointersKept(m, m', base, a, a + 4, args, i + 1, a + 4);
    forall j | i <= j < |args| ensures WordAt(m', base, a + 4 * (j - i)) == StringAddr(args, j) {
      if j > i {
        LaterPointer(m', base, args, i, a, j);
      }
    }
    assert a + 4 * (|args| - i) == (a + 4) + 4 * (|args| - (i + 1));
  }

  lemma LaterPointer(m: seq<u8>, base: nat, args: seq<seq<u8>>, i: nat, a: int, j: nat)
    requires i < j < |args| && base <= a && PointersAt(m, base, args, i + 1, a + 4)
    ensures WordAt(m, base, a + 4 * (j - i)) == StringAddr(args, j)
  {
    assert WordAt(m, base, a + 4 + 4 * (j - (i + 1))) == StringAddr(args, j);
    assert a + 4 * (j - i) == a + 4 + 4 * (j - (i + 1));
  }

  /**
   The finished stack for a non-empty argument list: argc at sp + 4, argv == sp + 12 at sp + 8, the
   pointers from there on with a null after them, the strings above all of that and one below the
   other, all of it between sp and USER_STACK - 16.
   */
  predicate Laid(m: seq<u8>, base: nat, args: seq<seq<u8>>, sp: int) {
    && args != [] && |args| < 0x8000_0000
    && base <= sp && sp + 8 - base + 4 <= |m|
    && WordAt(m, base, sp + 4) == |args|
    && WordAt(m, base, sp + 8) == sp + 12
    && PointersAt(m, base, args, 0, sp + 12)
    && StringsAt(m, base, args, |args|)
    && sp + 12 + 4 * |args| + 4 <= StringAddr(args, |args| - 1)
  }

  // ---- what the program sees

  /** The string at address a, read up to its terminator (or the end of the window). */
  function TextAt(m: seq<u8>, base: nat, a: nat): seq<u8>
    decreases |m| + base - a
  {
    if a < base || a >= base + |m| || m[a - base] == 0 then [] else [m[a - base]] + TextAt(m, base, a + 1)
  }

  /** main's view of its arguments: argc words from argv on, each the address of a string. */
  function ArgAt(m: seq<u8>, base: nat, sp: int, i: nat): seq<u8>
    requires base <= sp && sp + 12 - base <= |m|
    requires var argv := WordAt(m, base, sp + 8); base <= argv && argv + 4 * i + 4 - base <= |m|
  {
    TextAt(m, base, WordAt(m, base, WordAt(m, base, sp + 8) + 4 * i))
  }

  lemma {:induction false} TextIs(m: seq<u8>, base: nat, a: nat, s: seq<u8>)
    requires StringAt(m, base, a, s) && IsText(s)
    ensures TextAt(m, base, a) == s
    decreases |s|
  {
    var o := a - base;
    var t := m[o..o + |s|];
    if s != [] {
      assert t[0] == m[o];
      assert m[o + 1..o + |s|] == t[1..];
      TextIs(m, base, a + 1, s[1..]);
    }
  }

  /** The program reads back exactly the arguments, and a null pointer after the last. */
  lemma ProgramSeesArguments(m: seq<u8>, base: nat, args: seq<seq<u8>>, sp: int)
    requires AreTexts(args) && Laid(m, base, args, sp)
    ensures WordAt(m, base, sp + 4) == |args|
    ensures forall i :: 0 <= i < |args| ==> ArgAt(m, base, sp, i) == args[i]
    ensures WordAt(m, base, WordAt(m, base, sp + 8) + 4 * |args|) == 0
  {
    forall i | 0 <= i < |args| ensures ArgAt(m, base, sp, i) == args[i] {
      assert StringAt(m, base, StringAddr(args, i), args[i]);
      assert WordAt(m, base, sp + 12 + 4 * (i - 0)) == StringAddr(args, i);
      TextIs(m, base, StringAddr(args, i), args[i]);
    }
  }

  /** No two of the strings overlap, the last one is the lowest, and none reaches the last 16 bytes. */
  lemma {:induction false} StringsDisjoint(args: seq<seq<u8>>, i: nat, j: nat)
    requires i < j < |args|
    ensures StringAddr(args, |args| - 1) <= StringAddr(args, j)
    ensures StringAddr(args, j) + |args[j]| + 1 <= StringAddr(args, i)
    ensures StringAddr(args, i) + |args[i]| + 1 <= USER_STACK - 16
  {
    StringBytesUp(args, j + 1, |args|);
    StringBytesUp(args, i + 1, j);
    StringBytesUp(args, 0, i);
  }

  /**
   Where the stack lies: the first string ends 16 bytes below the end of the user stack, each next one right below the
   one before; the pointers, with their null, end at the multiple of 16 at or below the last string; the three words
   of the call come below them.  Without arguments the stack pointer is 16 bytes below the end.
   */
  lemma StackExact(args: seq<seq<u8>>, i: nat)
    ensures FinalSp([]) == 0xDFFF_FFF0
    ensures args != [] ==> StringAddr(args, 0) + |args[0]| + 1 == 0xDFFF_FFF0
    ensures i + 1 < |args| ==> StringAddr(args, i + 1) + |args[i + 1]| + 1 == StringAddr(args, i)
    ensures args != [] ==> var end := FinalSp(args) + 12 + 4 * (|args| + 1);
                           end % 16 == 0 && end <= StringAddr(args, |args| - 1) < end + 16
  {
    assert args != [] ==> StringBytes(args, 1) == StringBytes(args, 0) + |args[0]| + 1;
  }

  lemma SameTrans(m: seq<u8>, m1: seq<u8>, m2: seq<u8>, base: nat, lo: int, mid: int, hi: int)
    requires lo <= mid <= hi && SameOutside(m, m1, base, mid, hi) && SameOutside(m1, m2, base, lo, mid)
    ensures SameOutside(m, m2, base, lo, hi)
  {
  }

  class Stack {
    const base: nat
    var mem: seq<u8>

    ghost predicate Valid()
      reads this
    {
      USER_OFFSET <= base && base + |mem| == USER_STACK
    }

    constructor (base: nat, mem: seq<u8>)
      requires USER_OFFSET <= base && base + |mem| == USER_STACK
      ensures Valid() && this.base == base && this.mem == mem
    {
      this.base := base;
      this.mem := mem;
    }

    /** strcpy of s and its terminator to address a. */
    method Strcpy(a: nat, s: seq<u8>)
      requires Valid() && base <= a && a + |s| < USER_STACK
      modifies this`mem
      ensures Valid() && StringAt(mem, base, a, s)
      ensures SameOutside(old(mem), mem, base, a, a + |s| + 1)
    {
      var o := a - base;
      var i := 0;
      while i < |s|
        invariant 0 <= i <= |s| && Valid() && mem[o..o + i] == s[..i]
        invariant SameOutside(old(mem), mem, base, a, a + |s| + 1)
      {
        mem := mem[o + i := s[i]];
        assert mem[o..o + (i + 1)] == mem[o..o + i] + [s[i]];
        i := i + 1;
      }
      mem := mem[o + i := 0];
    }

    method Push(stackp: nat, w: u32) returns (sp: nat)
      requires Valid() && base + 4 <= stackp <= USER_STACK
      modifies this`mem
      ensures Valid() && sp == stackp - 4 && WordAt(mem, base, sp) == w
      ensures SameOutside(old(mem), mem, base, sp, stackp)
    {
      sp := stackp - 4;
      mem := Write32(mem, sp - base, w);
    }

    /** Argument i below the ones before it. */
    method CopyString(args: seq<seq<u8>>, i: nat, stackp: nat) returns (sp: nat)
      requires Valid() && i < |args| && stackp == USER_STACK - 16 - StringBytes(args, i)
      requires base <= USER_STACK - 16 - StringBytes(args, i + 1) && StringsAt(mem, base, args, i)
      modifies this`mem
      ensures Valid() && sp == StringAddr(args, i) && StringsAt(mem, base, args, i + 1)
      ensures SameOutside(old(mem), mem, base, sp, stackp)
    {
      sp := stackp - (|args[i]| + 1);
      Strcpy(sp, args[i]);
      StringsKept(old(mem), mem, base, sp, stackp, args, i);
    }

    /** The strings, downwards from USER_STACK - 16. */
    method CopyStrings(args: seq<seq<u8>>) returns (stackp: nat, uparam: seq<u32>)
      requires Valid() && base <= USER_STACK - 16 - StringBytes(args, |args|)
      modifies this`mem
      ensures Valid() && stackp == USER_STACK - 16 - StringBytes(args, |args|)
      ensures StringsAt(mem, base, args, |args|)
      ensures |uparam| == |args| && forall i :: 0 <= i < |args| ==> uparam[i] == StringAddr(args, i)
      ensures SameOutside(old(mem), mem, base, stackp, USER_STACK - 16)
    {
      stackp := USER_STACK - 16;
      uparam := [];
      var i := 0;
      while i < |args|
        invariant 0 <= i <= |args| && Valid() && stackp == USER_STACK - 16 - StringBytes(args, i)
        invariant StringsAt(mem, base, args, i)
        invariant |uparam| == i && forall j :: 0 <= j < i ==> uparam[j] == StringAddr(args, j)
        invariant SameOutside(old(mem), mem, base, stackp, USER_STACK - 16)
      {
        StringBytesUp(args, i + 1, |args|);
        ghost var m, top := mem, stackp;
        stackp := CopyString(args, i, stackp);
        SameTrans(old(mem), m, mem, base, stackp, top, USER_STACK - 16);
        uparam := uparam + [stackp];
        i := i + 1;
      }
    }

    /** The pointer to argument i below those of the later ones. */
    method PushPointer(args: seq<seq<u8>>, uparam: seq<u32>, i: nat, top: nat) returns (stackp: nat)
      requires Valid() && i < |args| && base + 4 <= top <= USER_STACK && PointersAt(mem, base, args, i + 1, top)
      requires i < |uparam| && uparam[i] == StringAddr(args, i)
      modifies this`mem
      ensures Valid() && stackp == top - 4 && PointersAt(mem, base, args, i, stackp)
      ensures SameOutside(old(mem), mem, base, stackp, top)
    {
      stackp := Push(top, uparam[i]);
      PointersMore(old(mem), mem, base, args, i, stackp);
    }

    /** The null pointer and, from the last to the first, the pointers to the strings. */
    method PushPointers(args: seq<seq<u8>>, uparam: seq<u32>, top: nat) returns (stackp: nat)
      requires Valid() && top <= USER_STACK && base + 4 * |args| + 4 <= top
      requires |uparam| == |args| && forall i :: 0 <= i < |args| ==> uparam[i] == StringAddr(args, i)
      modifies this`mem
      ensures Valid() && stackp == top - 4 - 4 * |args| && PointersAt(mem, base, args, 0, stackp)
      ensures SameOutside(old(mem), mem, base, stackp, top)
    {
      stackp := Push(top, 0);
      var i: int := |args| - 1;
      while i >= 0
        invariant -1 <= i < |args| && Valid() && stackp == top - 4 - 4 * (|args| - 1 - i)
        invariant PointersAt(mem, base, args, i + 1, stackp)
        invariant SameOutside(old(mem), mem, base, stackp, top)
        decreases i
      {
        ghost var m, above := mem, stackp;
        stackp := PushPointer(args, uparam, i, stackp);
        SameTrans(old(mem), m, mem, base, stackp, above, top);
        i := i - 1;
      }
    }

    /** The words below the pointers: argv and argc, and room for a return address. */
    method PushCounts(argc: nat, top: nat) returns (stackp: nat)
      requires Valid() && argc < 0x8000_0000 && base + 12 <= top <= USER_STACK
      modifies this`mem
      ensures Valid() && stackp == top - 12
      ensures WordAt(mem, base, stackp + 4) == argc && WordAt(mem, base, stackp + 8) == top
      ensures SameOutside(old(mem), mem, base, stackp + 4, top)
    {
      stackp := Push(top, top);
      ghost var m := mem;
      stackp := Push(stackp, argc);
      WordKept(m, mem, base, stackp, stackp + 4, stackp + 4);
      stackp := stackp - 4;
    }

    /** load_task's stack; an empty argument list leaves the memory alone. */
    method Build(args: seq<seq<u8>>) returns (sp: nat)
      requires Valid() && |args| < 0x8000_0000 && base <= FinalSp(args)
      modifies this`mem
      ensures Valid() && sp == FinalSp(args)
      ensures args == [] ==> mem == old(mem)
      ensures args != [] ==> Laid(mem, base, args, sp)
      ensures SameOutside(old(mem), mem, base, sp + 4, USER_STACK - 16)
    {
      sp := USER_STACK - 16;
      if |args| != 0 {
        var uparam: seq<u32>;
        sp, uparam := CopyStrings(args);
        ghost var m, low := mem, sp;
        MaskSixteen(sp);
        sp := And(sp, 0xFFFF_FFF0);
        sp := PushPointers(args, uparam, sp);
        ghost var m1, argv := mem, sp;
        sp := PushCounts(|args|, sp);
        PointersKept(m1, mem, base, sp, argv, args, 0, argv);
        SameTrans(m, m1, mem, base, sp + 4, argv, low);
        StringsKept(m, mem, base, sp + 4, low, args, |args|);
        SameTrans(old(mem), m, mem, base, sp + 4, low, USER_STACK - 16);
      }
    }
  }
}
