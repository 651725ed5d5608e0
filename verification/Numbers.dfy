/**
 itoa, atoi and the zero padding of sprintf (kern/lib.c, usr/libc/libc.c).
 */
module Numbers {
  import opened Layout
  import opened Words

  const ZERO: u8 := 48
  const MINUS: u8 := 45

  // ---- digits

  function DigitChar(d: nat): u8
    requires d < 36
  {
    if d < 10 then d + 48 else d + 97 - 10
  }

  function DigitValue(c: u8): (v: nat)
    ensures 48 <= c <= 57 ==> v == c - 48
    ensures 97 <= c <= 122 ==> v == c - 87
  {
    if c < 48 then 0 else if c < 58 then c - 48 else if c < 97 then 0 else c - 97 + 10
  }

  /** The number a digit string stands for, most significant digit first. */
  function Meaning(s: seq<u8>, base: nat): nat {
    if s == [] then 0 else Meaning(s[..|s| - 1], base) * base + DigitValue(s[|s| - 1])
  }

  /** Quotient and remainder by repeated subtraction, which keeps the proofs about them linear. */
  function Quot(n: nat, base: nat): (q: nat)
    requires base > 0
    ensures q <= n && (q == 0 <==> n < base)
  {
    if n < base then 0 else 1 + Quot(n - base, base)
  }

  function Rem(n: nat, base: nat): (r: nat)
    requires base > 0
    ensures r < base
  {
    if n < base then n else Rem(n - base, base)
  }

  /** They are the / and % of the code. */
  lemma {:induction false} QuotRem(n: nat, base: nat)
    requires base > 0
    ensures Quot(n, base) == n / base && Rem(n, base) == n % base
  {
    QuotTimes(n, base);
    DivUnique(n, base, Quot(n, base), Rem(n, base));
  }

  lemma {:induction false} QuotTimes(n: nat, base: nat)
    requires base > 0
    ensures Quot(n, base) * base + Rem(n, base) == n
  {
    if n >= base {
      QuotTimes(n - base, base);
      assert (1 + Quot(n - base, base)) * base == base + Quot(n - base, base) * base;
    }
  }

  /** The digits of n, least significant first: the order in which itoa finds them. */
  function LowFirst(n: nat, base: nat): (s: seq<u8>)
    requires 2 <= base <= 36
    ensures s != []
    decreases n
  {
    [DigitChar(Rem(n, base))] + if Quot(n, base) == 0 then [] else (Shrinks(n, base); LowFirst(Quot(n, base), base))
  }

  lemma {:induction false} Shrinks(n: nat, base: nat)
    requires 2 <= base && Quot(n, base) != 0
    ensures Quot(n, base) < n
  {
  }

  function Reversed(s: seq<u8>): (r: seq<u8>)
    ensures |r| == |s| && forall i :: 0 <= i < |s| ==> r[i] == s[|s| - 1 - i]
  {
    if s == [] then [] else Reversed(s[1..]) + [s[0]]
  }

  /** What itoa prints. */
  function Printed(n: nat, base: nat): (s: seq<u8>)
    requires 2 <= base <= 36
    ensures s != []
  {
    Reversed(LowFirst(n, base))
  }

  /** The printed digits mean n. */
  lemma {:induction false} PrintedMeans(n: nat, base: nat)
    requires 2 <= base <= 36
    ensures Meaning(Printed(n, base), base) == n
    decreases n
  {
    var l := LowFirst(n, base);
    var p := Printed(n, base);
    assert p[..|p| - 1] == Reversed(l[1..]);
    QuotTimes(n, base);
    if Quot(n, base) == 0 {
      assert Reversed(l[1..]) == [];
    } else {
      Shrinks(n, base);
      PrintedMeans(Quot(n, base), base);
    }
  }

  /** Only the digits 0 to 9 and the letters a to z are printed, and only those below the base. */
  lemma {:induction false} PrintedDigits(n: nat, base: nat, i: nat)
    requires 2 <= base <= 36 && i < |Printed(n, base)|
    ensures var c := Printed(n, base)[i]; 48 <= c <= 57 || 97 <= c <= 122
    ensures DigitValue(Printed(n, base)[i]) < base
  {
    var l := LowFirst(n, base);
    LowDigits(n, base, |l| - 1 - i);
  }

  lemma {:induction false} LowDigits(n: nat, base: nat, i: nat)
    requires 2 <= base <= 36 && i < |LowFirst(n, base)|
    ensures var c := LowFirst(n, base)[i]; (48 <= c <= 57 || 97 <= c <= 122) && DigitValue(c) < base
    decreases i
  {
    if i > 0 {
      Shrinks(n, base);
      LowDigits(Quot(n, base), base, i - 1);
    }
  }

  /** No leading zero, except for 0 itself. */
  lemma {:induction false} PrintedLeads(n: nat, base: nat)
    requires 2 <= base <= 36
    ensures n == 0 ==> Printed(n, base) == [ZERO]
    ensures n > 0 ==> Printed(n, base)[0] != ZERO
    decreases n
  {
    var l := LowFirst(n, base);
    QuotTimes(n, base);
    if Quot(n, base) != 0 {
      Shrinks(n, base);
      PrintedLeads(Quot(n, base), base);
      assert Printed(n, base) == Printed(Quot(n, base), base) + [l[0]];
    }
  }

  predicate Decimal(s: seq<u8>) {
    forall i :: 0 <= i < |s| ==> 48 <= s[i] <= 57
  }

  lemma {:induction false} PrintedDecimal(n: nat)
    ensures Decimal(Printed(n, 10))
    decreases n
  {
    if Quot(n, 10) != 0 {
      PrintedDecimal(Quot(n, 10));
      assert Printed(n, 10) == Printed(Quot(n, 10), 10) + [LowFirst(n, 10)[0]];
    }
  }

  // ---- itoa

  method ReverseInPlace(buf: array<u8>, len: nat)
    requires 0 < len <= buf.Length
    modifies buf
    ensures buf[..len] == Reversed(old(buf[..len])) && buf[len..] == old(buf[len..])
  {
    var i: int, j: nat := len - 1, 0;
    while j < i
      invariant i + j == len - 1 && 0 <= j <= len && -1 <= i
      invariant forall k :: 0 <= k < j ==> buf[k] == old(buf[len - 1 - k])
      invariant forall k :: i < k < len ==> buf[k] == old(buf[len - 1 - k])
      invariant forall k :: j <= k <= i ==> buf[k] == old(buf[k])
      invariant buf[len..] == old(buf[len..])
    {
      buf[j], buf[i] := buf[i], buf[j];
      i, j := i - 1, j + 1;
    }
    ghost var was, now := old(buf[..len]), buf[..len];
    forall k | 0 <= k < len ensures now[k] == Reversed(was)[k] {
      assert now[k] == buf[k] == old(buf[len - 1 - k]) == was[len - 1 - k];
    }
    assert now == Reversed(was);
  }

  /** One turn of the loop of itoa: the next digit, and the number that is left. */
  method PutDigit(buf: array<u8>, i: nat, n: nat, base: nat) returns (m: nat)
    requires 2 <= base <= 36 && i < buf.Length
    modifies buf
    ensures LowFirst(n, base) == [buf[i]] + Left(m, base) && (m == 0 || m < n)
    ensures forall k :: 0 <= k < buf.Length && k != i ==> buf[k] == old(buf[k])
  {
    if Quot(n, base) != 0 {
      Shrinks(n, base);
    }
    QuotRem(n, base);
    buf[i] := DigitChar(n % base);
    m := n / base;
  }

  /** The digits still to be found: none once the quotient is 0. */
  function Left(m: nat, base: nat): seq<u8>
    requires 2 <= base <= 36
  {
    if m == 0 then [] else LowFirst(m, base)
  }

  /** One digit more of all has been found. */
  lemma OneDigit(all: seq<u8>, i: nat, b: u8, rest: seq<u8>)
    requires i <= |all| && all[i..] == [b] + rest
    ensures i < |all| && all[i] == b && all[i + 1..] == rest
  {
    assert all[i] == all[i..][0] && all[i + 1..] == all[i..][1..];
  }

  /** The loop of itoa, its first turn unconditional. */
  method PutDigits(buf: array<u8>, n: nat, base: nat) returns (i: nat)
    requires 2 <= base <= 36 && |LowFirst(n, base)| < buf.Length
    modifies buf
    ensures i == |LowFirst(n, base)| && buf[..i] == LowFirst(n, base) && buf[i..] == old(buf[i..])
  {
    ghost var all := LowFirst(n, base);
    assert all[0..] == all;
    var m := PutDigit(buf, 0, n, base);
    OneDigit(all, 0, buf[0], Left(m, base));
    i := 1;
    while m != 0
      invariant 1 <= i <= |all| && all[i..] == Left(m, base)
      invariant forall k :: 0 <= k < i ==> buf[k] == all[k]
      invariant forall k :: i <= k < buf.Length ==> buf[k] == old(buf[k])
      decreases m
    {
      m := PutDigit(buf, i, m, base);
      OneDigit(all, i, buf[i], Left(m, base));
      i := i + 1;
    }
  }

  /** itoa: the digits, the terminator, nothing beyond. */
  method Itoa(buf: array<u8>, n: u32, base: nat) returns (len: nat)
    requires 2 <= base <= 36 && |Printed(n, base)| < buf.Length
    modifies buf
    ensures len == |Printed(n, base)| && buf[..len] == Printed(n, base) && buf[len] == 0
    ensures buf[len + 1..] == old(buf[len + 1..])
  {
    len := PutDigits(buf, n, base);
    ghost var digits := buf[..len];
    assert buf[len + 1..] == buf[len..][1..];
    buf[len] := 0;
    assert buf[..len] == digits;
    ghost var rest := buf[len..];
    ReverseInPlace(buf, len);
    assert buf[len] == rest[0] && buf[len + 1..] == rest[1..];
  }

  // ---- atoi

  /** The longest run of decimal digits at the start. */
  function DigitRun(s: seq<u8>): (k: nat)
    ensures k <= |s| && Decimal(s[..k]) && (k < |s| ==> !(48 <= s[k] <= 57))
  {
    if s == [] || !(48 <= s[0] <= 57) then 0
    else
      var k := DigitRun(s[1..]);
      assert s[..k + 1] == [s[0]] + s[1..][..k];
      k + 1
  }

  /** The number at the start of a string, with an optional minus sign. */
  function Number(s: seq<u8>): int {
    if s != [] && s[0] == MINUS then 0 - Meaning(s[1..][..DigitRun(s[1..])], 10) else Meaning(s[..DigitRun(s)], 10)
  }

  lemma {:induction false} DigitRunIs(s: seq<u8>, k: nat)
    requires k <= |s| && Decimal(s[..k]) && (k < |s| ==> !(48 <= s[k] <= 57))
    ensures DigitRun(s) == k
  {
    var r := DigitRun(s);
  }

  /** The value a 32-bit int holds for x: two's complement, as the processor computes it. */
  function Int32(x: int): (y: int)
    ensures -0x8000_0000 <= y < 0x8000_0000
    ensures -0x8000_0000 <= x < 0x8000_0000 ==> y == x
  {
    var m := x % WORD;
    if m < 0x8000_0000 then m else m - WORD
  }

  lemma Int32Shift(x: int, q: int)
    ensures Int32(x + q * WORD) == Int32(x)
  {
    WrapCancel(x, q);
  }

  /** What an int has lost. */
  lemma Int32Lost(x: int) returns (q: int)
    ensures Int32(x) == x + q * WORD
  {
    var m := x % WORD;
    q := -(x / WORD);
    if m >= 0x8000_0000 {
      q := q - 1;
    }
  }

  /** Accumulating in an int is the same as accumulating first and wrapping then. */
  lemma Int32Step(m: int, d: int)
    ensures Int32(Int32(m) * 10 + d) == Int32(m * 10 + d) && Int32(-Int32(m)) == Int32(-m)
  {
    var q := Int32Lost(m);
    Int32Shift(m * 10 + d, 10 * q);
    Int32Shift(-m, -q);
  }

  /** The loop of atoi, from position from on. */
  method AtoiDigits(str: seq<u8>, from: nat, ghost z: nat) returns (n: int)
    requires from <= z < |str| && str[z] == 0
    ensures n == Int32(Meaning(str[from..][..DigitRun(str[from..])], 10))
  {
    var c := from;
    n := 0;
    while 48 <= str[c] <= 57
      invariant from <= c <= z && Decimal(str[from..c]) && n == Int32(Meaning(str[from..c], 10))
      decreases z - c
    {
      assert str[from..c + 1] == str[from..c] + [str[c]];
      Int32Step(Meaning(str[from..c], 10), (str[c] as int) - 48);
      n := Int32(n * 10 + (str[c] as int) - 48);
      c := c + 1;
    }
    assert str[from..][..c - from] == str[from..c];
    DigitRunIs(str[from..], c - from);
  }

  /** atoi on a string whose terminator is at position z: the number, as far as an int holds it. */
  method Atoi(str: seq<u8>, ghost z: nat) returns (r: int)
    requires z < |str| && str[z] == 0
    ensures r == Int32(Number(str))
  {
    if str[0] == MINUS {
      var n := AtoiDigits(str, 1, z);
      Int32Step(Meaning(str[1..][..DigitRun(str[1..])], 10), 0);
      r := Int32(-n);
    } else {
      r := AtoiDigits(str, 0, z);
      assert str[0..] == str;
    }
  }

  // ---- the zero padding of sprintf

  function Zeros(k: nat): (s: seq<u8>)
    ensures |s| == k && forall i :: 0 <= i < k ==> s[i] == ZERO
  {
    seq(k, _ => ZERO)
  }

  /** The digits and their terminator move to the end of the field, zeros fill its start. */
  method Pad(buf: array<u8>, len: nat, size: nat)
    requires len < size < buf.Length && buf[len] == 0
    modifies buf
    ensures buf[..size] == Zeros(size - len) + old(buf[..len]) && buf[size] == 0
    ensures buf[size + 1..] == old(buf[size + 1..])
  {
    var i: int, j: int := size, len;
    ghost var was := buf[..];
    ghost var want := Zeros(size - len) + was[..len + 1];
    assert forall k :: size - len <= k <= size ==> want[k] == was[k - (size - len)];
    while i >= 0
      invariant -1 <= i <= size && j == i - (size - len)
      invariant forall k :: i < k <= size ==> buf[k] == want[k]
      invariant forall k :: 0 <= k < buf.Length && !(i < k <= size) ==> buf[k] == was[k]
      decreases i
    {
      buf[i] := if j >= 0 then buf[j] else ZERO;
      i, j := i - 1, j - 1;
    }
    assert buf[..size + 1] == want;
    assert buf[..size] == want[..size];
  }

  lemma {:induction false} ZerosMeanNothing(k: nat, s: seq<u8>)
    ensures Meaning(Zeros(k) + s, 10) == Meaning(s, 10)
    decreases k + |s|
  {
    var t := Zeros(k) + s;
    if s != [] {
      assert t[..|t| - 1] == Zeros(k) + s[..|s| - 1];
      ZerosMeanNothing(k, s[..|s| - 1]);
    } else if k > 0 {
      assert t[..|t| - 1] == Zeros(k - 1) + s;
      ZerosMeanNothing(k - 1, s);
    } else {
      assert t == s;
    }
  }

  /** The digits in front of something else. */
  lemma DigitsInFront(digits: seq<u8>, rest: seq<u8>)
    requires digits != [] && Decimal(digits) && rest != [] && !(48 <= rest[0] <= 57)
    ensures Number(digits + rest) == Meaning(digits, 10)
    ensures Number([MINUS] + (digits + rest)) == 0 - Meaning(digits, 10)
  {
    var t := digits + rest;
    assert t[..|digits|] == digits;
    DigitRunIs(t, |digits|);
    assert t[0] == digits[0];
    assert ([MINUS] + t)[1..] == t;
  }

  /** atoi undoes itoa, padded or not. */
  lemma NumberRoundTrip(n: nat, zeros: nat, rest: seq<u8>)
    requires rest != [] && !(48 <= rest[0] <= 57)
    ensures Number(Zeros(zeros) + Printed(n, 10) + rest) == n
    ensures Number([MINUS] + (Zeros(zeros) + Printed(n, 10) + rest)) == 0 - n
  {
    PrintedDecimal(n);
    PrintedMeans(n, 10);
    ZerosMeanNothing(zeros, Printed(n, 10));
    DigitsInFront(Zeros(zeros) + Printed(n, 10), rest);
  }
}
