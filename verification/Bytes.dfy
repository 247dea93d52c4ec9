/** Machine-level vocabulary: bytes and fixed-width words as bounded integers, the
    big-endian layout of the data files, exclusive-or, and C strings. */
module Bytes {

  type byte = x: int | 0 <= x < 0x100
  type uint16 = x: int | 0 <= x < 0x1_0000
  type uint32 = x: int | 0 <= x < 0x1_0000_0000

  /** 0xffffffff, the "no record" id of the data files. */
  const NIL: uint32 := 0xffff_ffff

  datatype Option<+T> = None | Some(value: T)

  // ----- big-endian words ------------------------------------------------------

  function GetBE16(b: seq<byte>): uint16
    requires |b| == 2
  {
    b[0] as int * 0x100 + b[1]
  }

  function GetBE32(b: seq<byte>): uint32
    requires |b| == 4
  {
    b[0] as int * 0x100_0000 + b[1] as int * 0x1_0000 + b[2] as int * 0x100 + b[3]
  }

  function PutBE16(x: uint16): (b: seq<byte>)
    ensures |b| == 2
  {
    [x / 0x100, x % 0x100]
  }

  function PutBE32(x: uint32): (b: seq<byte>)
    ensures |b| == 4
  {
    [x / 0x100_0000, x / 0x1_0000 % 0x100, x / 0x100 % 0x100, x % 0x100]
  }

  lemma BE16RoundTrip(x: uint16)
    ensures GetBE16(PutBE16(x)) == x
  {
  }

  lemma BE32RoundTrip(x: uint32)
    ensures GetBE32(PutBE32(x)) == x
  {
    assert x / 0x1_0000 == x / 0x100_0000 * 0x100 + x / 0x1_0000 % 0x100;
    assert x / 0x100 == x / 0x1_0000 * 0x100 + x / 0x100 % 0x100;
  }

  lemma BE32Inverse(b: seq<byte>)
    requires |b| == 4
    ensures PutBE32(GetBE32(b)) == b
  {
    var x := GetBE32(b);
    assert x / 0x100_0000 == b[0];
    assert x / 0x1_0000 == b[0] as int * 0x100 + b[1];
    assert x / 0x100 == b[0] as int * 0x1_0000 + b[1] as int * 0x100 + b[2];
  }

  /** The high byte comes first. */
  lemma HighByteFirst(x: uint32, y: uint16)
    ensures var b := PutBE32(x);
      x == ((b[0] as int * 256 + b[1]) * 256 + b[2]) * 256 + b[3]
    ensures y == PutBE16(y)[0] as int * 256 + PutBE16(y)[1]
  {
    BE32RoundTrip(x);
  }

  // ----- exclusive-or and inclusive-or -----------------------------------------

  type nibble = x: int | 0 <= x < 16

  function Pow2(n: nat): (r: nat)
    ensures r > 0
  {
    if n == 0 then 1 else 2 * Pow2(n - 1)
  }

  function XorBit(p: nat, q: nat): (r: nat)
    ensures r < 2
  {
    (p % 2 + q % 2) % 2
  }

  /** Exclusive-or of the low n bits of two naturals. */
  function Xor(a: nat, b: nat, n: nat): (r: nat)
    ensures r < Pow2(n)
  {
    if n == 0 then 0
    else XorBit(a, b) + 2 * Xor(a / 2, b / 2, n - 1)
  }

  /** Inclusive-or of the low n bits of two naturals. */
  function Or(a: nat, b: nat, n: nat): (r: nat)
    ensures r < Pow2(n)
  {
    if n == 0 then 0
    else (if a % 2 + b % 2 == 0 then 0 else 1) + 2 * Or(a / 2, b / 2, n - 1)
  }

  function XorNibble(a: nibble, b: nibble): nibble {
    assert Pow2(4) == 16;
    Xor(a, b, 4)
  }

  function OrNibble(a: nibble, b: nibble): nibble {
    assert Pow2(4) == 16;
    Or(a, b, 4)
  }

  function XorByte(a: byte, b: byte): byte {
    16 * XorNibble(a / 16, b / 16) as int + XorNibble(a % 16, b % 16)
  }

  function OrByte(a: byte, b: byte): byte {
    16 * OrNibble(a / 16, b / 16) as int + OrNibble(a % 16, b % 16)
  }

  lemma XorBits(a: nat, b: nat, n: nat)
    requires n > 0
    ensures Xor(a, b, n) % 2 == XorBit(a, b)
    ensures Xor(a, b, n) / 2 == Xor(a / 2, b / 2, n - 1)
  {
  }

  lemma BitTwice(p: nat, q: nat)
    requires p < 2 && q < 2
    ensures ((p + q) % 2 + q) % 2 == p
  {
  }

  /** A second exclusive-or with the same operand undoes the first. */
  lemma {:induction false} XorCancels(a: nat, b: nat, n: nat)
    requires a < Pow2(n)
    ensures Xor(Xor(a, b, n), b, n) == a
  {
    if n > 0 {
      XorBits(a, b, n);
      XorBits(Xor(a, b, n), b, n);
      XorCancels(a / 2, b / 2, n - 1);
      BitTwice(a % 2, b % 2);
    }
  }

  lemma XorNibbleCancels(a: nibble, b: nibble)
    ensures XorNibble(XorNibble(a, b), b) == a
  {
    assert Pow2(4) == 16;
    XorCancels(a, b, 4);
  }

  lemma {:induction false} XorCommutes(a: nat, b: nat, n: nat)
    ensures Xor(a, b, n) == Xor(b, a, n)
    ensures Xor(a, a, n) == 0
  {
    if n > 0 { XorCommutes(a / 2, b / 2, n - 1); }
  }

  lemma BitsAssociate(a: nat, b: nat, c: nat, p: nat, q: nat)
    requires p % 2 == XorBit(a, b) && q % 2 == XorBit(b, c)
    ensures XorBit(p, c) == XorBit(a, q)
  {
  }

  lemma {:induction false} XorAssociates(a: nat, b: nat, c: nat, n: nat)
    ensures Xor(Xor(a, b, n), c, n) == Xor(a, Xor(b, c, n), n)
  {
    hide XorBit;
    if n > 0 {
      var p, q := Xor(a, b, n), Xor(b, c, n);
      XorBits(a, b, n);
      XorBits(b, c, n);
      XorAssociates(a / 2, b / 2, c / 2, n - 1);
      BitsAssociate(a, b, c, p, q);
    }
  }

  lemma XorNibbleLaws(a: nibble, b: nibble, c: nibble)
    ensures XorNibble(a, b) == XorNibble(b, a)
    ensures XorNibble(XorNibble(a, b), c) == XorNibble(a, XorNibble(b, c))
    ensures XorNibble(a, a) == 0
  {
    hide Xor;
    XorCommutes(a, b, 4);
    XorAssociates(a, b, c, 4);
  }

  lemma XorByteParts(a: byte, b: byte)
    ensures XorByte(a, b) / 16 == XorNibble(a / 16, b / 16)
    ensures XorByte(a, b) % 16 == XorNibble(a % 16, b % 16)
  {
    hide XorNibble;
  }

  /** Exclusive-or of bytes is associative and commutative, and every byte is its own inverse. */
  lemma XorByteLaws(a: byte, b: byte, c: byte)
    ensures XorByte(a, b) == XorByte(b, a)
    ensures XorByte(XorByte(a, b), c) == XorByte(a, XorByte(b, c))
    ensures XorByte(a, a) == 0
    ensures XorByte(XorByte(a, b), b) == a
  {
    hide XorNibble;
    XorByteParts(a, b);
    XorByteParts(b, c);
    XorNibbleLaws(a / 16, b / 16, c / 16);
    XorNibbleLaws(a % 16, b % 16, c % 16);
    XorNibbleCancels(a / 16, b / 16);
    XorNibbleCancels(a % 16, b % 16);
  }

  /** Bit i of a number, counted from the lowest. */
  function Bit(x: nat, i: nat): (r: nat)
    ensures r < 2
  {
    if i == 0 then x % 2 else Bit(x / 2, i - 1)
  }

  lemma {:induction false} XorIsBitwise(a: nat, b: nat, n: nat, i: nat)
    requires i < n
    ensures Bit(Xor(a, b, n), i) == if Bit(a, i) == Bit(b, i) then 0 else 1
  {
    XorBits(a, b, n);
    if i > 0 { XorIsBitwise(a / 2, b / 2, n - 1, i - 1); }
  }

  lemma BitsOfByte(b: byte, i: nat)
    requires i < 8
    ensures Bit(b, i) == if i < 4 then Bit(b % 16, i) else Bit(b / 16, i - 4)
  {
    assert b / 2 / 2 / 2 / 2 == b / 16;
    if i == 0 {
    } else if i == 1 {
      assert Bit(b, 1) == Bit(b / 2, 0) && Bit(b % 16, 1) == Bit(b % 16 / 2, 0);
    } else if i == 2 {
      assert Bit(b, 2) == Bit(b / 2, 1) == Bit(b / 2 / 2, 0);
      assert Bit(b % 16, 2) == Bit(b % 16 / 2, 1) == Bit(b % 16 / 2 / 2, 0);
    } else if i == 3 {
      assert Bit(b, 3) == Bit(b / 2, 2) == Bit(b / 2 / 2, 1) == Bit(b / 2 / 2 / 2, 0);
      assert Bit(b % 16, 3) == Bit(b % 16 / 2, 2) == Bit(b % 16 / 2 / 2, 1) == Bit(b % 16 / 2 / 2 / 2, 0);
    } else {
      assert Bit(b, i) == Bit(b / 2, i - 1) == Bit(b / 2 / 2, i - 2) == Bit(b / 2 / 2 / 2, i - 3)
          == Bit(b / 2 / 2 / 2 / 2, i - 4);
    }
  }

  /** Every bit of an exclusive-or says whether the two bits differ. */
  lemma XorByteIsBitwise(a: byte, b: byte, i: nat)
    requires i < 8
    ensures Bit(XorByte(a, b), i) == if Bit(a, i) == Bit(b, i) then 0 else 1
  {
    BitsOfByte(a, i);
    BitsOfByte(b, i);
    BitsOfByte(XorByte(a, b), i);
    XorByteParts(a, b);
    if i < 4 {
      XorIsBitwise(a % 16, b % 16, 4, i);
    } else {
      XorIsBitwise(a / 16, b / 16, 4, i - 4);
    }
    hide Bit, Xor;
  }

  lemma {:induction false} OrZero(a: nat, n: nat)
    requires a < Pow2(n)
    ensures Or(a, 0, n) == Or(0, a, n) == a
  {
    if n > 0 { OrZero(a / 2, n - 1); }
  }

  /** Joining a low and a high nibble by inclusive-or. */
  lemma OrNibbles(low: nibble, high: nibble)
    ensures OrByte(low, 16 * high) == OrByte(16 * high, low) == low as int + 16 * high
  {
    assert Pow2(4) == 16;
    OrZero(low, 4);
    OrZero(high, 4);
    hide Or, Pow2;
    var shifted := 16 * high as int;
    assert shifted / 16 == high && shifted % 16 == 0;
  }

  // ----- C strings -------------------------------------------------------------

  /** The characters before the terminator of a character array. */
  type CString = s: string | '\0' !in s

  function UpToNul(s: string): (r: CString)
    ensures r <= s
    ensures |r| < |s| ==> s[|r|] == '\0'
  {
    if s == [] || s[0] == '\0' then []
    else [s[0]] + UpToNul(s[1..])
  }

  function Clip(s: string, n: nat): string {
    if |s| <= n then s else s[..n]
  }

  /** strncmp (a, b, n) == 0 */
  predicate SameUpTo(a: CString, b: CString, n: nat) {
    Clip(a, n) == Clip(b, n)
  }

  /** What a reader of a C string sees at position i. */
  function CharAt(s: CString, i: nat): char {
    if i < |s| then s[i] else '\0'
  }

  lemma NotLonger(a: CString, b: CString, n: nat)
    requires forall i :: 0 <= i < n ==> CharAt(a, i) == CharAt(b, i)
    ensures |Clip(b, n)| <= |Clip(a, n)|
  {
    var m := |Clip(a, n)|;
    if m < n { assert CharAt(a, m) == CharAt(b, m); }
  }

  /** A comparison of n characters goes by what stands at each of these positions. */
  lemma SameUpToMeans(a: CString, b: CString, n: nat)
    ensures SameUpTo(a, b, n) <==> forall i :: 0 <= i < n ==> CharAt(a, i) == CharAt(b, i)
  {
    var c, d := Clip(a, n), Clip(b, n);
    if forall i :: 0 <= i < n ==> CharAt(a, i) == CharAt(b, i) {
      NotLonger(a, b, n);
      NotLonger(b, a, n);
      forall i | 0 <= i < |c| && i < |d| ensures c[i] == d[i] { assert CharAt(a, i) == CharAt(b, i); }
    } else {
      var i :| 0 <= i < n && CharAt(a, i) != CharAt(b, i);
      assert i < |a| ==> i < |c| && c[i] == a[i];
      assert i < |b| ==> i < |d| && d[i] == b[i];
    }
  }
}
