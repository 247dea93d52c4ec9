/** The base64 decoder of web.c: a phase machine over the digits of the text, against the
    encoding of section 4 of RFC 4648. */
module Base64 {
  import opened Bytes

  type sextet = x: int | 0 <= x < 64

  /** The bytes of a C string. */
  type Text = s: seq<byte> | 0 !in s

  const PAD: byte := 0x3d

  /** An entry of the decode table; None stands for -1. */
  function Digit(b: byte): Option<sextet> {
    if b == 0x2b then Some(62)
    else if b == 0x2f then Some(63)
    else if 0x30 <= b <= 0x39 then Some(b - 0x30 + 52)
    else if 0x41 <= b <= 0x5a then Some(b - 0x41)
    else if 0x61 <= b <= 0x7a then Some(b - 0x61 + 26)
    else None
  }

  /** The alphabet of RFC 4648, table 1. */
  function Letter(v: sextet): byte {
    if v < 26 then 0x41 + v
    else if v < 52 then 0x61 + v - 26
    else if v < 62 then 0x30 + v - 52
    else if v == 62 then 0x2b
    else 0x2f
  }

  /** Table 1 of RFC 4648. */
  lemma AlphabetMeans(v: sextet)
    ensures v < 26 ==> Letter(v) == 'A' as int + v
    ensures 26 <= v < 52 ==> Letter(v) == 'a' as int + v - 26
    ensures 52 <= v < 62 ==> Letter(v) == '0' as int + v - 52
    ensures Letter(62) == '+' as int && Letter(63) == '/' as int
  {
  }

  lemma LetterDigit(v: sextet)
    ensures Digit(Letter(v)) == Some(v) && Letter(v) != 0
  {
  }

  // ----- the decoding of a text --------------------------------------------------------------

  function DigitOf(b: byte): seq<sextet> {
    if Digit(b).Some? then [Digit(b).value] else []
  }

  function Digits(s: seq<byte>): seq<sextet> {
    if s == [] then [] else DigitOf(s[0]) + Digits(s[1..])
  }

  /** The byte a digit completes in phase 1, 2 or 3: bits of the previous digit above bits of
      this one. */
  function Completed(phase: nat, prev: sextet, d: sextet): byte
    requires 1 <= phase <= 3
  {
    if phase == 1 then 4 * prev as int + d / 16
    else if phase == 2 then 16 * (prev as int % 16) + d / 4
    else 64 * (prev as int % 4) + d
  }

  /** The byte that the last digit completes, if it is not the first of four. */
  function LastByte(ds: seq<sextet>): seq<byte>
    requires ds != []
  {
    var n := |ds| - 1;
    if n % 4 == 0 then [] else [Completed(n % 4, ds[n - 1], ds[n])]
  }

  /** The bytes that the digits spell. */
  function Spelled(ds: seq<sextet>): seq<byte> {
    if ds == [] then [] else Spelled(ds[..|ds| - 1]) + LastByte(ds)
  }

  function Decoded(s: seq<byte>): seq<byte> {
    Spelled(Digits(s))
  }

  // ----- the encoding -----------------------------------------------------------------------

  function Encoded(b: seq<byte>): seq<byte> {
    if b == [] then []
    else if |b| == 1 then [Letter(b[0] / 4), Letter(b[0] % 4 * 16), PAD, PAD]
    else if |b| == 2 then [Letter(b[0] / 4), Letter(b[0] % 4 * 16 + b[1] / 16), Letter(b[1] % 16 * 4), PAD]
    else
      [Letter(b[0] / 4), Letter(b[0] % 4 * 16 + b[1] / 16), Letter(b[1] % 16 * 4 + b[2] / 64), Letter(b[2] % 64)]
      + Encoded(b[3..])
  }

  lemma {:induction false} DigitsJoin(a: seq<byte>, b: seq<byte>)
    ensures Digits(a + b) == Digits(a) + Digits(b)
  {
    hide DigitOf;
    if a == [] {
      assert a + b == b;
    } else {
      assert (a + b)[1..] == a[1..] + b;
      DigitsJoin(a[1..], b);
    }
  }

  lemma LastJoin(four: seq<sextet>, ds: seq<sextet>)
    requires |four| == 4 && ds != []
    ensures LastByte(four + ds) == LastByte(ds)
  {
    hide Completed;
    var n := |ds| - 1;
    assert (4 + n) % 4 == n % 4;
  }

  lemma {:induction false} SpelledJoin(four: seq<sextet>, ds: seq<sextet>)
    requires |four| == 4
    ensures Spelled(four + ds) == Spelled(four) + Spelled(ds)
  {
    hide LastByte;
    if ds == [] {
      assert four + ds == four;
    } else {
      var n := |ds| - 1;
      assert (four + ds)[..4 + n] == four + ds[..n];
      SpelledJoin(four, ds[..n]);
      LastJoin(four, ds);
    }
  }

  lemma SpelledFour(a: sextet, b: sextet, c: sextet, d: sextet)
    ensures Spelled([a]) == []
    ensures Spelled([a, b]) == [Completed(1, a, b)]
    ensures Spelled([a, b, c]) == [Completed(1, a, b), Completed(2, b, c)]
    ensures Spelled([a, b, c, d]) == [Completed(1, a, b), Completed(2, b, c), Completed(3, c, d)]
  {
    hide Completed;
    assert [a][..0] == [] && [a, b][..1] == [a] && [a, b, c][..2] == [a, b] && [a, b, c, d][..3] == [a, b, c];
  }

  lemma Unsplit(x: byte, y: byte, z: byte)
    ensures Completed(1, x / 4, x % 4 * 16 + y / 16) == x
    ensures Completed(2, x % 4 * 16 + y / 16, y % 16 * 4 + z / 64) == y
    ensures Completed(3, y % 16 * 4 + z / 64, z % 64) == z
  {
  }

  lemma DigitsOne(b: byte)
    ensures Digits([b]) == DigitOf(b)
  {
  }

  lemma DigitsFour(a: sextet, b: sextet, c: byte, d: byte)
    ensures Digits([Letter(a), Letter(b), c, d]) == [a, b] + DigitOf(c) + DigitOf(d)
  {
    hide Letter, Digit, Digits;
    LetterDigit(a);
    LetterDigit(b);
    var s := [Letter(a), Letter(b), c, d];
    assert s == [Letter(a)] + [Letter(b)] + [c] + [d];
    DigitsJoin([Letter(a)] + [Letter(b)] + [c], [d]);
    DigitsJoin([Letter(a)] + [Letter(b)], [c]);
    DigitsJoin([Letter(a)], [Letter(b)]);
    DigitsOne(Letter(a));
    DigitsOne(Letter(b));
    DigitsOne(c);
    DigitsOne(d);
  }

  lemma PadIsForeign()
    ensures DigitOf(PAD) == []
  {
  }

  lemma DecodesOne(x: byte)
    ensures 0 !in Encoded([x]) && Decoded(Encoded([x])) == [x]
  {
    hide Spelled, Completed, Digits, Letter, DigitOf;
    var a, b := x / 4, x % 4 * 16;
    LetterDigit(a);
    LetterDigit(b);
    DigitsFour(a, b, PAD, PAD);
    PadIsForeign();
    SpelledFour(a, b, 0, 0);
    Unsplit(x, 0, 0);
    assert Digits(Encoded([x])) == [a, b];
  }

  lemma DecodesTwo(x: byte, y: byte)
    ensures 0 !in Encoded([x, y]) && Decoded(Encoded([x, y])) == [x, y]
  {
    hide Spelled, Completed, Digits, Letter, Digit;
    var a, b, c := x / 4, x % 4 * 16 + y / 16, y % 16 * 4;
    LetterDigit(a);
    LetterDigit(b);
    LetterDigit(c);
    DigitsFour(a, b, Letter(c), PAD);
    PadIsForeign();
    SpelledFour(a, b, c, 0);
    Unsplit(x, y, 0);
    assert Digits(Encoded([x, y])) == [a, b, c];
  }

  lemma DecodesThree(x: byte, y: byte, z: byte, rest: seq<byte>)
    ensures var s := [Letter(x / 4), Letter(x % 4 * 16 + y / 16), Letter(y % 16 * 4 + z / 64), Letter(z % 64)];
      0 !in s && Decoded(s + rest) == [x, y, z] + Decoded(rest)
  {
    hide Spelled, Completed, Digits, Letter, Digit;
    var a, b, c, d := x / 4, x % 4 * 16 + y / 16, y % 16 * 4 + z / 64, z % 64;
    LetterDigit(a);
    LetterDigit(b);
    LetterDigit(c);
    LetterDigit(d);
    DigitsFour(a, b, Letter(c), Letter(d));
    DigitsJoin([Letter(a), Letter(b), Letter(c), Letter(d)], rest);
    SpelledJoin([a, b, c, d], Digits(rest));
    SpelledFour(a, b, c, d);
    Unsplit(x, y, z);
    assert Digits([Letter(a), Letter(b), Letter(c), Letter(d)]) == [a, b, c, d];
  }

  /** Decoding undoes encoding, for every byte string. */
  lemma {:induction false} DecodesEncoded(b: seq<byte>)
    ensures 0 !in Encoded(b) && Decoded(Encoded(b)) == b
  {
    if |b| == 0 {
    } else if |b| == 1 {
      DecodesOne(b[0]);
    } else if |b| == 2 {
      DecodesTwo(b[0], b[1]);
    } else {
      DecodesEncoded(b[3..]);
      DecodesThree(b[0], b[1], b[2], Encoded(b[3..]));
      assert b == [b[0], b[1], b[2]] + b[3..];
    }
  }

  // ----- bytes outside the alphabet ------------------------------------------------------------

  /** No byte is a letter of the alphabet. */
  ghost predicate Foreign(s: seq<byte>) {
    forall i, v: sextet :: 0 <= i < |s| ==> s[i] != Letter(v)
  }

  lemma NoDigitMeans(b: byte)
    ensures Digit(b).None? <==> forall v: sextet :: b != Letter(v)
  {
    if Digit(b).Some? { assert b == Letter(Digit(b).value); }
    forall v: sextet | b == Letter(v) ensures Digit(b).Some? { LetterDigit(v); }
  }

  ghost predicate NoDigits(s: seq<byte>) {
    forall i :: 0 <= i < |s| ==> Digit(s[i]).None?
  }

  lemma {:induction false} NoDigitsSpell(s: seq<byte>)
    ensures Digits(s) == [] <==> NoDigits(s)
  {
    if s != [] {
      NoDigitsSpell(s[1..]);
      assert NoDigits(s) <==> Digit(s[0]).None? && NoDigits(s[1..]) by {
        if Digit(s[0]).None? && NoDigits(s[1..]) {
          forall i | 0 <= i < |s| ensures Digit(s[i]).None? { if i > 0 { assert s[i] == s[1..][i - 1]; } }
        }
      }
    }
  }

  lemma ForeignDigits(s: seq<byte>)
    ensures Digits(s) == [] <==> Foreign(s)
  {
    hide Digit, Digits, Letter;
    NoDigitsSpell(s);
    forall i | 0 <= i < |s| ensures Digit(s[i]).None? <==> forall v: sextet :: s[i] != Letter(v) {
      NoDigitMeans(s[i]);
    }
  }

  /** Bytes outside the alphabet may be inserted anywhere. */
  lemma IgnoresForeign(a: seq<byte>, noise: seq<byte>, b: seq<byte>)
    requires Foreign(noise)
    ensures Decoded(a + noise + b) == Decoded(a + b)
  {
    hide Digits, Foreign, Spelled;
    DigitsJoin(a + noise, b);
    DigitsJoin(a, noise);
    DigitsJoin(a, b);
    ForeignDigits(noise);
    assert Digits(a + noise + b) == Digits(a + b);
  }

  // ----- the phase machine ---------------------------------------------------------------------

  /** How many of the n decoded bytes fit into size. */
  function Fitting(n: nat, size: int): nat {
    if size <= 0 then 0 else if n <= size then n else size
  }

  /** if (idx < size) space[idx++] = c */
  method Put(space: array<byte>, size: int, idx: nat, c: byte, ghost sofar: seq<byte>) returns (n: nat)
    requires size <= space.Length && idx == Fitting(|sofar|, size) && space[..idx] == sofar[..idx]
    modifies space
    ensures n == Fitting(|sofar| + 1, size)
    ensures space[..n] == (sofar + [c])[..n] && space[n..] == old(space[n..])
  {
    n := idx;
    if n < size {
      space[n] := c;
      n := n + 1;
    }
  }

  lemma Start()
    ensures Digits([]) == [] && Spelled([]) == []
  {
  }

  lemma DigitsSnoc(s: seq<byte>, i: nat)
    requires i < |s|
    ensures Digits(s[..i + 1]) == Digits(s[..i]) + if Digit(s[i]).Some? then [Digit(s[i]).value] else []
  {
    hide Digits;
    assert s[..i + 1] == s[..i] + [s[i]];
    DigitsJoin(s[..i], [s[i]]);
    DigitsOne(s[i]);
  }

  lemma SpelledSnoc(ds: seq<sextet>, d: sextet)
    ensures Spelled(ds + [d]) ==
      Spelled(ds) + if |ds| % 4 == 0 then [] else [Completed(|ds| % 4, ds[|ds| - 1], d)]
  {
  }

  /** web_b64decode: the bytes of the decoding that fit, and nothing else, are written. */
  method B64Decode(str: Text, space: array<byte>, size: int) returns (n: nat)
    requires size <= space.Length
    modifies space
    ensures n == if size <= 0 then 0 else if |Decoded(str)| <= size then |Decoded(str)| else size
    ensures space[..n] == Decoded(str)[..n] && space[n..] == old(space[n..])
  {
    hide Completed, Digit, Digits, Spelled;
    n := 0;
    var phase: nat := 0;
    var prevD: sextet := 0;
    var cp := 0;
    ghost var ds: seq<sextet> := [];
    Start();
    while cp < |str|
      invariant 0 <= cp <= |str| && ds == Digits(str[..cp])
      invariant phase == |ds| % 4 && (ds != [] ==> prevD == ds[|ds| - 1])
      invariant n == Fitting(|Spelled(ds)|, size)
      invariant space[..n] == Spelled(ds)[..n] && space[n..] == old(space[n..])
    {
      var d := Digit(str[cp]);
      DigitsSnoc(str, cp);
      if d.Some? {
        SpelledSnoc(ds, d.value);
        if phase == 0 {
          phase := phase + 1;
        } else {
          var c := Completed(phase, prevD, d.value);
          n := Put(space, size, n, c, Spelled(ds));
          phase := if phase == 3 then 0 else phase + 1;
        }
        ds := ds + [d.value];
        prevD := d.value;
      }
      cp := cp + 1;
    }
    assert str[..cp] == str;
  }
}
