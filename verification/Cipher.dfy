/** The 16-round nibble cipher that protects a new password on its way to the server.

    A block is eight bytes, low nibble first.  Each round of the decryptor permutes the
    nibbles, undoes one S-box per nibble and adds the key, which was rotated by one nibble
    before.  EncryptBlock is the forward cipher built from the same table. */
module Cipher {
  import opened Bytes
  import opened CryptTables

  type Block = s: seq<nibble> | |s| == 16 witness seq(16, _ => 0)

  // ----- rounds -------------------------------------------------------------------------

  function DecryptRound(key: Block, x: Block): Block {
    seq(16, k requires 0 <= k < 16 => XorNibble(InverseRow(k)[x[InverseRow(16)[k]]], key[k]))
  }

  function EncryptNibble(key: Block, x: Block, k: nibble): nibble {
    ShuffleRow(k)[XorNibble(x[k], key[k])]
  }

  function EncryptRound(key: Block, x: Block): Block {
    seq(16, j requires 0 <= j < 16 => EncryptNibble(key, x, ShuffleRow(16)[j]))
  }

  lemma DecryptUndoesRound(key: Block, x: Block)
    ensures DecryptRound(key, EncryptRound(key, x)) == x
  {
    hide XorNibble, ShuffleRow, InverseRow;
    forall k | 0 <= k < 16 ensures DecryptRound(key, EncryptRound(key, x))[k] == x[k] {
      RowsArePermutations(16);
      RowsArePermutations(k);
      XorNibbleCancels(x[k], key[k]);
      assert InverseAt(ShuffleRow(16), InverseRow(16), k);
      assert InverseAt(ShuffleRow(k), InverseRow(k), XorNibble(x[k], key[k]));
    }
  }

  lemma EncryptUndoesRound(key: Block, x: Block)
    ensures EncryptRound(key, DecryptRound(key, x)) == x
  {
    hide XorNibble, ShuffleRow, InverseRow;
    forall j | 0 <= j < 16 ensures EncryptRound(key, DecryptRound(key, x))[j] == x[j] {
      var k := ShuffleRow(16)[j];
      RowsArePermutations(16);
      RowsArePermutations(k);
      assert InverseAt(ShuffleRow(16), InverseRow(16), j);
      XorNibbleCancels(InverseRow(k)[x[j]], key[k]);
      assert InverseAt(ShuffleRow(k), InverseRow(k), x[j]);
    }
  }

  function Rotate(key: Block): Block {
    key[1..] + [key[0]]
  }

  function RotateBy(key: Block, n: nat): Block {
    if n == 0 then key else Rotate(RotateBy(key, n - 1))
  }

  lemma {:induction false} RotateByIsShift(key: Block, n: nat)
    requires n <= 16
    ensures RotateBy(key, n) == key[n..] + key[..n]
  {
    if n > 0 { RotateByIsShift(key, n - 1); }
  }

  /** After sixteen rounds the key is back at its starting value. */
  lemma FullTurn(key: Block)
    ensures RotateBy(key, 16) == key
  {
    RotateByIsShift(key, 16);
  }

  /** The first n rounds of decryption. */
  function DecryptRounds(key: Block, x: Block, n: nat): Block {
    if n == 0 then x else DecryptRound(RotateBy(key, n), DecryptRounds(key, x, n - 1))
  }

  function EncryptRounds(key: Block, x: Block, n: nat): Block
    decreases n
  {
    if n == 0 then x else EncryptRounds(key, EncryptRound(RotateBy(key, n), x), n - 1)
  }

  lemma {:induction false} RoundsInverse(key: Block, x: Block, n: nat)
    ensures DecryptRounds(key, EncryptRounds(key, x, n), n) == x
    ensures EncryptRounds(key, DecryptRounds(key, x, n), n) == x
    decreases n
  {
    hide DecryptRound, EncryptRound, RotateBy;
    if n > 0 {
      var k := RotateBy(key, n);
      RoundsInverse(key, EncryptRound(k, x), n - 1);
      DecryptUndoesRound(k, x);
      RoundsInverse(key, x, n - 1);
      EncryptUndoesRound(k, DecryptRounds(key, x, n - 1));
    }
  }

  // ----- bytes ----------------------------------------------------------------------------

  function Nibble(b: seq<byte>, k: nat): nibble
    requires k / 2 < |b|
  {
    if k % 2 == 0 then b[k / 2] % 16 else b[k / 2] / 16
  }

  function Nibbles(b: seq<byte>): Block
    requires |b| == 8
  {
    seq(16, k requires 0 <= k < 16 => Nibble(b, k))
  }

  function Pack(x: Block): (b: seq<byte>)
    ensures |b| == 8
  {
    seq(8, j requires 0 <= j < 8 => 16 * (x[2 * j + 1] as int) + x[2 * j])
  }

  lemma PackNibbles(b: seq<byte>)
    requires |b| == 8
    ensures Pack(Nibbles(b)) == b
  {
  }

  lemma NibblesPack(x: Block)
    ensures Nibbles(Pack(x)) == x
  {
  }

  /** What nw_decrypt_newpass makes of a ciphertext block under an 8-byte key. */
  function DecryptBlock(key: seq<byte>, x: seq<byte>): (r: seq<byte>)
    requires |key| == |x| == 8
    ensures |r| == 8
  {
    Pack(DecryptRounds(Nibbles(key), Nibbles(x), 16))
  }

  function EncryptBlock(key: seq<byte>, x: seq<byte>): (r: seq<byte>)
    requires |key| == |x| == 8
    ensures |r| == 8
  {
    Pack(EncryptRounds(Nibbles(key), Nibbles(x), 16))
  }

  /** For every key, decryption and the forward cipher are inverse bijections on blocks. */
  lemma CipherInverse(key: seq<byte>, x: seq<byte>)
    requires |key| == |x| == 8
    ensures DecryptBlock(key, EncryptBlock(key, x)) == x
    ensures EncryptBlock(key, DecryptBlock(key, x)) == x
  {
    hide DecryptRounds, EncryptRounds, Nibbles, Pack;
    var k, n := Nibbles(key), Nibbles(x);
    RoundsInverse(k, n, 16);
    NibblesPack(EncryptRounds(k, n, 16));
    NibblesPack(DecryptRounds(k, n, 16));
    PackNibbles(x);
  }

  // ----- the rounds as a relation on the table ---------------------------------------------------

  /** Nibble j of the block before round r + 1 is the table entry that the block after it, the key
      and the last row of the table lead to. */
  predicate RoundAt(key: seq<byte>, before: Block, after: Block, r: nat, j: nat)
    requires |key| == 8 && r < 16 && j < 16
  {
    var k := NewShuffle(256 + j) as int;
    var m := (k + r + 1) % 16;
    before[j] == NewShuffle(16 * k + XorNibble(after[k], if m % 2 == 0 then key[m / 2] % 16 else key[m / 2] / 16))
  }

  predicate RoundOf(key: seq<byte>, bs: seq<Block>, r: nat, j: nat)
    requires |key| == 8 && |bs| == 17 && r < 16 && j < 16
  {
    RoundAt(key, bs[r], bs[r + 1], r, j)
  }

  /** Seventeen blocks lead from x to y, low nibbles first. */
  ghost predicate SixteenRounds(key: seq<byte>, x: seq<byte>, y: seq<byte>, bs: seq<Block>)
    requires |key| == |x| == |y| == 8
  {
    && |bs| == 17
    && (forall i :: 0 <= i < 8 ==> x[i] == bs[0][2 * i] as int + 16 * (bs[0][2 * i + 1] as int))
    && (forall i :: 0 <= i < 8 ==> y[i] == bs[16][2 * i] as int + 16 * (bs[16][2 * i + 1] as int))
    && forall r, j :: 0 <= r < 16 && 0 <= j < 16 ==> RoundOf(key, bs, r, j)
  }

  lemma RotatedNibble(key: Block, n: nat, k: nat)
    requires n <= 16 && k < 16
    ensures RotateBy(key, n)[k] == key[(k + n) % 16]
  {
    RotateByIsShift(key, n);
  }

  lemma TableNibble(k: nat, v: nibble)
    requires k < 17
    ensures NewShuffle(16 * k + v) == ShuffleRow(k)[v]
  {
    hide ShuffleRow;
    assert (16 * k + v) / 16 == k && (16 * k + v) % 16 == v;
  }

  lemma RoundMeans(key: seq<byte>, x: Block, r: nat, j: nat)
    requires |key| == 8 && r < 16 && j < 16
    ensures RoundAt(key, x, DecryptRound(RotateBy(Nibbles(key), r + 1), x), r, j)
  {
    hide XorNibble, ShuffleRow, DecryptRound, RotateBy, NewShuffle;
    var rk := RotateBy(Nibbles(key), r + 1);
    var after := DecryptRound(rk, x);
    EncryptUndoesRound(rk, x);
    var k := ShuffleRow(16)[j];
    TableNibble(16, j);
    TableNibble(k, XorNibble(after[k], rk[k]));
    RotatedNibble(Nibbles(key), r + 1, k);
    assert x[j] == EncryptNibble(rk, after, k);
  }

  lemma RoundsStart(key: Block, x: Block)
    ensures RotateBy(key, 0) == key && DecryptRounds(key, x, 0) == x
  {
  }

  /** Decryption of a block is the result of sixteen rounds of the table. */
  lemma DecryptionRounds(key: seq<byte>, x: seq<byte>)
    requires |key| == |x| == 8
    ensures exists bs :: SixteenRounds(key, x, DecryptBlock(key, x), bs)
  {
    hide DecryptRound, RotateBy, RoundAt;
    var n := Nibbles(x);
    var bs := seq(17, r requires 0 <= r < 17 => DecryptRounds(Nibbles(key), n, r));
    RoundsStart(Nibbles(key), n);
    PackNibbles(x);
    forall r, j | 0 <= r < 16 && 0 <= j < 16 ensures RoundOf(key, bs, r, j) {
      RoundMeans(key, bs[r], r, j);
      assert bs[r + 1] == DecryptRound(RotateBy(Nibbles(key), r + 1), bs[r]);
    }
    hide DecryptRounds;
    assert SixteenRounds(key, x, DecryptBlock(key, x), bs);
  }

  // ----- in place -----------------------------------------------------------------------------

  /** Setting nibble k of a byte array, where it is still zero, by inclusive-or. */
  lemma SetNibble(b: byte, ch: nibble, odd: bool)
    requires if odd then b < 16 else b % 16 == 0
    ensures var r := OrByte(b, if odd then 16 * ch as int else ch);
      (if odd then r / 16 == ch && r % 16 == b else r % 16 == ch && r / 16 == b / 16)
  {
    hide OrByte;
    if odd { OrNibbles(b, ch); } else { OrNibbles(ch, b / 16); }
  }

  /** The inverse of row r stands at position 16 * r. */
  ghost predicate IsInverseTable(inv: seq<nibble>) {
    |inv| == 272 && forall r :: 0 <= r < 17 ==> inv[16 * r..16 * r + 16] == InverseRow(r)
  }

  lemma InverseBothWays(r: nat)
    requires r < 17
    ensures forall k :: 0 <= k < 16 ==> InverseRow(r)[ShuffleRow(r)[k]] == k
    ensures forall v :: 0 <= v < 16 ==> ShuffleRow(r)[InverseRow(r)[v]] == v
  {
    hide ShuffleRow, InverseRow;
    RowsArePermutations(r);
    forall k | 0 <= k < 16
      ensures InverseRow(r)[ShuffleRow(r)[k]] == k && ShuffleRow(r)[InverseRow(r)[k]] == k
    {
      assert InverseAt(ShuffleRow(r), InverseRow(r), k);
    }
  }

  method InvertRow(inv: array<nibble>, i: nat, ghost r: nat)
    requires inv.Length == 272 && r < 17 && i == 16 * r
    modifies inv
    ensures inv[..i] == old(inv[..i])
    ensures inv[i..i + 16] == InverseRow(r)
  {
    hide ShuffleRow, InverseRow;
    ghost var row, back := ShuffleRow(r), InverseRow(r);
    InverseBothWays(r);
    var j := 0;
    while j < 16
      invariant 0 <= j <= 16
      invariant inv[..i] == old(inv[..i])
      invariant forall v :: 0 <= v < 16 && back[v] < j ==> inv[i + v] == back[v]
    {
      assert NewShuffle(i + j) == row[j] && back[row[j]] == j;
      inv[i + NewShuffle(i + j)] := j;
      j := j + 1;
    }
  }

  method BuildInverse() returns (inv: array<nibble>)
    ensures fresh(inv) && inv.Length == 272
    ensures IsInverseTable(inv[..])
  {
    hide InverseRow;
    inv := new nibble[272];
    var i := 0;
    ghost var r := 0;
    while i < 272
      invariant r <= 17 && i == 16 * r
      invariant forall r' :: 0 <= r' < r ==> inv[..][16 * r'..16 * r' + 16] == InverseRow(r')
    {
      InvertRow(inv, i, r);
      r := r + 1;
      i := i + 16;
    }
  }

  /** The eight bytes at position p. */
  ghost function Slice(a: array<byte>, p: nat): (s: seq<byte>)
    requires p + 8 <= a.Length
    reads a
    ensures |s| == 8
  {
    a[p..p + 8]
  }

  function Entry(x: Block, k: nat): nibble
    requires k < 16
  {
    x[k]
  }

  /** Nibble j of x moved to position newshuffle[j + 0x100]. */
  function Permuted(x: Block): Block {
    seq(16, k requires 0 <= k < 16 => Entry(x, InverseRow(16)[k]))
  }

  lemma NibblesDetermine(b: seq<byte>, y: Block)
    requires |b| == 8 && forall k :: 0 <= k < 16 ==> Nibble(b, k) == y[k]
    ensures b == Pack(y)
  {
  }

  /** Store a nibble where the byte is still zero. */
  method PutNibble(copy: array<byte>, n: nibble, ch: nibble)
    requires copy.Length == 8 && Nibble(copy[..], n) == 0
    modifies copy
    ensures forall k :: 0 <= k < 16 ==> Nibble(copy[..], k) == if k == n then ch else Nibble(old(copy[..]), k)
  {
    SetNibble(copy[n / 2], ch, n % 2 == 1);
    hide OrByte;
    copy[n / 2] := OrByte(copy[n / 2], if n % 2 == 1 then 16 * ch as int else ch);
  }

  /** The nibbles of newpwd moved to their places in copy. */
  method Permute(newpwd: array<byte>, p: nat, copy: array<byte>)
    requires p + 8 <= newpwd.Length && copy.Length == 8 && copy != newpwd
    modifies copy
    ensures copy[..] == Pack(Permuted(Nibbles(Slice(newpwd, p))))
  {
    hide ShuffleRow, InverseRow;
    ghost var x := Nibbles(Slice(newpwd, p));
    ghost var row, back := ShuffleRow(16), InverseRow(16);
    InverseBothWays(16);
    forall i | 0 <= i < 8 {
      copy[i] := 0;
    }
    var j := 0;
    while j < 16
      invariant 0 <= j <= 16
      invariant forall k :: 0 <= k < 16 ==> Nibble(copy[..], k) == if back[k] < j then x[back[k]] else 0
    {
      var ch := if j % 2 == 1 then newpwd[p + j / 2] / 16 else newpwd[p + j / 2] % 16;
      assert ch == x[j];
      assert NewShuffle(j + 0x100) == row[j] && back[row[j]] == j;
      PutNibble(copy, NewShuffle(j + 0x100), ch);
      j := j + 1;
    }
    NibblesDetermine(copy[..], Permuted(x));
  }

  /** Byte j of the key after the rotation. */
  function RotatedByte(key: seq<byte>, j: nat): byte
    requires |key| == 8 && j < 8
  {
    key[if j < 7 then j + 1 else 0] % 16 * 16 + key[j] / 16
  }

  lemma RotatedBytes(was: seq<byte>, now: seq<byte>)
    requires |was| == |now| == 8
    requires forall i :: 0 <= i < 8 ==> now[i] == RotatedByte(was, i)
    ensures now == Pack(Rotate(Nibbles(was)))
  {
  }

  /** (low << 4) | (high >> 4) */
  function JoinBytes(low: byte, high: byte): (r: byte)
    ensures r == low % 16 * 16 + high / 16
  {
    OrNibbles(high / 16, low % 16);
    OrByte(low % 16 * 16, high / 16)
  }

  /** Rotate the key by one nibble. */
  method RotateKey(oldpwd: array<byte>, o: nat)
    requires o + 8 <= oldpwd.Length
    modifies oldpwd
    ensures oldpwd[..o] == old(oldpwd[..o]) && oldpwd[o + 8..] == old(oldpwd[o + 8..])
    ensures Slice(oldpwd, o) == Pack(Rotate(Nibbles(old(Slice(oldpwd, o)))))
  {
    hide JoinBytes;
    ghost var was := Slice(oldpwd, o);
    var ch := oldpwd[o];
    var j := 0;
    while j < 7
      invariant 0 <= j <= 7
      invariant oldpwd[..o] == old(oldpwd[..o]) && oldpwd[o + 8..] == old(oldpwd[o + 8..])
      invariant forall i :: 0 <= i < j ==> oldpwd[o + i] == RotatedByte(was, i)
      invariant forall i :: j <= i < 8 ==> oldpwd[o + i] == was[i]
    {
      oldpwd[o + j] := JoinBytes(oldpwd[o + j + 1], oldpwd[o + j]);
      j := j + 1;
    }
    oldpwd[o + 7] := JoinBytes(ch, oldpwd[o + 7]);
    RotatedBytes(was, Slice(oldpwd, o));
  }

  /** Undo the S-box of each nibble and add the key. */
  function Mixed(key: Block, y: Block): Block {
    seq(16, k requires 0 <= k < 16 => XorNibble(InverseRow(k)[y[k]], key[k]))
  }

  lemma RoundSplit(key: Block, x: Block)
    ensures DecryptRound(key, x) == Mixed(key, Permuted(x))
  {
  }

  /** Byte j of a block with the S-boxes of its two nibbles undone. */
  function Substituted(b: byte, j: nat): byte
    requires j < 8
  {
    16 * InverseRow(2 * j + 1)[b / 16] as int + InverseRow(2 * j)[b % 16]
  }

  function MixedByte(key: seq<byte>, y: seq<byte>, j: nat): byte
    requires |key| == |y| == 8 && j < 8
  {
    XorByte(Substituted(y[j], j), key[j])
  }

  lemma MixedPair(key: seq<byte>, y: seq<byte>, j: nat)
    requires |key| == |y| == 8 && j < 8
    ensures Pack(Mixed(Nibbles(key), Nibbles(y)))[j] == MixedByte(key, y, j)
  {
    hide XorNibble, InverseRow;
    assert Nibble(y, 2 * j) == y[j] % 16 && Nibble(y, 2 * j + 1) == y[j] / 16;
    assert Nibble(key, 2 * j) == key[j] % 16 && Nibble(key, 2 * j + 1) == key[j] / 16;
  }

  lemma MixedBytes(key: seq<byte>, y: seq<byte>, now: seq<byte>)
    requires |key| == |y| == |now| == 8
    requires forall j :: 0 <= j < 8 ==> now[j] == MixedByte(key, y, j)
    ensures now == Pack(Mixed(Nibbles(key), Nibbles(y)))
  {
    hide MixedByte, Mixed, Nibbles, Pack;
    forall j | 0 <= j < 8 ensures now[j] == Pack(Mixed(Nibbles(key), Nibbles(y)))[j] {
      MixedPair(key, y, j);
    }
  }

  lemma TableEntry(inv: seq<nibble>, r: nat, v: nibble)
    requires IsInverseTable(inv) && r < 17
    ensures inv[16 * r + v] == InverseRow(r)[v]
  {
  }

  method Substitute(inv: array<nibble>, b: byte, j: nat) returns (r: byte)
    requires IsInverseTable(inv[..]) && j < 8
    ensures r == Substituted(b, j)
  {
    hide InverseRow, OrByte;
    var cl := inv[b % 16 + j * 32];
    var ch := inv[b / 16 + j * 32 + 16];
    TableEntry(inv[..], 2 * j, b % 16);
    TableEntry(inv[..], 2 * j + 1, b / 16);
    OrNibbles(cl, ch);
    return OrByte(16 * ch as int, cl);
  }

  method Mix(inv: array<nibble>, copy: array<byte>, oldpwd: array<byte>, o: nat)
    requires IsInverseTable(inv[..]) && copy.Length == 8 && o + 8 <= oldpwd.Length && copy != oldpwd
    modifies copy
    ensures copy[..] == Pack(Mixed(Nibbles(Slice(oldpwd, o)), Nibbles(old(copy[..]))))
  {
    hide XorByte, Substituted, IsInverseTable;
    ghost var y, key := copy[..], Slice(oldpwd, o);
    var j := 0;
    while j < 8
      invariant 0 <= j <= 8
      invariant forall i :: 0 <= i < j ==> copy[i] == MixedByte(key, y, i)
      invariant forall i :: j <= i < 8 ==> copy[i] == y[i]
    {
      var b := Substitute(inv, copy[j], j);
      copy[j] := XorByte(b, oldpwd[o + j]);
      j := j + 1;
    }
    MixedBytes(key, y, copy[..]);
  }

  lemma DecryptStep(key: Block, x: Block, n: nat)
    ensures Mixed(RotateBy(key, n + 1), Permuted(DecryptRounds(key, x, n))) == DecryptRounds(key, x, n + 1)
  {
    RoundSplit(RotateBy(key, n + 1), DecryptRounds(key, x, n));
  }

  lemma RotateStep(key: Block, i: nat)
    ensures RotateBy(key, i + 1) == Rotate(RotateBy(key, i))
  {
  }

  lemma Unchanged(a: seq<byte>, b: seq<byte>, o: nat)
    requires |a| == |b| && o + 8 <= |a|
    requires a[..o] == b[..o] && a[o..o + 8] == b[o..o + 8] && a[o + 8..] == b[o + 8..]
    ensures a == b
  {
  }

  /** memcpy (newpwd, copy, 8) */
  method Store(newpwd: array<byte>, p: nat, copy: array<byte>)
    requires p + 8 <= newpwd.Length && copy.Length == 8 && copy != newpwd
    modifies newpwd
    ensures newpwd[..p] == old(newpwd[..p]) && newpwd[p + 8..] == old(newpwd[p + 8..])
    ensures Slice(newpwd, p) == copy[..]
  {
    forall j | 0 <= j < 8 {
      newpwd[p + j] := copy[j];
    }
  }

  /** nw_decrypt_newpass (oldpwd + o, newpwd + p, newpwd + p): the block is decrypted in place
      and the key, rotated sixteen times, ends as it began. */
  method DecryptNewPass(oldpwd: array<byte>, o: nat, newpwd: array<byte>, p: nat)
    requires oldpwd != newpwd && o + 8 <= oldpwd.Length && p + 8 <= newpwd.Length
    modifies oldpwd, newpwd
    ensures oldpwd[..] == old(oldpwd[..])
    ensures newpwd[..p] == old(newpwd[..p]) && newpwd[p + 8..] == old(newpwd[p + 8..])
    ensures newpwd[p..p + 8] == DecryptBlock(old(oldpwd[o..o + 8]), old(newpwd[p..p + 8]))
  {
    hide DecryptRounds, Mixed, Permuted, Nibbles, Pack, RotateBy, IsInverseTable;
    ghost var key, x := Nibbles(Slice(oldpwd, o)), Nibbles(Slice(newpwd, p));
    PackNibbles(Slice(oldpwd, o));
    PackNibbles(Slice(newpwd, p));
    RoundsStart(key, x);
    var inv := BuildInverse();
    var copy := new byte[8];
    var i := 0;
    while i < 16
      invariant 0 <= i <= 16
      invariant oldpwd[..o] == old(oldpwd[..o]) && oldpwd[o + 8..] == old(oldpwd[o + 8..])
      invariant newpwd[..p] == old(newpwd[..p]) && newpwd[p + 8..] == old(newpwd[p + 8..])
      invariant Slice(oldpwd, o) == Pack(RotateBy(key, i))
      invariant Slice(newpwd, p) == Pack(DecryptRounds(key, x, i))
      invariant IsInverseTable(inv[..])
    {
      NibblesPack(RotateBy(key, i));
      NibblesPack(RotateBy(key, i + 1));
      NibblesPack(DecryptRounds(key, x, i));
      NibblesPack(Permuted(DecryptRounds(key, x, i)));
      RotateStep(key, i);
      DecryptStep(key, x, i);
      Permute(newpwd, p, copy);
      RotateKey(oldpwd, o);
      Mix(inv, copy, oldpwd, o);
      Store(newpwd, p, copy);
      i := i + 1;
    }
    FullTurn(key);
    Unchanged(oldpwd[..], old(oldpwd[..]), o);
  }
}
