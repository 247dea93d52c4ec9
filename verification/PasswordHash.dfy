/** The password hash of crypt.c and the keyed response built from it. */
module PasswordHash {
  import opened Bytes
  import opened CryptTables

  // ----- the closed form -------------------------------------------------------------------

  /** Length of the password without trailing NULs. */
  function StripLength(buf: seq<byte>): (n: nat)
    ensures n <= |buf|
    ensures n > 0 ==> buf[n - 1] != 0
    ensures forall i :: n <= i < |buf| ==> buf[i] == 0
  {
    if buf == [] || buf[|buf| - 1] != 0 then |buf| else StripLength(buf[..|buf| - 1])
  }

  /** Exclusive-or of byte s of the first n blocks of 32 bytes. */
  function FoldedBlocks(p: seq<byte>, n: nat, s: nat): byte
    requires 32 * n <= |p| && s < 32
  {
    if n == 0 then 0 else XorByte(FoldedBlocks(p, n - 1, s), p[32 * (n - 1) + s])
  }

  /** The tail of rest bytes repeats with period rest + 1; the extra step takes a key byte. */
  function TailByte(tail: seq<byte>, s: nat): byte
    requires s < 32
  {
    var k := s % (|tail| + 1);
    if k == |tail| then EncryptKeys()[s] else tail[k]
  }

  /** The 32 bytes that are mixed: full blocks, tail, and the object id. */
  function FoldedByte(id: seq<byte>, p: seq<byte>, s: nat): byte
    requires |id| == 4 && s < 32
  {
    var blocks := |p| / 32;
    var body := FoldedBlocks(p, blocks, s);
    XorByte(if |p| % 32 == 0 then body else XorByte(body, TailByte(p[32 * blocks..], s)), id[s % 4])
  }

  function Folded(id: seq<byte>, p: seq<byte>): (t: seq<byte>)
    requires |id| == 4
    ensures |t| == 32
  {
    seq(32, s requires 0 <= s < 32 => FoldedByte(id, p, s))
  }

  /** One step of the mixing loop: the new byte, from the 32 bytes and the running sum. */
  function MixedByte(t: seq<byte>, sum: nat, s: nat): byte
    requires |t| == 32 && s < 32
  {
    XorByte((t[s] as int + sum) % 256, (t[(s + sum) % 32] as int - EncryptKeys()[s]) % 256)
  }

  /** The bytes and the running sum after n steps of the mixing loop. */
  function Mixing(t: seq<byte>, n: nat): (r: (seq<byte>, nat))
    requires |t| == 32
    ensures |r.0| == 32 && r.1 <= 255 * n
  {
    if n == 0 then (t, 0)
    else
      var (u, sum) := Mixing(t, n - 1);
      var b := MixedByte(u, sum, (n - 1) % 32);
      (u[(n - 1) % 32 := b], sum + b)
  }

  /** Two passes over the 32 bytes. */
  function Mixed(t: seq<byte>): (r: seq<byte>)
    requires |t| == 32
    ensures |r| == 32
  {
    Mixing(t, 2 * |t|).0
  }

  function Target(t: seq<byte>): (r: seq<byte>)
    requires |t| == 32
    ensures |r| == 16
  {
    seq(16, i requires 0 <= i < 16 => OrByte(EncryptTable(t[2 * i]), 16 * EncryptTable(t[2 * i + 1]) as int))
  }

  /** What shuffle computes. */
  function Hash(id: seq<byte>, buf: seq<byte>): (h: seq<byte>)
    requires |id| == 4
    ensures |h| == 16
  {
    Target(Mixed(Folded(id, buf[..StripLength(buf)])))
  }

  lemma {:induction false} StripPadded(buf: seq<byte>, n: nat)
    ensures StripLength(buf + seq(n, _ => 0)) == StripLength(buf)
    ensures (buf + seq(n, _ => 0))[..StripLength(buf)] == buf[..StripLength(buf)]
  {
    var zeroes: seq<byte> := seq(n, _ => 0);
    if n == 0 {
      assert buf + zeroes == buf;
    } else {
      assert (buf + zeroes)[..|buf| + n - 1] == buf + seq(n - 1, _ => 0);
      StripPadded(buf, n - 1);
    }
  }

  /** Trailing NULs of a password do not matter. */
  lemma {:induction false} HashIgnoresTrailingNuls(id: seq<byte>, buf: seq<byte>, n: nat)
    requires |id| == 4
    ensures Hash(id, buf + seq(n, _ => 0)) == Hash(id, buf)
  {
    StripPadded(buf, n);
  }

  // ----- what the full blocks contribute -------------------------------------------------------

  /** Exclusive-or of byte s of all full blocks. */
  function FoldedAll(p: seq<byte>, s: nat): byte
    requires s < 32
  {
    FoldedBlocks(p, |p| / 32, s)
  }

  /** The bytes behind the full blocks. */
  function Rest(p: seq<byte>): seq<byte> {
    p[32 * (|p| / 32)..]
  }

  predicate Stripped(p: seq<byte>) {
    p == [] || p[|p| - 1] != 0
  }

  lemma {:induction false} FoldedPrefix(p: seq<byte>, q: seq<byte>, n: nat, s: nat)
    requires 32 * n <= |p| && p <= q && s < 32
    ensures FoldedBlocks(q, n, s) == FoldedBlocks(p, n, s)
  {
    hide XorByte;
    if n > 0 { FoldedPrefix(p, q, n - 1, s); }
  }

  lemma XorZero(x: byte)
    ensures XorByte(x, 0) == x
  {
    XorByteLaws(x, x, x);
    XorByteLaws(x, 0, x);
    hide XorByte;
  }

  lemma {:induction false} FoldedConcat(a: seq<byte>, b: seq<byte>, n: nat, m: nat, s: nat)
    requires |a| == 32 * n && 32 * m <= |b| && s < 32
    ensures FoldedBlocks(a + b, n + m, s) == XorByte(FoldedBlocks(a, n, s), FoldedBlocks(b, m, s))
  {
    hide XorByte;
    if m == 0 {
      FoldedPrefix(a, a + b, n, s);
      XorZero(FoldedBlocks(a, n, s));
    } else {
      FoldedConcat(a, b, n, m - 1, s);
      var x := b[32 * (m - 1) + s];
      assert (a + b)[32 * (n + m - 1) + s] == x;
      XorByteLaws(FoldedBlocks(a, n, s), FoldedBlocks(b, m - 1, s), x);
    }
  }

  /** Full blocks in front change the folded bytes by exclusive-or and leave the rest alone. */
  lemma BlocksInFront(a: seq<byte>, b: seq<byte>, s: nat)
    requires |a| % 32 == 0 && s < 32
    ensures FoldedAll(a + b, s) == XorByte(FoldedAll(a, s), FoldedAll(b, s))
    ensures Rest(a + b) == Rest(b)
  {
    hide XorByte, FoldedBlocks;
    var n, m := |a| / 32, |b| / 32;
    assert |a + b| / 32 == n + m;
    FoldedConcat(a, b, n, m, s);
  }

  function FromParts(all: byte, rest: seq<byte>, id: seq<byte>, s: nat): byte
    requires |id| == 4 && s < 32
  {
    XorByte(if rest == [] then all else XorByte(all, TailByte(rest, s)), id[s % 4])
  }

  lemma FoldedFromParts(id: seq<byte>, p: seq<byte>, s: nat)
    requires |id| == 4 && s < 32
    ensures Folded(id, p)[s] == FromParts(FoldedAll(p, s), Rest(p), id, s)
  {
    hide XorByte, FoldedBlocks, TailByte;
  }

  /** Only the exclusive-or of the full blocks and the rest behind them enter the hash. */
  lemma FoldedBlocksOnly(id: seq<byte>, p: seq<byte>, q: seq<byte>)
    requires |id| == 4 && Stripped(p) && Stripped(q) && Rest(p) == Rest(q)
    requires forall s :: 0 <= s < 32 ==> FoldedAll(p, s) == FoldedAll(q, s)
    ensures Hash(id, p) == Hash(id, q)
  {
    hide Mixed, Target, Folded, FoldedAll, FromParts, Rest;
    assert p[..|p|] == p && q[..|q|] == q;
    forall s | 0 <= s < 32 ensures Folded(id, p)[s] == Folded(id, q)[s] {
      FoldedFromParts(id, p, s);
      FoldedFromParts(id, q, s);
    }
    assert Folded(id, p) == Folded(id, q);
  }

  lemma XorInFront(m: byte, y: byte, t: byte)
    ensures XorByte(m, XorByte(y, t)) == XorByte(y, XorByte(m, t))
  {
    XorByteLaws(m, y, t);
    XorByteLaws(y, m, t);
    hide XorByte;
  }

  lemma XorSwap(x: byte, m: byte, y: byte, t: byte)
    ensures XorByte(x, XorByte(m, XorByte(y, t))) == XorByte(y, XorByte(m, XorByte(x, t)))
    ensures XorByte(x, XorByte(m, XorByte(x, t))) == XorByte(m, t)
  {
    XorInFront(m, y, t);
    XorInFront(x, y, XorByte(m, t));
    XorInFront(m, x, t);
    XorByteLaws(XorByte(m, t), x, x);
    XorByteLaws(x, XorByte(x, XorByte(m, t)), x);
    XorByteLaws(x, XorByte(m, t), x);
    hide XorByte;
  }

  lemma FiveParts(a: seq<byte>, x: seq<byte>, m: seq<byte>, y: seq<byte>, t: seq<byte>, s: nat)
    requires |a| % 32 == 0 && |m| % 32 == 0 && |x| == |y| == 32 && s < 32
    ensures FoldedAll(a + (x + (m + (y + t))), s) ==
      XorByte(FoldedAll(a, s), XorByte(FoldedAll(x, s),
        XorByte(FoldedAll(m, s), XorByte(FoldedAll(y, s), FoldedAll(t, s)))))
    ensures Rest(a + (x + (m + (y + t)))) == Rest(t)
  {
    hide FoldedAll, Rest, XorByte;
    BlocksInFront(a, x + (m + (y + t)), s);
    BlocksInFront(x, m + (y + t), s);
    BlocksInFront(m, y + t, s);
    BlocksInFront(y, t, s);
  }

  /** Exchanging two full blocks of a password does not change its hash. */
  lemma BlocksMayBeExchanged(id: seq<byte>, a: seq<byte>, x: seq<byte>, m: seq<byte>, y: seq<byte>, t: seq<byte>)
    requires |id| == 4 && |a| % 32 == 0 && |m| % 32 == 0 && |x| == |y| == 32
    requires Stripped(a + (x + (m + (y + t)))) && Stripped(a + (y + (m + (x + t))))
    ensures Hash(id, a + (x + (m + (y + t)))) == Hash(id, a + (y + (m + (x + t))))
  {
    hide Hash, FoldedAll, Rest, XorByte;
    var p, q := a + (x + (m + (y + t))), a + (y + (m + (x + t)));
    forall s | 0 <= s < 32 ensures FoldedAll(p, s) == FoldedAll(q, s) {
      FiveParts(a, x, m, y, t, s);
      FiveParts(a, y, m, x, t, s);
      XorSwap(FoldedAll(x, s), FoldedAll(m, s), FoldedAll(y, s), FoldedAll(t, s));
    }
    FiveParts(a, x, m, y, t, 0);
    FiveParts(a, y, m, x, t, 0);
    FoldedBlocksOnly(id, p, q);
  }

  /** A full block that occurs twice in a password may be dropped at both places: different
      passwords with the same hash. */
  lemma DoubledBlockVanishes(id: seq<byte>, a: seq<byte>, x: seq<byte>, m: seq<byte>, t: seq<byte>)
    requires |id| == 4 && |a| % 32 == 0 && |m| % 32 == 0 && |x| == 32
    requires Stripped(a + (x + (m + (x + t)))) && Stripped(a + (m + t))
    ensures Hash(id, a + (x + (m + (x + t)))) == Hash(id, a + (m + t))
  {
    hide Hash, FoldedAll, Rest, XorByte;
    var p, q := a + (x + (m + (x + t))), a + (m + t);
    forall s | 0 <= s < 32 ensures FoldedAll(p, s) == FoldedAll(q, s) {
      FiveParts(a, x, m, x, t, s);
      BlocksInFront(a, m + t, s);
      BlocksInFront(m, t, s);
      XorSwap(FoldedAll(x, s), FoldedAll(m, s), FoldedAll(x, s), FoldedAll(t, s));
    }
    FiveParts(a, x, m, x, t, 0);
    BlocksInFront(a, m + t, 0);
    BlocksInFront(m, t, 0);
    FoldedBlocksOnly(id, p, q);
  }

  // ----- what the hash is made of ------------------------------------------------------------

  /** The 32 folded bytes: the full blocks, a rest of r bytes that repeats with period r + 1 and
      takes a key byte in the extra step, and the id. */
  lemma FoldedClosedForm(id: seq<byte>, p: seq<byte>, s: nat)
    requires |id| == 4 && s < 32
    ensures var r := |p| % 32;
      Folded(id, p)[s] == XorByte(
        if r == 0 then FoldedAll(p, s)
        else XorByte(FoldedAll(p, s), if s % (r + 1) == r then EncryptKeys()[s] else p[|p| - r + s % (r + 1)]),
        id[s % 4])
    ensures |p| < 32 ==> FoldedAll(p, s) == 0
    ensures |p| == 32 ==> FoldedAll(p, s) == p[s]
  {
    hide XorByte, EncryptKeys;
    if |p| == 32 {
      assert FoldedAll(p, s) == XorByte(FoldedBlocks(p, 0, s), p[s]) == XorByte(0, p[s]);
      XorByteLaws(0, p[s], 0);
      XorZero(p[s]);
    }
  }

  lemma XorApart(a: byte, b: byte, c: byte)
    requires a != b
    ensures XorByte(a, c) != XorByte(b, c)
    ensures XorByte(c, a) != XorByte(c, b)
  {
    XorByteLaws(a, c, c);
    XorByteLaws(b, c, c);
    hide XorByte;
  }

  lemma SmallMod(a: nat, m: nat)
    requires a < m
    ensures a % m == a
  {
  }

  lemma ShortFolded(id: seq<byte>, p: seq<byte>, s: nat)
    requires |id| == 4 && |p| < 32 && s < |p|
    ensures Folded(id, p)[s] == XorByte(XorByte(0, p[s]), id[s % 4])
  {
    hide XorByte, EncryptKeys, Folded, FoldedAll;
    FoldedClosedForm(id, p, s);
    SmallMod(s, |p| + 1);
    SmallMod(|p|, 32);
  }

  /** Different passwords of one length below 32 fold to different bytes. */
  lemma PasswordsFoldApart(id: seq<byte>, p: seq<byte>, q: seq<byte>)
    requires |id| == 4 && |p| == |q| < 32 && p != q
    ensures Folded(id, p) != Folded(id, q)
  {
    hide XorByte, EncryptKeys, Folded, FoldedAll;
    var s :| 0 <= s < |p| && p[s] != q[s];
    ShortFolded(id, p, s);
    ShortFolded(id, q, s);
    XorApart(p[s], q[s], 0);
    XorApart(XorByte(0, p[s]), XorByte(0, q[s]), id[s % 4]);
  }

  /** So do different object ids with one password. */
  lemma IdsFoldApart(id: seq<byte>, jd: seq<byte>, p: seq<byte>)
    requires |id| == |jd| == 4 && id != jd
    ensures Folded(id, p) != Folded(jd, p)
  {
    hide XorByte, EncryptKeys, Folded, FoldedAll;
    var s :| 0 <= s < 4 && id[s] != jd[s];
    FoldedClosedForm(id, p, s);
    FoldedClosedForm(jd, p, s);
    assert s % 4 == s;
    var body: byte :| Folded(id, p)[s] == XorByte(body, id[s]) && Folded(jd, p)[s] == XorByte(body, jd[s]);
    XorApart(id[s], jd[s], body);
  }

  /** Two passes of 32 steps, each of which replaces one byte by the exclusive-or of the byte plus
      the running sum and the byte that many places on minus a key byte, and adds it to the sum. */
  ghost predicate MixTrace(t: seq<byte>, us: seq<seq<byte>>, sums: seq<nat>) {
    && |us| == |sums| == 65 && us[0] == t && sums[0] == 0
    && (forall n :: 0 <= n < 65 ==> |us[n]| == 32)
    && forall n {:trigger us[n + 1]} :: 0 <= n < 64 ==>
      var s := n % 32;
      var b := XorByte((us[n][s] as int + sums[n]) % 256,
                       (us[n][(s + sums[n]) % 32] as int + 256 - EncryptKeys()[s]) % 256);
      us[n + 1] == us[n][s := b] && sums[n + 1] == sums[n] + b
  }

  lemma MixedByteMeans(t: seq<byte>, sum: nat, s: nat)
    requires |t| == 32 && s < 32
    ensures MixedByte(t, sum, s) ==
      XorByte((t[s] as int + sum) % 256, (t[(s + sum) % 32] as int + 256 - EncryptKeys()[s]) % 256)
  {
    hide XorByte, EncryptKeys;
    var d := t[(s + sum) % 32] as int - EncryptKeys()[s];
    assert d % 256 == (d + 256) % 256;
  }

  lemma MixingStep(t: seq<byte>, n: nat, u: seq<byte>, sum: nat)
    requires |t| == 32 && Mixing(t, n) == (u, sum)
    ensures |u| == 32
    ensures var b := MixedByte(u, sum, n % 32);
      Mixing(t, n + 1) == (u[n % 32 := b], sum + b) && sum + b <= 255 * (n + 1)
  {
  }

  lemma MixingStart(t: seq<byte>)
    requires |t| == 32
    ensures Mixing(t, 0) == (t, 0)
  {
  }

  lemma MixedByTrace(t: seq<byte>)
    requires |t| == 32
    ensures exists us, sums :: MixTrace(t, us, sums) && us[64] == Mixed(t)
  {
    hide XorByte, EncryptKeys, MixedByte, Mixing;
    var us := seq(65, n requires 0 <= n < 65 => Mixing(t, n).0);
    var sums := seq(65, n requires 0 <= n < 65 => Mixing(t, n).1);
    MixingStart(t);
    forall n | 0 <= n < 64
      ensures var s := n % 32;
        var b := XorByte((us[n][s] as int + sums[n]) % 256,
                         (us[n][(s + sums[n]) % 32] as int + 256 - EncryptKeys()[s]) % 256);
        us[n + 1] == us[n][s := b] && sums[n + 1] == sums[n] + b
    {
      MixingStep(t, n, us[n], sums[n]);
      MixedByteMeans(us[n], sums[n], n % 32);
    }
    assert MixTrace(t, us, sums);
  }

  /** Each byte of the hash has the table nibbles of two mixed bytes, the first one low. */
  lemma TargetNibbles(t: seq<byte>, i: nat)
    requires |t| == 32 && i < 16
    ensures Target(t)[i] == EncryptTable(t[2 * i]) as int + 16 * EncryptTable(t[2 * i + 1])
  {
    hide OrByte, EncryptTable;
    OrNibbles(EncryptTable(t[2 * i]), EncryptTable(t[2 * i + 1]));
  }

  /** The table nibbles of the last bytes of a mixing of t. */
  ghost predicate HashedFrom(t: seq<byte>, h: seq<byte>) {
    |h| == 16 &&
    exists us, sums :: MixTrace(t, us, sums) &&
      forall i :: 0 <= i < 16 ==> h[i] == EncryptTable(us[64][2 * i]) as int + 16 * EncryptTable(us[64][2 * i + 1])
  }

  /** The hash of a password, with any number of zeros behind it, is made from the folded bytes of
      the password by the mixing and the final table. */
  lemma HashMeans(id: seq<byte>, p: seq<byte>, k: nat)
    requires |id| == 4 && Stripped(p)
    ensures HashedFrom(Folded(id, p), Hash(id, p + seq(k, _ => 0)))
  {
    hide EncryptTable, Mixed, Target, Folded, MixTrace;
    HashIgnoresTrailingNuls(id, p, k);
    assert p[..|p|] == p && StripLength(p) == |p|;
    var t := Folded(id, p);
    MixedByTrace(t);
    forall i | 0 <= i < 16
      ensures Hash(id, p)[i] == EncryptTable(Mixed(t)[2 * i]) as int + 16 * EncryptTable(Mixed(t)[2 * i + 1])
    {
      TargetNibbles(Mixed(t), i);
    }
  }

  // ----- in place --------------------------------------------------------------------------

  lemma MultipleIsFar(d: int, m: int)
    requires m > 0
    ensures d >= 1 ==> d * m >= m
    ensures d <= -1 ==> d * m <= -m
  {
  }

  lemma ModIs(a: nat, q: nat, m: nat, r: nat)
    requires r < m && a == q * m + r
    ensures a % m == r
  {
    var d := a / m - q;
    assert a == (a / m) * m + a % m;
    assert d * m == r - a % m;
    MultipleIsFar(d, m);
  }

  /** Position in the tail after one more step. */
  lemma NextInTail(s: nat, m: nat)
    requires m > 0
    ensures (s + 1) % m == if s % m == m - 1 then 0 else s % m + 1
  {
    var q, r := s / m, s % m;
    if r == m - 1 {
      assert s + 1 == (q + 1) * m;
      ModIs(s + 1, q + 1, m, 0);
    } else {
      ModIs(s + 1, q, m, r + 1);
    }
  }

  method MixStep(temp: array<byte>, s: nat, sum: nat) returns (b4: nat)
    requires temp.Length == 32 && s < 32
    modifies temp
    ensures var b3 := MixedByte(old(temp[..]), sum, s);
      temp[..] == old(temp[..])[s := b3] && b4 == sum + b3
  {
    hide XorByte, EncryptKeys;
    var b3 := XorByte((temp[s] as int + sum) % 256, (temp[(s + sum) % 32] as int - EncryptKeys()[s]) % 256);
    b4 := sum + b3;
    temp[s] := b3;
  }

  method MixPass(ghost t: seq<byte>, ghost b2: nat, temp: array<byte>, sum: nat) returns (b4: nat)
    requires |t| == 32 && temp.Length == 32 && b2 <= 1
    requires temp[..] == Mixing(t, 32 * b2).0 && sum == Mixing(t, 32 * b2).1
    modifies temp
    ensures temp[..] == Mixing(t, 32 * (b2 + 1)).0 && b4 == Mixing(t, 32 * (b2 + 1)).1
  {
    hide Mixing, MixedByte;
    b4 := sum;
    var s := 0;
    while s <= 31
      invariant 0 <= s <= 32
      invariant temp[..] == Mixing(t, 32 * b2 + s).0 && b4 == Mixing(t, 32 * b2 + s).1
    {
      MixingStep(t, 32 * b2 + s, temp[..], b4);
      b4 := MixStep(temp, s, b4);
      assert b4 < 0x8000;
      s := s + 1;
    }
  }

  /** The running sum b4 stays far below the 16-bit limit. */
  method Mix(temp: array<byte>)
    requires temp.Length == 32
    modifies temp
    ensures temp[..] == Mixed(old(temp[..]))
  {
    hide Mixing;
    ghost var t := temp[..];
    var b4: nat := 0;
    MixingStart(t);
    var b2 := 0;
    while b2 <= 1
      invariant 0 <= b2 <= 2
      invariant temp[..] == Mixing(t, 32 * b2).0 && b4 == Mixing(t, 32 * b2).1
    {
      b4 := MixPass(t, b2, temp, b4);
      b2 := b2 + 1;
    }
  }

  method FillTarget(temp: array<byte>, target: array<byte>, at: nat)
    requires temp.Length == 32 && at + 16 <= target.Length && temp != target
    modifies target
    ensures target[..at] == old(target[..at]) && target[at + 16..] == old(target[at + 16..])
    ensures target[at..at + 16] == Target(temp[..])
  {
    hide OrByte, EncryptTable;
    ghost var u := temp[..];
    var i := 0;
    while i <= 15
      invariant 0 <= i <= 16
      invariant target[..at] == old(target[..at]) && target[at + 16..] == old(target[at + 16..])
      invariant forall k :: 0 <= k < i ==> target[at + k] == Target(u)[k]
    {
      target[at + i] := OrByte(EncryptTable(temp[2 * i]), 16 * EncryptTable(temp[2 * i + 1]) as int);
      i := i + 1;
    }
  }

  method Shuffle1(temp: array<byte>, target: array<byte>, at: nat)
    requires temp.Length == 32 && at + 16 <= target.Length && temp != target
    modifies temp, target
    ensures target[..at] == old(target[..at]) && target[at + 16..] == old(target[at + 16..])
    ensures target[at..at + 16] == Target(Mixed(old(temp[..])))
  {
    Mix(temp);
    FillTarget(temp, target, at);
  }

  method FoldBlocks(temp: array<byte>, p: seq<byte>) returns (d: nat)
    requires temp.Length == 32 && forall s :: 0 <= s < 32 ==> temp[s] == 0
    modifies temp
    ensures d == 32 * (|p| / 32)
    ensures forall s :: 0 <= s < 32 ==> temp[s] == FoldedBlocks(p, |p| / 32, s)
  {
    hide XorByte;
    d := 0;
    var buflen := |p|;
    ghost var n := 0;
    while buflen >= 32
      invariant d == 32 * n && buflen == |p| - d >= 0
      invariant forall s :: 0 <= s < 32 ==> temp[s] == FoldedBlocks(p, n, s)
    {
      var s := 0;
      while s <= 31
        invariant 0 <= s <= 32 && d == 32 * n + s
        invariant forall i :: 0 <= i < s ==> temp[i] == FoldedBlocks(p, n + 1, i)
        invariant forall i :: s <= i < 32 ==> temp[i] == FoldedBlocks(p, n, i)
      {
        temp[s] := XorByte(temp[s], p[d]);
        d := d + 1;
        s := s + 1;
      }
      n := n + 1;
      buflen := buflen - 32;
    }
  }

  /** Byte s after the blocks and the tail. */
  function BodyByte(p: seq<byte>, s: nat): byte
    requires s < 32
  {
    var body := FoldedBlocks(p, |p| / 32, s);
    if |p| % 32 == 0 then body else XorByte(body, TailByte(p[32 * (|p| / 32)..], s))
  }

  method FoldTail(temp: array<byte>, p: seq<byte>, d: nat)
    requires temp.Length == 32 && d == 32 * (|p| / 32)
    requires forall s :: 0 <= s < 32 ==> temp[s] == FoldedBlocks(p, |p| / 32, s)
    modifies temp
    ensures forall s :: 0 <= s < 32 ==> temp[s] == BodyByte(p, s)
  {
    hide XorByte, EncryptKeys, FoldedBlocks;
    var b2 := d;
    var buflen := |p| - d;
    if buflen > 0 {
      var s := 0;
      while s <= 31
        invariant 0 <= s <= 32 && d <= b2 <= d + buflen
        invariant b2 - d == s % (buflen + 1)
        invariant forall i :: 0 <= i < s ==> temp[i] == BodyByte(p, i)
        invariant forall i :: s <= i < 32 ==> temp[i] == FoldedBlocks(p, |p| / 32, i)
      {
        NextInTail(s, buflen + 1);
        if d + buflen == b2 {
          b2 := d;
          temp[s] := XorByte(temp[s], EncryptKeys()[s]);
        } else {
          temp[s] := XorByte(temp[s], p[b2]);
          b2 := b2 + 1;
        }
        s := s + 1;
      }
    }
  }

  method AddId(temp: array<byte>, lon: seq<byte>, p: seq<byte>)
    requires temp.Length == 32 && |lon| == 4
    requires forall s :: 0 <= s < 32 ==> temp[s] == BodyByte(p, s)
    modifies temp
    ensures temp[..] == Folded(lon, p)
  {
    hide XorByte, TailByte, FoldedBlocks;
    var s := 0;
    while s <= 31
      invariant 0 <= s <= 32
      invariant forall i :: 0 <= i < s ==> temp[i] == FoldedByte(lon, p, i)
      invariant forall i :: s <= i < 32 ==> temp[i] == BodyByte(p, i)
    {
      temp[s] := XorByte(temp[s], lon[s % 4]);
      s := s + 1;
    }
  }

  /** shuffle (lon, buf, buflen, target + at) */
  method Shuffle(lon: seq<byte>, buf: seq<byte>, target: array<byte>, at: nat)
    requires |lon| == 4 && at + 16 <= target.Length
    modifies target
    ensures target[..at] == old(target[..at]) && target[at + 16..] == old(target[at + 16..])
    ensures target[at..at + 16] == Hash(lon, buf)
  {
    hide XorByte, EncryptKeys, Target, Mixed;
    var buflen := |buf|;
    while buflen > 0 && buf[buflen - 1] == 0
      invariant 0 <= buflen <= |buf|
      invariant forall i :: buflen <= i < |buf| ==> buf[i] == 0
    {
      buflen := buflen - 1;
    }
    ghost var p := buf[..buflen];
    assert buflen == StripLength(buf);
    var temp := new byte[32];
    forall s | 0 <= s < 32 {
      temp[s] := 0;
    }
    var d := FoldBlocks(temp, buf[..buflen]);
    FoldTail(temp, buf[..buflen], d);
    AddId(temp, lon, buf[..buflen]);
    assert target[..] == old(target[..]);
    Shuffle1(temp, target, at);
  }

  // ----- the keyed response ----------------------------------------------------------------

  /** The two hashes of a stored hash under the halves of a login key. */
  function KeyedHashes(key: seq<byte>, stored: seq<byte>): (k: seq<byte>)
    requires |key| == 8
    ensures |k| == 32
  {
    Hash(key[..4], stored) + Hash(key[4..], stored)
  }

  /** 32 bytes folded twice in the middle. */
  function FoldTwice(k: seq<byte>): (r: seq<byte>)
    requires |k| == 32
    ensures |r| == 8
  {
    seq(8, s requires 0 <= s < 8 => XorByte(XorByte(k[s], k[31 - s]), XorByte(k[15 - s], k[16 + s])))
  }

  /** What nw_encrypt computes from a login key and a stored hash. */
  function Response(key: seq<byte>, stored: seq<byte>): (r: seq<byte>)
    requires |key| == 8
    ensures |r| == 8
  {
    FoldTwice(KeyedHashes(key, stored))
  }

  lemma XorPairs(a: byte, d: byte, c: byte, b: byte)
    ensures XorByte(XorByte(a, d), XorByte(c, b)) == XorByte(XorByte(a, c), XorByte(b, d))
  {
    XorByteLaws(a, d, XorByte(c, b));
    XorByteLaws(d, c, b);
    XorByteLaws(d, XorByte(c, b), a);
    XorByteLaws(c, b, d);
    XorByteLaws(a, c, XorByte(b, d));
    XorByteLaws(d, XorByte(c, b), d);
    hide XorByte;
  }

  /** Byte s of the response combines bytes s and 15 - s of the two hashes of the stored value. */
  lemma ResponseBytes(key: seq<byte>, stored: seq<byte>, s: nat)
    requires |key| == 8 && s < 8
    ensures var a, b := Hash(key[..4], stored), Hash(key[4..], stored);
      Response(key, stored)[s] == XorByte(XorByte(a[s], a[15 - s]), XorByte(b[s], b[15 - s]))
  {
    hide Hash, XorByte;
    var a, b := Hash(key[..4], stored), Hash(key[4..], stored);
    XorPairs(a[s], b[15 - s], a[15 - s], b[s]);
  }

  method NwEncrypt(fra: seq<byte>, buf: seq<byte>) returns (til: array<byte>)
    requires |fra| == 8
    ensures fresh(til) && til.Length == 8 && til[..] == Response(fra, buf)
  {
    hide Hash, XorByte;
    var k := new byte[32];
    Shuffle(fra[..4], buf, k, 0);
    Shuffle(fra[4..], buf, k, 16);
    ghost var both := KeyedHashes(fra, buf);
    assert k[..] == k[0..16] + k[16..32] == both;
    var s := 0;
    while s <= 15
      invariant 0 <= s <= 16
      invariant forall i :: s <= i < 32 ==> k[i] == both[i]
      invariant forall i :: 0 <= i < s ==> k[i] == XorByte(both[i], both[31 - i])
    {
      k[s] := XorByte(k[s], k[31 - s]);
      s := s + 1;
    }
    ghost var once := k[..];
    til := new byte[8];
    s := 0;
    while s <= 7
      invariant 0 <= s <= 8 && k[..] == once
      invariant forall i :: 0 <= i < s ==> til[i] == XorByte(once[i], once[15 - i])
    {
      til[s] := XorByte(k[s], k[15 - s]);
      s := s + 1;
    }
  }
}
