/** Passwords in the bindery: setting, verifying and changing the PASSWORD property, and what
    these three promise each other over whole runs. */
module Password {
  import opened Bytes
  import opened BinderyHeap
  import opened BinderyStore
  import opened BinderyRuns
  import opened BinderyFiles
  import U = BinderyUpdate
  import opened PasswordHash
  import opened Cipher

  const PASSWORD: CString := "PASSWORD"

  /** The block that setting a password stores; rest stands for the 112 unassigned bytes of the
      local buffer. */
  function PasswordBlock(x: uint32, pwd: seq<byte>, rest: seq<byte>): (data: BinderyHeap.Block)
    requires |rest| == 112
    ensures data[..16] == Hash(PutBE32(x), pwd)
  {
    Hash(PutBE32(x), pwd) + rest
  }

  /** The answer r to login key key is right for the stored password of object x. */
  predicate Accepts(st: Store, x: uint32, r: seq<byte>, key: seq<byte>)
    requires |key| == 8
  {
    var stored := U.ReadProp(st, x, PASSWORD);
    stored.Some? && r == Response(key, stored.value[..16])
  }

  /** What a keyed change stores: both halves of the new hash decrypted with those of the old
      one, the rest of the buffer as it is. */
  function ChangedBlock(stored: BinderyHeap.Block, sent: BinderyHeap.Block): BinderyHeap.Block {
    DecryptBlock(stored[..8], sent[..8]) + DecryptBlock(stored[8..16], sent[8..16]) + sent[16..]
  }

  // ----- operations ------------------------------------------------------------------------

  method SetPwd(b: Bindery, x: uint32, pwd: seq<byte>, rest: seq<byte>) returns (ok: bool)
    requires |rest| == 112
    modifies b
    ensures var (st, code) := U.WriteProp(old(b.State()), x, PASSWORD, 1, 0, PasswordBlock(x, pwd, rest));
      b.State() == st && ok == (code == OK)
  {
    hide Hash, U.WriteProp;
    var newPwd := new byte[128](i requires 0 <= i < 128 => if i < 16 then 0 else rest[i - 16]);
    Shuffle(PutBE32(x), pwd, newPwd, 0);
    assert newPwd[..] == newPwd[0..16] + newPwd[16..] == PasswordBlock(x, pwd, rest);
    var code := b.WriteProp(x, PASSWORD, 1, 0, newPwd[..]);
    return code == OK;
  }

  method VerifyPwd(b: Bindery, x: uint32, pwd: seq<byte>, key: seq<byte>) returns (ok: bool)
    requires |pwd| == |key| == 8
    modifies b`propPos, b`valPos
    ensures ok <==> Accepts(b.State(), x, pwd, key)
  {
    hide Response, U.ReadProp;
    var val := b.ReadProp(x, PASSWORD);
    if val.None? {
      return false;
    }
    var tmp := NwEncrypt(key, val.value[..16]);
    return pwd == tmp[..];
  }

  lemma ChangedHalves(stored: BinderyHeap.Block, sent: BinderyHeap.Block, half: seq<byte>, now: seq<byte>)
    requires |half| == |now| == 128
    requires half[0..8] == DecryptBlock(stored[0..8], sent[0..8]) && half[8..] == sent[8..]
    requires now[..8] == half[..8] && now[8..16] == DecryptBlock(stored[8..16], half[8..16]) && now[16..] == half[16..]
    ensures now == ChangedBlock(stored, sent)
  {
    hide DecryptBlock;
    assert half[8..][..8] == sent[8..][..8];
    assert half[8..16] == sent[8..16];
    assert half[8..][8..] == sent[8..][8..];
    assert now == now[..8] + now[8..16] + now[16..];
  }

  /** The end of a keyed password change: both halves of the new hash are decrypted in place
      with the stored hash as the key, and the buffer becomes the property. */
  method DecryptAndStore(b: Bindery, x: uint32, val: array<byte>, pwd: array<byte>) returns (code: byte)
    requires val.Length == pwd.Length == 128 && val != pwd
    modifies b, val, pwd
    ensures val[..] == old(val[..])
    ensures (b.State(), code) ==
      U.WriteProp(old(b.State()), x, PASSWORD, 1, 0, ChangedBlock(old(val[..]), old(pwd[..])))
  {
    hide DecryptBlock, U.WriteProp;
    ghost var stored, sent := val[..], pwd[..];
    DecryptNewPass(val, 0, pwd, 0);
    ghost var half := pwd[..];
    DecryptNewPass(val, 8, pwd, 8);
    ChangedHalves(stored, sent, half, pwd[..]);
    code := b.WriteProp(x, PASSWORD, 1, 0, pwd[..]);
  }

  // ----- what they promise -------------------------------------------------------------------

  /** No operation of the run writes or removes the PASSWORD property q of object x. */
  ghost predicate Spares(ops: seq<Op>, x: uint32, q: uint32) {
    forall i :: 0 <= i < |ops| ==> !Touches(ops[i], x, Clip(PASSWORD, 15), q)
  }

  /** From st on, after every run that spares the PASSWORD property q of object x, verification
      accepts the response to hash for every login key, and nothing else. */
  ghost predicate VerifiesBy(st: Store, x: uint32, q: uint32, hash: seq<byte>)
    requires WF(st)
  {
    forall ops, key: seq<byte>, r :: LegalRun(st, ops) && |key| == 8 && Spares(ops, x, q) ==>
      (Accepts(Run(st, ops), x, r, key) <==> r == Response(key, hash))
  }

  lemma StillAccepts(st: Store, ops: seq<Op>, x: uint32, q: uint32, data: BinderyHeap.Block,
                     r: seq<byte>, key: seq<byte>)
    requires WF(st) && LegalRun(st, ops) && |key| == 8 && Spares(ops, x, q)
    requires Holds(ViewOf(st), x, Clip(PASSWORD, 15), q, data)
    ensures Accepts(Run(st, ops), x, r, key) <==> r == Response(key, data[..16])
  {
    hide WF, ViewOf, Holds, LegalRun, Run, Touches, U.ReadProp, Response;
    RunLeaves(st, ops, x, Clip(PASSWORD, 15), q, data);
    HeldIsRead(Run(st, ops), x, PASSWORD, q, data);
  }

  /** Object x has the PASSWORD property with these bytes, and verification goes by its first
      sixteen after every run that spares the property. */
  ghost predicate PasswordIs(st: Store, x: uint32, data: BinderyHeap.Block) {
    WF(st) &&
    exists q :: Holds(ViewOf(st), x, Clip(PASSWORD, 15), q, data) && VerifiesBy(st, x, q, data[..16])
  }

  lemma WriteThenVerify(st: Store, x: uint32, data: BinderyHeap.Block)
    requires WF(st) && U.WriteProp(st, x, PASSWORD, 1, 0, data).1 == OK
    ensures PasswordIs(U.WriteProp(st, x, PASSWORD, 1, 0, data).0, x, data)
  {
    hide WF, ViewOf, Holds, LegalRun, Run, Spares, Accepts, Response, U.WriteProp;
    var q := WriteIsHeld(st, x, PASSWORD, data);
    var st', hash := U.WriteProp(st, x, PASSWORD, 1, 0, data).0, data[..16];
    forall ops, key: seq<byte>, r | LegalRun(st', ops) && |key| == 8 && Spares(ops, x, q)
      ensures Accepts(Run(st', ops), x, r, key) <==> r == Response(key, hash)
    {
      StillAccepts(st', ops, x, q, data, r, key);
    }
    assert VerifiesBy(st', x, q, hash);
  }

  /** A password that was set is the one that verifies. */
  lemma SetThenVerify(st: Store, x: uint32, pwd: seq<byte>, rest: seq<byte>)
    requires WF(st) && |rest| == 112
    requires U.WriteProp(st, x, PASSWORD, 1, 0, PasswordBlock(x, pwd, rest)).1 == OK
    ensures PasswordBlock(x, pwd, rest)[..16] == Hash(PutBE32(x), pwd)
    ensures var data := PasswordBlock(x, pwd, rest);
      PasswordIs(U.WriteProp(st, x, PASSWORD, 1, 0, data).0, x, data)
  {
    hide *;
    WriteThenVerify(st, x, PasswordBlock(x, pwd, rest));
  }

  /** What a client sends for a keyed change: the halves of the new hash, encrypted with those of
      the stored one. */
  function SentBlock(stored: BinderyHeap.Block, hash: seq<byte>, rest: seq<byte>): BinderyHeap.Block
    requires |hash| == 16 && |rest| == 112
  {
    EncryptBlock(stored[..8], hash[..8]) + EncryptBlock(stored[8..16], hash[8..]) + rest
  }

  lemma ReadableIsWritable(st: Store, x: uint32, data: BinderyHeap.Block)
    requires U.ReadProp(st, x, PASSWORD).Some?
    ensures U.WriteProp(st, x, PASSWORD, 1, 0, data).1 == OK
  {
  }

  lemma ChangeUndoes(stored: BinderyHeap.Block, hash: seq<byte>, rest: seq<byte>)
    requires |hash| == 16 && |rest| == 112
    ensures ChangedBlock(stored, SentBlock(stored, hash, rest)) == hash + rest
  {
    hide EncryptBlock, DecryptBlock;
    var sent := SentBlock(stored, hash, rest);
    assert sent[..8] == EncryptBlock(stored[..8], hash[..8]);
    assert sent[8..16] == EncryptBlock(stored[8..16], hash[8..]);
    assert sent[16..] == rest;
    CipherInverse(stored[..8], hash[..8]);
    CipherInverse(stored[8..16], hash[8..]);
    assert hash == hash[..8] + hash[8..];
  }

  /** A keyed change stores exactly the hash that the client encrypted, and verification goes by
      it from then on. */
  lemma ChangeThenVerify(st: Store, x: uint32, stored: BinderyHeap.Block, hash: seq<byte>, rest: seq<byte>)
    requires WF(st) && |hash| == 16 && |rest| == 112
    requires U.ReadProp(st, x, PASSWORD) == Some(stored)
    ensures ChangedBlock(stored, SentBlock(stored, hash, rest)) == hash + rest
    ensures var (st', code) := U.WriteProp(st, x, PASSWORD, 1, 0, ChangedBlock(stored, SentBlock(stored, hash, rest)));
      code == OK && PasswordIs(st', x, hash + rest)
  {
    hide *;
    ChangeUndoes(stored, hash, rest);
    var data := ChangedBlock(stored, SentBlock(stored, hash, rest));
    ReadableIsWritable(st, x, data);
    WriteThenVerify(st, x, data);
  }
}
