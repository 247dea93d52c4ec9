/** The constant tables of crypt.c, one row of sixteen entries at a time. */
module CryptTables {
  import opened Bytes

  type Row = s: seq<nibble> | |s| == 16 witness seq(16, _ => 0)

  const ENCRYPT0: Row := [7, 8, 0, 8, 6, 4, 14, 4, 5, 12, 1, 7, 11, 15, 10, 8]
  const ENCRYPT1: Row := [15, 8, 12, 12, 9, 4, 1, 14, 4, 6, 2, 4, 0, 10, 11, 9]
  const ENCRYPT2: Row := [2, 15, 11, 1, 13, 2, 1, 9, 5, 14, 7, 0, 0, 2, 6, 6]
  const ENCRYPT3: Row := [0, 7, 3, 8, 2, 9, 3, 15, 7, 15, 12, 15, 6, 4, 10, 0]
  const ENCRYPT4: Row := [2, 3, 10, 11, 13, 8, 3, 10, 1, 7, 12, 15, 1, 8, 9, 13]
  const ENCRYPT5: Row := [9, 1, 9, 4, 14, 4, 12, 5, 5, 12, 8, 11, 2, 3, 9, 14]
  const ENCRYPT6: Row := [7, 7, 6, 9, 14, 15, 12, 8, 13, 1, 10, 6, 14, 13, 0, 7]
  const ENCRYPT7: Row := [7, 10, 0, 1, 15, 5, 4, 11, 7, 11, 14, 12, 9, 5, 13, 1]
  const ENCRYPT8: Row := [11, 13, 1, 3, 5, 13, 14, 6, 3, 0, 11, 11, 15, 3, 6, 4]
  const ENCRYPT9: Row := [9, 13, 10, 3, 1, 4, 9, 4, 8, 3, 11, 14, 5, 0, 5, 2]
  const ENCRYPT10: Row := [12, 11, 13, 5, 13, 5, 13, 2, 13, 9, 10, 12, 10, 0, 11, 3]
  const ENCRYPT11: Row := [5, 3, 6, 9, 5, 1, 14, 14, 0, 14, 8, 2, 13, 2, 2, 0]
  const ENCRYPT12: Row := [4, 15, 8, 5, 9, 6, 8, 6, 11, 10, 11, 15, 0, 7, 2, 8]
  const ENCRYPT13: Row := [12, 7, 3, 10, 1, 4, 2, 5, 15, 7, 10, 12, 14, 5, 9, 3]
  const ENCRYPT14: Row := [14, 7, 1, 2, 14, 1, 15, 4, 10, 6, 12, 6, 15, 4, 3, 0]
  const ENCRYPT15: Row := [12, 0, 3, 6, 15, 8, 7, 11, 2, 13, 12, 6, 10, 10, 8, 13]

  /** encrypttable[16 * r .. 16 * r + 16] */
  function EncryptRow(r: nibble): Row {
    match r
    case 0 => ENCRYPT0 case 1 => ENCRYPT1 case 2 => ENCRYPT2 case 3 => ENCRYPT3
    case 4 => ENCRYPT4 case 5 => ENCRYPT5 case 6 => ENCRYPT6 case 7 => ENCRYPT7
    case 8 => ENCRYPT8 case 9 => ENCRYPT9 case 10 => ENCRYPT10 case 11 => ENCRYPT11
    case 12 => ENCRYPT12 case 13 => ENCRYPT13 case 14 => ENCRYPT14 case _ => ENCRYPT15
  }

  function EncryptTable(x: byte): nibble {
    EncryptRow(x / 16)[x % 16]
  }

  /** Sixteen entries to a row. */
  lemma TableRows(r: nibble, c: nibble)
    ensures EncryptTable(16 * (r as int) + c) == EncryptRow(r)[c]
  {
    assert (16 * (r as int) + c) / 16 == r && (16 * (r as int) + c) % 16 == c;
  }

  function EncryptKeys(): (keys: seq<byte>)
    ensures |keys| == 32
  {
    [72, 147, 70, 103, 152, 61, 230, 141, 183, 16, 122, 38, 90, 185, 177, 53,
     107, 15, 213, 112, 174, 251, 173, 17, 244, 71, 220, 167, 236, 207, 80, 192]
  }

  const SHUFFLE0: Row := [15, 8, 5, 7, 12, 2, 14, 9, 0, 1, 6, 13, 3, 4, 11, 10]
  const SHUFFLE1: Row := [2, 12, 14, 6, 15, 0, 1, 8, 13, 3, 10, 4, 9, 11, 5, 7]
  const SHUFFLE2: Row := [5, 2, 9, 15, 12, 4, 13, 0, 14, 10, 6, 8, 11, 1, 3, 7]
  const SHUFFLE3: Row := [15, 13, 2, 6, 7, 8, 5, 9, 0, 4, 12, 3, 1, 10, 11, 14]
  const SHUFFLE4: Row := [5, 14, 2, 11, 13, 10, 7, 0, 8, 6, 4, 1, 15, 12, 3, 9]
  const SHUFFLE5: Row := [8, 2, 15, 10, 5, 9, 6, 12, 0, 11, 1, 13, 7, 3, 4, 14]
  const SHUFFLE6: Row := [14, 8, 0, 9, 4, 11, 2, 7, 12, 3, 10, 5, 13, 1, 6, 15]
  const SHUFFLE7: Row := [1, 4, 8, 10, 13, 11, 7, 14, 5, 15, 3, 9, 0, 2, 6, 12]
  const SHUFFLE8: Row := [5, 3, 12, 8, 11, 2, 14, 10, 4, 1, 13, 0, 6, 7, 15, 9]
  const SHUFFLE9: Row := [6, 0, 11, 14, 13, 4, 12, 15, 7, 2, 8, 10, 1, 5, 3, 9]
  const SHUFFLE10: Row := [11, 5, 10, 14, 15, 1, 12, 0, 6, 4, 2, 9, 3, 13, 7, 8]
  const SHUFFLE11: Row := [7, 2, 10, 0, 14, 8, 15, 4, 12, 11, 9, 1, 5, 13, 3, 6]
  const SHUFFLE12: Row := [7, 4, 15, 9, 5, 1, 12, 11, 0, 3, 8, 14, 2, 10, 6, 13]
  const SHUFFLE13: Row := [9, 4, 8, 0, 10, 3, 1, 12, 5, 15, 7, 2, 11, 14, 6, 13]
  const SHUFFLE14: Row := [9, 5, 4, 7, 14, 8, 3, 1, 13, 11, 12, 2, 0, 15, 6, 10]
  const SHUFFLE15: Row := [9, 10, 11, 13, 5, 3, 15, 0, 1, 12, 8, 7, 6, 4, 14, 2]
  const SHUFFLE16: Row := [3, 14, 15, 2, 13, 12, 4, 5, 9, 6, 0, 1, 11, 7, 10, 8]

  /** newshuffle[16 * r .. 16 * r + 16]; rows 0 to 15 are one S-box for each nibble of a block,
      row 16 permutes the nibbles. */
  function ShuffleRow(r: nat): Row
    requires r < 17
  {
    match r
    case 0 => SHUFFLE0 case 1 => SHUFFLE1 case 2 => SHUFFLE2 case 3 => SHUFFLE3
    case 4 => SHUFFLE4 case 5 => SHUFFLE5 case 6 => SHUFFLE6 case 7 => SHUFFLE7
    case 8 => SHUFFLE8 case 9 => SHUFFLE9 case 10 => SHUFFLE10 case 11 => SHUFFLE11
    case 12 => SHUFFLE12 case 13 => SHUFFLE13 case 14 => SHUFFLE14 case 15 => SHUFFLE15
    case _ => SHUFFLE16
  }

  const INVERSE0: Row := [8, 9, 5, 12, 13, 2, 10, 3, 1, 7, 15, 14, 4, 11, 6, 0]
  const INVERSE1: Row := [5, 6, 0, 9, 11, 14, 3, 15, 7, 12, 10, 13, 1, 8, 2, 4]
  const INVERSE2: Row := [7, 13, 1, 14, 5, 0, 10, 15, 11, 2, 9, 12, 4, 6, 8, 3]
  const INVERSE3: Row := [8, 12, 2, 11, 9, 6, 3, 4, 5, 7, 13, 14, 10, 1, 15, 0]
  const INVERSE4: Row := [7, 11, 2, 14, 10, 0, 9, 6, 8, 15, 5, 3, 13, 4, 1, 12]
  const INVERSE5: Row := [8, 10, 1, 13, 14, 4, 6, 12, 0, 5, 3, 9, 7, 11, 15, 2]
  const INVERSE6: Row := [2, 13, 6, 9, 4, 11, 14, 7, 1, 3, 10, 5, 8, 12, 0, 15]
  const INVERSE7: Row := [12, 0, 13, 10, 1, 8, 14, 6, 2, 11, 3, 5, 15, 4, 7, 9]
  const INVERSE8: Row := [11, 9, 5, 1, 8, 0, 12, 13, 3, 15, 7, 4, 2, 10, 6, 14]
  const INVERSE9: Row := [1, 12, 9, 14, 5, 13, 0, 8, 10, 15, 11, 2, 6, 4, 3, 7]
  const INVERSE10: Row := [7, 5, 10, 12, 9, 1, 8, 14, 15, 11, 2, 0, 6, 13, 3, 4]
  const INVERSE11: Row := [3, 11, 1, 14, 7, 12, 15, 0, 5, 10, 2, 9, 8, 13, 4, 6]
  const INVERSE12: Row := [8, 5, 12, 9, 1, 4, 14, 0, 10, 3, 13, 7, 6, 15, 11, 2]
  const INVERSE13: Row := [3, 6, 11, 5, 1, 8, 14, 10, 2, 0, 4, 12, 7, 15, 13, 9]
  const INVERSE14: Row := [12, 7, 11, 6, 2, 1, 14, 3, 5, 0, 15, 9, 10, 8, 4, 13]
  const INVERSE15: Row := [7, 8, 15, 5, 13, 4, 12, 11, 10, 0, 1, 2, 9, 3, 14, 6]
  const INVERSE16: Row := [10, 11, 3, 0, 6, 7, 9, 13, 15, 8, 14, 12, 5, 4, 1, 2]

  /** What each value is the image of, row by row. */
  function InverseRow(r: nat): Row
    requires r < 17
  {
    match r
    case 0 => INVERSE0 case 1 => INVERSE1 case 2 => INVERSE2 case 3 => INVERSE3
    case 4 => INVERSE4 case 5 => INVERSE5 case 6 => INVERSE6 case 7 => INVERSE7
    case 8 => INVERSE8 case 9 => INVERSE9 case 10 => INVERSE10 case 11 => INVERSE11
    case 12 => INVERSE12 case 13 => INVERSE13 case 14 => INVERSE14 case 15 => INVERSE15
    case _ => INVERSE16
  }

  function NewShuffle(i: nat): nibble
    requires i < 272
  {
    ShuffleRow(i / 16)[i % 16]
  }

  predicate InverseAt(row: Row, inv: Row, j: nibble) {
    inv[row[j]] == j && row[inv[j]] == j
  }

  predicate Inverse(row: Row, inv: Row) {
    forall j :: 0 <= j < 16 ==> InverseAt(row, inv, j)
  }

  /** Inverse, entry by entry. */
  predicate AllInverse(row: Row, inv: Row) {
    && InverseAt(row, inv, 0) && InverseAt(row, inv, 1) && InverseAt(row, inv, 2) && InverseAt(row, inv, 3)
    && InverseAt(row, inv, 4) && InverseAt(row, inv, 5) && InverseAt(row, inv, 6) && InverseAt(row, inv, 7)
    && InverseAt(row, inv, 8) && InverseAt(row, inv, 9) && InverseAt(row, inv, 10) && InverseAt(row, inv, 11)
    && InverseAt(row, inv, 12) && InverseAt(row, inv, 13) && InverseAt(row, inv, 14) && InverseAt(row, inv, 15)
  }

  lemma EntryByEntry(row: Row, inv: Row)
    requires AllInverse(row, inv)
    ensures Inverse(row, inv)
  {
  }

  lemma Row0() ensures AllInverse(SHUFFLE0, INVERSE0) {}
  lemma Row1() ensures AllInverse(SHUFFLE1, INVERSE1) {}
  lemma Row2() ensures AllInverse(SHUFFLE2, INVERSE2) {}
  lemma Row3() ensures AllInverse(SHUFFLE3, INVERSE3) {}
  lemma Row4() ensures AllInverse(SHUFFLE4, INVERSE4) {}
  lemma Row5() ensures AllInverse(SHUFFLE5, INVERSE5) {}
  lemma Row6() ensures AllInverse(SHUFFLE6, INVERSE6) {}
  lemma Row7() ensures AllInverse(SHUFFLE7, INVERSE7) {}
  lemma Row8() ensures AllInverse(SHUFFLE8, INVERSE8) {}
  lemma Row9() ensures AllInverse(SHUFFLE9, INVERSE9) {}
  lemma Row10() ensures AllInverse(SHUFFLE10, INVERSE10) {}
  lemma Row11() ensures AllInverse(SHUFFLE11, INVERSE11) {}
  lemma Row12() ensures AllInverse(SHUFFLE12, INVERSE12) {}
  lemma Row13() ensures AllInverse(SHUFFLE13, INVERSE13) {}
  lemma Row14() ensures AllInverse(SHUFFLE14, INVERSE14) {}
  lemma Row15() ensures AllInverse(SHUFFLE15, INVERSE15) {}
  lemma Row16() ensures AllInverse(SHUFFLE16, INVERSE16) {}

  /** All seventeen rows are permutations. */
  lemma RowsArePermutations(r: nat)
    requires r < 17
    ensures Inverse(ShuffleRow(r), InverseRow(r))
  {
    hide AllInverse, Inverse;
    Row0(); Row1(); Row2(); Row3(); Row4(); Row5();
    Row6(); Row7(); Row8(); Row9(); Row10(); Row11();
    Row12(); Row13(); Row14(); Row15(); Row16();
    EntryByEntry(ShuffleRow(r), InverseRow(r));
  }
}
