/** The two stored-object formats: bincode 1.3 with its default options (fixed
    width little-endian integers, 64-bit lengths, UTF-8 checked strings, trailing
    bytes accepted) over the field orders of the stored types. */
module Bincode {
  import opened Common

  // ----- little-endian integers ---------------------------------------------

  function PutInt(x: nat, w: nat): (bs: Bytes)
    ensures |bs| == w
  {
    if w == 0 then [] else [x % 256] + PutInt(x / 256, w - 1)
  }

  function IntOf(bs: Bytes): (x: nat)
    ensures x < Pow256(|bs|)
  {
    if bs == [] then 0 else bs[0] + 256 * IntOf(bs[1..])
  }

  lemma {:induction false} IntOfPut(x: nat, w: nat)
    requires x < Pow256(w)
    ensures IntOf(PutInt(x, w)) == x
  {
    if w > 0 {
      IntOfPut(x / 256, w - 1);
      assert PutInt(x, w)[1..] == PutInt(x / 256, w - 1);
    }
  }

  lemma Quarters(x: nat)
    ensures x / 0x100 / 0x100 == x / 0x1_0000
    ensures x / 0x1_0000 / 0x100 == x / 0x100_0000
    ensures x / 0x100_0000 / 0x100 == x / 0x1_0000_0000
  {
  }

  /** Little-endian: the lowest byte first. */
  lemma LowestFirst(x: nat, w: nat)
    ensures PutInt(x, w + 4)
         == [x % 0x100, x / 0x100 % 0x100, x / 0x1_0000 % 0x100, x / 0x100_0000 % 0x100] + PutInt(x / TWO_32, w)
  {
    var x1, x2, x3, x4 := x / 0x100, x / 0x1_0000, x / 0x100_0000, x / TWO_32;
    Quarters(x);
    assert PutInt(x3, w + 1) == [x3 % 0x100] + PutInt(x4, w);
    assert PutInt(x2, w + 2) == [x2 % 0x100] + PutInt(x3, w + 1);
    assert PutInt(x1, w + 3) == [x1 % 0x100] + PutInt(x2, w + 2);
    assert PutInt(x, w + 4) == [x % 0x100] + PutInt(x1, w + 3);
    hide PutInt;
  }

  lemma {:induction false} PutIntOf(bs: Bytes)
    ensures PutInt(IntOf(bs), |bs|) == bs
  {
    if bs != [] {
      PutIntOf(bs[1..]);
      assert IntOf(bs) % 256 == bs[0] && IntOf(bs) / 256 == IntOf(bs[1..]);
      assert bs == [bs[0]] + bs[1..];
    }
  }

  // ----- text ---------------------------------------------------------------

  predicate Continuation(b: byte) { 0x80 <= b <= 0xBF }

  /** Length of the well-formed UTF-8 sequence at the head of `bs`, 0 if there is
      none (RFC 3629, section 4). */
  function Utf8Head(bs: Bytes): (n: nat)
    ensures n <= |bs| && n <= 4
  {
    if bs == [] then 0
    else if bs[0] <= 0x7F then 1
    else if 0xC2 <= bs[0] <= 0xDF then
      if |bs| >= 2 && Continuation(bs[1]) then 2 else 0
    else if 0xE0 <= bs[0] <= 0xEF then
      if && |bs| >= 3
         && Continuation(bs[1]) && Continuation(bs[2])
         && (bs[0] == 0xE0 ==> bs[1] >= 0xA0)
         && (bs[0] == 0xED ==> bs[1] <= 0x9F)
      then 3 else 0
    else if 0xF0 <= bs[0] <= 0xF4 then
      if && |bs| >= 4
         && Continuation(bs[1]) && Continuation(bs[2]) && Continuation(bs[3])
         && (bs[0] == 0xF0 ==> bs[1] >= 0x90)
         && (bs[0] == 0xF4 ==> bs[1] <= 0x8F)
      then 4 else 0
    else 0
  }

  predicate ValidUtf8(bs: Bytes)
    decreases |bs|
  {
    bs == [] || (Utf8Head(bs) > 0 && ValidUtf8(bs[Utf8Head(bs)..]))
  }

  lemma {:induction false} AsciiIsUtf8(bs: Bytes)
    requires forall i :: 0 <= i < |bs| ==> bs[i] <= 0x7F
    ensures ValidUtf8(bs)
  {
    if bs != [] {
      AsciiIsUtf8(bs[1..]);
    }
  }

  /** A Unicode scalar value: a code point that is no surrogate. */
  type Scalar = c: int | 0 <= c < 0x11_0000 && !(0xD800 <= c < 0xE000)

  /** Its encoding (RFC 3629, section 3). */
  function EncodeScalar(c: Scalar): (bs: Bytes)
    ensures 1 <= |bs| <= 4
  {
    if c < 0x80 then [c]
    else if c < 0x800 then [0xC0 + c / 0x40, 0x80 + c % 0x40]
    else if c < 0x1_0000 then [0xE0 + c / 0x1000, 0x80 + c / 0x40 % 0x40, 0x80 + c % 0x40]
    else [0xF0 + c / 0x4_0000, 0x80 + c / 0x1000 % 0x40, 0x80 + c / 0x40 % 0x40, 0x80 + c % 0x40]
  }

  function EncodeScalars(cs: seq<Scalar>): Bytes {
    if cs == [] then [] else EncodeScalar(cs[0]) + EncodeScalars(cs[1..])
  }

  /** The head of a text depends on the bytes it takes up only. */
  lemma HeadInFront(head: Bytes, rest: Bytes)
    requires head != [] && Utf8Head(head) == |head|
    ensures Utf8Head(head + rest) == |head|
  {
    var bs := head + rest;
    assert forall i :: 0 <= i < |head| ==> bs[i] == head[i];
  }

  lemma ThreeRanges(c: Scalar)
    requires 0x800 <= c < 0x1_0000
    ensures c / 0x1000 < 0x10
    ensures c / 0x1000 == 0 ==> c / 0x40 % 0x40 >= 0x20
    ensures c / 0x1000 == 0xD ==> c / 0x40 % 0x40 < 0x20
  {
  }

  lemma FourRanges(c: Scalar)
    requires 0x1_0000 <= c
    ensures c / 0x4_0000 <= 4
    ensures c / 0x4_0000 == 0 ==> c / 0x1000 % 0x40 >= 0x10
    ensures c / 0x4_0000 == 4 ==> c / 0x1000 % 0x40 < 0x10
  {
  }

  lemma ScalarIsHead(c: Scalar)
    ensures Utf8Head(EncodeScalar(c)) == |EncodeScalar(c)|
  {
    if 0x1_0000 <= c {
      FourRanges(c);
    } else if 0x800 <= c {
      ThreeRanges(c);
    }
  }

  lemma ThreeBytes(a: nat, b: nat, d: nat)
    requires b < 0x40 && d < 0x40
    ensures var c := 0x1000 * a + 0x40 * b + d;
            c / 0x1000 == a && c / 0x40 % 0x40 == b && c % 0x40 == d && c / 0x40 == 0x40 * a + b
  {
    var c, q := 0x1000 * a + 0x40 * b + d, 0x40 * a + b;
    assert c == 0x40 * q + d;
    assert c / 0x40 == q && q % 0x40 == b && q / 0x40 == a;
  }

  lemma FourBytes(a: nat, b: nat, d: nat, e: nat)
    requires b < 0x40 && d < 0x40 && e < 0x40
    ensures var c := 0x4_0000 * a + 0x1000 * b + 0x40 * d + e;
            c / 0x4_0000 == a && c / 0x1000 % 0x40 == b && c / 0x40 % 0x40 == d && c % 0x40 == e
  {
    ThreeBytes(0x40 * a + b, d, e);
    assert (0x40 * a + b) / 0x40 == a && (0x40 * a + b) % 0x40 == b;
  }

  lemma TwoIsScalar(b0: int, b1: int) returns (c: Scalar)
    requires 0xC2 <= b0 <= 0xDF && 0x80 <= b1 <= 0xBF
    ensures EncodeScalar(c) == [b0, b1]
  {
    c := 0x40 * (b0 - 0xC0) + (b1 - 0x80);
  }

  lemma ThreeIsScalar(b0: int, b1: int, b2: int) returns (c: Scalar)
    requires 0xE0 <= b0 <= 0xEF && 0x80 <= b1 <= 0xBF && 0x80 <= b2 <= 0xBF
    requires (b0 == 0xE0 ==> b1 >= 0xA0) && (b0 == 0xED ==> b1 <= 0x9F)
    ensures EncodeScalar(c) == [b0, b1, b2]
  {
    ThreeBytes(b0 - 0xE0, b1 - 0x80, b2 - 0x80);
    c := 0x1000 * (b0 - 0xE0) + 0x40 * (b1 - 0x80) + (b2 - 0x80);
  }

  lemma FourIsScalar(b0: int, b1: int, b2: int, b3: int) returns (c: Scalar)
    requires 0xF0 <= b0 <= 0xF4 && 0x80 <= b1 <= 0xBF && 0x80 <= b2 <= 0xBF && 0x80 <= b3 <= 0xBF
    requires (b0 == 0xF0 ==> b1 >= 0x90) && (b0 == 0xF4 ==> b1 <= 0x8F)
    ensures EncodeScalar(c) == [b0, b1, b2, b3]
  {
    FourBytes(b0 - 0xF0, b1 - 0x80, b2 - 0x80, b3 - 0x80);
    c := 0x4_0000 * (b0 - 0xF0) + 0x1000 * (b1 - 0x80) + 0x40 * (b2 - 0x80) + (b3 - 0x80);
  }

  lemma HeadIsScalar(bs: Bytes) returns (c: Scalar)
    requires Utf8Head(bs) > 0
    ensures EncodeScalar(c) == bs[..Utf8Head(bs)]
  {
    var n := Utf8Head(bs);
    if n == 1 {
      c := bs[0];
    } else if n == 2 {
      c := TwoIsScalar(bs[0], bs[1]);
    } else if n == 3 {
      c := ThreeIsScalar(bs[0], bs[1], bs[2]);
    } else {
      c := FourIsScalar(bs[0], bs[1], bs[2], bs[3]);
    }
  }

  lemma ScalarsCons(c: Scalar, cs: seq<Scalar>)
    ensures EncodeScalars([c] + cs) == EncodeScalar(c) + EncodeScalars(cs)
  {
    hide EncodeScalar;
    assert ([c] + cs)[1..] == cs;
  }

  lemma {:induction false} ScalarsAreText(cs: seq<Scalar>)
    ensures ValidUtf8(EncodeScalars(cs))
  {
    if cs != [] {
      var head, rest := EncodeScalar(cs[0]), EncodeScalars(cs[1..]);
      ScalarIsHead(cs[0]);
      HeadInFront(head, rest);
      ScalarsAreText(cs[1..]);
      hide Utf8Head, EncodeScalar;
      assert (head + rest)[|head|..] == rest;
    }
  }

  lemma {:induction false} TextHasScalars(bs: Bytes) returns (cs: seq<Scalar>)
    requires ValidUtf8(bs)
    ensures bs == EncodeScalars(cs)
    decreases |bs|
  {
    if bs == [] {
      cs := [];
    } else {
      var n := Utf8Head(bs);
      assert n > 0 && ValidUtf8(bs[n..]) && bs == bs[..n] + bs[n..];
      hide ValidUtf8, Utf8Head, EncodeScalar, EncodeScalars;
      var c := HeadIsScalar(bs);
      cs := TextHasScalars(bs[n..]);
      ScalarsCons(c, cs);
      cs := [c] + cs;
    }
  }

  /** What is accepted as text is exactly the encodings of scalar values. */
  lemma TextIsScalars(bs: Bytes)
    ensures ValidUtf8(bs) <==> exists cs :: bs == EncodeScalars(cs)
  {
    if ValidUtf8(bs) {
      var cs := TextHasScalars(bs);
    }
    if cs :| bs == EncodeScalars(cs) {
      ScalarsAreText(cs);
    }
  }

  /** A vector or string in memory: its length fits a 64-bit word. */
  type Vec = v: Bytes | |v| < TWO_64
  type Text = s: Bytes | |s| < TWO_64 && ValidUtf8(s)

  // ----- encoders and readers -----------------------------------------------
  //
  // A reader returns the value and the unread rest. For each encoder/reader pair
  // one lemma says exactly which inputs are read: those that start with the
  // encoding of the value returned.

  function PutVec(v: Vec): Bytes {
    PutInt(|v|, 8) + v
  }

  function PutTexts(ts: seq<Text>, rest: Bytes): Bytes {
    if ts == [] then rest else PutVec(ts[0]) + PutTexts(ts[1..], rest)
  }

  function GetInt(bs: Bytes, w: nat): (r: Option<(nat, Bytes)>)
    ensures r.Some? ==> r.value.0 < Pow256(w)
  {
    if |bs| < w then None else Some((IntOf(bs[..w]), bs[w..]))
  }

  function GetVec(bs: Bytes): (r: Option<(Vec, Bytes)>) {
    var (n, rest) :- GetInt(bs, 8);
    Widths();
    if |rest| < n then None else Some((rest[..n], rest[n..]))
  }

  function GetText(bs: Bytes): (r: Option<(Text, Bytes)>) {
    var (v, rest) :- GetVec(bs);
    if ValidUtf8(v) then Some((v, rest)) else None
  }

  function GetTexts(bs: Bytes, n: nat): (r: Option<(seq<Text>, Bytes)>)
    ensures r.Some? ==> |r.value.0| == n
  {
    if n == 0 then Some(([], bs))
    else
      var (t, rest) :- GetText(bs);
      var (ts, rest') :- GetTexts(rest, n - 1);
      Some(([t] + ts, rest'))
  }

  lemma ReadsInt(bs: Bytes, w: nat, x: nat, rest: Bytes)
    requires x < Pow256(w)
    ensures GetInt(bs, w) == Some((x, rest)) <==> bs == PutInt(x, w) + rest
  {
    if |bs| >= w {
      assert bs == bs[..w] + bs[w..];
      PutIntOf(bs[..w]);
      if bs == PutInt(x, w) + rest {
        SplitAgree(PutInt(x, w), rest, bs[..w], bs[w..]);
        IntOfPut(x, w);
      }
    }
  }

  lemma ReadsVec(bs: Bytes, v: Vec, rest: Bytes)
    ensures GetVec(bs) == Some((v, rest)) <==> bs == PutVec(v) + rest
  {
    Widths();
    assert PutVec(v) + rest == PutInt(|v|, 8) + (v + rest);
    ReadsInt(bs, 8, |v|, v + rest);
    if GetVec(bs) == Some((v, rest)) {
      var (n, tail) := GetInt(bs, 8).value;
      assert n == |v| && tail == v + rest;
    }
    if bs == PutVec(v) + rest {
      SplitAgree(v, rest, (v + rest)[..|v|], (v + rest)[|v|..]);
    }
  }

  lemma ReadsText(bs: Bytes, t: Text, rest: Bytes)
    ensures GetText(bs) == Some((t, rest)) <==> bs == PutVec(t) + rest
  {
    ReadsVec(bs, t, rest);
  }

  lemma {:induction false} TextsReadBack(ts: seq<Text>, rest: Bytes)
    ensures GetTexts(PutTexts(ts, rest), |ts|) == Some((ts, rest))
  {
    if ts != [] {
      hide GetText, PutVec;
      ReadsText(PutTexts(ts, rest), ts[0], PutTexts(ts[1..], rest));
      TextsReadBack(ts[1..], rest);
      assert [ts[0]] + ts[1..] == ts;
    }
  }

  lemma TextsCons(t: Text, more: seq<Text>, rest: Bytes)
    ensures PutTexts([t] + more, rest) == PutVec(t) + PutTexts(more, rest)
  {
    hide PutVec;
    assert ([t] + more)[1..] == more;
  }

  lemma TextsParts(bs: Bytes, n: nat) returns (t: Text, after: Bytes, more: seq<Text>, last: Bytes)
    requires n > 0 && GetTexts(bs, n).Some?
    ensures GetText(bs) == Some((t, after)) && GetTexts(after, n - 1) == Some((more, last))
    ensures GetTexts(bs, n) == Some(([t] + more, last))
  {
    hide GetText;
    t, after := GetText(bs).value.0, GetText(bs).value.1;
    more, last := GetTexts(after, n - 1).value.0, GetTexts(after, n - 1).value.1;
  }

  lemma {:induction false} TextsWerePut(bs: Bytes, n: nat, ts: seq<Text>, rest: Bytes)
    requires GetTexts(bs, n) == Some((ts, rest))
    ensures bs == PutTexts(ts, rest)
  {
    if n > 0 {
      hide *;
      var t, after, more, last := TextsParts(bs, n);
      ReadsText(bs, t, after);
      TextsWerePut(after, n - 1, more, last);
      TextsCons(t, more, last);
    }
  }

  lemma ReadsTexts(bs: Bytes, ts: seq<Text>, rest: Bytes)
    ensures GetTexts(bs, |ts|) == Some((ts, rest)) <==> bs == PutTexts(ts, rest)
  {
    hide GetTexts, PutTexts;
    TextsReadBack(ts, rest);
    if GetTexts(bs, |ts|) == Some((ts, rest)) {
      TextsWerePut(bs, |ts|, ts, rest);
    }
  }

  // ----- the stored types ---------------------------------------------------

  datatype CtMetadata = CtMetadata(
    ctHash: Text, proofId: Text, accountAddr: Text, securityZone: byte, chainId: u32,
    ctIndex: u64, ctType: byte, timestamp: Text)

  datatype StoredCiphertext = StoredCiphertext(metadata: CtMetadata, ctData: Vec)

  /** Proof metadata as stored before the consuming contract was recorded. */
  datatype LegacyProofMetadata = LegacyProofMetadata(
    proofId: Text, accountAddr: Text, securityZone: byte, chainId: u32,
    ctHashes: seq<Text>, ctCount: u64, timestamp: Text)
  {
    predicate Storable() { |ctHashes| < TWO_64 }
  }

  datatype LegacyStoredProof = LegacyStoredProof(metadata: LegacyProofMetadata, proofData: Vec)

  /** Current proof metadata: the previous fields in the previous order, then the contract. */
  datatype ProofMetadata = ProofMetadata(base: LegacyProofMetadata, contractAddr: Text)

  datatype StoredProof = StoredProof(metadata: ProofMetadata, proofData: Vec) {
    predicate Storable() { metadata.base.Storable() }
  }

  // The composite encoders write in front of `rest`, the bytes that follow.

  function PutCiphertext(o: StoredCiphertext, rest: Bytes): Bytes {
    var m := o.metadata;
    PutVec(m.ctHash) + (PutVec(m.proofId) + (PutVec(m.accountAddr) + (PutInt(m.securityZone, 1)
    + (PutInt(m.chainId, 4) + (PutInt(m.ctIndex, 8) + (PutInt(m.ctType, 1)
    + (PutVec(m.timestamp) + (PutVec(o.ctData) + rest))))))))
  }

  function GetCiphertext(bs: Bytes): (r: Option<StoredCiphertext>) {
    Widths();
    var (ctHash, b1) :- GetText(bs);
    var (proofId, b2) :- GetText(b1);
    var (accountAddr, b3) :- GetText(b2);
    var (securityZone, b4) :- GetInt(b3, 1);
    var (chainId, b5) :- GetInt(b4, 4);
    var (ctIndex, b6) :- GetInt(b5, 8);
    var (ctType, b7) :- GetInt(b6, 1);
    var (timestamp, b8) :- GetText(b7);
    var (ctData, b9) :- GetVec(b8);
    Some(StoredCiphertext(
           CtMetadata(ctHash, proofId, accountAddr, securityZone, chainId, ctIndex, ctType, timestamp),
           ctData))
  }

  function PutBase(m: LegacyProofMetadata, rest: Bytes): Bytes {
    PutVec(m.proofId) + (PutVec(m.accountAddr) + (PutInt(m.securityZone, 1) + (PutInt(m.chainId, 4)
    + (PutInt(|m.ctHashes|, 8) + PutTexts(m.ctHashes, PutInt(m.ctCount, 8) + (PutVec(m.timestamp) + rest))))))
  }

  function GetBase(bs: Bytes): (r: Option<(LegacyProofMetadata, Bytes)>)
    ensures r.Some? ==> r.value.0.Storable()
  {
    Widths();
    var (proofId, b1) :- GetText(bs);
    var (accountAddr, b2) :- GetText(b1);
    var (securityZone, b3) :- GetInt(b2, 1);
    var (chainId, b4) :- GetInt(b3, 4);
    var (n, b5) :- GetInt(b4, 8);
    var (ctHashes, b6) :- GetTexts(b5, n);
    var (ctCount, b7) :- GetInt(b6, 8);
    var (timestamp, b8) :- GetText(b7);
    Some((LegacyProofMetadata(proofId, accountAddr, securityZone, chainId, ctHashes, ctCount, timestamp), b8))
  }

  function PutLegacy(o: LegacyStoredProof, rest: Bytes): Bytes {
    PutBase(o.metadata, PutVec(o.proofData) + rest)
  }

  function PutProof(o: StoredProof, rest: Bytes): Bytes {
    PutBase(o.metadata.base, PutVec(o.metadata.contractAddr) + (PutVec(o.proofData) + rest))
  }

  /** `bincode::deserialize::<StoredProof>` */
  function GetCurrent(bs: Bytes): (r: Option<StoredProof>)
    ensures r.Some? ==> r.value.Storable()
  {
    var (base, b1) :- GetBase(bs);
    var (contractAddr, b2) :- GetText(b1);
    var (proofData, b3) :- GetVec(b2);
    Some(StoredProof(ProofMetadata(base, contractAddr), proofData))
  }

  /** `bincode::deserialize::<LegacyStoredProof>` */
  function GetLegacy(bs: Bytes): (r: Option<LegacyStoredProof>)
    ensures r.Some? ==> r.value.metadata.Storable()
  {
    var (base, b1) :- GetBase(bs);
    var (proofData, b2) :- GetVec(b1);
    Some(LegacyStoredProof(base, proofData))
  }

  /** A previous-layout object as it is handed on: with an empty contract. */
  function Lifted(o: LegacyStoredProof): StoredProof {
    StoredProof(ProofMetadata(o.metadata, []), o.proofData)
  }

  /** Current layout first, previous layout second. */
  function FromBytes(bs: Bytes): (r: Option<StoredProof>) {
    var current := GetCurrent(bs);
    if current.Some? then current
    else
      var legacy :- GetLegacy(bs);
      Some(Lifted(legacy))
  }

  // ----- layouts ------------------------------------------------------------

  /** A length and the bytes. */
  lemma VecInFront(v: Vec, rest: Bytes)
    ensures PutVec(v) + rest == PutInt(|v|, 8) + (v + rest)
  {
    hide PutInt;
  }

  /** The bytes of a ciphertext object, field by field: for text and vectors the length
      in 8 bytes first; integers in the width of their type. */
  lemma CiphertextLayout(o: StoredCiphertext, rest: Bytes)
    ensures var m := o.metadata;
            PutCiphertext(o, rest)
            == PutInt(|m.ctHash|, 8) + (m.ctHash
               + (PutInt(|m.proofId|, 8) + (m.proofId
               + (PutInt(|m.accountAddr|, 8) + (m.accountAddr
               + (PutInt(m.securityZone, 1)
               + (PutInt(m.chainId, 4)
               + (PutInt(m.ctIndex, 8)
               + (PutInt(m.ctType, 1)
               + (PutInt(|m.timestamp|, 8) + (m.timestamp
               + (PutInt(|o.ctData|, 8) + (o.ctData
               + rest)))))))))))))
  {
    hide PutVec, PutInt;
    var m := o.metadata;
    VecInFront(o.ctData, rest);
    var b8 := PutVec(o.ctData) + rest;
    VecInFront(m.timestamp, b8);
    var b3 := PutInt(m.securityZone, 1) + (PutInt(m.chainId, 4) + (PutInt(m.ctIndex, 8) + (PutInt(m.ctType, 1)
              + (PutVec(m.timestamp) + b8))));
    VecInFront(m.accountAddr, b3);
    VecInFront(m.proofId, PutVec(m.accountAddr) + b3);
    VecInFront(m.ctHash, PutVec(m.proofId) + (PutVec(m.accountAddr) + b3));
  }

  /** The bytes of the fields both layouts of a proof object begin with; the hashes are
      a list: their number in 8 bytes, then each as text. */
  lemma BaseLayout(m: LegacyProofMetadata, rest: Bytes)
    ensures PutBase(m, rest)
         == PutInt(|m.proofId|, 8) + (m.proofId
            + (PutInt(|m.accountAddr|, 8) + (m.accountAddr
            + (PutInt(m.securityZone, 1)
            + (PutInt(m.chainId, 4)
            + (PutInt(|m.ctHashes|, 8) + PutTexts(m.ctHashes,
                 PutInt(m.ctCount, 8)
                 + (PutInt(|m.timestamp|, 8) + (m.timestamp
                 + rest)))))))))
  {
    hide PutVec, PutInt, PutTexts;
    VecInFront(m.timestamp, rest);
    var b3 := PutInt(m.securityZone, 1) + (PutInt(m.chainId, 4) + (PutInt(|m.ctHashes|, 8)
              + PutTexts(m.ctHashes, PutInt(m.ctCount, 8) + (PutVec(m.timestamp) + rest))));
    VecInFront(m.accountAddr, b3);
    VecInFront(m.proofId, PutVec(m.accountAddr) + b3);
  }

  lemma {:induction false} TextsLayout(ts: seq<Text>, rest: Bytes)
    ensures PutTexts(ts, rest) == Flat(seq(|ts|, i requires 0 <= i < |ts| => PutInt(|ts[i]|, 8) + ts[i])) + rest
  {
    var all := seq(|ts|, i requires 0 <= i < |ts| => PutInt(|ts[i]|, 8) + ts[i]);
    if ts != [] {
      TextsLayout(ts[1..], rest);
      assert all[1..] == seq(|ts[1..]|, i requires 0 <= i < |ts[1..]| => PutInt(|ts[1..][i]|, 8) + ts[1..][i]);
      ConcatAssoc(all[0], Flat(all[1..]), rest);
    }
  }

  /** After these, the proof bytes in the previous layout; the contract and the proof
      bytes in the current one. */
  lemma ProofLayouts(o: StoredProof, l: LegacyStoredProof, rest: Bytes)
    ensures PutLegacy(l, rest) == PutBase(l.metadata, PutInt(|l.proofData|, 8) + (l.proofData + rest))
    ensures PutProof(o, rest)
         == PutBase(o.metadata.base,
                    PutInt(|o.metadata.contractAddr|, 8) + (o.metadata.contractAddr
                    + (PutInt(|o.proofData|, 8) + (o.proofData + rest))))
  {
    hide PutVec, PutInt, PutBase;
    VecInFront(l.proofData, rest);
    VecInFront(o.proofData, rest);
    VecInFront(o.metadata.contractAddr, PutVec(o.proofData) + rest);
  }

  // ----- what is read -------------------------------------------------------

  lemma CiphertextReadBack(o: StoredCiphertext, rest: Bytes)
    ensures GetCiphertext(PutCiphertext(o, rest)) == Some(o)
  {
    Widths();
    var m := o.metadata;
    var b8 := PutVec(o.ctData) + rest;
    var b7 := PutVec(m.timestamp) + b8;
    var b6 := PutInt(m.ctType, 1) + b7;
    var b5 := PutInt(m.ctIndex, 8) + b6;
    var b4 := PutInt(m.chainId, 4) + b5;
    var b3 := PutInt(m.securityZone, 1) + b4;
    var b2 := PutVec(m.accountAddr) + b3;
    var b1 := PutVec(m.proofId) + b2;
    ReadsText(PutCiphertext(o, rest), m.ctHash, b1);
    ReadsText(b1, m.proofId, b2);
    ReadsText(b2, m.accountAddr, b3);
    ReadsInt(b3, 1, m.securityZone, b4);
    ReadsInt(b4, 4, m.chainId, b5);
    ReadsInt(b5, 8, m.ctIndex, b6);
    ReadsInt(b6, 1, m.ctType, b7);
    ReadsText(b7, m.timestamp, b8);
    ReadsVec(b8, o.ctData, rest);
  }

  lemma CiphertextWasPut(bs: Bytes) returns (rest: Bytes)
    requires GetCiphertext(bs).Some?
    ensures bs == PutCiphertext(GetCiphertext(bs).value, rest)
  {
    Widths();
    var (ctHash, b1) := GetText(bs).value;
    var (proofId, b2) := GetText(b1).value;
    var (accountAddr, b3) := GetText(b2).value;
    var (securityZone, b4) := GetInt(b3, 1).value;
    var (chainId, b5) := GetInt(b4, 4).value;
    var (ctIndex, b6) := GetInt(b5, 8).value;
    var (ctType, b7) := GetInt(b6, 1).value;
    var (timestamp, b8) := GetText(b7).value;
    var (ctData, b9) := GetVec(b8).value;
    ReadsText(bs, ctHash, b1);
    ReadsText(b1, proofId, b2);
    ReadsText(b2, accountAddr, b3);
    ReadsInt(b3, 1, securityZone, b4);
    ReadsInt(b4, 4, chainId, b5);
    ReadsInt(b5, 8, ctIndex, b6);
    ReadsInt(b6, 1, ctType, b7);
    ReadsText(b7, timestamp, b8);
    ReadsVec(b8, ctData, b9);
    rest := b9;
  }

  lemma BaseReadBack(m: LegacyProofMetadata, rest: Bytes)
    requires m.Storable()
    ensures GetBase(PutBase(m, rest)) == Some((m, rest))
  {
    Widths();
    var b7 := PutVec(m.timestamp) + rest;
    var b6 := PutInt(m.ctCount, 8) + b7;
    var b5 := PutTexts(m.ctHashes, b6);
    var b4 := PutInt(|m.ctHashes|, 8) + b5;
    var b3 := PutInt(m.chainId, 4) + b4;
    var b2 := PutInt(m.securityZone, 1) + b3;
    var b1 := PutVec(m.accountAddr) + b2;
    ReadsText(PutBase(m, rest), m.proofId, b1);
    ReadsText(b1, m.accountAddr, b2);
    ReadsInt(b2, 1, m.securityZone, b3);
    ReadsInt(b3, 4, m.chainId, b4);
    ReadsInt(b4, 8, |m.ctHashes|, b5);
    ReadsTexts(b5, m.ctHashes, b6);
    ReadsInt(b6, 8, m.ctCount, b7);
    ReadsText(b7, m.timestamp, rest);
  }

  lemma BaseWasPut(bs: Bytes)
    requires GetBase(bs).Some?
    ensures bs == PutBase(GetBase(bs).value.0, GetBase(bs).value.1)
  {
    Widths();
    var (proofId, b1) := GetText(bs).value;
    var (accountAddr, b2) := GetText(b1).value;
    var (securityZone, b3) := GetInt(b2, 1).value;
    var (chainId, b4) := GetInt(b3, 4).value;
    var (n, b5) := GetInt(b4, 8).value;
    var (ctHashes, b6) := GetTexts(b5, n).value;
    var (ctCount, b7) := GetInt(b6, 8).value;
    var (timestamp, b8) := GetText(b7).value;
    ReadsText(bs, proofId, b1);
    ReadsText(b1, accountAddr, b2);
    ReadsInt(b2, 1, securityZone, b3);
    ReadsInt(b3, 4, chainId, b4);
    ReadsInt(b4, 8, n, b5);
    ReadsTexts(b5, ctHashes, b6);
    ReadsInt(b6, 8, ctCount, b7);
    ReadsText(b7, timestamp, b8);
  }

  /** The bytes written do not depend on what follows them. */
  lemma {:induction false} TextsInFront(ts: seq<Text>, a: Bytes, rest: Bytes)
    ensures PutTexts(ts, a + rest) == PutTexts(ts, a) + rest
  {
    if ts != [] {
      TextsInFront(ts[1..], a, rest);
    }
  }

  lemma BaseInFront(m: LegacyProofMetadata, a: Bytes, rest: Bytes)
    ensures PutBase(m, a + rest) == PutBase(m, a) + rest
  {
    hide PutVec, PutInt, PutTexts;
    var timestamp, count := PutVec(m.timestamp), PutInt(m.ctCount, 8);
    ConcatAssoc(timestamp, a, rest);
    ConcatAssoc(count, timestamp + a, rest);
    TextsInFront(m.ctHashes, count + (timestamp + a), rest);
    var b5 := PutTexts(m.ctHashes, count + (timestamp + a));
    var b4 := PutInt(|m.ctHashes|, 8) + b5;
    var b3 := PutInt(m.chainId, 4) + b4;
    var b2 := PutInt(m.securityZone, 1) + b3;
    var b1 := PutVec(m.accountAddr) + b2;
    ConcatAssoc(PutInt(|m.ctHashes|, 8), b5, rest);
    ConcatAssoc(PutInt(m.chainId, 4), b4, rest);
    ConcatAssoc(PutInt(m.securityZone, 1), b3, rest);
    ConcatAssoc(PutVec(m.accountAddr), b2, rest);
    ConcatAssoc(PutVec(m.proofId), b1, rest);
  }

  lemma ProofInFront(o: StoredProof, rest: Bytes)
    ensures PutProof(o, rest) == PutProof(o, []) + rest
  {
    var c, p := PutVec(o.metadata.contractAddr), PutVec(o.proofData);
    assert c + (p + rest) == (c + (p + [])) + rest;
    BaseInFront(o.metadata.base, c + (p + []), rest);
  }

  lemma LegacyInFront(o: LegacyStoredProof, rest: Bytes)
    ensures PutLegacy(o, rest) == PutLegacy(o, []) + rest
  {
    var p := PutVec(o.proofData);
    assert p + rest == (p + []) + rest;
    BaseInFront(o.metadata, p + [], rest);
  }

  /** A ciphertext object is read from exactly the inputs that start with its
      encoding. */
  lemma ReadsCiphertext(bs: Bytes, o: StoredCiphertext)
    ensures GetCiphertext(bs) == Some(o) <==> exists rest :: bs == PutCiphertext(o, rest)
  {
    if GetCiphertext(bs) == Some(o) {
      var rest := CiphertextWasPut(bs);
    }
    if rest :| bs == PutCiphertext(o, rest) {
      CiphertextReadBack(o, rest);
    }
  }

  lemma CurrentReadBack(o: StoredProof, rest: Bytes)
    requires o.Storable()
    ensures GetCurrent(PutProof(o, rest)) == Some(o)
  {
    var b2 := PutVec(o.proofData) + rest;
    var b1 := PutVec(o.metadata.contractAddr) + b2;
    BaseReadBack(o.metadata.base, b1);
    ReadsText(b1, o.metadata.contractAddr, b2);
    ReadsVec(b2, o.proofData, rest);
  }

  /** The same for a proof object of the current layout. */
  lemma ReadsCurrent(bs: Bytes, o: StoredProof)
    requires o.Storable()
    ensures GetCurrent(bs) == Some(o) <==> exists rest :: bs == PutProof(o, rest)
  {
    if GetCurrent(bs) == Some(o) {
      var (base, b1) := GetBase(bs).value;
      var (contractAddr, b2) := GetText(b1).value;
      var (proofData, b3) := GetVec(b2).value;
      BaseWasPut(bs);
      ReadsText(b1, contractAddr, b2);
      ReadsVec(b2, proofData, b3);
      assert bs == PutProof(o, b3);
    }
    if rest :| bs == PutProof(o, rest) {
      CurrentReadBack(o, rest);
    }
  }

  // ----- the two layouts ----------------------------------------------------

  lemma LegacyReadBack(o: LegacyStoredProof, rest: Bytes)
    requires o.metadata.Storable()
    ensures GetLegacy(PutLegacy(o, rest)) == Some(o)
  {
    BaseReadBack(o.metadata, PutVec(o.proofData) + rest);
    ReadsVec(PutVec(o.proofData) + rest, o.proofData, rest);
  }

  lemma LegacyWasPut(bs: Bytes) returns (rest: Bytes)
    requires GetLegacy(bs).Some?
    ensures bs == PutLegacy(GetLegacy(bs).value, rest)
  {
    var (base, b1) := GetBase(bs).value;
    var (proofData, b2) := GetVec(b1).value;
    BaseWasPut(bs);
    ReadsVec(b1, proofData, b2);
    rest := b2;
  }

  ghost predicate StartsCurrent(bs: Bytes, o: StoredProof) {
    o.Storable() && exists rest :: bs == PutProof(o, rest)
  }

  ghost predicate StartsLegacy(bs: Bytes, o: LegacyStoredProof) {
    o.metadata.Storable() && exists rest :: bs == PutLegacy(o, rest)
  }

  /** Bytes stand for a proof object if they start with its encoding in the current
      layout or, starting with no current encoding at all, in the previous one. */
  ghost predicate StandsFor(bs: Bytes, o: StoredProof) {
    || StartsCurrent(bs, o)
    || ((forall c :: !StartsCurrent(bs, c)) && exists l :: StartsLegacy(bs, l) && o == Lifted(l))
  }

  lemma StartsCurrentIsRead(bs: Bytes, o: StoredProof)
    ensures StartsCurrent(bs, o) <==> GetCurrent(bs) == Some(o)
  {
    if o.Storable() {
      ReadsCurrent(bs, o);
    }
  }

  lemma StartsLegacyIsRead(bs: Bytes, o: LegacyStoredProof)
    ensures StartsLegacy(bs, o) <==> GetLegacy(bs) == Some(o)
  {
    if GetLegacy(bs) == Some(o) {
      var rest := LegacyWasPut(bs);
    }
    if o.metadata.Storable() {
      if rest :| bs == PutLegacy(o, rest) {
        LegacyReadBack(o, rest);
      }
    }
  }

  /** `from_bytes` reads exactly what stands for a proof object, and as that object. */
  lemma FromBytesReads(bs: Bytes, o: StoredProof)
    ensures FromBytes(bs) == Some(o) <==> StandsFor(bs, o)
  {
    hide GetCurrent, GetLegacy, StartsCurrent, StartsLegacy;
    forall c: StoredProof
      ensures StartsCurrent(bs, c) <==> GetCurrent(bs) == Some(c)
    {
      StartsCurrentIsRead(bs, c);
    }
    forall l: LegacyStoredProof
      ensures StartsLegacy(bs, l) <==> GetLegacy(bs) == Some(l)
    {
      StartsLegacyIsRead(bs, l);
    }
    if GetCurrent(bs).Some? {
      assert StartsCurrent(bs, GetCurrent(bs).value);
    }
  }

  /** Every current object comes back whole, whatever bytes follow it. */
  lemma CurrentRoundTrip(o: StoredProof, trailing: Bytes)
    requires o.Storable()
    ensures FromBytes(PutProof(o, []) + trailing) == Some(o)
  {
    ProofInFront(o, trailing);
    CurrentReadBack(o, trailing);
  }

  /** What follows a previous-layout object decides which layout reads it: it is
      taken for a current object exactly when its proof bytes are UTF-8 and the
      bytes after it start with an encoded vector. */
  lemma LegacyTakenForCurrent(o: LegacyStoredProof, trailing: Bytes)
    requires o.metadata.Storable()
    ensures GetCurrent(PutLegacy(o, []) + trailing).Some? <==> ValidUtf8(o.proofData) && GetVec(trailing).Some?
    ensures FromBytes(PutLegacy(o, []) + trailing)
         == if ValidUtf8(o.proofData) && GetVec(trailing).Some?
            then Some(StoredProof(ProofMetadata(o.metadata, o.proofData), GetVec(trailing).value.0))
            else Some(Lifted(o))
  {
    LegacyInFront(o, trailing);
    BaseReadBack(o.metadata, PutVec(o.proofData) + trailing);
    ReadsVec(PutVec(o.proofData) + trailing, o.proofData, trailing);
  }

  /** A previous-layout object as it was written never reads as a current one,
      and comes back with its fields and an empty contract. */
  lemma LegacyRoundTrip(o: LegacyStoredProof)
    requires o.metadata.Storable()
    ensures GetCurrent(PutLegacy(o, [])).None?
    ensures FromBytes(PutLegacy(o, [])) == Some(Lifted(o))
    ensures var read := FromBytes(PutLegacy(o, [])).value;
            read.metadata.base == o.metadata && read.metadata.contractAddr == [] && read.proofData == o.proofData
  {
    assert PutLegacy(o, []) + [] == PutLegacy(o, []);
    LegacyTakenForCurrent(o, []);
  }

  /** The order of attempts matters: every current object also reads as a
      previous-layout one, with the contract text taken for the proof bytes. */
  lemma CurrentAlsoReadsAsLegacy(o: StoredProof)
    requires o.Storable()
    ensures GetLegacy(PutProof(o, [])) == Some(LegacyStoredProof(o.metadata.base, o.metadata.contractAddr))
  {
    var b1 := PutVec(o.proofData) + [];
    BaseReadBack(o.metadata.base, PutVec(o.metadata.contractAddr) + b1);
    ReadsVec(PutVec(o.metadata.contractAddr) + b1, o.metadata.contractAddr, b1);
  }

  /** Distinct objects of either layout never share their bytes. */
  lemma LayoutsInjective(a: StoredProof, b: StoredProof, l: LegacyStoredProof)
    requires a.Storable() && b.Storable() && l.metadata.Storable()
    ensures PutProof(a, []) == PutProof(b, []) ==> a == b
    ensures PutProof(a, []) != PutLegacy(l, [])
  {
    CurrentReadBack(a, []);
    CurrentReadBack(b, []);
    LegacyRoundTrip(l);
  }
}
