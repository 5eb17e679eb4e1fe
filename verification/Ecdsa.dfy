/** Low-S normalisation of a recoverable ECDSA signature over an abstract group
    of odd prime order, with public-key recovery as in section 4.1.6 of SEC 1
    version 2.0. */
module Ecdsa {
  import opened Common
  import opened Hex
  import opened Signing

  /** Curve points `P` with order `n`, generator `g`, coordinates and scalar inverses. */
  datatype Curve<!P> = Curve(
    n: nat, zero: P, g: P, add: (P, P) -> P, neg: P -> P, xOf: P -> nat, yOdd: P -> bool, inv: nat -> nat)

  function Mul<P>(c: Curve<P>, k: nat, p: P): P {
    if k == 0 then c.zero else c.add(p, Mul(c, k - 1, p))
  }

  // The laws below are quantified over tagged arguments, so that each is used
  // where a lemma names its arguments and nowhere else.

  predicate Points<P>(a: P, b: P, d: P) { true }

  predicate Scalar<P>(k: nat, p: P) { true }

  ghost predicate IsGroup<P(!new)>(c: Curve<P>) {
    forall a: P, b: P, d: P {:trigger Points(a, b, d)} :: Points(a, b, d) ==>
      && c.add(a, c.zero) == a
      && c.add(a, c.neg(a)) == c.zero
      && c.add(a, b) == c.add(b, a)
      && c.add(c.add(a, b), d) == c.add(a, c.add(b, d))
  }

  /** Every point but zero has order exactly `n`; nonzero scalars are invertible. */
  ghost predicate OddPrimeOrder<P(!new)>(c: Curve<P>) {
    && c.n > 2 && c.n % 2 == 1
    && c.g != c.zero
    && (forall k: nat, p: P {:trigger Scalar(k, p)} :: Scalar(k, p) && p != c.zero ==>
          (Mul(c, k, p) == c.zero <==> k % c.n == 0))
    && (forall r: nat {:trigger Scalar(r, c.g)} :: Scalar(r, c.g) && 0 < r < c.n ==> (r * c.inv(r)) % c.n == 1)
  }

  /** A point and its negative share x and differ in the parity of y; x and that
      parity determine the point; x exceeds the order at most once. */
  ghost predicate HasCoordinates<P(!new)>(c: Curve<P>) {
    forall p: P, q: P {:trigger Points(p, q, q)} :: Points(p, q, q) && p != c.zero && q != c.zero ==>
      && c.xOf(p) < 2 * c.n
      && c.xOf(c.neg(p)) == c.xOf(p)
      && c.yOdd(c.neg(p)) != c.yOdd(p)
      && (c.xOf(p) == c.xOf(q) && c.yOdd(p) == c.yOdd(q) ==> p == q)
  }

  ghost predicate IsCurve<P(!new)>(c: Curve<P>) {
    IsGroup(c) && OddPrimeOrder(c) && HasCoordinates(c)
  }

  // ----- group arithmetic ---------------------------------------------------

  lemma Laws<P(!new)>(c: Curve<P>, a: P, b: P, d: P)
    requires IsGroup(c)
    ensures c.add(a, c.zero) == a == c.add(c.zero, a)
    ensures c.add(a, c.neg(a)) == c.zero == c.add(c.neg(a), a)
    ensures c.add(a, b) == c.add(b, a)
    ensures c.add(c.add(a, b), d) == c.add(a, c.add(b, d))
  {
    assert Points(a, b, d);
    assert Points(a, c.zero, d);
    assert Points(a, c.neg(a), d);
  }

  lemma OrderOf<P(!new)>(c: Curve<P>, k: nat, p: P)
    requires OddPrimeOrder(c)
    ensures p != c.zero ==> (Mul(c, k, p) == c.zero <==> k % c.n == 0)
    ensures 0 < k < c.n ==> (k * c.inv(k)) % c.n == 1
  {
    assert Scalar(k, p) && Scalar(k, c.g);
  }

  lemma Cancel<P(!new)>(c: Curve<P>, a: P, b: P, d: P)
    requires IsGroup(c) && c.add(a, d) == c.add(b, d)
    ensures a == b
  {
    Laws(c, a, d, c.neg(d));
    Laws(c, b, d, c.neg(d));
    Laws(c, d, d, d);
  }

  lemma NegTwice<P(!new)>(c: Curve<P>, a: P)
    requires IsGroup(c)
    ensures c.neg(c.neg(a)) == a
    ensures a != c.zero ==> c.neg(a) != c.zero
  {
    Laws(c, c.neg(a), a, a);
    Laws(c, a, c.neg(a), a);
    Cancel(c, c.neg(c.neg(a)), a, c.neg(a));
  }

  lemma {:induction false} MulAdd<P(!new)>(c: Curve<P>, j: nat, k: nat, p: P)
    requires IsGroup(c)
    ensures Mul(c, j + k, p) == c.add(Mul(c, j, p), Mul(c, k, p))
  {
    if j == 0 {
      Laws(c, Mul(c, k, p), c.zero, c.zero);
    } else {
      MulAdd(c, j - 1, k, p);
      Laws(c, p, Mul(c, j - 1, p), Mul(c, k, p));
    }
  }

  lemma {:induction false} MulMul<P(!new)>(c: Curve<P>, j: nat, k: nat, p: P)
    requires IsGroup(c)
    ensures Mul(c, j, Mul(c, k, p)) == Mul(c, j * k, p)
  {
    if j > 0 {
      MulMul(c, j - 1, k, p);
      MulAdd(c, k, (j - 1) * k, p);
      assert k + (j - 1) * k == j * k;
    } else {
      assert j * k == 0;
    }
  }

  lemma {:induction false} MulDistributes<P(!new)>(c: Curve<P>, k: nat, p: P, q: P)
    requires IsGroup(c)
    ensures Mul(c, k, c.add(p, q)) == c.add(Mul(c, k, p), Mul(c, k, q))
  {
    if k == 0 {
      Laws(c, c.zero, c.zero, c.zero);
    } else {
      MulDistributes(c, k - 1, p, q);
      var a, b := Mul(c, k - 1, p), Mul(c, k - 1, q);
      Laws(c, p, q, c.add(a, b));
      Laws(c, q, a, b);
      Laws(c, a, q, b);
      Laws(c, p, a, c.add(q, b));
    }
  }

  lemma {:induction false} MulZero<P(!new)>(c: Curve<P>, k: nat)
    requires IsGroup(c)
    ensures Mul(c, k, c.zero) == c.zero
  {
    Laws(c, c.zero, c.zero, c.zero);
    if k > 0 {
      MulZero(c, k - 1);
    }
  }

  lemma MulNeg<P(!new)>(c: Curve<P>, k: nat, p: P)
    requires IsGroup(c)
    ensures Mul(c, k, c.neg(p)) == c.neg(Mul(c, k, p))
  {
    MulDistributes(c, k, c.neg(p), p);
    MulZero(c, k);
    Laws(c, p, p, p);
    Laws(c, Mul(c, k, p), p, p);
    Cancel(c, Mul(c, k, c.neg(p)), c.neg(Mul(c, k, p)), Mul(c, k, p));
  }

  /** The order annihilates every point. */
  lemma MulOrder<P(!new)>(c: Curve<P>, p: P)
    requires IsGroup(c) && OddPrimeOrder(c)
    ensures Mul(c, c.n, p) == c.zero
  {
    MulZero(c, c.n);
    OrderOf(c, c.n, p);
  }

  lemma MulMod<P(!new)>(c: Curve<P>, k: nat, p: P)
    requires IsGroup(c) && OddPrimeOrder(c)
    ensures Mul(c, k % c.n, p) == Mul(c, k, p)
  {
    var q, rest := k / c.n, k % c.n;
    assert k == q * c.n + rest;
    MulAdd(c, q * c.n, rest, p);
    MulMul(c, q, c.n, p);
    MulOrder(c, p);
    MulZero(c, q);
    Laws(c, Mul(c, rest, p), p, p);
  }

  /** Multiplying by a nonzero scalar and its inverse changes nothing. */
  lemma InvCancels<P(!new)>(c: Curve<P>, r: nat, p: P)
    requires IsGroup(c) && OddPrimeOrder(c) && 0 < r < c.n
    ensures Mul(c, r, Mul(c, c.inv(r), p)) == p
  {
    OrderOf(c, r, p);
    MulMul(c, r, c.inv(r), p);
    MulMod(c, r * c.inv(r), p);
    Laws(c, p, p, p);
    assert Mul(c, 1, p) == c.add(p, Mul(c, 0, p));
  }

  // ----- signatures ---------------------------------------------------------

  datatype Signature = Signature(r: nat, s: nat)

  predicate InRange<P>(c: Curve<P>, sig: Signature) {
    0 < sig.r < c.n && 0 < sig.s < c.n
  }

  datatype RecoveryId = RecoveryId(yOdd: bool, xReduced: bool) {
    function ToByte(): (b: byte)
      ensures b < 4
    {
      (if xReduced then 2 else 0) + (if yOdd then 1 else 0)
    }
  }

  predicate IsHigh<P>(c: Curve<P>, s: nat) {
    s > c.n / 2
  }

  /** The signer's last step: low S, with the parity bit flipped when S was high. */
  function Normalize<P>(c: Curve<P>, sig: Signature, recid: RecoveryId): (out: (Signature, RecoveryId))
    requires InRange(c, sig)
  {
    var isYOdd := recid.yOdd != IsHigh(c, sig.s);
    var sigLow := if IsHigh(c, sig.s) then Signature(sig.r, c.n - sig.s) else sig;
    (sigLow, RecoveryId(isYOdd, recid.xReduced))
  }

  /** The nonce point a signature and recovery id stand for. */
  ghost predicate Lifts<P>(c: Curve<P>, sig: Signature, recid: RecoveryId, point: P) {
    && point != c.zero
    && c.xOf(point) == sig.r + (if recid.xReduced then c.n else 0)
    && c.yOdd(point) == recid.yOdd
  }

  /** `r^-1 (sR - zG)` */
  function KeyFrom<P>(c: Curve<P>, z: nat, sig: Signature, point: P): P {
    Mul(c, c.inv(sig.r), c.add(Mul(c, sig.s, point), c.neg(Mul(c, z, c.g))))
  }

  ghost function NoncePoint<P(!new)>(c: Curve<P>, sig: Signature, recid: RecoveryId): (r: Option<P>)
    ensures r.Some? ==> Lifts(c, sig, recid, r.value)
    ensures r.None? ==> forall point :: !Lifts(c, sig, recid, point)
  {
    if exists point :: Lifts(c, sig, recid, point) then
      var point :| Lifts(c, sig, recid, point);
      Some(point)
    else None
  }

  ghost function Recover<P(!new)>(c: Curve<P>, z: nat, sig: Signature, recid: RecoveryId): Option<P> {
    var point :- NoncePoint(c, sig, recid);
    Some(KeyFrom(c, z, sig, point))
  }

  lemma RecoverIs<P(!new)>(c: Curve<P>, z: nat, sig: Signature, recid: RecoveryId, point: P)
    requires IsCurve(c) && Lifts(c, sig, recid, point)
    ensures Recover(c, z, sig, recid) == Some(KeyFrom(c, z, sig, point))
  {
    var chosen := NoncePoint(c, sig, recid);
    assert chosen.Some?;
    assert Points(chosen.value, point, point);
  }

  lemma NegatedPair<P(!new)>(c: Curve<P>, s: nat, point: P)
    requires IsGroup(c) && OddPrimeOrder(c) && s <= c.n
    ensures Mul(c, c.n - s, c.neg(point)) == Mul(c, s, point)
  {
    MulAdd(c, c.n - s, s, c.neg(point));
    MulOrder(c, c.neg(point));
    MulNeg(c, s, point);
    Laws(c, Mul(c, s, point), point, point);
    Cancel(c, Mul(c, c.n - s, c.neg(point)), Mul(c, s, point), c.neg(Mul(c, s, point)));
  }

  lemma FlippedLifts<P(!new)>(c: Curve<P>, sig: Signature, recid: RecoveryId, point: P, s: nat)
    requires IsCurve(c) && Lifts(c, sig, recid, point)
    ensures Lifts(c, Signature(sig.r, s), RecoveryId(!recid.yOdd, recid.xReduced), c.neg(point))
  {
    NegTwice(c, point);
    assert Points(point, point, point);
  }

  /** For every signature and recovery id, valid or not for any key: normalising
      keeps r and the x bit, makes S low, recovers the same key, and does nothing
      the second time. */
  lemma NormalizeKeepsRecovery<P(!new)>(c: Curve<P>, z: nat, sig: Signature, recid: RecoveryId)
    requires IsCurve(c) && InRange(c, sig)
    ensures var (low, id) := Normalize(c, sig, recid);
            && low.r == sig.r && id.xReduced == recid.xReduced
            && InRange(c, low) && low.s <= c.n / 2
            && Recover(c, z, low, id) == Recover(c, z, sig, recid)
            && Normalize(c, low, id) == (low, id)
  {
    var (low, id) := Normalize(c, sig, recid);
    if IsHigh(c, sig.s) {
      if point :| Lifts(c, sig, recid, point) {
        FlippedLifts(c, sig, recid, point, low.s);
        RecoverIs(c, z, sig, recid, point);
        RecoverIs(c, z, low, id, c.neg(point));
        NegatedPair(c, sig.s, point);
      } else if point :| Lifts(c, low, id, point) {
        FlippedLifts(c, low, id, point, sig.s);
        assert false;
      }
    }
  }

  lemma ModOnce(x: nat, n: nat)
    requires 0 < n && x < 2 * n
    ensures x % n == if x < n then x else x - n
  {
    if x >= n {
      assert x == 1 * n + (x - n);
    }
  }

  lemma OddHalf(n: nat, s: nat)
    requires n % 2 == 1 && 0 < s < n
    ensures (s + s) % n != 0
  {
    ModOnce(s + s, n);
  }

  /** A scalar and its negation give different multiples: the order is odd. */
  lemma HalvesDiffer<P(!new)>(c: Curve<P>, s: nat, point: P)
    requires IsGroup(c) && OddPrimeOrder(c) && 0 < s < c.n && point != c.zero
    ensures Mul(c, c.n - s, point) != Mul(c, s, point)
  {
    MulAdd(c, c.n - s, s, point);
    MulAdd(c, s, s, point);
    MulOrder(c, point);
    OrderOf(c, s + s, point);
    OddHalf(c.n, s);
  }

  /** Without the flip a normalised high-S signature recovers another key, always. */
  lemma FlipNeeded<P(!new)>(c: Curve<P>, z: nat, sig: Signature, recid: RecoveryId)
    requires IsCurve(c) && InRange(c, sig) && IsHigh(c, sig.s)
    requires Recover(c, z, sig, recid).Some?
    ensures Recover(c, z, Normalize(c, sig, recid).0, recid).Some?
    ensures Recover(c, z, Normalize(c, sig, recid).0, recid) != Recover(c, z, sig, recid)
  {
    hide Mul;
    var low := Normalize(c, sig, recid).0;
    var point :| Lifts(c, sig, recid, point);
    assert Lifts(c, low, recid, point);
    RecoverIs(c, z, sig, recid, point);
    RecoverIs(c, z, low, recid, point);
    if KeyFrom(c, z, low, point) == KeyFrom(c, z, sig, point) {
      var zG := c.neg(Mul(c, z, c.g));
      InvCancels(c, sig.r, c.add(Mul(c, low.s, point), zG));
      InvCancels(c, sig.r, c.add(Mul(c, sig.s, point), zG));
      Cancel(c, Mul(c, low.s, point), Mul(c, sig.s, point), zG);
      HalvesDiffer(c, sig.s, point);
      assert false;
    }
  }

  // ----- signing and recovering ---------------------------------------------

  /** ECDSA over the prehash `z` with key `d` and nonce `k`, before normalisation. */
  function SignRecoverable<P>(c: Curve<P>, d: nat, k: nat, z: nat): (Signature, RecoveryId)
    requires c.n > 0
  {
    var point := Mul(c, k, c.g);
    var r := c.xOf(point) % c.n;
    var s := (c.inv(k) * (z + r * d)) % c.n;
    (Signature(r, s), RecoveryId(c.yOdd(point), c.xOf(point) >= c.n))
  }

  lemma RawLifts<P(!new)>(c: Curve<P>, d: nat, k: nat, z: nat)
    requires IsCurve(c) && 0 < k < c.n
    ensures var (raw, rawId) := SignRecoverable(c, d, k, z);
            Lifts(c, raw, rawId, Mul(c, k, c.g))
  {
    var point := Mul(c, k, c.g);
    ModOnce(k, c.n);
    OrderOf(c, k, c.g);
    assert Points(point, point, point);
    ModOnce(c.xOf(point), c.n);
  }

  lemma InvCommutes<P(!new)>(c: Curve<P>, r: nat, p: P)
    requires IsGroup(c) && OddPrimeOrder(c) && 0 < r < c.n
    ensures Mul(c, c.inv(r), Mul(c, r, p)) == p
  {
    MulMul(c, c.inv(r), r, p);
    MulMul(c, r, c.inv(r), p);
    InvCancels(c, r, p);
    assert c.inv(r) * r == r * c.inv(r);
  }

  /** `sR = mG` when `s = k^-1 m` and `R = kG`. */
  lemma NonceCancels<P(!new)>(c: Curve<P>, s: nat, k: nat, m: nat)
    requires IsGroup(c) && OddPrimeOrder(c) && 0 < k < c.n
    requires s == (c.inv(k) * m) % c.n
    ensures Mul(c, s, Mul(c, k, c.g)) == Mul(c, m, c.g)
  {
    var point := Mul(c, k, c.g);
    MulMod(c, c.inv(k) * m, point);
    MulMul(c, c.inv(k) * m, k, c.g);
    assert c.inv(k) * m * k == k * (c.inv(k) * m);
    MulMul(c, k, c.inv(k) * m, c.g);
    MulMul(c, c.inv(k), m, c.g);
    InvCancels(c, k, Mul(c, m, c.g));
  }

  lemma RawKey<P(!new)>(c: Curve<P>, d: nat, k: nat, z: nat)
    requires IsCurve(c) && 0 < k < c.n
    requires InRange(c, SignRecoverable(c, d, k, z).0)
    ensures KeyFrom(c, z, SignRecoverable(c, d, k, z).0, Mul(c, k, c.g)) == Mul(c, d, c.g)
  {
    var raw := SignRecoverable(c, d, k, z).0;
    var r, m := raw.r, raw.r * d;
    NonceCancels(c, raw.s, k, z + m);
    MulAdd(c, z, m, c.g);
    var zG, mG := Mul(c, z, c.g), Mul(c, m, c.g);
    Laws(c, zG, mG, mG);
    Laws(c, mG, zG, c.neg(zG));
    Laws(c, zG, zG, zG);
    Laws(c, mG, mG, mG);
    MulMul(c, r, d, c.g);
    InvCommutes(c, r, Mul(c, d, c.g));
  }

  /** `sign_prehash`: whatever nonce is drawn, a signature that is not refused for
      a zero component is low-S and recovers the signer's own public key. */
  lemma SignedRecoversSigner<P(!new)>(c: Curve<P>, d: nat, k: nat, z: nat)
    requires IsCurve(c) && 0 < k < c.n
    requires InRange(c, SignRecoverable(c, d, k, z).0)
    ensures var (raw, rawId) := SignRecoverable(c, d, k, z);
            var (sig, recid) := Normalize(c, raw, rawId);
            && sig.s <= c.n / 2
            && Recover(c, z, sig, recid) == Some(Mul(c, d, c.g))
  {
    var (raw, rawId) := SignRecoverable(c, d, k, z);
    RawLifts(c, d, k, z);
    RawKey(c, d, k, z);
    RecoverIs(c, z, raw, rawId, Mul(c, k, c.g));
    NormalizeKeepsRecovery(c, z, raw, rawId);
  }

  // ----- the recovery byte --------------------------------------------------

  datatype VFormat = RawV | EvmV

  const EVM_RECOVERY_ID_OFFSET: int := 27

  function ConvertV(format: VFormat, rawV: byte): byte
    requires rawV < 4
  {
    match format
    case RawV => rawV
    case EvmV => rawV + EVM_RECOVERY_ID_OFFSET
  }

  /** The EVM form is 27 or 28, as `ecrecover` demands, exactly when x was not
      reduced; otherwise it is 29 or 30. */
  lemma EvmVRange(recid: RecoveryId)
    ensures var v := ConvertV(EvmV, recid.ToByte());
            && (v == 27 || v == 28 <==> !recid.xReduced)
            && (v == 29 || v == 30 <==> recid.xReduced)
            && (v % 2 == 0 <==> recid.yOdd)
  {
  }

  /** The recovery byte, spelled out: bit 0 the parity of y, bit 1 the reduction of x, and
      27 more in the EVM form. */
  lemma RecoveryByte(format: VFormat, recid: RecoveryId)
    ensures ConvertV(format, recid.ToByte())
         == (if recid.yOdd then 1 else 0) + (if recid.xReduced then 2 else 0) + (if format.EvmV? then 27 else 0)
  {
  }

  /** The format and recovery id a byte stands for: the two ranges are disjoint. */
  function ReadV(v: byte): (r: Option<(VFormat, RecoveryId)>)
    ensures forall format: VFormat, recid: RecoveryId ::
              ConvertV(format, recid.ToByte()) == v <==> r == Some((format, recid))
  {
    if v < 4 then Some((RawV, RecoveryId(v % 2 == 1, v >= 2)))
    else if EVM_RECOVERY_ID_OFFSET <= v < EVM_RECOVERY_ID_OFFSET + 4 then
      Some((EvmV, RecoveryId(v % 2 == 0, v >= EVM_RECOVERY_ID_OFFSET + 2)))
    else None
  }

  // ----- the hex form -------------------------------------------------------

  function SignatureBytes(sig: Signature, v: byte): Bytes {
    BigEndian(sig.r, 32) + (BigEndian(sig.s, 32) + [v])
  }

  /** How a caller reads the hex form back. */
  function ReadSignature(text: Bytes): Option<(Signature, byte)> {
    var bytes :- Decode(text);
    if |bytes| != 65 then None
    else Some((Signature(BigEndianValue(bytes[..32]), BigEndianValue(bytes[32..64])), bytes[64]))
  }

  lemma FieldsOf(r: Bytes, s: Bytes, v: byte)
    requires |r| == |s| == 32
    ensures var bytes := r + (s + [v]);
            |bytes| == 65 && bytes[..32] == r && bytes[32..64] == s && bytes[64] == v
  {
  }

  lemma SignatureReads(r: Bytes, s: Bytes, v: byte)
    requires |r| == |s| == 32
    ensures ReadSignature(Encode(r + (s + [v]))) == Some((Signature(BigEndianValue(r), BigEndianValue(s)), v))
  {
    hide Encode, Decode, BigEndianValue;
    DecodeEncode(r + (s + [v]));
    FieldsOf(r, s, v);
  }

  /** The bytes of a signature once normalised, and how they read. */
  lemma SignedBytes<P>(c: Curve<P>, sig: Signature, recid: RecoveryId, format: VFormat)
    requires InRange(c, sig) && c.n <= Pow256(32)
    ensures var (low, id) := Normalize(c, sig, recid);
            var bytes := SignatureBytes(low, ConvertV(format, id.ToByte()));
            && Decode(Encode(bytes)) == Some(bytes) && |bytes| == 65
            && BigEndianValue(bytes[..32]) == sig.r
            && BigEndianValue(bytes[32..64]) == (if sig.s > c.n / 2 then c.n - sig.s else sig.s)
            && bytes[64] == (if recid.yOdd != (sig.s > c.n / 2) then 1 else 0) + (if recid.xReduced then 2 else 0)
                            + (if format.EvmV? then 27 else 0)
  {
    var (low, id) := Normalize(c, sig, recid);
    var v := ConvertV(format, id.ToByte());
    hide Decode, Encode, BigEndian, BigEndianValue, Pow256;
    DecodeEncode(SignatureBytes(low, v));
    BigEndianReads(low.r, 32);
    BigEndianReads(low.s, 32);
    FieldsOf(BigEndian(low.r, 32), BigEndian(low.s, 32), v);
  }

  /** 130 hex digits: r, s and the recovery byte. */
  method SignPrehashToHex<P>(c: Curve<P>, sig: Signature, recid: RecoveryId, format: VFormat) returns (text: Bytes)
    requires InRange(c, sig) && c.n <= Pow256(32)
    ensures |text| == 130
    ensures var (low, id) := Normalize(c, sig, recid);
            text == Encode(SignatureBytes(low, ConvertV(format, id.ToByte())))
  {
    hide Pow256, BigEndian;
    var (low, id) := Normalize(c, sig, recid);
    var recidByte := ConvertV(format, id.ToByte());
    var result: Bytes := [];
    result := result + (BigEndian(low.r, 32) + BigEndian(low.s, 32));
    result := result + [recidByte];
    assert result == SignatureBytes(low, recidByte);
    text := Encode(result);
  }

  /** Nothing is lost in the hex form: signature, format and recovery id come back. */
  lemma HexFormReads<P>(c: Curve<P>, sig: Signature, recid: RecoveryId, format: VFormat)
    requires InRange(c, sig) && c.n <= Pow256(32)
    ensures var v := ConvertV(format, recid.ToByte());
            ReadSignature(Encode(SignatureBytes(sig, v))) == Some((sig, v)) && ReadV(v) == Some((format, recid))
  {
    hide Encode, Decode, BigEndian, BigEndianValue, Pow256, ReadSignature;
    BigEndianReads(sig.r, 32);
    BigEndianReads(sig.s, 32);
    SignatureReads(BigEndian(sig.r, 32), BigEndian(sig.s, 32), ConvertV(format, recid.ToByte()));
  }

  // ----- the laws can be met ------------------------------------------------

  datatype Three = Zero | One | Two

  function Plus(a: Three, b: Three): Three {
    match a
    case Zero => b
    case One => (match b case Zero => One case One => Two case Two => Zero)
    case Two => (match b case Zero => Two case One => Zero case Two => One)
  }

  function Minus(a: Three): Three {
    match a
    case Zero => Zero
    case One => Two
    case Two => One
  }

  /** The smallest group with coordinates of the required kind. */
  function Toy(): Curve<Three> {
    Curve(3, Zero, One, Plus, Minus, (a: Three) => if a.Zero? then 0 else 1, (a: Three) => a.One?, (r: nat) => r)
  }

  lemma {:induction false} ToyMul(k: nat, p: Three)
    ensures Mul(Toy(), k, p) == if k % 3 == 0 then Zero else if k % 3 == 1 then p else Plus(p, p)
  {
    if k > 0 {
      ToyMul(k - 1, p);
    }
  }

  lemma PlusCommutes(a: Three, b: Three)
    ensures Plus(a, b) == Plus(b, a)
  {
    match a {
      case Zero => match b { case Zero => case One => case Two => }
      case One => match b { case Zero => case One => case Two => }
      case Two => match b { case Zero => case One => case Two => }
    }
  }

  /** Three times `One` is `Zero`, so it is enough to add `One` to the left. */
  lemma PlusOne(b: Three, d: Three)
    ensures Plus(Plus(One, b), d) == Plus(One, Plus(b, d))
  {
    match b {
      case Zero => match d { case Zero => case One => case Two => }
      case One => match d { case Zero => case One => case Two => }
      case Two => match d { case Zero => case One => case Two => }
    }
  }

  lemma PlusAssociates(a: Three, b: Three, d: Three)
    ensures Plus(Plus(a, b), d) == Plus(a, Plus(b, d))
  {
    match a {
      case Zero =>
      case One => PlusOne(b, d);
      case Two =>
        assert Plus(Two, b) == Plus(One, Plus(One, b)) && Plus(Two, Plus(b, d)) == Plus(One, Plus(One, Plus(b, d)));
        hide Plus;
        PlusOne(Plus(One, b), d);
        PlusOne(b, d);
    }
  }

  lemma ToyIsGroup()
    ensures IsGroup(Toy())
  {
    assert forall a: Three :: Plus(a, Zero) == a && Plus(a, Minus(a)) == Zero;
    forall a: Three, b: Three, d: Three
      ensures Plus(a, b) == Plus(b, a) && Plus(Plus(a, b), d) == Plus(a, Plus(b, d))
    {
      PlusCommutes(a, b);
      PlusAssociates(a, b, d);
    }
    hide Plus, Minus;
  }

  lemma ToyOrder()
    ensures OddPrimeOrder(Toy())
  {
    forall k: nat, p: Three | p != Zero
      ensures Mul(Toy(), k, p) == Zero <==> k % 3 == 0
    {
      ToyMul(k, p);
    }
    hide Mul;
  }

  /** So nothing above is proved from laws that contradict each other. */
  lemma ToyIsCurve()
    ensures IsCurve(Toy())
  {
    ToyIsGroup();
    ToyOrder();
    assert HasCoordinates(Toy());
  }
}
