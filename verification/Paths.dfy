/** Object paths: how the verifier names what it stores and how the audit tool
    finds it again. */
module Paths {
  import opened Common
  import opened Hex

  const SLASH: byte := 47

  /** `n.to_string()`, without leading zeros. */
  function Decimal(n: nat): (text: Bytes)
    ensures |text| >= 1 && (|text| > 1 ==> text[0] != '0' as int)
    ensures forall i :: 0 <= i < |text| ==> 48 <= text[i] <= 57
  {
    if n < 10 then [48 + n] else Decimal(n / 10) + [48 + n % 10]
  }

  /** The value of a run of decimal digits. */
  function DigitsValue(text: Bytes): (v: Option<nat>) {
    if text == [] then Some(0)
    else
      var last := text[|text| - 1];
      var high :- DigitsValue(text[..|text| - 1]);
      if 48 <= last <= 57 then Some(10 * high + (last - 48)) else None
  }

  /** `text.parse::<u32>()`: an optional plus sign, at least one digit, no overflow. */
  function ParseU32(text: Bytes): (r: Option<u32>) {
    var digits := if text != [] && text[0] == 43 then text[1..] else text;
    if digits == [] then None
    else
      var v :- DigitsValue(digits);
      if v < TWO_32 then Some(v) else None
  }

  lemma {:induction false} DecimalValue(n: nat)
    ensures DigitsValue(Decimal(n)) == Some(n)
  {
    if n >= 10 {
      DecimalValue(n / 10);
      assert Decimal(n)[..|Decimal(n)| - 1] == Decimal(n / 10);
    } else {
      assert Decimal(n)[..0] == [];
    }
  }

  /** A chain id survives being printed and parsed, so the writer's fallback to
      chain 0 is never taken. */
  lemma ParsePrinted(n: u32)
    ensures ParseU32(Decimal(n)) == Some(n)
  {
    DecimalValue(n);
  }

  function Zeros(k: nat): (text: Bytes)
    ensures |text| == k
  {
    if k == 0 then [] else ['0' as int] + Zeros(k - 1)
  }

  lemma {:induction false} ZerosSnoc(k: nat)
    ensures Zeros(k) + ['0' as int] == Zeros(k + 1)
  {
    if k > 0 {
      ZerosSnoc(k - 1);
    }
  }

  lemma {:induction false} ZerosValue(k: nat)
    ensures DigitsValue(Zeros(k)) == Some(0)
  {
    if k > 0 {
      ZerosSnoc(k - 1);
      ZerosValue(k - 1);
      assert Zeros(k)[..k - 1] == Zeros(k - 1);
    }
  }

  lemma {:induction false} PaddedValue(k: nat, n: nat)
    ensures DigitsValue(Zeros(k) + Decimal(n)) == Some(n)
  {
    var text := Zeros(k) + Decimal(n);
    if n < 10 {
      ZerosValue(k);
      assert text[..|text| - 1] == Zeros(k);
    } else {
      PaddedValue(k, n / 10);
      assert text[..|text| - 1] == Zeros(k) + Decimal(n / 10);
    }
  }

  lemma DecimalSnoc(high: nat, last: byte)
    requires high > 0 && 48 <= last <= 57
    ensures Decimal(10 * high + (last - 48)) == Decimal(high) + [last]
  {
  }

  lemma OneDigitMore(k: nat, high: nat, last: byte)
    requires 48 <= last <= 57
    ensures Zeros(k) + Decimal(high) + [last]
         == (if high == 0 then Zeros(k + 1) else Zeros(k)) + Decimal(10 * high + (last - 48))
  {
    if high == 0 {
      ZerosSnoc(k);
    } else {
      hide Decimal;
      DecimalSnoc(high, last);
      ConcatAssoc(Zeros(k), Decimal(high), [last]);
    }
  }

  /** Digits with a value are its decimal form, with zeros in front. */
  lemma {:induction false} DigitsArePadded(digits: Bytes, n: nat) returns (k: nat)
    requires digits != [] && DigitsValue(digits) == Some(n)
    ensures digits == Zeros(k) + Decimal(n)
  {
    var init, last := digits[..|digits| - 1], digits[|digits| - 1];
    assert digits == init + [last];
    if init == [] {
      k := 0;
    } else {
      var high := DigitsValue(init).value;
      k := DigitsArePadded(init, high);
      OneDigitMore(k, high, last);
      k := if high == 0 then k + 1 else k;
    }
  }

  lemma NoPlus(k: nat, n: nat)
    ensures (Zeros(k) + Decimal(n))[0] != '+' as int
  {
    assert k > 0 ==> (Zeros(k) + Decimal(n))[0] == Zeros(k)[0];
  }

  /** What the parser reads as `n`: its decimal form, with any zeros in front and at
      most one plus sign before these. */
  lemma ParsesExactly(text: Bytes, n: u32)
    ensures ParseU32(text) == Some(n)
       <==> exists k :: text == Zeros(k) + Decimal(n) || text == Ascii("+") + (Zeros(k) + Decimal(n))
  {
    var digits := if text != [] && text[0] == 43 then text[1..] else text;
    assert text == digits || text == Ascii("+") + digits;
    if ParseU32(text) == Some(n) {
      var k := DigitsArePadded(digits, n);
    }
    hide Decimal, Zeros, DigitsValue;
    if k :| text == Zeros(k) + Decimal(n) || text == Ascii("+") + (Zeros(k) + Decimal(n)) {
      NoPlus(k, n);
      PaddedValue(k, n);
      assert digits == Zeros(k) + Decimal(n);
    }
  }

  // ----- building paths -----------------------------------------------------

  const WRITTEN_PREFIX := Ascii("cofhe/v2")
  const OLD_PREFIX := Ascii("cofhe/v1")

  /** The prefixes an object is looked up under, newest first. */
  const STORAGE_PREFIXES := [WRITTEN_PREFIX, OLD_PREFIX]

  const CTS_TYPE := Ascii("verified-inputs")
  const PROOFS_TYPE := Ascii("verification-proofs")

  const CHAIN_PART := Ascii("/chain/")
  const ZONE_PART := Ascii("/security-zone/")

  function BasePath(prefix: Bytes, chainId: u32, zone: byte, objectType: Bytes): Bytes {
    prefix + (CHAIN_PART + (Decimal(chainId) + (ZONE_PART + (Decimal(zone) + ([SLASH] + objectType)))))
  }

  const SHARD_PREFIX_LENGTH := 4

  /** The first four characters of the key, or the whole of a shorter one. */
  function Shard(key: Bytes): Bytes {
    if |key| >= SHARD_PREFIX_LENGTH then key[..SHARD_PREFIX_LENGTH] else key
  }

  /** `parts.join("/")` */
  function Join(parts: seq<Bytes>): Bytes {
    if parts == [] then []
    else if |parts| == 1 then parts[0]
    else parts[0] + ([SLASH] + Join(parts[1..]))
  }

  /** Slicing a Rust string between two bytes of one character panics. */
  predicate CharBoundary(s: Bytes, at: nat) {
    at < |s| ==> !(0x80 <= s[at] <= 0xBF)
  }

  function InFront(part: Option<Bytes>, rest: Bytes): Bytes {
    match part
    case None => rest
    case Some(p) => p + ([SLASH] + rest)
  }

  function ObjectKey(key: Bytes, basePath: Option<Bytes>, dynamicPath: Option<Bytes>): Bytes {
    var clean := Strip0x(key);
    InFront(basePath, InFront(dynamicPath, Shard(clean) + ([SLASH] + clean)))
  }

  function PartOf(part: Option<Bytes>): seq<Bytes> {
    if part.Some? then [part.value] else []
  }

  lemma JoinParts(basePath: Option<Bytes>, dynamicPath: Option<Bytes>, last: Bytes)
    ensures Join(PartOf(basePath) + PartOf(dynamicPath) + [last]) == InFront(basePath, InFront(dynamicPath, last))
  {
    var tail := PartOf(dynamicPath) + [last];
    assert Join([last]) == last;
    if dynamicPath.Some? {
      assert tail[1..] == [last];
    }
    assert Join(tail) == InFront(dynamicPath, last);
    var all := PartOf(basePath) + PartOf(dynamicPath) + [last];
    if basePath.Some? {
      assert all[1..] == tail;
    } else {
      assert all == tail;
    }
  }

  method GenerateObjectKey(key: Bytes, basePath: Option<Bytes>, dynamicPath: Option<Bytes>) returns (path: Bytes)
    requires CharBoundary(Strip0x(key), SHARD_PREFIX_LENGTH)
    ensures path == ObjectKey(key, basePath, dynamicPath)
  {
    var cleanKey := Strip0x(key);
    var shardedPath;
    if |cleanKey| >= SHARD_PREFIX_LENGTH {
      var prefix := cleanKey[0..SHARD_PREFIX_LENGTH];
      shardedPath := prefix + ([SLASH] + cleanKey);
    } else {
      shardedPath := cleanKey + ([SLASH] + cleanKey);
    }
    var pathParts: seq<Bytes> := [];
    if basePath.Some? {
      pathParts := pathParts + [basePath.value];
    }
    if dynamicPath.Some? {
      pathParts := pathParts + [dynamicPath.value];
    }
    pathParts := pathParts + [shardedPath];
    path := Join(pathParts);
    assert pathParts == PartOf(basePath) + PartOf(dynamicPath) + [shardedPath];
    JoinParts(basePath, dynamicPath, shardedPath);
  }

  /** Where the object of one type for `key` lives. */
  function ObjectPath(prefix: Bytes, chainId: u32, zone: byte, objectType: Bytes, key: Bytes): Bytes {
    ObjectKey(key, Some(BasePath(prefix, chainId, zone, objectType)), None)
  }

  // ----- distinct objects, distinct paths -----------------------------------

  predicate NoSlash(s: Bytes) {
    SLASH !in s
  }

  function FirstSlash(s: Bytes): nat {
    if s == [] || s[0] == SLASH then 0 else 1 + FirstSlash(s[1..])
  }

  lemma {:induction false} FirstSlashAt(a: Bytes, x: Bytes)
    requires NoSlash(a)
    ensures FirstSlash(a + ([SLASH] + x)) == |a|
  {
    if a != [] {
      FirstSlashAt(a[1..], x);
      assert (a + ([SLASH] + x))[1..] == a[1..] + ([SLASH] + x);
    }
  }

  lemma CutAtSlash(a: Bytes, x: Bytes, b: Bytes, y: Bytes)
    requires NoSlash(a) && NoSlash(b)
    requires a + ([SLASH] + x) == b + ([SLASH] + y)
    ensures a == b && x == y
  {
    FirstSlashAt(a, x);
    FirstSlashAt(b, y);
    SplitAgree(a, [SLASH] + x, b, [SLASH] + y);
    SplitAgree([SLASH], x, [SLASH], y);
  }

  /** A number followed by a slash can be told from what follows. */
  lemma CutAfterDecimal(m: nat, x: Bytes, n: nat, y: Bytes)
    requires Decimal(m) + ([SLASH] + x) == Decimal(n) + ([SLASH] + y)
    ensures m == n && x == y
  {
    CutAtSlash(Decimal(m), x, Decimal(n), y);
    DecimalValue(m);
    DecimalValue(n);
  }

  /** The path as one right-nested concatenation. */
  lemma PathShape(prefix: Bytes, chainId: u32, zone: byte, objectType: Bytes, key: Bytes)
    ensures var tail := objectType + ([SLASH] + (Shard(Strip0x(key)) + ([SLASH] + Strip0x(key))));
            var zoned := Decimal(zone) + ([SLASH] + tail);
            && ObjectPath(prefix, chainId, zone, objectType, key)
               == prefix + (CHAIN_PART + (Decimal(chainId) + ([SLASH] + (ZONE_PART[1..] + zoned))))
  {
    var clean := Strip0x(key);
    var file := [SLASH] + (Shard(clean) + ([SLASH] + clean));
    var tail := objectType + file;
    var zoned := Decimal(zone) + ([SLASH] + tail);
    assert ZONE_PART == [SLASH] + ZONE_PART[1..];
    var p1 := [SLASH] + objectType;
    assert p1 + file == [SLASH] + tail;
    var p2 := Decimal(zone) + p1;
    assert p2 + file == zoned;
    var p3 := ZONE_PART + p2;
    assert p3 + file == [SLASH] + (ZONE_PART[1..] + zoned);
    var p4 := Decimal(chainId) + p3;
    assert p4 + file == Decimal(chainId) + (p3 + file);
    var p5 := CHAIN_PART + p4;
    assert p5 + file == CHAIN_PART + (p4 + file);
    assert (prefix + p5) + file == prefix + (p5 + file);
  }

  lemma PathPieces(prefix: Bytes, chainId: u32, zone: byte, objectType: Bytes, shard: Bytes, clean: Bytes)
    ensures BasePath(prefix, chainId, zone, objectType) + ([SLASH] + (shard + ([SLASH] + clean)))
         == (prefix + CHAIN_PART) + Decimal(chainId) + ZONE_PART + Decimal(zone) + ([SLASH] + objectType + [SLASH])
            + shard + [SLASH] + clean
  {
    var chain, number := Decimal(chainId), Decimal(zone);
    hide Decimal;
    assert BasePath(prefix, chainId, zone, objectType)
        == (prefix + CHAIN_PART) + chain + ZONE_PART + number + ([SLASH] + objectType);
  }

  lemma PrefixLiterals()
    ensures WRITTEN_PREFIX + CHAIN_PART == Ascii("cofhe/v2/chain/")
    ensures OLD_PREFIX + CHAIN_PART == Ascii("cofhe/v1/chain/")
  {
  }

  lemma ProofsLiteral()
    ensures [SLASH] + PROOFS_TYPE + [SLASH] == Ascii("/verification-proofs/")
  {
  }

  lemma PartLiterals()
    ensures [SLASH] + CTS_TYPE + [SLASH] == Ascii("/verified-inputs/")
    ensures ZONE_PART == Ascii("/security-zone/")
  {
  }

  /** A path spelled out, under the newest prefix or the previous one and for either kind
      of object: the chain and the zone in decimal, the first four characters of the key
      (or a shorter one whole), and the key. */
  lemma PathSpelled(newest: bool, proofs: bool, chainId: u32, zone: byte, key: Bytes)
    ensures var clean := Strip0x(key);
            ObjectPath(if newest then WRITTEN_PREFIX else OLD_PREFIX, chainId, zone,
                       if proofs then PROOFS_TYPE else CTS_TYPE, key)
            == Ascii(if newest then "cofhe/v2/chain/" else "cofhe/v1/chain/") + Decimal(chainId)
            + Ascii("/security-zone/") + Decimal(zone)
            + Ascii(if proofs then "/verification-proofs/" else "/verified-inputs/")
            + (if |clean| >= 4 then clean[..4] else clean) + [47] + clean
  {
    PrefixLiterals();
    PartLiterals();
    ProofsLiteral();
    hide Decimal, Strip0x, Ascii;
    var prefix, objectType :=
      if newest then WRITTEN_PREFIX else OLD_PREFIX, if proofs then PROOFS_TYPE else CTS_TYPE;
    PathPieces(prefix, chainId, zone, objectType, Shard(Strip0x(key)), Strip0x(key));
  }

  /** Distinct prefix, chain, zone, object type or key give distinct paths. */
  lemma PathsDistinct(prefix1: Bytes, chain1: u32, zone1: byte, type1: Bytes, key1: Bytes,
                      prefix2: Bytes, chain2: u32, zone2: byte, type2: Bytes, key2: Bytes)
    requires |prefix1| == |prefix2|
    requires NoSlash(type1) && NoSlash(type2) && NoSlash(Strip0x(key1)) && NoSlash(Strip0x(key2))
    ensures ObjectPath(prefix1, chain1, zone1, type1, key1) == ObjectPath(prefix2, chain2, zone2, type2, key2)
       <==> && prefix1 == prefix2 && chain1 == chain2 && zone1 == zone2 && type1 == type2
            && Strip0x(key1) == Strip0x(key2)
  {
    if ObjectPath(prefix1, chain1, zone1, type1, key1) == ObjectPath(prefix2, chain2, zone2, type2, key2) {
      var clean1, clean2 := Strip0x(key1), Strip0x(key2);
      var file1, file2 := Shard(clean1) + ([SLASH] + clean1), Shard(clean2) + ([SLASH] + clean2);
      var tail1, tail2 := type1 + ([SLASH] + file1), type2 + ([SLASH] + file2);
      var zoned1, zoned2 := Decimal(zone1) + ([SLASH] + tail1), Decimal(zone2) + ([SLASH] + tail2);
      var chained1 := Decimal(chain1) + ([SLASH] + (ZONE_PART[1..] + zoned1));
      var chained2 := Decimal(chain2) + ([SLASH] + (ZONE_PART[1..] + zoned2));
      PathShape(prefix1, chain1, zone1, type1, key1);
      PathShape(prefix2, chain2, zone2, type2, key2);
      SplitAgree(prefix1, CHAIN_PART + chained1, prefix2, CHAIN_PART + chained2);
      SplitAgree(CHAIN_PART, chained1, CHAIN_PART, chained2);
      CutAfterDecimal(chain1, ZONE_PART[1..] + zoned1, chain2, ZONE_PART[1..] + zoned2);
      SplitAgree(ZONE_PART[1..], zoned1, ZONE_PART[1..], zoned2);
      CutAfterDecimal(zone1, tail1, zone2, tail2);
      CutAtSlash(type1, file1, type2, file2);
      CutAtSlash(Shard(clean1), clean1, Shard(clean2), clean2);
    }
  }

  lemma {:induction false} HexHasNoSlash(text: Bytes)
    requires Decode(text).Some?
    ensures NoSlash(text)
    ensures forall i :: 0 <= i < |text| ==> text[i] < 0x80
  {
    if text != [] {
      HexHasNoSlash(text[2..]);
      assert text == [text[0], text[1]] + text[2..];
    }
  }

  lemma TypesDiffer()
    ensures CTS_TYPE != PROOFS_TYPE
    ensures NoSlash(CTS_TYPE) && NoSlash(PROOFS_TYPE)
    ensures WRITTEN_PREFIX != OLD_PREFIX && |WRITTEN_PREFIX| == |OLD_PREFIX|
  {
    assert |CTS_TYPE| != |PROOFS_TYPE|;
    assert WRITTEN_PREFIX[7] == '2' as int && OLD_PREFIX[7] == '1' as int;
    assert SLASH == '/' as int;
  }
}
