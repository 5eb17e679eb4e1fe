/** Hexadecimal text as the `hex` crate reads and writes it, and the canonical
    spelling of a contract address. */
module Hex {
  import opened Common

  /** Both cases are read; anything else is refused. */
  function HexValue(c: byte): (v: Option<int>)
    ensures v.Some? ==> 0 <= v.value < 16
  {
    if 48 <= c <= 57 then Some(c - 48)
    else if 97 <= c <= 102 then Some(c - 87)
    else if 65 <= c <= 70 then Some(c - 55)
    else None
  }

  function HexDigit(n: int): (c: byte)
    requires 0 <= n < 16
    ensures HexValue(c) == Some(n)
  {
    if n < 10 then 48 + n else 87 + n
  }

  predicate LowerHexDigit(c: byte) {
    48 <= c <= 57 || 97 <= c <= 102
  }

  function Encode(bs: Bytes): (text: Bytes)
    ensures |text| == 2 * |bs|
    ensures forall i :: 0 <= i < |text| ==> LowerHexDigit(text[i])
  {
    if bs == [] then [] else [HexDigit(bs[0] / 16), HexDigit(bs[0] % 16)] + Encode(bs[1..])
  }

  /** `None` on an odd length or on any character that is not a hex digit. */
  function Decode(text: Bytes): (r: Option<Bytes>)
    ensures r.Some? ==> |text| == 2 * |r.value|
  {
    if text == [] then Some([])
    else if |text| == 1 then None
    else
      var hi :- HexValue(text[0]);
      var lo :- HexValue(text[1]);
      var rest :- Decode(text[2..]);
      Some([16 * hi + lo] + rest)
  }

  lemma DigitIs(n: int)
    requires 0 <= n < 16
    ensures HexDigit(n) == "0123456789abcdef"[n] as int
  {
  }

  /** Every byte becomes its high and its low digit, in lowercase. */
  lemma {:induction false} EncodeAt(bs: Bytes, i: nat)
    requires i < |bs|
    ensures Encode(bs)[2 * i] == "0123456789abcdef"[bs[i] / 16] as int
    ensures Encode(bs)[2 * i + 1] == "0123456789abcdef"[bs[i] % 16] as int
  {
    DigitIs(bs[i] / 16);
    DigitIs(bs[i] % 16);
    if i > 0 {
      EncodeAt(bs[1..], i - 1);
    }
  }

  lemma {:induction false} DecodeEncode(bs: Bytes)
    ensures Decode(Encode(bs)) == Some(bs)
  {
    if bs != [] {
      DecodeEncode(bs[1..]);
      assert Encode(bs)[2..] == Encode(bs[1..]);
      assert [16 * (bs[0] / 16) + bs[0] % 16] + bs[1..] == bs;
    }
  }

  /** A lowercase text that decodes is the encoding of what it decodes to. */
  lemma {:induction false} EncodeDecode(text: Bytes)
    requires Decode(text).Some?
    requires forall i :: 0 <= i < |text| ==> LowerHexDigit(text[i])
    ensures Encode(Decode(text).value) == text
  {
    if text != [] {
      var hi, lo := HexValue(text[0]).value, HexValue(text[1]).value;
      var rest := Decode(text[2..]).value;
      EncodeDecode(text[2..]);
      assert (16 * hi + lo) / 16 == hi && (16 * hi + lo) % 16 == lo;
      assert Decode(text).value[1..] == rest;
      assert text == [text[0], text[1]] + text[2..];
    }
  }

  /** The digits `A` to `F`, and nothing else, in lowercase. */
  predicate IsLowered(text: Bytes, low: Bytes) {
    && |low| == |text|
    && forall i :: 0 <= i < |text| ==> low[i] == if 65 <= text[i] <= 70 then text[i] + 32 else text[i]
  }

  lemma {:induction false} DecodeLowered(text: Bytes, low: Bytes)
    requires IsLowered(text, low)
    ensures Decode(low) == Decode(text)
    ensures Decode(text).Some? ==> forall i :: 0 <= i < |low| ==> LowerHexDigit(low[i])
  {
    if |text| > 1 {
      assert IsLowered(text[2..], low[2..]);
      DecodeLowered(text[2..], low[2..]);
      assert low == low[..2] + low[2..];
    }
  }

  /** Spelling does not matter: a text is read as `bs` exactly if it is the encoding of
      `bs` once its letters are in lowercase. */
  lemma ReadsAnyCase(text: Bytes, low: Bytes, bs: Bytes)
    requires IsLowered(text, low)
    ensures low == Encode(bs) <==> Decode(text) == Some(bs)
  {
    DecodeLowered(text, low);
    DecodeEncode(bs);
    if Decode(text) == Some(bs) {
      EncodeDecode(low);
    }
  }

  const PREFIX_0X: Bytes := [48, 120]

  /** `s.strip_prefix("0x").unwrap_or(s)` */
  function Strip0x(s: Bytes): Bytes {
    if |s| >= 2 && s[..2] == PREFIX_0X then s[2..] else s
  }

  function To0x(bs: Bytes): (text: Bytes)
    ensures Strip0x(text) == Encode(bs)
  {
    var text := PREFIX_0X + Encode(bs);
    assert text[..2] == PREFIX_0X && text[2..] == Encode(bs);
    text
  }

  /** The 20 bytes a client's spelling stands for, if it stands for any. */
  function AddressBytes(raw: Bytes): (r: Option<Bytes>) {
    var bytes :- Decode(Strip0x(raw));
    if |bytes| == 20 then Some(bytes) else None
  }

  function CanonicalContractAddress(raw: Bytes): (r: Option<Bytes>) {
    var bytes :- Decode(Strip0x(raw));
    if |bytes| != 20 then None else Some(To0x(bytes))
  }

  /** The canonical form exists exactly for spellings of 20 bytes, keeps those
      bytes, and is its own canonical form. */
  lemma CanonicalKeepsBytes(raw: Bytes)
    ensures CanonicalContractAddress(raw).Some? <==> AddressBytes(raw).Some?
    ensures var c := CanonicalContractAddress(raw);
            c.Some? ==> && |c.value| == 42
                        && AddressBytes(c.value) == AddressBytes(raw)
                        && CanonicalContractAddress(c.value) == c
                        && forall i :: 2 <= i < 42 ==> LowerHexDigit(c.value[i])
  {
    var c := CanonicalContractAddress(raw);
    if c.Some? {
      DecodeEncode(AddressBytes(raw).value);
    }
  }

  lemma StripsPrefix(text: Bytes)
    ensures Strip0x(Ascii("0x") + text) == text
    ensures (forall i :: 0 <= i < |text| ==> text[i] != 'x' as int) ==> Strip0x(text) == text
  {
    assert (Ascii("0x") + text)[..2] == PREFIX_0X && (Ascii("0x") + text)[2..] == text;
    assert |text| >= 2 ==> text[..2][1] == text[1];
  }

  lemma PrefixedText(bs: Bytes)
    ensures To0x(bs) == Ascii("0x") + Encode(bs)
  {
  }

  /** Every spelling of an address, in any case and with `0x` or without, has the one
      canonical form; and what has a canonical form is such a spelling. */
  lemma CanonicalOfSpelling(raw: Bytes, text: Bytes, low: Bytes, address: Address)
    requires raw == text || raw == Ascii("0x") + text
    requires IsLowered(text, low) && low == Encode(address)
    ensures CanonicalContractAddress(raw) == Some(Ascii("0x") + Encode(address))
  {
    ReadsAnyCase(text, low, address);
    assert forall i :: 0 <= i < |text| ==> LowerHexDigit(low[i]);
    StripsPrefix(text);
    PrefixedText(address);
  }

  lemma SpellingOfCanonical(raw: Bytes) returns (text: Bytes, low: Bytes, address: Address)
    requires CanonicalContractAddress(raw).Some?
    ensures raw == text || raw == Ascii("0x") + text
    ensures IsLowered(text, low) && low == Encode(address)
    ensures CanonicalContractAddress(raw) == Some(Ascii("0x") + Encode(address))
  {
    text, address := Strip0x(raw), AddressBytes(raw).value;
    low := seq(|text|, i requires 0 <= i < |text| => if 65 <= text[i] <= 70 then text[i] + 32 else text[i]);
    ReadsAnyCase(text, low, address);
    PrefixedText(address);
    assert raw == text || raw == raw[..2] + text;
  }

  /** Two accepted spellings share a canonical form iff they spell the same 20 bytes. */
  lemma CanonicalAgreesOnBytes(a: Bytes, b: Bytes)
    requires AddressBytes(a).Some? && AddressBytes(b).Some?
    ensures CanonicalContractAddress(a) == CanonicalContractAddress(b) <==> AddressBytes(a) == AddressBytes(b)
  {
    CanonicalKeepsBytes(a);
    CanonicalKeepsBytes(b);
  }
}
