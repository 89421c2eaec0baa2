/** How text identifiers become 32-byte contract arguments, in the browser and in the backend. */
module IdCodec {
  import opened Basics
  import Utf8
  import Hex

  // ---- Browser side ----

  function Nuls(n: nat): string {
    seq(n, _ => '\0')
  }

  /** `padEnd(32, '\0')`: counts UTF-16 units. */
  function PadEnd(s: string): string {
    if Utf8.Utf16Length(s) >= 32 then s else s + Nuls(32 - Utf8.Utf16Length(s))
  }

  function ToBytesN32(s: string): string {
    "0x" + Hex.Encode(Utf8.Encode(PadEnd(s)))
  }

  /** The test `callContract` applies: `0x` (either case) and 64 hex digits. */
  predicate IsWord(s: string) {
    |s| == 66 && s[0] == '0' && (s[1] == 'x' || s[1] == 'X') && Hex.AllHex(s[2..])
  }

  /** `replace('0x', '')`: drops the first occurrence, wherever it is. */
  function DropFirst0x(s: string): string {
    if |s| < 2 then s
    else if s[0] == '0' && s[1] == 'x' then s[2..]
    else [s[0]] + DropFirst0x(s[1..])
  }

  function Zeros(n: nat): string {
    seq(n, _ => '0')
  }

  function PadStart64(s: string): string {
    if |s| >= 64 then s else Zeros(64 - |s|) + s
  }

  function Bytes32ScVal(hex: string): seq<Byte> {
    Hex.DecodePrefix(PadStart64(DropFirst0x(hex)))
  }

  datatype Arg = BytesArg(bytes: seq<Byte>) | AddressArg(text: string) | StringArg(text: string)

  /** The contract argument built from a string. */
  function CallArg(s: string): Arg {
    if IsWord(s) then BytesArg(Bytes32ScVal(s))
    else if Utf8.Utf16Length(s) == 56 && (s[0] == 'G' || s[0] == 'C') then AddressArg(s)
    else StringArg(s)
  }

  predicate IsHexDigit(c: char) {
    '0' <= c <= '9' || 'a' <= c <= 'f' || 'A' <= c <= 'F'
  }

  /** Which argument a string becomes: 32 bytes for `0x` and 64 hex digits, an address for
      56 units starting with G or C, and a string for anything else. */
  lemma ArgumentKinds(s: string)
    ensures CallArg(s).BytesArg? <==>
            |s| == 66 && s[0] == '0' && (s[1] == 'x' || s[1] == 'X') && forall i | 2 <= i < 66 :: IsHexDigit(s[i])
    ensures CallArg(s) == AddressArg(s) <==> |s| > 0 && Utf8.Utf16Length(s) == 56 && (s[0] == 'G' || s[0] == 'C')
    ensures CallArg(s).BytesArg? || CallArg(s) == AddressArg(s) || CallArg(s) == StringArg(s)
  {
    if |s| == 66 {
      Utf8.Lengths(s);
      forall i | 0 <= i < 64 ensures Hex.Value(s[2..][i]).Some? <==> IsHexDigit(s[i + 2]) {}
      if forall i | 2 <= i < 66 :: IsHexDigit(s[i]) {
        forall i | 0 <= i < |s[2..]| ensures Hex.Value(s[2..][i]).Some? {
          assert IsHexDigit(s[i + 2]);
        }
      }
      if IsWord(s) {
        forall i | 2 <= i < 66 ensures IsHexDigit(s[i]) {
          assert s[i] == s[2..][i - 2];
        }
      }
    }
  }

  /** So every account or contract address goes out as an address. */
  lemma AddressIsSentAsAddress(s: string)
    requires |s| == 56 && Utf8.IsAscii(s) && (s[0] == 'G' || s[0] == 'C')
    ensures CallArg(s) == AddressArg(s)
  {
    Utf8.Lengths(s);
  }

  // ---- Backend side ----

  function ZeroExtended(src: seq<Byte>): Bytes32 {
    seq(32, i requires i >= 0 => if i < |src| then src[i] else 0)
  }

  /** Up to 32 bytes are kept and followed by zeros; of more, the first 32 are kept. */
  lemma ZeroExtendedIs(src: seq<Byte>)
    ensures |src| <= 32 ==> ZeroExtended(src) == src + seq(32 - |src|, _ => 0)
    ensures |src| > 32 ==> ZeroExtended(src) == src[..32]
  {
  }

  /** In particular different UUIDs, sixteen bytes each, get different ids. */
  lemma UuidIdsDiffer(a: seq<Byte>, b: seq<Byte>)
    requires |a| == |b| == 16 && ZeroExtended(a) == ZeroExtended(b)
    ensures a == b
  {
    ZeroExtendedIs(a);
    ZeroExtendedIs(b);
    assert ZeroExtended(a)[..16] == a && ZeroExtended(b)[..16] == b;
  }

  method ZeroExtend32(src: seq<Byte>) returns (out: array<Byte>)
    ensures fresh(out)
    ensures out[..] == ZeroExtended(src)
  {
    out := new Byte[32](_ => 0);
    var len := if |src| < 32 then |src| else 32;
    for i := 0 to len
      invariant out.Length == 32
      invariant forall k | 0 <= k < 32 :: out[k] == if k < i then src[k] else 0
    {
      out[i] := src[i];
    }
  }

  datatype Parsed = Parsed(id: Bytes32) | InvalidHex | WrongLength(length: nat)

  function StripPrefix(s: string): string {
    if "0x" <= s then s[2..] else s
  }

  /** Strict parsing: every digit must be hex and there must be exactly 64. */
  function ParseContractId(s: string): Parsed {
    var hex := StripPrefix(s);
    if !Hex.AllHex(hex) || |hex| % 2 == 1 then InvalidHex
    else
      var bytes := Hex.DecodePrefix(hex);
      if |bytes| != 32 then WrongLength(|bytes|) else Parsed(bytes)
  }

  /** `parse_contract_id` copying into its fixed array. */
  method ParseContractIdInto(s: string) returns (r: Parsed, arr: array<Byte>)
    ensures r == ParseContractId(s)
    ensures fresh(arr) && arr.Length == 32
    ensures arr[..] == if r.Parsed? then r.id else seq(32, _ => 0)
  {
    arr := new Byte[32](_ => 0);
    assert arr[..] == seq(32, _ => 0);
    var hex := if |s| >= 2 && s[0] == '0' && s[1] == 'x' then s[2..] else s;
    assert hex == StripPrefix(s);
    if !Hex.AllHex(hex) || |hex| % 2 == 1 { return InvalidHex, arr; }
    var bytes := Hex.DecodePrefix(hex);
    if |bytes| != 32 { return WrongLength(|bytes|), arr; }
    for i := 0 to 32
      invariant arr[..i] == bytes[..i]
    {
      arr[i] := bytes[i];
    }
    assert arr[..] == arr[..32] == bytes;
    r := Parsed(bytes);
  }

  /** Every 32 bytes are read back from their hex text, with the prefix or without. */
  lemma ParsesHexText(id: Bytes32)
    ensures ParseContractId(Hex.Encode(id)) == Parsed(id)
    ensures ParseContractId("0x" + Hex.Encode(id)) == Parsed(id)
  {
    Hex.EncodeIsHex(id);
    Hex.RoundTrip(id);
    assert ("0x" + Hex.Encode(id))[2..] == Hex.Encode(id);
    var second := Hex.Encode(id)[1];
    assert Hex.Value(second).Some? && second != 'x';
  }

  /** What the parser answers, on the digits after an optional `0x`. */
  lemma ParsesExactlyWhen(s: string, d: string)
    requires s == "0x" + d || (s == d && !("0x" <= d))
    ensures
      var hex := forall i | 0 <= i < |d| :: IsHexDigit(d[i]);
      && (ParseContractId(s) == InvalidHex <==> !hex || |d| % 2 == 1)
      && (ParseContractId(s).WrongLength? <==> hex && |d| % 2 == 0 && |d| != 64)
      && (ParseContractId(s).WrongLength? ==> ParseContractId(s).length == |d| / 2)
      && (ParseContractId(s).Parsed? <==> hex && |d| == 64)
  {
    assert StripPrefix(s) == d by {
      if s == "0x" + d { assert s[2..] == d; }
    }
    HexDigits(d);
    if Hex.AllHex(d) && |d| % 2 == 0 { Hex.DecodeLength(d); }
  }

  lemma HexDigits(d: string)
    ensures Hex.AllHex(d) <==> forall i | 0 <= i < |d| :: IsHexDigit(d[i])
  {
    forall i | 0 <= i < |d| ensures Hex.Value(d[i]).Some? <==> IsHexDigit(d[i]) {}
  }

  // ---- Agreement ----

  predicate Fits(s: string) {
    Utf8.IsAscii(s) && |s| <= 32
  }

  lemma {:induction false} NulBytes(n: nat)
    ensures |Utf8.Encode(Nuls(n))| == n
    ensures forall i | 0 <= i < n :: Utf8.Encode(Nuls(n))[i] == 0
  {
    Utf8.EncodeAscii(Nuls(n));
  }

  /** Exactly the ASCII strings of at most 32 characters pad to 32 bytes, and then the
      padding is the backend's zero extension. */
  lemma PaddedLength(s: string)
    ensures |Utf8.Encode(PadEnd(s))| == 32 <==> Fits(s)
    ensures Fits(s) ==> Utf8.Encode(PadEnd(s)) == ZeroExtended(Utf8.Encode(s))
  {
    Utf8.Lengths(s);
    var units := Utf8.Utf16Length(s);
    if units < 32 {
      Utf8.EncodeConcat(s, Nuls(32 - units));
      NulBytes(32 - units);
    }
  }

  /** What is written for any text: its UTF-8 bytes and then a zero byte for each UTF-16
      unit it has fewer than 32. */
  lemma WrittenBytes(s: string)
    ensures
      var missing := if Utf8.Utf16Length(s) < 32 then 32 - Utf8.Utf16Length(s) else 0;
      ToBytesN32(s) == "0x" + Hex.Encode(Utf8.Encode(s) + seq(missing, _ => 0))
  {
    var units := Utf8.Utf16Length(s);
    var missing := if units < 32 then 32 - units else 0;
    Utf8.EncodeConcat(s, Nuls(missing));
    NulBytes(missing);
    assert Utf8.Encode(Nuls(missing)) == seq(missing, _ => 0);
    assert PadEnd(s) == s + Nuls(missing);
  }

  lemma WrittenHex(s: string)
    ensures
      var bytes, word := Utf8.Encode(PadEnd(s)), ToBytesN32(s);
      && |word| == 2 + 2 * |bytes| && word[0] == '0' && word[1] == 'x'
      && word[2..] == Hex.Encode(bytes) && Hex.AllHex(word[2..]) && Hex.DecodePrefix(word[2..]) == bytes
  {
    Hex.EncodeIsHex(Utf8.Encode(PadEnd(s)));
    Hex.RoundTrip(Utf8.Encode(PadEnd(s)));
  }

  /** The written identifier passes the 64-digit test exactly for ASCII text of at most 32
      characters; then the browser sends the bytes the backend computes. Any other
      identifier, such as the 36-character text of a UUID, is sent as a string instead. */
  lemma CodecAgreement(s: string)
    ensures IsWord(ToBytesN32(s)) <==> Fits(s)
    ensures CallArg(ToBytesN32(s)) == if Fits(s) then BytesArg(ZeroExtended(Utf8.Encode(s))) else StringArg(ToBytesN32(s))
  {
    WrittenHex(s);
    PaddedLength(s);
    assert DropFirst0x(ToBytesN32(s)) == ToBytesN32(s)[2..];
  }

  /** The backend's parser accepts exactly the same identifiers, with the same bytes. */
  lemma ParsesBack(s: string)
    ensures ParseContractId(ToBytesN32(s)) ==
            if Fits(s) then Parsed(ZeroExtended(Utf8.Encode(s))) else WrongLength(|Utf8.Encode(PadEnd(s))|)
  {
    WrittenHex(s);
    PaddedLength(s);
  }

  /** The hyphenated text of a UUID's sixteen bytes. */
  function UuidText(raw: seq<Byte>): string
    requires |raw| == 16
  {
    Hex.Encode(raw[..4]) + "-" + Hex.Encode(raw[4..6]) + "-" + Hex.Encode(raw[6..8]) + "-" + Hex.Encode(raw[8..10]) + "-" + Hex.Encode(raw[10..])
  }

  /** The backend names records by UUID and verifies its zero-extended sixteen bytes; the
      browser never sends any 32-byte argument for the text of that UUID. */
  lemma UuidIsSentAsText(raw: seq<Byte>)
    requires |raw| == 16
    ensures CallArg(ToBytesN32(UuidText(raw))) == StringArg(ToBytesN32(UuidText(raw)))
    ensures CallArg(ToBytesN32(UuidText(raw))) != BytesArg(ZeroExtended(raw))
  {
    CodecAgreement(UuidText(raw));
  }

  predicate NulFree(s: string) {
    '\0' !in s
  }

  /** Distinct NUL-free identifiers are written differently. */
  lemma WrittenInjective(s: string, t: string)
    requires NulFree(s) && NulFree(t) && ToBytesN32(s) == ToBytesN32(t)
    ensures s == t
  {
    WrittenHex(s);
    WrittenHex(t);
    Utf8.Injective(PadEnd(s), PadEnd(t));
    TextOfPadded(s);
    TextOfPadded(t);
  }

  /** The text in front of the first NUL. */
  function BeforeNul(s: string): string {
    if |s| == 0 || s[0] == '\0' then "" else [s[0]] + BeforeNul(s[1..])
  }

  lemma TextOfPadded(s: string)
    requires NulFree(s)
    ensures BeforeNul(PadEnd(s)) == s
  {
    var units := Utf8.Utf16Length(s);
    var pad := if units >= 32 then 0 else 32 - units;
    assert s + Nuls(0) == s;
    BeforeNuls(s, pad);
  }

  lemma {:induction false} BeforeNuls(s: string, n: nat)
    requires NulFree(s)
    ensures BeforeNul(s + Nuls(n)) == s
  {
    if |s| > 0 {
      assert (s + Nuls(n))[1..] == s[1..] + Nuls(n);
      BeforeNuls(s[1..], n);
    }
  }

  /** On a word with the lower-case prefix the browser's lenient decoder and the backend's
      strict one agree; with `0X` the browser's finds no bytes at all. */
  lemma DecodersAgree(w: string)
    requires IsWord(w)
    ensures w[1] == 'x' ==> |Bytes32ScVal(w)| == 32 && ParseContractId(w) == Parsed(Bytes32ScVal(w))
    ensures w[1] == 'X' ==> Bytes32ScVal(w) == [] && ParseContractId(w) == InvalidHex
  {
    Hex.DecodeLength(w[2..]);
    if w[1] == 'X' {
      NoFirst0x(w[1..]);
      assert DropFirst0x(w) == w;
    }
  }

  lemma {:induction false} NoFirst0x(s: string)
    requires forall i | 0 <= i < |s| :: s[i] != 'x'
    ensures DropFirst0x(s) == s
  {
    if |s| >= 2 {
      NoFirst0x(s[1..]);
    }
  }

  // ---- The supervisor's decision word ----

  /** The literal the approve page passes as `decision`: 63 zeros and a one. */
  function DecisionHex(): string {
    "0x" + Zeros(63) + "1"
  }

  lemma DecisionWordBytes()
    ensures IsWord(DecisionHex())
    ensures |Bytes32ScVal(DecisionHex())| == 32
    ensures forall k | 0 <= k < 32 :: Bytes32ScVal(DecisionHex())[k] == if k == 31 then 1 else 0
  {
    var d := Zeros(63) + "1";
    assert DecisionHex()[2..] == d && DropFirst0x(DecisionHex()) == d;
    ZerosThenOne(d);
  }

  lemma ZerosThenOne(d: string)
    requires d == Zeros(63) + "1"
    ensures Hex.AllHex(d) && |Hex.DecodePrefix(d)| == 32
    ensures forall k | 0 <= k < 32 :: Hex.DecodePrefix(d)[k] == if k == 31 then 1 else 0
  {
    Hex.DecodeLength(d);
    forall k | 0 <= k < 32 ensures Hex.DecodePrefix(d)[k] == if k == 31 then 1 else 0 {
      Hex.DecodeAt(d, k);
    }
  }
}
