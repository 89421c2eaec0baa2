/** UTF-8 as `TextEncoder` writes it and `Buffer.toString('utf-8')` reads it. */
module Utf8 {
  import opened Basics

  const REPLACEMENT: char := '\U{FFFD}'

  predicate IsScalar(n: int) {
    0 <= n < 0xD800 || 0xE000 <= n < 0x11_0000
  }

  function EncodeChar(c: char): (r: seq<Byte>)
    ensures 1 <= |r| <= 4
  {
    var n := c as int;
    if n < 0x80 then [n]
    else if n < 0x800 then [0xC0 + n / 0x40, 0x80 + n % 0x40]
    else if n < 0x1_0000 then [0xE0 + n / 0x40 / 0x40, 0x80 + n / 0x40 % 0x40, 0x80 + n % 0x40]
    else [0xF0 + n / 0x40 / 0x40 / 0x40, 0x80 + n / 0x40 / 0x40 % 0x40, 0x80 + n / 0x40 % 0x40, 0x80 + n % 0x40]
  }

  function Encode(s: string): seq<Byte> {
    if |s| == 0 then [] else EncodeChar(s[0]) + Encode(s[1..])
  }

  /** The decoder's position inside a multi-byte sequence: bits so far, bytes still
      needed, and the range the next byte must lie in. */
  datatype Pending = Pending(bits: nat, needed: nat, lower: Byte, upper: Byte)

  const GROUND := Pending(0, 0, 0x80, 0xBF)

  function ToChar(n: nat): char {
    if IsScalar(n) then n as char else REPLACEMENT
  }

  /** The lead byte of a sequence; None when the byte cannot start one. */
  function Lead(b: Byte): Option<Pending> {
    if 0xC2 <= b <= 0xDF then Some(Pending(b - 0xC0, 1, 0x80, 0xBF))
    else if 0xE0 <= b <= 0xEF then
      Some(Pending(b - 0xE0, 2, if b == 0xE0 then 0xA0 else 0x80, if b == 0xED then 0x9F else 0xBF))
    else if 0xF0 <= b <= 0xF4 then
      Some(Pending(b - 0xF0, 3, if b == 0xF0 then 0x90 else 0x80, if b == 0xF4 then 0x8F else 0xBF))
    else None
  }

  /** Malformed input yields replacement characters; a byte that breaks a sequence is read again. */
  function DecodeFrom(bs: seq<Byte>, p: Pending): string
    decreases |bs|, p.needed
  {
    if |bs| == 0 then (if p.needed == 0 then "" else [REPLACEMENT])
    else if p.needed == 0 then
      if bs[0] < 0x80 then [bs[0] as char] + DecodeFrom(bs[1..], GROUND)
      else if Lead(bs[0]).Some? then DecodeFrom(bs[1..], Lead(bs[0]).value)
      else [REPLACEMENT] + DecodeFrom(bs[1..], GROUND)
    else if !(p.lower <= bs[0] <= p.upper) then [REPLACEMENT] + DecodeFrom(bs, GROUND)
    else
      var bits := p.bits * 0x40 + bs[0] % 0x40;
      if p.needed == 1 then [ToChar(bits)] + DecodeFrom(bs[1..], GROUND)
      else DecodeFrom(bs[1..], Pending(bits, p.needed - 1, 0x80, 0xBF))
  }

  function Decode(bs: seq<Byte>): string {
    DecodeFrom(bs, GROUND)
  }

  lemma Start(b: Byte, rest: seq<Byte>)
    requires Lead(b).Some?
    ensures DecodeFrom([b] + rest, GROUND) == DecodeFrom(rest, Lead(b).value)
  {
    assert ([b] + rest)[1..] == rest;
  }

  /** One continuation byte completes the given bits. */
  lemma TakeContinuation(bs: seq<Byte>, p: Pending, bits: nat)
    requires |bs| > 0 && p.needed > 0 && p.lower <= bs[0] <= p.upper && bits == p.bits * 0x40 + bs[0] % 0x40
    ensures DecodeFrom(bs, p) ==
            if p.needed == 1 then [ToChar(bits)] + DecodeFrom(bs[1..], GROUND)
            else DecodeFrom(bs[1..], Pending(bits, p.needed - 1, 0x80, 0xBF))
  {
  }

  lemma DecodeChar(c: char, rest: seq<Byte>)
    ensures DecodeFrom(EncodeChar(c) + rest, GROUND) == [c] + DecodeFrom(rest, GROUND)
  {
    var n := c as int;
    if n < 0x80 {
      assert (EncodeChar(c) + rest)[1..] == rest;
    } else if n < 0x800 {
      DecodeTwo(c, rest);
    } else if n < 0x1_0000 {
      DecodeThree(c, rest);
    } else {
      DecodeFour(c, rest);
    }
  }

  lemma DecodeTwo(c: char, rest: seq<Byte>)
    requires 0x80 <= c as int < 0x800
    ensures DecodeFrom(EncodeChar(c) + rest, GROUND) == [c] + DecodeFrom(rest, GROUND)
  {
    var b := EncodeChar(c);
    assert b + rest == [b[0]] + ([b[1]] + rest);
    Start(b[0], [b[1]] + rest);
    ContinueTo(b[1], rest, Lead(b[0]).value, c as int);
  }

  lemma DecodeThree(c: char, rest: seq<Byte>)
    requires 0x800 <= c as int < 0x1_0000
    ensures DecodeFrom(EncodeChar(c) + rest, GROUND) == [c] + DecodeFrom(rest, GROUND)
  {
    var b := EncodeChar(c);
    var q1 := c as int / 0x40;
    assert b + rest == [b[0]] + ([b[1]] + ([b[2]] + rest));
    Start(b[0], [b[1]] + ([b[2]] + rest));
    ContinueTo(b[1], [b[2]] + rest, Lead(b[0]).value, q1);
    ContinueTo(b[2], rest, Pending(q1, 1, 0x80, 0xBF), c as int);
  }

  /** Shifting six bits out and in again. */
  lemma SixBits(n: nat)
    ensures n / 0x40 * 0x40 + (0x80 + n % 0x40) % 0x40 == n
  {
  }

  lemma ContinueTo(b: Byte, rest: seq<Byte>, p: Pending, bits: nat)
    requires p.needed > 0 && p.lower <= b <= p.upper
    requires p.bits == bits / 0x40 && b == 0x80 + bits % 0x40
    ensures DecodeFrom([b] + rest, p) ==
            if p.needed == 1 then [ToChar(bits)] + DecodeFrom(rest, GROUND)
            else DecodeFrom(rest, Pending(bits, p.needed - 1, 0x80, 0xBF))
  {
    SixBits(bits);
    var bs := [b] + rest;
    assert bs[1..] == rest;
    TakeContinuation(bs, p, bits);
  }

  lemma DecodeFour(c: char, rest: seq<Byte>)
    requires 0x1_0000 <= c as int
    ensures DecodeFrom(EncodeChar(c) + rest, GROUND) == [c] + DecodeFrom(rest, GROUND)
  {
    var b := EncodeChar(c);
    var q1 := c as int / 0x40;
    var q2 := q1 / 0x40;
    assert b == [0xF0 + q2 / 0x40, 0x80 + q2 % 0x40, 0x80 + q1 % 0x40, 0x80 + c as int % 0x40];
    assert b + rest == [b[0]] + ([b[1]] + ([b[2]] + ([b[3]] + rest)));
    Start(b[0], [b[1]] + ([b[2]] + ([b[3]] + rest)));
    ContinueTo(b[1], [b[2]] + ([b[3]] + rest), Lead(b[0]).value, q2);
    ContinueTo(b[2], [b[3]] + rest, Pending(q2, 2, 0x80, 0xBF), q1);
    ContinueTo(b[3], rest, Pending(q1, 1, 0x80, 0xBF), c as int);
  }

  lemma {:induction false} RoundTrip(s: string)
    ensures Decode(Encode(s)) == s
  {
    if |s| > 0 {
      DecodeChar(s[0], Encode(s[1..]));
      RoundTrip(s[1..]);
    }
  }

  // ---- Malformed input ----

  /** Inside a sequence, without a replacement the next byte must be there and continue it. */
  lemma MustContinue(bs: seq<Byte>, p: Pending)
    requires p.needed > 0 && REPLACEMENT !in DecodeFrom(bs, p)
    ensures |bs| > 0 && p.lower <= bs[0] <= p.upper
    ensures
      var bits := p.bits * 0x40 + bs[0] as int % 0x40;
      DecodeFrom(bs, p) ==
      if p.needed == 1 then [ToChar(bits)] + DecodeFrom(bs[1..], GROUND)
      else DecodeFrom(bs[1..], Pending(bits, p.needed - 1, 0x80, 0xBF))
  {
    if |bs| > 0 && p.lower <= bs[0] <= p.upper {
      TakeContinuation(bs, p, p.bits * 0x40 + bs[0] as int % 0x40);
    }
  }

  /** Six bits put in come out again. */
  lemma SixBitsBack(q: nat, b: Byte)
    requires 0x80 <= b <= 0xBF
    ensures
      var n := q * 0x40 + b as int % 0x40;
      n / 0x40 == q && 0x80 + n % 0x40 == b
  {
  }

  /** The character at the head of bs, with the rest of the bytes. */
  predicate HeadedBy(bs: seq<Byte>, n: nat, k: nat) {
    && IsScalar(n) && k <= |bs| && EncodeChar(n as char) == bs[..k]
    && DecodeFrom(bs, GROUND) == [n as char] + DecodeFrom(bs[k..], GROUND)
  }

  lemma TwoBytes(bs: seq<Byte>) returns (n: nat)
    requires |bs| > 0 && 0xC2 <= bs[0] <= 0xDF && REPLACEMENT !in DecodeFrom(bs, GROUND)
    ensures HeadedBy(bs, n, 2)
  {
    MustContinue(bs[1..], Lead(bs[0]).value);
    var q: nat := bs[0] as int - 0xC0;
    n := q * 0x40 + bs[1] as int % 0x40;
    SixBitsBack(q, bs[1]);
    assert bs[1..][1..] == bs[2..];
    assert bs[..2] == [bs[0], bs[1]];
  }

  lemma EncodedThree(x: Byte, y: Byte, z: Byte)
    requires 0xE0 <= x <= 0xEF && 0x80 <= y <= 0xBF && 0x80 <= z <= 0xBF
    requires (x == 0xE0 ==> y >= 0xA0) && (x == 0xED ==> y <= 0x9F)
    ensures
      var n := ((x as int - 0xE0) * 0x40 + y as int % 0x40) * 0x40 + z as int % 0x40;
      IsScalar(n) && EncodeChar(n as char) == [x, y, z]
  {
    var r: nat := x as int - 0xE0;
    SixBitsBack(r, y);
    SixBitsBack(r * 0x40 + y as int % 0x40, z);
  }

  lemma ThreeBytes(bs: seq<Byte>) returns (n: nat)
    requires |bs| > 0 && 0xE0 <= bs[0] <= 0xEF && REPLACEMENT !in DecodeFrom(bs, GROUND)
    ensures HeadedBy(bs, n, 3)
  {
    MustContinue(bs[1..], Lead(bs[0]).value);
    var q: nat := (bs[0] as int - 0xE0) * 0x40 + bs[1] as int % 0x40;
    assert bs[1..][1..] == bs[2..] && bs[2..][1..] == bs[3..];
    MustContinue(bs[2..], Pending(q, 1, 0x80, 0xBF));
    n := q * 0x40 + bs[2] as int % 0x40;
    EncodedThree(bs[0], bs[1], bs[2]);
    assert bs[..3] == [bs[0], bs[1], bs[2]];
  }

  lemma EncodedFour(w: Byte, x: Byte, y: Byte, z: Byte)
    requires 0xF0 <= w <= 0xF4 && 0x80 <= x <= 0xBF && 0x80 <= y <= 0xBF && 0x80 <= z <= 0xBF
    requires (w == 0xF0 ==> x >= 0x90) && (w == 0xF4 ==> x <= 0x8F)
    ensures
      var n := (((w as int - 0xF0) * 0x40 + x as int % 0x40) * 0x40 + y as int % 0x40) * 0x40 + z as int % 0x40;
      IsScalar(n) && EncodeChar(n as char) == [w, x, y, z]
  {
    var t: nat := w as int - 0xF0;
    var r: nat := t * 0x40 + x as int % 0x40;
    SixBitsBack(t, x);
    SixBitsBack(r, y);
    SixBitsBack(r * 0x40 + y as int % 0x40, z);
  }

  lemma FourBytes(bs: seq<Byte>) returns (n: nat)
    requires |bs| > 0 && 0xF0 <= bs[0] <= 0xF4 && REPLACEMENT !in DecodeFrom(bs, GROUND)
    ensures HeadedBy(bs, n, 4)
  {
    MustContinue(bs[1..], Lead(bs[0]).value);
    var r: nat := (bs[0] as int - 0xF0) * 0x40 + bs[1] as int % 0x40;
    assert bs[1..][1..] == bs[2..] && bs[2..][1..] == bs[3..] && bs[3..][1..] == bs[4..];
    MustContinue(bs[2..], Pending(r, 2, 0x80, 0xBF));
    var q: nat := r * 0x40 + bs[2] as int % 0x40;
    MustContinue(bs[3..], Pending(q, 1, 0x80, 0xBF));
    n := q * 0x40 + bs[3] as int % 0x40;
    EncodedFour(bs[0], bs[1], bs[2], bs[3]);
    assert bs[..4] == [bs[0], bs[1], bs[2], bs[3]];
  }

  lemma OneByte(bs: seq<Byte>) returns (n: nat)
    requires |bs| > 0 && bs[0] < 0x80
    ensures HeadedBy(bs, n, 1)
  {
    n := bs[0];
  }

  lemma BadLead(bs: seq<Byte>)
    requires |bs| > 0 && bs[0] >= 0x80 && Lead(bs[0]).None?
    ensures REPLACEMENT in DecodeFrom(bs, GROUND)
  {
    assert DecodeFrom(bs, GROUND)[0] == REPLACEMENT;
  }

  lemma HasHead(bs: seq<Byte>) returns (n: nat, k: nat)
    requires |bs| > 0 && REPLACEMENT !in DecodeFrom(bs, GROUND)
    ensures k > 0 && HeadedBy(bs, n, k)
  {
    if bs[0] < 0x80 {
      n := OneByte(bs);
      k := 1;
    } else if 0xC2 <= bs[0] <= 0xDF {
      n := TwoBytes(bs);
      k := 2;
    } else if 0xE0 <= bs[0] <= 0xEF {
      n := ThreeBytes(bs);
      k := 3;
    } else if 0xF0 <= bs[0] <= 0xF4 {
      n := FourBytes(bs);
      k := 4;
    } else {
      BadLead(bs);
      assert false;
    }
  }

  /** Bytes that decode without a replacement character are the encoding of what they
      decode to: nothing malformed, overlong or outside the scalar values slips through. */
  lemma {:induction false} DecodedBack(bs: seq<Byte>)
    requires REPLACEMENT !in Decode(bs)
    ensures Encode(Decode(bs)) == bs
  {
    if |bs| > 0 {
      var n, k := HasHead(bs);
      var rest := DecodeFrom(bs[k..], GROUND);
      assert forall c | c in rest :: c in [n as char] + rest;
      DecodedBack(bs[k..]);
      assert ([n as char] + rest)[1..] == rest;
      assert bs == bs[..k] + bs[k..];
    }
  }

  lemma Injective(s: string, t: string)
    requires Encode(s) == Encode(t)
    ensures s == t
  {
    RoundTrip(s);
    RoundTrip(t);
  }

  predicate IsAscii(s: string) {
    forall i | 0 <= i < |s| :: s[i] as int < 0x80
  }

  lemma {:induction false} EncodeConcat(s: string, t: string)
    ensures Encode(s + t) == Encode(s) + Encode(t)
  {
    if |s| == 0 {
      assert s + t == t;
    } else {
      assert (s + t)[1..] == s[1..] + t;
      EncodeConcat(s[1..], t);
    }
  }

  lemma {:induction false} EncodeAscii(s: string)
    requires IsAscii(s)
    ensures |Encode(s)| == |s|
    ensures forall i | 0 <= i < |s| :: Encode(s)[i] == s[i] as int
  {
    if |s| > 0 {
      EncodeAscii(s[1..]);
      forall i | 0 <= i < |s| ensures Encode(s)[i] == s[i] as int {
        if i > 0 { assert Encode(s)[i] == Encode(s[1..])[i - 1]; }
      }
    }
  }

  /** Length in UTF-16 code units, which is what JavaScript counts. */
  function Utf16Length(s: string): nat {
    if |s| == 0 then 0 else (if s[0] as int < 0x1_0000 then 1 else 2) + Utf16Length(s[1..])
  }

  /** UTF-8 is longer than UTF-16 by one unit at least for every non-ASCII character. */
  lemma {:induction false} Lengths(s: string)
    ensures |Encode(s)| >= Utf16Length(s) >= |s|
    ensures |Encode(s)| == Utf16Length(s) <==> IsAscii(s)
    ensures IsAscii(s) ==> Utf16Length(s) == |s|
  {
    if |s| > 0 {
      Lengths(s[1..]);
      assert IsAscii(s) <==> s[0] as int < 0x80 && IsAscii(s[1..]) by {
        if s[0] as int < 0x80 && IsAscii(s[1..]) {
          forall i | 0 <= i < |s| ensures s[i] as int < 0x80 {
            if i > 0 { assert s[i] == s[1..][i - 1]; }
          }
        }
      }
    }
  }
}

/** Hexadecimal text as written by `toString(16).padStart(2, '0')` and read back. */
module Hex {
  import opened Basics

  type Nibble = n: int | 0 <= n < 16

  function Digit(n: Nibble): char {
    if n < 10 then ('0' as int + n) as char else ('a' as int + n - 10) as char
  }

  function Value(c: char): Option<Nibble> {
    if '0' <= c <= '9' then Some(c as int - '0' as int)
    else if 'a' <= c <= 'f' then Some(c as int - 'a' as int + 10)
    else if 'A' <= c <= 'F' then Some(c as int - 'A' as int + 10)
    else None
  }

  predicate AllHex(s: string) {
    forall i | 0 <= i < |s| :: Value(s[i]).Some?
  }

  function Encode(bs: seq<Byte>): (r: string)
    ensures |r| == 2 * |bs|
  {
    if |bs| == 0 then "" else [Digit(bs[0] / 16), Digit(bs[0] % 16)] + Encode(bs[1..])
  }

  /** `Buffer.from(s, 'hex')`: stops silently at the first pair that is not hex. */
  function DecodePrefix(s: string): seq<Byte> {
    if |s| < 2 || Value(s[0]).None? || Value(s[1]).None? then []
    else [Value(s[0]).value * 16 + Value(s[1]).value] + DecodePrefix(s[2..])
  }

  /** The digits, in order. */
  lemma Digits(n: Nibble)
    ensures Digit(0) == '0' && Digit(9) == '9' && Digit(10) == 'a' && Digit(15) == 'f'
    ensures n < 15 && n != 9 ==> Digit(n + 1) as int == Digit(n) as int + 1
    // Read back alike in either case.
    ensures Value(Digit(n)) == Some(n)
    ensures n >= 10 ==> Value(('A' as int + n - 10) as char) == Some(n)
  {
  }

  lemma {:induction false} EncodeIsHex(bs: seq<Byte>)
    ensures AllHex(Encode(bs))
  {
    if |bs| > 0 {
      EncodeIsHex(bs[1..]);
      var s := Encode(bs);
      forall i | 0 <= i < |s| ensures Value(s[i]).Some? {
        if i >= 2 { assert s[i] == Encode(bs[1..])[i - 2]; }
      }
    }
  }

  lemma {:induction false} RoundTrip(bs: seq<Byte>)
    ensures DecodePrefix(Encode(bs)) == bs
  {
    if |bs| > 0 {
      RoundTrip(bs[1..]);
      var s := Encode(bs);
      assert s[2..] == Encode(bs[1..]);
      assert Value(s[0]) == Some(bs[0] / 16) && Value(s[1]) == Some(bs[0] % 16);
    }
  }

  lemma {:induction false} DecodeAt(s: string, k: nat)
    requires AllHex(s) && |s| % 2 == 0 && 2 * k < |s|
    ensures |DecodePrefix(s)| == |s| / 2
    ensures DecodePrefix(s)[k] == Value(s[2 * k]).value * 16 + Value(s[2 * k + 1]).value
  {
    if |s| > 2 {
      assert AllHex(s[2..]);
      DecodeAt(s[2..], if k > 0 then k - 1 else 0);
    }
  }

  lemma {:induction false} DecodeLength(s: string)
    requires AllHex(s) && |s| % 2 == 0
    ensures |DecodePrefix(s)| == |s| / 2
  {
    if |s| > 0 { DecodeAt(s, 0); }
  }
}
