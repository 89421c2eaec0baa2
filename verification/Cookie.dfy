/** base64url, section 5 of RFC 4648, without padding. */
module Base64Url {
  import opened Basics

  type Sextet = n: int | 0 <= n < 64

  function Symbol(n: Sextet): char {
    if n < 26 then ('A' as int + n) as char
    else if n < 52 then ('a' as int + n - 26) as char
    else if n < 62 then ('0' as int + n - 52) as char
    else if n == 62 then '-' else '_'
  }

  /** The decoder also takes the two symbols of the plain base64 alphabet. */
  function Value(c: char): Option<Sextet> {
    if 'A' <= c <= 'Z' then Some(c as int - 'A' as int)
    else if 'a' <= c <= 'z' then Some(c as int - 'a' as int + 26)
    else if '0' <= c <= '9' then Some(c as int - '0' as int + 52)
    else if c == '-' || c == '+' then Some(62)
    else if c == '_' || c == '/' then Some(63)
    else None
  }

  /** Three bytes are four sextets; a tail of one or two bytes is two or three. */
  function Split(bs: seq<Byte>): seq<Sextet> {
    if |bs| == 0 then []
    else if |bs| == 1 then [bs[0] / 4, bs[0] % 4 * 16]
    else if |bs| == 2 then [bs[0] / 4, bs[0] % 4 * 16 + bs[1] / 16, bs[1] % 16 * 4]
    else [bs[0] / 4, bs[0] % 4 * 16 + bs[1] / 16, bs[1] % 16 * 4 + bs[2] / 64, bs[2] % 64] + Split(bs[3..])
  }

  function First(a: Sextet, b: Sextet): Byte { a * 4 + b / 16 }

  function Second(b: Sextet, c: Sextet): Byte { b % 16 * 16 + c / 4 }

  function Third(c: Sextet, d: Sextet): Byte { c % 4 * 64 + d }

  function Join(ss: seq<Sextet>): seq<Byte> {
    if |ss| < 2 then []
    else if |ss| == 2 then [First(ss[0], ss[1])]
    else if |ss| == 3 then [First(ss[0], ss[1]), Second(ss[1], ss[2])]
    else [First(ss[0], ss[1]), Second(ss[1], ss[2]), Third(ss[2], ss[3])] + Join(ss[4..])
  }

  function Symbols(ss: seq<Sextet>): string {
    if |ss| == 0 then "" else [Symbol(ss[0])] + Symbols(ss[1..])
  }

  /** Characters outside the alphabet are skipped. */
  function Values(s: string): seq<Sextet> {
    if |s| == 0 then []
    else if Value(s[0]).Some? then [Value(s[0]).value] + Values(s[1..])
    else Values(s[1..])
  }

  function Encode(bs: seq<Byte>): string {
    Symbols(Split(bs))
  }

  function Decode(s: string): seq<Byte> {
    Join(Values(s))
  }

  /** The alphabet of table 2 of RFC 4648: A to Z, a to z, 0 to 9, and two more. */
  lemma Alphabet(n: Sextet)
    ensures Symbol(0) == 'A' && Symbol(25) == 'Z' && Symbol(26) == 'a' && Symbol(51) == 'z'
    ensures Symbol(52) == '0' && Symbol(61) == '9' && Symbol(62) == '-' && Symbol(63) == '_'
    ensures n < 61 && n != 25 && n != 51 ==> Symbol(n + 1) as int == Symbol(n) as int + 1
  {
  }

  /** Read back are these symbols and, for the last two, those of plain base64. */
  lemma ReadSymbols(c: char, n: Sextet)
    ensures Value(c) == Some(n) <==> c == Symbol(n) || (n == 62 && c == '+') || (n == 63 && c == '/')
  {
  }

  /** Four sextets as one 24-bit number. */
  function Number(a: Sextet, b: Sextet, c: Sextet, d: Sextet): int {
    a as int * 0x4_0000 + b as int * 0x1000 + c as int * 0x40 + d as int
  }

  lemma GroupOf(x: Byte, y: Byte, z: Byte)
    ensures
      var a: Sextet, b: Sextet, c: Sextet, d: Sextet := x / 4, x % 4 * 16 + y / 16, y % 16 * 4 + z / 64, z % 64;
      Split([x, y, z]) == [a, b, c, d] && Number(a, b, c, d) == x as int * 0x1_0000 + y as int * 0x100 + z as int
  {
    assert [x, y, z][3..] == [];
  }

  /** Groups of three bytes are encoded in order, each with the same 24-bit number, first
      byte highest ... */
  lemma FullGroup(bs: seq<Byte>)
    requires |bs| >= 3
    ensures
      var ss := Split(bs[..3]);
      && |ss| == 4 && Number(ss[0], ss[1], ss[2], ss[3]) == bs[0] as int * 0x1_0000 + bs[1] as int * 0x100 + bs[2] as int
      && Split(bs) == ss + Split(bs[3..])
  {
    GroupOf(bs[0], bs[1], bs[2]);
    assert bs[..3] == [bs[0], bs[1], bs[2]];
  }

  /** ... and a short last group is completed with zeros and cut again. */
  lemma ShortGroup(x: Byte, y: Byte)
    ensures Split([x, y]) == Split([x, y, 0])[..3]
    ensures Split([x]) == Split([x, 0, 0])[..2]
  {
    GroupOf(x, y, 0);
    GroupOf(x, 0, 0);
  }

  lemma {:induction false} ValuesOfSymbols(ss: seq<Sextet>)
    ensures Values(Symbols(ss)) == ss
  {
    if |ss| > 0 {
      ValuesOfSymbols(ss[1..]);
    }
  }

  lemma JoinGroup(x: Byte, y: Byte, z: Byte, rest: seq<Sextet>)
    ensures Join([x / 4, x % 4 * 16 + y / 16, y % 16 * 4 + z / 64, z % 64] + rest) == [x, y, z] + Join(rest)
  {
    var a: Sextet, b: Sextet, c: Sextet, d: Sextet := x / 4, x % 4 * 16 + y / 16, y % 16 * 4 + z / 64, z % 64;
    assert ([a, b, c, d] + rest)[4..] == rest;
    assert First(a, b) == x && Second(b, c) == y && Third(c, d) == z;
  }

  lemma {:induction false} JoinOfSplit(bs: seq<Byte>)
    ensures Join(Split(bs)) == bs
  {
    if |bs| >= 3 {
      JoinOfSplit(bs[3..]);
      JoinGroup(bs[0], bs[1], bs[2], Split(bs[3..]));
      assert bs == [bs[0], bs[1], bs[2]] + bs[3..];
    }
  }

  lemma RoundTrip(bs: seq<Byte>)
    ensures Decode(Encode(bs)) == bs
  {
    ValuesOfSymbols(Split(bs));
    JoinOfSplit(bs);
  }
}

/** The proxy's session cookie. */
module SessionCookie {
  import opened Basics
  import Utf8
  import Base64Url

  const MAX_AGE_MS: int := 86400 * 1000

  /** The environment: the keyed MAC (absent when no secret is configured) and the
      ISO date printer and parser. Dates are milliseconds. */
  datatype Env = Env(mac: Option<string -> string>, format: int -> string, parse: string -> Option<int>)

  const BAR: char := '|'

  /** JavaScript `split('|')`. */
  function SplitBar(s: string): (r: seq<string>)
    ensures |r| >= 1
  {
    if |s| == 0 then [""]
    else
      var rest := SplitBar(s[1..]);
      if s[0] == BAR then [""] + rest else [[s[0]] + rest[0]] + rest[1..]
  }

  function Sign(mac: string -> string, address: string, expires: string): string {
    mac(address + [BAR] + expires)
  }

  function Payload(mac: string -> string, address: string, expires: string): string {
    address + [BAR] + expires + [BAR] + Sign(mac, address, expires)
  }

  /** None: signing throws because no secret is configured. */
  function EncodeCookie(env: Env, address: string, now: int): Option<string> {
    if env.mac.None? then None
    else Some(Base64Url.Encode(Utf8.Encode(Payload(env.mac.value, address, env.format(now + MAX_AGE_MS)))))
  }

  /** Comparing with an unparsable date is false in JavaScript, so it is not an expiry. */
  predicate Expired(env: Env, expires: string, now: int) {
    env.parse(expires).Some? && env.parse(expires).value < now
  }

  function Decoded(cookie: string): string {
    Utf8.Decode(Base64Url.Decode(cookie))
  }

  function ValidateCookie(env: Env, cookie: string, now: int): Option<string> {
    var parts := SplitBar(Decoded(cookie));
    if |parts| != 3 then None
    else if Expired(env, parts[1], now) then None
    else if env.mac.None? then None
    else if Utf8.Encode(parts[2]) != Utf8.Encode(Sign(env.mac.value, parts[0], parts[1])) then None
    else Some(parts[0])
  }

  // ---- Splitting ----

  lemma {:induction false} SplitPlain(s: string)
    requires BAR !in s
    ensures SplitBar(s) == [s]
  {
    if |s| > 0 {
      SplitPlain(s[1..]);
      assert s == [s[0]] + s[1..];
    }
  }

  lemma {:induction false} SplitFirst(a: string, rest: string)
    requires BAR !in a
    ensures SplitBar(a + [BAR] + rest) == [a] + SplitBar(rest)
  {
    var s := a + [BAR] + rest;
    if |a| == 0 {
      assert s[1..] == rest;
    } else {
      assert s[1..] == a[1..] + [BAR] + rest;
      SplitFirst(a[1..], rest);
      assert a == [a[0]] + a[1..];
    }
  }

  function JoinBar(parts: seq<string>): string
    requires |parts| >= 1
  {
    if |parts| == 1 then parts[0] else parts[0] + [BAR] + JoinBar(parts[1..])
  }

  /** Splitting is undone by joining, and leaves no bar in any field. */
  lemma {:induction false} SplitIsInverse(s: string)
    ensures JoinBar(SplitBar(s)) == s
    ensures forall i | 0 <= i < |SplitBar(s)| :: BAR !in SplitBar(s)[i]
  {
    if |s| > 0 {
      SplitIsInverse(s[1..]);
      var r, rest := SplitBar(s), SplitBar(s[1..]);
      assert s == [s[0]] + s[1..];
      if s[0] == BAR {
        assert r[1..] == rest;
      } else {
        assert r[1..] == rest[1..];
        if |rest| > 1 {
          assert [s[0]] + (rest[0] + [BAR] + JoinBar(rest[1..])) == r[0] + [BAR] + JoinBar(r[1..]);
        }
      }
    }
  }

  lemma JoinThree(a: string, b: string, c: string)
    ensures JoinBar([a, b, c]) == a + [BAR] + b + [BAR] + c
  {
    assert [a, b, c][1..] == [b, c] && [b, c][1..] == [c];
    assert JoinBar([b, c]) == b + [BAR] + c;
  }

  /** Splitting yields exactly one field more than there are bars. */
  function Bars(s: string): nat {
    if |s| == 0 then 0 else (if s[0] == BAR then 1 else 0) + Bars(s[1..])
  }

  lemma {:induction false} FieldCount(s: string)
    ensures |SplitBar(s)| == Bars(s) + 1
  {
    if |s| > 0 {
      FieldCount(s[1..]);
    }
  }

  lemma {:induction false} BarsConcat(s: string, t: string)
    ensures Bars(s + t) == Bars(s) + Bars(t)
  {
    if |s| == 0 {
      assert s + t == t;
    } else {
      assert (s + t)[1..] == s[1..] + t;
      BarsConcat(s[1..], t);
    }
  }

  lemma {:induction false} BarsPositive(s: string)
    ensures BAR in s <==> Bars(s) > 0
  {
    if |s| > 0 {
      BarsPositive(s[1..]);
      assert s == [s[0]] + s[1..];
    }
  }

  // ---- Main results ----

  /** What the round trip needs of the foreign parts at the instant of issue. */
  ghost predicate Prints(env: Env, expiry: int) {
    && BAR !in env.format(expiry)
    && env.parse(env.format(expiry)) == Some(expiry)
    && (env.mac.Some? ==> forall m :: BAR !in env.mac.value(m))
  }

  /** Every text is what some cookie string decodes to. */
  lemma DecodedText(text: string)
    ensures Decoded(Base64Url.Encode(Utf8.Encode(text))) == text
  {
    Base64Url.RoundTrip(Utf8.Encode(text));
    Utf8.RoundTrip(text);
  }

  lemma DecodedPayload(env: Env, address: string, issued: int)
    requires env.mac.Some?
    ensures Decoded(EncodeCookie(env, address, issued).value) == Payload(env.mac.value, address, env.format(issued + MAX_AGE_MS))
  {
    DecodedText(Payload(env.mac.value, address, env.format(issued + MAX_AGE_MS)));
  }

  /** A cookie issued for an address reads back as that address at every time up to and
      including its expiry and as nothing afterwards; an address containing a bar never does. */
  lemma CookieRoundTrip(env: Env, address: string, issued: int, now: int)
    requires env.mac.Some? && Prints(env, issued + MAX_AGE_MS)
    ensures ValidateCookie(env, EncodeCookie(env, address, issued).value, now) ==
            if BAR !in address && now <= issued + 86_400_000 then Some(address) else None
  {
    var expires := env.format(issued + MAX_AGE_MS);
    var sig := Sign(env.mac.value, address, expires);
    DecodedPayload(env, address, issued);
    if BAR !in address {
      ThreeFields(address, expires, sig);
    } else {
      TooManyFields(address, expires, sig);
    }
  }

  lemma ThreeFields(address: string, expires: string, sig: string)
    requires BAR !in address && BAR !in expires && BAR !in sig
    ensures SplitBar(address + [BAR] + expires + [BAR] + sig) == [address, expires, sig]
  {
    assert address + [BAR] + expires + [BAR] + sig == address + [BAR] + (expires + [BAR] + sig);
    SplitFirst(address, expires + [BAR] + sig);
    SplitFirst(expires, sig);
    SplitPlain(sig);
  }

  lemma TooManyFields(address: string, expires: string, sig: string)
    requires BAR in address || BAR in expires
    ensures |SplitBar(address + [BAR] + expires + [BAR] + sig)| > 3
  {
    var tail := [BAR] + sig;
    var p := address + ([BAR] + (expires + tail));
    assert address + [BAR] + expires + [BAR] + sig == p;
    FieldCount(p);
    BarsPositive(address);
    BarsPositive(expires);
    BarsConcat(address, [BAR] + (expires + tail));
    BarsConcat([BAR], expires + tail);
    BarsConcat(expires, tail);
    BarsConcat([BAR], sig);
  }

  /** A date in force: a parsable one that has not passed, or one that cannot be parsed. */
  predicate InForce(env: Env, expires: string, now: int) {
    env.parse(expires).None? || now <= env.parse(expires).value
  }

  /** The text of a cookie, with the MAC over address and date. */
  function CookieText(mac: string -> string, address: string, expires: string): string {
    address + "|" + expires + "|" + mac(address + "|" + expires)
  }

  lemma TextIsPayload(mac: string -> string, address: string, expires: string)
    ensures Payload(mac, address, expires) == CookieText(mac, address, expires)
  {
    assert "|" == [BAR];
  }

  /** A cookie string is accepted as `address` exactly when it decodes to three fields:
      the address, a date in force, and the MAC of the text of the first two. */
  lemma AcceptedExactlyWhen(env: Env, cookie: string, now: int, address: string)
    requires env.mac.Some? ==> forall m :: BAR !in env.mac.value(m)
    ensures ValidateCookie(env, cookie, now) == Some(address) <==>
            && env.mac.Some?
            && BAR !in address
            && exists expires :: BAR !in expires && InForce(env, expires, now) && Decoded(cookie) == CookieText(env.mac.value, address, expires)
  {
    var s := Decoded(cookie);
    var parts := SplitBar(s);
    SplitIsInverse(s);
    if ValidateCookie(env, cookie, now) == Some(address) {
      Utf8.Injective(parts[2], Sign(env.mac.value, parts[0], parts[1]));
      JoinThree(parts[0], parts[1], parts[2]);
      assert parts == [parts[0], parts[1], parts[2]];
      TextIsPayload(env.mac.value, address, parts[1]);
      assert s == CookieText(env.mac.value, address, parts[1]);
    }
    if env.mac.Some? && BAR !in address {
      forall expires | BAR !in expires && InForce(env, expires, now) && s == CookieText(env.mac.value, address, expires)
        ensures ValidateCookie(env, cookie, now) == Some(address)
      {
        TextIsPayload(env.mac.value, address, expires);
        ThreeFields(address, expires, Sign(env.mac.value, address, expires));
      }
    }
  }

  /** What is issued, when a secret is configured: the text for a date a day ahead. */
  lemma IssuedText(env: Env, address: string, now: int)
    ensures EncodeCookie(env, address, now).Some? <==> env.mac.Some?
    ensures env.mac.Some? ==>
              Decoded(EncodeCookie(env, address, now).value) == CookieText(env.mac.value, address, env.format(now + 86_400_000))
  {
    if env.mac.Some? {
      DecodedPayload(env, address, now);
      TextIsPayload(env.mac.value, address, env.format(now + MAX_AGE_MS));
    }
  }

  /** Replacing the address or the date of an issued cookie: the result is read as nothing
      unless the MAC gives the same value on both texts, and then only while the new date
      is in force. */
  lemma AlteredCookie(env: Env, cookie: string, address: string, expires: string,
                      newAddress: string, newExpires: string, now: int)
    requires env.mac.Some? && forall m :: BAR !in env.mac.value(m)
    requires Decoded(cookie) == newAddress + "|" + newExpires + "|" + env.mac.value(address + "|" + expires)
    ensures ValidateCookie(env, cookie, now) ==
            if BAR !in newAddress && BAR !in newExpires && InForce(env, newExpires, now)
               && env.mac.value(newAddress + "|" + newExpires) == env.mac.value(address + "|" + expires)
            then Some(newAddress) else None
  {
    var mac := env.mac.value;
    var sig := mac(address + "|" + expires);
    assert "|" == [BAR];
    if BAR !in newAddress && BAR !in newExpires {
      ThreeFields(newAddress, newExpires, sig);
      if ValidateCookie(env, cookie, now).Some? {
        Utf8.Injective(sig, Sign(mac, newAddress, newExpires));
      }
    } else {
      TooManyFields(newAddress, newExpires, sig);
    }
  }
}
