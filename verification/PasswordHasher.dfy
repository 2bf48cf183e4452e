/** aegis/internal/common/passwordhasher/hasher.go: Argon2id hashes as PHC strings. The key
    derivation (RFC 9106) is a parameter; printing, scanning and base64 are spelled out. */
module PasswordHasher {
  import opened Text
  import opened Base64

  datatype Params = Params(memory: nat, time: nat, threads: nat)

  datatype Decoded = Decoded(params: Params, salt: seq<Byte>, hash: seq<Byte>)

  datatype Error = BadFormat | BadAlgorithm | BadVersionFormat | BadVersion | BadParams | BadSalt | BadHash

  datatype Result<+T> = Ok(value: T) | Err(error: Error)

  const VERSION := 19
  const TWO_32 := 0x1_0000_0000
  const HASH_PARAMS := Params(65536, 3, 4)
  const KEY_LEN := 32
  const SALT_LENGTH := 16

  /** IDKey(password, salt, time, memory, threads, keyLen). */
  type Derive = (string, seq<Byte>, nat, nat, nat, nat) -> seq<Byte>

  // ----- fmt.Sprintf and fmt.Sscanf for decimals -----

  function DecimalDigit(d: nat): char
    requires d < 10
  {
    '0' + d as char
  }

  /** Sprintf("%d", n). */
  function Decimal(n: nat): string
  {
    if n < 10 then [DecimalDigit(n)] else Decimal(n / 10) + [DecimalDigit(n % 10)]
  }

  predicate IsDigit(c: char)
  {
    '0' <= c <= '9'
  }

  /** The length of the leading run of decimal digits. */
  function Span(s: string): (n: nat)
    ensures n <= |s| && forall i | 0 <= i < n :: IsDigit(s[i])
  {
    if s == [] || !IsDigit(s[0]) then 0 else 1 + Span(s[1..])
  }

  function Number(s: string): nat
    requires forall i | 0 <= i < |s| :: IsDigit(s[i])
  {
    if s == [] then 0
    else
      assert IsDigit(s[|s| - 1]);
      Number(s[..|s| - 1]) * 10 + (s[|s| - 1] as int - '0' as int)
  }

  /** unicode.IsSpace as fmt tabulates it. */
  predicate IsSpace(c: char)
  {
    var r := c as int;
    || 0x09 <= r <= 0x0d || r == 0x20 || r == 0x85 || r == 0xa0 || r == 0x1680 || 0x2000 <= r <= 0x200a
    || r == 0x2028 || r == 0x2029 || r == 0x202f || r == 0x205f || r == 0x3000
  }

  /** Space before a verb is skipped; a newline there is an error. */
  function SkipSpace(s: string): Option<string>
  {
    if s == [] || !IsSpace(s[0]) then Some(s)
    else if s[0] == '\n' then None
    else SkipSpace(s[1..])
  }

  /** A run of digits whose number is below the bound, and the rest of the input. */
  function ScanDigits(s: string, bound: nat): Option<(nat, string)>
  {
    var n := Span(s);
    if n == 0 || Number(s[..n]) >= bound then None else Some((Number(s[..n]), s[n..]))
  }

  /** "%d" into an unsigned integer below the bound. */
  function ScanUint(s: string, bound: nat): Option<(nat, string)>
  {
    var t := SkipSpace(s);
    if t.None? then None else ScanDigits(t.value, bound)
  }

  const MAX_64 := 0x8000_0000_0000_0000

  /** "%d" into an int, whose sign is optional. */
  function ScanInt(s: string): Option<(int, string)>
  {
    var t := SkipSpace(s);
    if t.None? then None
    else if t.value != [] && t.value[0] == '-' then
      var n := ScanDigits(t.value[1..], MAX_64 + 1);
      if n.None? then None
      else
        var v: int := n.value.0;
        Some((-v, n.value.1))
    else if t.value != [] && t.value[0] == '+' then ScanDigits(t.value[1..], MAX_64)
    else ScanDigits(t.value, MAX_64)
  }

  /** Literal text of a format. */
  function Literal(s: string, text: string): Option<string>
  {
    if text <= s then Some(s[|text|..]) else None
  }

  /** Sscanf(s, "v=%d"): what follows the number is not looked at. */
  function ScanVersion(s: string): Option<int>
  {
    var t := Literal(s, "v=");
    if t.None? then None
    else
      var v := ScanInt(t.value);
      if v.None? then None else Some(v.value.0)
  }

  /** Literal text and a number behind it. */
  function ScanField(s: string, text: string, bound: nat): Option<(nat, string)>
  {
    var t := Literal(s, text);
    if t.None? then None else ScanUint(t.value, bound)
  }

  /** Sscanf(s, "m=%d,t=%d,p=%d"). */
  function ScanParams(s: string): Option<Params>
  {
    var m := ScanField(s, "m=", TWO_32);
    if m.None? then None
    else
      var t := ScanField(m.value.1, ",t=", TWO_32);
      if t.None? then None
      else
        var p := ScanField(t.value.1, ",p=", 256);
        if p.None? then None else Some(Params(m.value.0, t.value.0, p.value.0))
  }

  // ----- The hasher -----

  /** The PHC string that Hash prints. */
  function Phc(p: Params, salt: seq<Byte>, hash: seq<Byte>): string
  {
    "$argon2id$v=" + Decimal(VERSION) + "$m=" + Decimal(p.memory) + ",t=" + Decimal(p.time) + ",p=" + Decimal(p.threads)
    + "$" + EncodeRaw(Std, salt) + "$" + EncodeRaw(Std, hash)
  }

  /** decodeHash. */
  function DecodeHash(encoded: string): Result<Decoded>
  {
    var parts := Split(encoded, '$');
    if |parts| != 6 then Err(BadFormat)
    else if parts[1] != "argon2id" then Err(BadAlgorithm)
    else if ScanVersion(parts[2]).None? then Err(BadVersionFormat)
    else if ScanVersion(parts[2]).value != VERSION then Err(BadVersion)
    else if ScanParams(parts[3]).None? then Err(BadParams)
    else if DecodeRaw(Std, parts[4]).None? then Err(BadSalt)
    else if DecodeRaw(Std, parts[5]).None? then Err(BadHash)
    else Ok(Decoded(ScanParams(parts[3]).value, DecodeRaw(Std, parts[4]).value, DecodeRaw(Std, parts[5]).value))
  }

  /** Hash, with the random salt it drew. */
  function Hash(derive: Derive, password: string, salt: seq<Byte>): string
    requires |salt| == SALT_LENGTH
  {
    Phc(HASH_PARAMS, salt, KeyFor(derive, password, salt))
  }

  /** The key that Hash derives. */
  function KeyFor(derive: Derive, password: string, salt: seq<Byte>): seq<Byte>
  {
    derive(password, salt, HASH_PARAMS.time, HASH_PARAMS.memory, HASH_PARAMS.threads, KEY_LEN)
  }

  function Verify(derive: Derive, password: string, encoded: string): Result<bool>
  {
    match DecodeHash(encoded)
    case Err(e) => Err(e)
    case Ok(d) => Ok(d.hash == derive(password, d.salt, d.params.time, d.params.memory, d.params.threads, |d.hash|))
  }

  // ----- Scanning undoes printing -----

  lemma {:induction false} DecimalDigits(n: nat)
    ensures |Decimal(n)| > 0 && forall i | 0 <= i < |Decimal(n)| :: IsDigit(Decimal(n)[i])
    ensures Number(Decimal(n)) == n
  {
    if n >= 10 {
      DecimalDigits(n / 10);
      var s := Decimal(n);
      assert s[..|s| - 1] == Decimal(n / 10);
      assert s[|s| - 1] == DecimalDigit(n % 10);
    }
  }

  lemma {:induction false} SpanOf(digits: string, rest: string)
    requires forall i | 0 <= i < |digits| :: IsDigit(digits[i])
    requires rest == [] || !IsDigit(rest[0])
    ensures Span(digits + rest) == |digits|
  {
    if digits == [] {
      assert digits + rest == rest;
    } else {
      assert (digits + rest)[1..] == digits[1..] + rest;
      SpanOf(digits[1..], rest);
    }
  }

  lemma ScanDigitsDecimal(n: nat, rest: string, bound: nat)
    requires n < bound && (rest == [] || !IsDigit(rest[0]))
    ensures ScanDigits(Decimal(n) + rest, bound) == Some((n, rest))
  {
    DecimalDigits(n);
    SpanOf(Decimal(n), rest);
    var s := Decimal(n) + rest;
    assert s[..|Decimal(n)|] == Decimal(n) && s[|Decimal(n)|..] == rest;
  }

  lemma ScanDecimal(n: nat, rest: string, bound: nat)
    requires n < bound && (rest == [] || !IsDigit(rest[0]))
    ensures ScanUint(Decimal(n) + rest, bound) == Some((n, rest))
    ensures n < MAX_64 ==> ScanInt(Decimal(n) + rest) == Some((n, rest))
  {
    DecimalDigits(n);
    var s := Decimal(n) + rest;
    assert s[0] == Decimal(n)[0] && IsDigit(s[0]);
    assert SkipSpace(s) == Some(s);
    ScanDigitsDecimal(n, rest, bound);
    if n < MAX_64 { ScanDigitsDecimal(n, rest, MAX_64); }
  }

  lemma LiteralThen(text: string, rest: string)
    ensures Literal(text + rest, text) == Some(rest)
  {
  }

  lemma ScanFieldDecimal(text: string, n: nat, rest: string, bound: nat)
    requires n < bound && (rest == [] || !IsDigit(rest[0]))
    ensures ScanField(text + Decimal(n) + rest, text, bound) == Some((n, rest))
  {
    LiteralThen(text, Decimal(n) + rest);
    assert text + Decimal(n) + rest == text + (Decimal(n) + rest);
    ScanDecimal(n, rest, bound);
  }

  lemma ScanVersionText(n: nat)
    requires n < MAX_64
    ensures ScanVersion("v=" + Decimal(n)) == Some(n)
  {
    var s := "v=" + Decimal(n);
    assert s[2..] == Decimal(n) + "";
    ScanDecimal(n, "", MAX_64);
  }

  predicate InRange(p: Params)
  {
    p.memory < TWO_32 && p.time < TWO_32 && p.threads < 256
  }

  function ParamsText(p: Params): string
  {
    "m=" + Decimal(p.memory) + (",t=" + Decimal(p.time) + (",p=" + Decimal(p.threads) + ""))
  }

  /** Whatever is scanned fits its fields: 32 bits of memory and time, 8 bits of threads. */
  lemma ParamsFit(s: string)
    requires ScanParams(s).Some?
    ensures var p := ScanParams(s).value;
      p.memory < 0x1_0000_0000 && p.time < 0x1_0000_0000 && p.threads < 0x100
  {
  }

  lemma ScanParamsText(p: Params)
    requires InRange(p)
    ensures ScanParams(ParamsText(p)) == Some(p)
  {
    var last := ",p=" + Decimal(p.threads) + "";
    var mid := ",t=" + Decimal(p.time) + last;
    ScanFieldDecimal(",p=", p.threads, "", 256);
    ScanFieldDecimal(",t=", p.time, last, TWO_32);
    ScanFieldDecimal("m=", p.memory, mid, TWO_32);
  }

  lemma NoDollar(p: Params, bs: seq<Byte>)
    ensures '$' !in ParamsText(p) && '$' !in EncodeRaw(Std, bs)
  {
    DecimalDigits(p.memory);
    DecimalDigits(p.time);
    DecimalDigits(p.threads);
    EncodedShape(Std, bs);
  }

  function Fields(front: string, p: Params, salt: seq<Byte>, hash: seq<Byte>): seq<string>
  {
    [front, "argon2id", "v=" + Decimal(VERSION), ParamsText(p), EncodeRaw(Std, salt), EncodeRaw(Std, hash)]
  }

  lemma SixParts(a: string, b: string, c: string, d: string, e: string, f: string)
    requires '$' !in a && '$' !in b && '$' !in c && '$' !in d && '$' !in e && '$' !in f
    ensures Split(a + ['$'] + (b + ['$'] + (c + ['$'] + (d + ['$'] + (e + ['$'] + f)))), '$') == [a, b, c, d, e, f]
  {
    SplitFree(f, '$');
    SplitAtFirst(e, f, '$');
    SplitAtFirst(d, e + ['$'] + f, '$');
    SplitAtFirst(c, d + ['$'] + (e + ['$'] + f), '$');
    SplitAtFirst(b, c + ['$'] + (d + ['$'] + (e + ['$'] + f)), '$');
    SplitAtFirst(a, b + ['$'] + (c + ['$'] + (d + ['$'] + (e + ['$'] + f))), '$');
  }

  lemma ParamsShape(m: string, t: string, p: string)
    ensures "$m=" + m + ",t=" + t + ",p=" + p == ['$'] + ("m=" + m + (",t=" + t + (",p=" + p + "")))
  {
  }

  lemma Regroup(front: string, v: string, head: string, params: string, e: string, f: string)
    requires head == "$argon2id$v=" + v
    ensures front + (head + (['$'] + params) + "$" + e + "$" + f)
         == front + ['$'] + ("argon2id" + ['$'] + (("v=" + v) + ['$'] + (params + ['$'] + (e + ['$'] + f))))
  {
    assert head == ['$'] + "argon2id" + ['$'] + ("v=" + v);
  }

  lemma PhcParts(front: string, p: Params, salt: seq<Byte>, hash: seq<Byte>)
    requires '$' !in front
    ensures Split(front + Phc(p, salt, hash), '$') == Fields(front, p, salt, hash)
  {
    var e, f, v := EncodeRaw(Std, salt), EncodeRaw(Std, hash), Decimal(VERSION);
    NoDollar(p, salt);
    NoDollar(p, hash);
    DecimalDigits(VERSION);
    SixParts(front, "argon2id", "v=" + v, ParamsText(p), e, f);
    var head := "$argon2id$v=" + v;
    ParamsShape(Decimal(p.memory), Decimal(p.time), Decimal(p.threads));
    Regroup(front, v, head, ParamsText(p), e, f);
    PhcShape(head, Decimal(p.memory), Decimal(p.time), Decimal(p.threads), e, f);
  }

  lemma PhcShape(head: string, m: string, t: string, p: string, e: string, f: string)
    ensures head + "$m=" + m + ",t=" + t + ",p=" + p + "$" + e + "$" + f
         == head + ("$m=" + m + ",t=" + t + ",p=" + p) + "$" + e + "$" + f
  {
    assert head + "$m=" + m + ",t=" + t + ",p=" + p == head + ("$m=" + m + ",t=" + t + ",p=" + p);
  }

  predicate Carry(parts: seq<string>, d: Decoded)
  {
    && |parts| == 6 && parts[1] == "argon2id" && ScanVersion(parts[2]) == Some(VERSION)
    && ScanParams(parts[3]) == Some(d.params)
    && DecodeRaw(Std, parts[4]) == Some(d.salt) && DecodeRaw(Std, parts[5]) == Some(d.hash)
  }

  lemma FieldsCarry(front: string, version: string, params: string, salt: string, hash: string, d: Decoded)
    requires ScanVersion(version) == Some(VERSION) && ScanParams(params) == Some(d.params)
    requires DecodeRaw(Std, salt) == Some(d.salt) && DecodeRaw(Std, hash) == Some(d.hash)
    ensures Carry([front, "argon2id", version, params, salt, hash], d)
  {
  }

  lemma DecodeParts(encoded: string, parts: seq<string>, d: Decoded)
    requires Split(encoded, '$') == parts && Carry(parts, d)
    ensures DecodeHash(encoded) == Ok(d)
  {
  }

  /** PHC round trip: decodeHash recovers exactly what Hash encoded, for every salt, key and
      parameters of the right width; whatever stands before the first '$' is ignored. */
  lemma PhcRoundTrip(front: string, p: Params, salt: seq<Byte>, hash: seq<Byte>)
    requires InRange(p) && '$' !in front
    ensures DecodeHash(front + Phc(p, salt, hash)) == Ok(Decoded(p, salt, hash))
  {
    PhcParts(front, p, salt, hash);
    ScanVersionText(VERSION);
    ScanParamsText(p);
    DecodeEncode(Std, salt);
    DecodeEncode(Std, hash);
    FieldsCarry(front, "v=" + Decimal(VERSION), ParamsText(p), EncodeRaw(Std, salt), EncodeRaw(Std, hash),
                Decoded(p, salt, hash));
    DecodeParts(front + Phc(p, salt, hash), Fields(front, p, salt, hash), Decoded(p, salt, hash));
  }

  lemma ShortDecimals()
    ensures Decimal(19) == "19" && Decimal(3) == "3" && Decimal(4) == "4"
  {
    assert Decimal(1) == "1";
  }

  lemma MemoryDecimal()
    ensures Decimal(65536) == "65536"
  {
    assert Decimal(6) == "6";
    assert Decimal(65) == Decimal(6) + "5";
    assert Decimal(655) == Decimal(65) + "5";
    assert Decimal(6553) == Decimal(655) + "3";
    assert Decimal(65536) == Decimal(6553) + "6";
  }

  /** What Hash prints: Argon2id, version 19, 64 MB, three passes, four lanes, then the salt and a key of 32 bytes. */
  lemma HashFormat(derive: Derive, password: string, salt: seq<Byte>)
    requires |salt| == 16
    ensures Hash(derive, password, salt) ==
      "$argon2id$v=" + "19" + "$m=" + "65536" + ",t=" + "3" + ",p=" + "4"
      + "$" + EncodeRaw(Std, salt) + "$" + EncodeRaw(Std, derive(password, salt, 3, 65536, 4, 32))
  {
    ShortDecimals();
    MemoryDecimal();
  }

  /** What decodes, exactly: six parts between '$' signs, of which the second names Argon2id, the third scans to
      version 19, and the rest are the parameters, the salt and the key. */
  lemma DecodedExactly(encoded: string, d: Decoded)
    ensures DecodeHash(encoded) == Ok(d) <==> exists front, v, ps, s, h :: Spells(encoded, d, front, v, ps, s, h)
  {
    if DecodeHash(encoded) == Ok(d) { DecodedSpells(encoded, d); }
    if front, v, ps, s, h :| Spells(encoded, d, front, v, ps, s, h) { SpelledDecodes(encoded, d, front, v, ps, s, h); }
  }

  lemma DecodedSpells(encoded: string, d: Decoded)
    requires DecodeHash(encoded) == Ok(d)
    ensures exists front, v, ps, s, h :: Spells(encoded, d, front, v, ps, s, h)
  {
    var parts := Split(encoded, '$');
    JoinSplit(encoded, '$');
    JoinSix(parts);
    forall i | 0 <= i < 6 ensures '$' !in parts[i] { assert parts[i] in parts; }
    assert Spells(encoded, d, parts[0], parts[2], parts[3], parts[4], parts[5]);
  }

  lemma SpelledDecodes(encoded: string, d: Decoded, front: string, v: string, ps: string, s: string, h: string)
    requires Spells(encoded, d, front, v, ps, s, h)
    ensures DecodeHash(encoded) == Ok(d)
  {
    SixParts(front, "argon2id", v, ps, s, h);
    DecodeParts(encoded, [front, "argon2id", v, ps, s, h], d);
  }

  ghost predicate Spells(encoded: string, d: Decoded, front: string, v: string, ps: string, s: string, h: string)
  {
    && '$' !in front && '$' !in v && '$' !in ps && '$' !in s && '$' !in h
    && encoded == front + ['$'] + ("argon2id" + ['$'] + (v + ['$'] + (ps + ['$'] + (s + ['$'] + h))))
    && ScanVersion(v) == Some(19) && ScanParams(ps) == Some(d.params)
    && DecodeRaw(Std, s) == Some(d.salt) && DecodeRaw(Std, h) == Some(d.hash)
  }

  lemma JoinSix(p: seq<string>)
    requires |p| == 6
    ensures Join(p, '$') == p[0] + ['$'] + (p[1] + ['$'] + (p[2] + ['$'] + (p[3] + ['$'] + (p[4] + ['$'] + p[5]))))
  {
    assert Join(p[4..], '$') == p[4] + ['$'] + p[5] by { assert p[4..][1..] == [p[5]]; }
    assert Join(p[3..], '$') == p[3] + ['$'] + Join(p[4..], '$') by { assert p[3..][1..] == p[4..]; }
    assert Join(p[2..], '$') == p[2] + ['$'] + Join(p[3..], '$') by { assert p[2..][1..] == p[3..]; }
    assert Join(p[1..], '$') == p[1] + ['$'] + Join(p[2..], '$') by { assert p[1..][1..] == p[2..]; }
  }

  /** A sign is read for the version; blanks in front are skipped, a newline there is refused. */
  lemma SignsAndBlanks(n: int, rest: string, s: string)
    requires 0 <= n < MAX_64 && (rest == [] || !IsDigit(rest[0]))
    ensures ScanInt("-" + (Decimal(n) + rest)) == Some((-n, rest))
    ensures ScanInt("+" + (Decimal(n) + rest)) == Some((n, rest))
    ensures ScanInt(" " + s) == ScanInt(s) && ScanInt("\t" + s) == ScanInt(s) && ScanInt("\n" + s) == None
  {
    var text := Decimal(n) + rest;
    ScanDigitsDecimal(n, rest, MAX_64);
    ScanDigitsDecimal(n, rest, MAX_64 + 1);
    assert ("-" + text)[1..] == text && ("+" + text)[1..] == text;
    assert (" " + s)[1..] == s && ("\t" + s)[1..] == s && ("\n" + s)[0] == '\n';
  }

  /** The first thing wrong decides the error. */
  lemma FirstError(encoded: string)
    ensures var parts := Split(encoded, '$');
      var e := DecodeHash(encoded);
      if |parts| != 6 then e == Err(BadFormat)
      else if parts[1] != "argon2id" then e == Err(BadAlgorithm)
      else if ScanVersion(parts[2]).None? then e == Err(BadVersionFormat)
      else if ScanVersion(parts[2]) != Some(19) then e == Err(BadVersion)
      else if ScanParams(parts[3]).None? then e == Err(BadParams)
      else if DecodeRaw(Std, parts[4]).None? then e == Err(BadSalt)
      else if DecodeRaw(Std, parts[5]).None? then e == Err(BadHash)
      else e.Ok?
  {
  }

  /** A number too wide for its parameter is refused. */
  lemma OverflowRefused(n: nat, rest: string, bound: nat)
    requires n >= bound && (rest == [] || !IsDigit(rest[0]))
    ensures ScanUint(Decimal(n) + rest, bound) == None
  {
    DecimalDigits(n);
    SpanOf(Decimal(n), rest);
    var s := Decimal(n) + rest;
    assert s[0] == Decimal(n)[0] && IsDigit(s[0]);
    assert SkipSpace(s) == Some(s) && s[..|Decimal(n)|] == Decimal(n);
  }

  /** Verify derives a key of the stored one's length with the stored parameters and salt, and compares. */
  lemma VerifyPhc(derive: Derive, password: string, p: Params, salt: seq<Byte>, hash: seq<Byte>)
    requires InRange(p)
    ensures Verify(derive, password, Phc(p, salt, hash)) ==
      Ok(hash == derive(password, salt, p.time, p.memory, p.threads, |hash|))
  {
    PhcRoundTrip("", p, salt, hash);
    assert "" + Phc(p, salt, hash) == Phc(p, salt, hash);
  }

  /** Verify accepts q against Hash(p) exactly when both derive the same key; in particular p itself. */
  lemma {:induction false} VerifyHash(derive: Derive, p: string, q: string, salt: seq<Byte>)
    requires |salt| == 16 && |derive(p, salt, 3, 65536, 4, 32)| == 32
    ensures Verify(derive, q, Hash(derive, p, salt)) ==
      Ok(derive(p, salt, 3, 65536, 4, 32) == derive(q, salt, 3, 65536, 4, 32))
    ensures Verify(derive, p, Hash(derive, p, salt)) == Ok(true)
  {
    VerifyPhc(derive, q, HASH_PARAMS, salt, KeyFor(derive, p, salt));
    VerifyPhc(derive, p, HASH_PARAMS, salt, KeyFor(derive, p, salt));
  }
}
