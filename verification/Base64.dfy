/** Base64 as Go's encoding/base64 does it: the standard and the URL alphabet (sections 4 and 5
    of RFC 4648), unpadded and padded encoding, and the unpadded, non-strict decoder, which
    skips line breaks and ignores left-over bits. */
module Base64 {
  import opened Text

  type Byte = x: int | 0 <= x < 256

  type Digit = x: int | 0 <= x < 64

  datatype Alphabet = Std | Url

  function Char(a: Alphabet, d: Digit): char
  {
    if d < 26 then 'A' + d as char
    else if d < 52 then 'a' + (d - 26) as char
    else if d < 62 then '0' + (d - 52) as char
    else if d == 62 then (if a.Std? then '+' else '-')
    else (if a.Std? then '/' else '_')
  }

  function Value(a: Alphabet, c: char): Option<Digit>
  {
    if 'A' <= c <= 'Z' then Some((c - 'A') as int)
    else if 'a' <= c <= 'z' then Some((c - 'a') as int + 26)
    else if '0' <= c <= '9' then Some((c - '0') as int + 52)
    else if c == (if a.Std? then '+' else '-') then Some(62)
    else if c == (if a.Std? then '/' else '_') then Some(63)
    else None
  }

  lemma ValueChar(a: Alphabet, d: Digit)
    ensures Value(a, Char(a, d)) == Some(d)
  {
  }

  /** The alphabets of RFC 4648: the letters, the small letters, the decimal digits, each in order, and two more. */
  lemma AlphabetExactly(a: Alphabet, d: Digit)
    ensures Char(a, 0) == 'A' && Char(a, 26) == 'a' && Char(a, 52) == '0'
    ensures Char(a, 62) == (if a.Std? then '+' else '-') && Char(a, 63) == (if a.Std? then '/' else '_')
    ensures d < 25 || 26 <= d < 51 || 52 <= d < 61 ==> Char(a, d + 1) as int == Char(a, d) as int + 1
  {
  }

  // The four digits of a three-byte group, and the bytes that digits carry.

  function D0(b0: int): (d: int) { b0 / 4 }

  function D1(b0: int, b1: int): (d: int) { b0 % 4 * 16 + b1 / 16 }

  function D2(b1: int, b2: int): (d: int) { b1 % 16 * 4 + b2 / 64 }

  function D3(b2: int): (d: int) { b2 % 64 }

  function B0(d0: int, d1: int): (b: int) { d0 * 4 + d1 / 16 }

  function B1(d1: int, d2: int): (b: int) { d1 % 16 * 16 + d2 / 4 }

  function B2(d2: int, d3: int): (b: int) { d2 % 4 * 64 + d3 }

  function Pack(bs: seq<Byte>): seq<Digit>
  {
    if |bs| == 0 then []
    else if |bs| == 1 then [D0(bs[0]), bs[0] % 4 * 16]
    else if |bs| == 2 then [D0(bs[0]), D1(bs[0], bs[1]), D2(bs[1], 0)]
    else [D0(bs[0]), D1(bs[0], bs[1]), D2(bs[1], bs[2]), D3(bs[2])] + Pack(bs[3..])
  }

  function Unpack(ds: seq<Digit>): Option<seq<Byte>>
  {
    if |ds| == 0 then Some([])
    else if |ds| == 1 then None
    else if |ds| == 2 then Some([B0(ds[0], ds[1])])
    else if |ds| == 3 then Some([B0(ds[0], ds[1]), B1(ds[1], ds[2])])
    else
      var rest := Unpack(ds[4..]);
      if rest.None? then None
      else Some([B0(ds[0], ds[1]), B1(ds[1], ds[2]), B2(ds[2], ds[3])] + rest.value)
  }

  /** The digits of a group carry its bytes. */
  lemma GroupCarries(b0: Byte, b1: Byte, b2: Byte)
    ensures B0(D0(b0), D1(b0, b1)) == b0
    ensures B1(D1(b0, b1), D2(b1, b2)) == b1
    ensures B2(D2(b1, b2), D3(b2)) == b2
  {
  }

  function Spell(a: Alphabet, ds: seq<Digit>): string
  {
    if ds == [] then "" else [Char(a, ds[0])] + Spell(a, ds[1..])
  }

  /** The digits of a text without its line breaks, or None at a character outside the alphabet. */
  function Read(a: Alphabet, s: string): Option<seq<Digit>>
  {
    if s == [] then Some([])
    else if s[0] == '\n' || s[0] == '\r' then Read(a, s[1..])
    else
      var rest := Read(a, s[1..]);
      if Value(a, s[0]).None? || rest.None? then None else Some([Value(a, s[0]).value] + rest.value)
  }

  /** RawStdEncoding and RawURLEncoding EncodeToString. */
  function EncodeRaw(a: Alphabet, bs: seq<Byte>): string
  {
    Spell(a, Pack(bs))
  }

  /** StdEncoding and URLEncoding EncodeToString. */
  function EncodePadded(a: Alphabet, bs: seq<Byte>): string
  {
    EncodeRaw(a, bs) + if |bs| % 3 == 0 then "" else if |bs| % 3 == 1 then "==" else "="
  }

  /** RawStdEncoding and RawURLEncoding DecodeString. */
  function DecodeRaw(a: Alphabet, s: string): Option<seq<Byte>>
  {
    var ds := Read(a, s);
    if ds.None? then None else Unpack(ds.value)
  }

  lemma UnpackPair(ds: seq<Digit>)
    requires |ds| == 2
    ensures Unpack(ds) == Some([B0(ds[0], ds[1])])
  {
  }

  lemma PackOne(b: Byte)
    ensures |Pack([b])| == 2 && B0(Pack([b])[0], Pack([b])[1]) == b
  {
    var x: int := b;
    assert x % 4 * 16 / 16 == x % 4;
  }

  lemma UnpackOne(b: Byte)
    ensures Unpack(Pack([b])) == Some([b])
  {
    PackOne(b);
    UnpackPair(Pack([b]));
  }

  lemma UnpackTwo(b: Byte, b': Byte)
    ensures Unpack(Pack([b, b'])) == Some([b, b'])
  {
    GroupCarries(b, b', 0);
    var ds := Pack([b, b']);
    assert Unpack(ds) == Some([B0(ds[0], ds[1]), B1(ds[1], ds[2])]);
  }

  lemma UnpackGroup(group: seq<Digit>, ds: seq<Digit>, bs: seq<Byte>)
    requires |group| == 4 && Unpack(ds) == Some(bs)
    ensures Unpack(group + ds) ==
      Some([B0(group[0], group[1]), B1(group[1], group[2]), B2(group[2], group[3])] + bs)
  {
    assert (group + ds)[4..] == ds;
  }

  lemma {:induction false} UnpackPack(bs: seq<Byte>)
    ensures Unpack(Pack(bs)) == Some(bs)
  {
    if |bs| == 1 {
      UnpackOne(bs[0]);
      assert bs == [bs[0]];
    } else if |bs| == 2 {
      UnpackTwo(bs[0], bs[1]);
      assert bs == [bs[0], bs[1]];
    } else if |bs| > 2 {
      UnpackPack(bs[3..]);
      GroupCarries(bs[0], bs[1], bs[2]);
      UnpackGroup([D0(bs[0]), D1(bs[0], bs[1]), D2(bs[1], bs[2]), D3(bs[2])], Pack(bs[3..]), bs[3..]);
      assert [bs[0], bs[1], bs[2]] + bs[3..] == bs;
    }
  }

  function ThreeBytes(b0: int, b1: int, b2: int): int { b0 * 65536 + b1 * 256 + b2 }

  function FourDigits(d0: int, d1: int, d2: int, d3: int): int { d0 * 262144 + d1 * 4096 + d2 * 64 + d3 }

  /** Digits are the bytes' bits in order: a group of three bytes and its four digits are the same number, and so are,
      with zeros behind, the bytes and digits of the last group. */
  lemma PackInOrder(bs: seq<Byte>)
    requires bs != []
    ensures var ds := Pack(bs);
      if |bs| == 1 then |ds| == 2 && FourDigits(ds[0], ds[1], 0, 0) == ThreeBytes(bs[0], 0, 0)
      else if |bs| == 2 then |ds| == 3 && FourDigits(ds[0], ds[1], ds[2], 0) == ThreeBytes(bs[0], bs[1], 0)
      else
        && |ds| >= 4 && ds[4..] == Pack(bs[3..])
        && FourDigits(ds[0], ds[1], ds[2], ds[3]) == ThreeBytes(bs[0], bs[1], bs[2])
  {
    if |bs| == 2 { GroupNumber(bs[0], bs[1], 0); }
    if |bs| >= 3 { GroupNumber(bs[0], bs[1], bs[2]); }
  }

  lemma GroupNumber(b0: Byte, b1: Byte, b2: Byte)
    ensures FourDigits(D0(b0), D1(b0, b1), D2(b1, b2), D3(b2)) == ThreeBytes(b0, b1, b2)
  {
  }

  /** Decoding reads the bits in the same order: four digits and their three bytes are the same number. */
  lemma UnpackInOrder(ds: seq<Digit>)
    requires |ds| >= 4 && Unpack(ds).Some?
    ensures var bs := Unpack(ds).value;
      && |bs| >= 3 && Unpack(ds[4..]) == Some(bs[3..])
      && ThreeBytes(bs[0], bs[1], bs[2]) == FourDigits(ds[0], ds[1], ds[2], ds[3])
  {
    var bs, rest := Unpack(ds).value, Unpack(ds[4..]).value;
    assert bs == [B0(ds[0], ds[1]), B1(ds[1], ds[2]), B2(ds[2], ds[3])] + rest && bs[3..] == rest;
    DigitsNumber(ds[0], ds[1], ds[2], ds[3]);
  }

  lemma DigitsNumber(d0: Digit, d1: Digit, d2: Digit, d3: Digit)
    ensures ThreeBytes(B0(d0, d1), B1(d1, d2), B2(d2, d3)) == FourDigits(d0, d1, d2, d3)
  {
  }

  /** Of two or three last digits the bits left over are dropped. */
  lemma LastDigits(d0: Digit, d1: Digit, d2: Digit)
    ensures Unpack([d0, d1]) == Some([B0(d0, d1)]) && B0(d0, d1) == FourDigits(d0, d1, 0, 0) / 65536
    ensures Unpack([d0, d1, d2]) == Some([B0(d0, d1), B1(d1, d2)])
    ensures ThreeBytes(0, B0(d0, d1), B1(d1, d2)) == FourDigits(d0, d1, d2, 0) / 256
  {
    LastNumbers(d0, d1, d2);
    UnpackPair([d0, d1]);
    UnpackTriple([d0, d1, d2]);
  }

  lemma UnpackTriple(ds: seq<Digit>)
    requires |ds| == 3
    ensures Unpack(ds) == Some([B0(ds[0], ds[1]), B1(ds[1], ds[2])])
  {
  }

  lemma LastNumbers(d0: Digit, d1: Digit, d2: Digit)
    ensures B0(d0, d1) == FourDigits(d0, d1, 0, 0) / 65536
    ensures ThreeBytes(0, B0(d0, d1), B1(d1, d2)) == FourDigits(d0, d1, d2, 0) / 256
  {
  }

  lemma {:induction false} ReadSpell(a: Alphabet, ds: seq<Digit>)
    ensures Read(a, Spell(a, ds)) == Some(ds)
  {
    if ds != [] {
      ValueChar(a, ds[0]);
      ReadSpell(a, ds[1..]);
      var s := Spell(a, ds);
      assert s[0] == Char(a, ds[0]) && s[1..] == Spell(a, ds[1..]);
      assert Read(a, s) == Some([ds[0]] + ds[1..]) && [ds[0]] + ds[1..] == ds;
    }
  }

  /** Decoding undoes encoding. */
  lemma DecodeEncode(a: Alphabet, bs: seq<Byte>)
    ensures DecodeRaw(a, EncodeRaw(a, bs)) == Some(bs)
  {
    UnpackPack(bs);
    ReadSpell(a, Pack(bs));
  }

  lemma {:induction false} PackLength(bs: seq<Byte>)
    ensures |Pack(bs)| == (4 * |bs| + 2) / 3
  {
    if |bs| >= 3 {
      PackLength(bs[3..]);
    }
  }

  lemma {:induction false} SpellShape(a: Alphabet, ds: seq<Digit>)
    ensures |Spell(a, ds)| == |ds|
    ensures forall c | c in Spell(a, ds) :: Value(a, c).Some?
  {
    if ds != [] {
      ValueChar(a, ds[0]);
      SpellShape(a, ds[1..]);
    }
  }

  /** Four characters for every three bytes, all of them from the alphabet. */
  lemma EncodedShape(a: Alphabet, bs: seq<Byte>)
    ensures |EncodeRaw(a, bs)| == (4 * |bs| + 2) / 3
    ensures |EncodePadded(a, bs)| == (|bs| + 2) / 3 * 4
    ensures forall c | c in EncodeRaw(a, bs) :: Value(a, c).Some?
    ensures forall c | c in EncodePadded(a, bs) :: Value(a, c).Some? || c == '='
  {
    PackLength(bs);
    SpellShape(a, Pack(bs));
    PadLength(|bs| / 3, |bs| % 3);
  }

  lemma PadLength(q: nat, r: nat)
    requires r < 3
    ensures (4 * (3 * q + r) + 2) / 3 + (if r == 0 then 0 else 3 - r) == (3 * q + r + 2) / 3 * 4
  {
    if r == 0 {
      assert (4 * (3 * q) + 2) / 3 == 4 * q && (3 * q + 2) / 3 == q;
    } else if r == 1 {
      assert (4 * (3 * q + 1) + 2) / 3 == 4 * q + 2 && (3 * q + 1 + 2) / 3 == q + 1;
    } else {
      assert (4 * (3 * q + 2) + 2) / 3 == 4 * q + 3 && (3 * q + 2 + 2) / 3 == q + 1;
    }
  }

  predicate Break(c: char)
  {
    c == '\n' || c == '\r'
  }

  /** How many characters of a text count as digits. */
  function Digits(s: string): nat
  {
    if s == [] then 0 else (if Break(s[0]) then 0 else 1) + Digits(s[1..])
  }

  lemma {:induction false} ReadExactly(a: Alphabet, s: string)
    ensures Read(a, s).Some? <==> forall c | c in s :: Break(c) || Value(a, c).Some?
    ensures Read(a, s).Some? ==> |Read(a, s).value| == Digits(s)
  {
    if s != [] {
      ReadExactly(a, s[1..]);
      assert s == [s[0]] + s[1..];
    }
  }

  lemma {:induction false} UnpackExactly(ds: seq<Digit>)
    ensures Unpack(ds).Some? <==> |ds| % 4 != 1
    ensures Unpack(ds).Some? ==> |Unpack(ds).value| == 3 * |ds| / 4
  {
    if |ds| >= 4 {
      UnpackExactly(ds[4..]);
      assert |ds| % 4 == (|ds| - 4) % 4 && 3 * |ds| / 4 == 3 * (|ds| - 4) / 4 + 3;
      UnpackCount(ds);
    }
  }

  lemma UnpackCount(ds: seq<Digit>)
    requires |ds| >= 4
    ensures Unpack(ds).Some? <==> Unpack(ds[4..]).Some?
    ensures Unpack(ds).Some? ==> |Unpack(ds).value| == |Unpack(ds[4..]).value| + 3
  {
  }

  /** What decodes: texts over the alphabet and line breaks whose digits leave no single one over. */
  lemma DecodesExactly(a: Alphabet, s: string)
    ensures DecodeRaw(a, s).Some? <==> (forall c | c in s :: Break(c) || Value(a, c).Some?) && Digits(s) % 4 != 1
    ensures DecodeRaw(a, s).Some? ==> |DecodeRaw(a, s).value| == 3 * Digits(s) / 4
  {
    ReadExactly(a, s);
    if Read(a, s).Some? { UnpackExactly(Read(a, s).value); }
  }
}
