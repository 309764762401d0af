/**
 * Text as sequences of 16-bit code units, its UTF-8 bytes (RFC 3629, section 3), and the strict decoder, which drops a
 * leading byte order mark.  The encoder the platform supplies replaces an unpaired surrogate; the repository's own
 * fallback encoder does not.
 */
module Utf8 {
  import opened Wrappers
  import opened Bytes

  type CodeUnit = x: int | 0 <= x < 0x1_0000
  type Text = seq<CodeUnit>

  const REPLACEMENT := '\U{FFFD}'
  const BOM := '\U{FEFF}'
  const BOM_BYTES: ByteString := [0xEF, 0xBB, 0xBF]

  predicate High(u: CodeUnit) {
    0xD800 <= u <= 0xDBFF
  }

  predicate Low(u: CodeUnit) {
    0xDC00 <= u <= 0xDFFF
  }

  predicate PairAhead(t: Text) {
    |t| > 1 && High(t[0]) && Low(t[1])
  }

  /** Every surrogate is half of a pair. */
  predicate WellFormed(t: Text) {
    if t == [] then true
    else if PairAhead(t) then WellFormed(t[2..])
    else !High(t[0]) && !Low(t[0]) && WellFormed(t[1..])
  }

  // ---------------------------------------------------------------- code units and characters

  function OfPair(high: CodeUnit, low: CodeUnit): (c: char)
    requires High(high) && Low(low)
    ensures c as int >= 0x1_0000
  {
    (0x1_0000 + (high - 0xD800) * 0x400 + (low - 0xDC00)) as char
  }

  function UnitsOf(c: char): (t: Text)
    ensures 1 <= |t| <= 2
  {
    var v := c as int;
    if v < 0x1_0000 then [v] else [0xD800 + (v - 0x1_0000) / 0x400, 0xDC00 + (v - 0x1_0000) % 0x400]
  }

  /** The characters of a text; an unpaired surrogate counts as the replacement character. */
  function Scalars(t: Text): string {
    if t == [] then ""
    else if PairAhead(t) then [OfPair(t[0], t[1])] + Scalars(t[2..])
    else if High(t[0]) || Low(t[0]) then [REPLACEMENT] + Scalars(t[1..])
    else [t[0] as char] + Scalars(t[1..])
  }

  function Units(s: string): Text {
    if s == "" then [] else UnitsOf(s[0]) + Units(s[1..])
  }

  lemma UnitsOfPair(high: CodeUnit, low: CodeUnit)
    requires High(high) && Low(low)
    ensures UnitsOf(OfPair(high, low)) == [high, low]
  {
  }

  /** Reading a text as characters loses nothing exactly when its surrogates are paired. */
  lemma {:induction false} UnitsOfScalars(t: Text)
    ensures |Units(Scalars(t))| == |t|
    ensures Units(Scalars(t)) == t <==> WellFormed(t)
  {
    var s, back := Scalars(t), Units(Scalars(t));
    if t == [] {
    } else if PairAhead(t) {
      UnitsOfScalars(t[2..]);
      UnitsOfPair(t[0], t[1]);
      assert s[1..] == Scalars(t[2..]);
      assert back == [t[0], t[1]] + Units(s[1..]);
      assert back[2..] == Units(s[1..]) && t == [t[0], t[1]] + t[2..];
    } else {
      UnitsOfScalars(t[1..]);
      assert s[1..] == Scalars(t[1..]);
      assert back == UnitsOf(s[0]) + Units(s[1..]);
      assert back[1..] == Units(s[1..]) && t == [t[0]] + t[1..];
    }
  }

  lemma {:induction false} ScalarsOfUnits(s: string)
    ensures Scalars(Units(s)) == s && WellFormed(Units(s))
  {
    if s == "" {
    } else {
      ScalarsOfUnits(s[1..]);
      var t, head, rest := Units(s), UnitsOf(s[0]), Units(s[1..]);
      if |head| == 2 {
        assert t[2..] == rest && PairAhead(t) && OfPair(t[0], t[1]) == s[0];
      } else {
        assert t[1..] == rest;
      }
      assert s == [s[0]] + s[1..];
    }
  }

  /** Half of a pair with no other half beside it. */
  predicate Unpaired(t: Text, i: nat)
    requires i < |t|
  {
    || (High(t[i]) && !(i + 1 < |t| && Low(t[i + 1])))
    || (Low(t[i]) && !(i > 0 && High(t[i - 1])))
  }

  /** The text with U+FFFD in the place of every unpaired surrogate. */
  function Repaired(t: Text): (r: Text)
    ensures |r| == |t|
  {
    seq(|t|, i requires 0 <= i < |t| => if Unpaired(t, i) then 0xFFFD else t[i])
  }

  lemma RepairedRest(t: Text, n: nat)
    requires n <= |t| && (n == 0 || n == |t| || !(High(t[n - 1]) && Low(t[n])))
    ensures Repaired(t)[n..] == Repaired(t[n..])
  {
    forall i | 0 <= i < |t| - n ensures Repaired(t)[n..][i] == Repaired(t[n..])[i] {
      assert t[n..][i] == t[n + i];
    }
  }

  /** Reading a text as characters replaces its unpaired surrogates and keeps everything else in place. */
  lemma {:induction false} ReadingRepairs(t: Text)
    ensures Units(Scalars(t)) == Repaired(t)
  {
    if t == [] {
    } else if PairAhead(t) {
      ReadingRepairs(t[2..]);
      UnitsOfPair(t[0], t[1]);
      RepairedRest(t, 2);
      assert Scalars(t)[1..] == Scalars(t[2..]);
      assert Repaired(t) == [t[0], t[1]] + Repaired(t)[2..];
    } else {
      ReadingRepairs(t[1..]);
      RepairedRest(t, 1);
      assert Scalars(t)[1..] == Scalars(t[1..]);
      assert Repaired(t) == [if Unpaired(t, 0) then 0xFFFD else t[0]] + Repaired(t)[1..];
    }
  }

  /** A text is well formed exactly when no surrogate in it is unpaired. */
  lemma WellFormedIff(t: Text)
    ensures WellFormed(t) <==> forall i :: 0 <= i < |t| ==> !Unpaired(t, i)
  {
    ReadingRepairs(t);
    UnitsOfScalars(t);
    if forall i :: 0 <= i < |t| ==> !Unpaired(t, i) {
      assert Repaired(t) == t;
    } else {
      var i :| 0 <= i < |t| && Unpaired(t, i);
      assert Repaired(t)[i] != t[i];
    }
  }

  // ---------------------------------------------------------------- characters and bytes

  /** The bytes carry the number as UTF-8 lays it out: marker bits in front, then six bits to a byte. */
  predicate Layout(v: int, b: seq<int>) {
    match |b|
    case 1 => 0 <= v < 0x80 && b[0] == v
    case 2 => 0x80 <= v < 0x800 && b[0] / 32 == 6 && b[1] / 64 == 2 && v == b[0] % 32 * 64 + b[1] % 64
    case 3 =>
      && 0x800 <= v < 0x1_0000 && b[0] / 16 == 14 && b[1] / 64 == 2 && b[2] / 64 == 2
      && v == (b[0] % 16 * 64 + b[1] % 64) * 64 + b[2] % 64
    case 4 =>
      && 0x1_0000 <= v < 0x11_0000 && b[0] / 8 == 30 && b[1] / 64 == 2 && b[2] / 64 == 2 && b[3] / 64 == 2
      && v == ((b[0] % 8 * 64 + b[1] % 64) * 64 + b[2] % 64) * 64 + b[3] % 64
    case _ => false
  }

  function EncodeChar(c: char): (b: ByteString)
    ensures 1 <= |b| <= 4
  {
    var v := c as int;
    if v < 0x80 then [v]
    else if v < 0x800 then [0xC0 + v / 64, 0x80 + v % 64]
    else if v < 0x1_0000 then [0xE0 + v / 64 / 64, 0x80 + v / 64 % 64, 0x80 + v % 64]
    else [0xF0 + v / 64 / 64 / 64, 0x80 + v / 64 / 64 % 64, 0x80 + v / 64 % 64, 0x80 + v % 64]
  }

  /** Marker and payload of one byte. */
  lemma Marker(marker: int, width: int, payload: int)
    requires width in {8, 16, 32, 64} && 0 <= payload < width
    ensures (marker * width + payload) / width == marker && (marker * width + payload) % width == payload
  {
  }

  lemma FourBytesAreLaidOut(v: int)
    requires 0x1_0000 <= v < 0x11_0000
    ensures Layout(v, [0xF0 + v / 64 / 64 / 64, 0x80 + v / 64 / 64 % 64, 0x80 + v / 64 % 64, 0x80 + v % 64])
  {
    Marker(30, 8, v / 64 / 64 / 64);
    Marker(2, 64, v / 64 / 64 % 64);
    Marker(2, 64, v / 64 % 64);
    Marker(2, 64, v % 64);
  }

  lemma ThreeBytesAreLaidOut(v: int)
    requires 0x800 <= v < 0x1_0000
    ensures Layout(v, [0xE0 + v / 64 / 64, 0x80 + v / 64 % 64, 0x80 + v % 64])
  {
    Marker(14, 16, v / 64 / 64);
    Marker(2, 64, v / 64 % 64);
    Marker(2, 64, v % 64);
  }

  lemma TwoBytesAreLaidOut(v: int)
    requires 0x80 <= v < 0x800
    ensures Layout(v, [0xC0 + v / 64, 0x80 + v % 64])
  {
    Marker(6, 32, v / 64);
    Marker(2, 64, v % 64);
  }

  /** Every character is laid out as UTF-8 wants it. */
  lemma CharactersAreLaidOut(c: char)
    ensures Layout(c as int, EncodeChar(c))
  {
    var v := c as int;
    if v < 0x80 {
    } else if v < 0x800 {
      TwoBytesAreLaidOut(v);
    } else if v < 0x1_0000 {
      ThreeBytesAreLaidOut(v);
    } else {
      FourBytesAreLaidOut(v);
    }
  }

  function Encode(s: string): ByteString {
    if s == "" then [] else EncodeChar(s[0]) + Encode(s[1..])
  }

  predicate Between(b: ByteString, i: nat, lo: Byte, hi: Byte) {
    i < |b| && lo <= b[i] <= hi
  }

  /** The six bits of a continuation byte. */
  function Bits(b: ByteString, i: nat): (v: int)
    requires Between(b, i, 0x80, 0xBF)
    ensures 0 <= v < 64
  {
    b[i] - 0x80
  }

  function Two(b0: int, x: int): int {
    (b0 - 0xC0) * 64 + x
  }

  function Three(b0: int, x: int, y: int): int {
    ((b0 - 0xE0) * 64 + x) * 64 + y
  }

  function Four(b0: int, x: int, y: int, z: int): int {
    (((b0 - 0xF0) * 64 + x) * 64 + y) * 64 + z
  }

  /** The first character of well-formed UTF-8 and the number of its bytes (RFC 3629, section 4). */
  function DecodeChar(b: ByteString): (r: Option<(char, nat)>)
    requires b != []
    ensures r.Some? ==> 1 <= r.value.1 <= |b|
  {
    var b0: int := b[0];
    if b0 < 0x80 then Some((b0 as char, 1))
    else if 0xC2 <= b0 <= 0xDF && Between(b, 1, 0x80, 0xBF) then
      Some((Two(b0, Bits(b, 1)) as char, 2))
    else if 0xE0 <= b0 <= 0xEF && Between(b, 1, if b0 == 0xE0 then 0xA0 else 0x80, if b0 == 0xED then 0x9F else 0xBF)
      && Between(b, 2, 0x80, 0xBF) then
      Some((Three(b0, Bits(b, 1), Bits(b, 2)) as char, 3))
    else if 0xF0 <= b0 <= 0xF4 && Between(b, 1, if b0 == 0xF0 then 0x90 else 0x80, if b0 == 0xF4 then 0x8F else 0xBF)
      && Between(b, 2, 0x80, 0xBF) && Between(b, 3, 0x80, 0xBF) then
      Some((Four(b0, Bits(b, 1), Bits(b, 2), Bits(b, 3)) as char, 4))
    else None
  }

  function Decode(b: ByteString): Option<string> {
    if b == [] then Some("")
    else
      var first := DecodeChar(b);
      if first.None? then None
      else
        var rest := Decode(b[first.value.1..]);
        if rest.None? then None else Some([first.value.0] + rest.value)
  }

  lemma DecodeCharInvertsEncodeChar(c: char, rest: ByteString)
    ensures DecodeChar(EncodeChar(c) + rest) == Some((c, |EncodeChar(c)|))
  {
    var v := c as int;
    assert v / 64 * 64 + v % 64 == v;
    if v >= 0x800 {
      assert v / 64 / 64 * 64 + v / 64 % 64 == v / 64;
      if v >= 0x1_0000 {
        assert v / 64 / 64 / 64 * 64 + v / 64 / 64 % 64 == v / 64 / 64;
      }
    }
  }

  lemma {:induction false} DecodeInvertsEncode(s: string)
    ensures Decode(Encode(s)) == Some(s)
  {
    if s == "" {
    } else {
      var head, rest := EncodeChar(s[0]), Encode(s[1..]);
      DecodeInvertsEncode(s[1..]);
      DecodeCharInvertsEncodeChar(s[0], rest);
      assert (head + rest)[|head|..] == rest;
      assert s == [s[0]] + s[1..];
    }
  }

  lemma SixBits(v: int, q: int, r: int)
    requires v == q * 64 + r && 0 <= r < 64
    ensures v / 64 == q && v % 64 == r
  {
  }

  lemma EncodeTwoBytes(b0: int, x: int)
    requires 0xC2 <= b0 <= 0xDF && 0 <= x < 64
    ensures EncodeChar(Two(b0, x) as char) == [b0, 0x80 + x]
  {
    SixBits(Two(b0, x), b0 - 0xC0, x);
  }

  lemma EncodeThreeBytes(b0: int, x: int, y: int)
    requires 0xE0 <= b0 <= 0xEF && 0 <= x < 64 && 0 <= y < 64 && (b0 == 0xE0 ==> x >= 0x20) && (b0 == 0xED ==> x < 0x20)
    ensures EncodeChar(Three(b0, x, y) as char) == [b0, 0x80 + x, 0x80 + y]
  {
    var q := (b0 - 0xE0) * 64 + x;
    SixBits(q, b0 - 0xE0, x);
    SixBits(Three(b0, x, y), q, y);
  }

  lemma EncodeFourBytes(b0: int, x: int, y: int, z: int)
    requires 0xF0 <= b0 <= 0xF4 && 0 <= x < 64 && 0 <= y < 64 && 0 <= z < 64
    requires (b0 == 0xF0 ==> x >= 0x10) && (b0 == 0xF4 ==> x < 0x10)
    ensures EncodeChar(Four(b0, x, y, z) as char) == [b0, 0x80 + x, 0x80 + y, 0x80 + z]
  {
    var q := (b0 - 0xF0) * 64 + x;
    SixBits(q, b0 - 0xF0, x);
    SixBits(q * 64 + y, q, y);
    SixBits(Four(b0, x, y, z), q * 64 + y, z);
  }

  lemma EncodeCharInvertsDecodeChar(b: ByteString, c: char, n: nat)
    requires b != [] && DecodeChar(b) == Some((c, n))
    ensures EncodeChar(c) == b[..n]
  {
    if n == 1 {
    } else if n == 2 {
      EncodeTwoBytes(b[0], Bits(b, 1));
    } else if n == 3 {
      EncodeThreeBytes(b[0], Bits(b, 1), Bits(b, 2));
    } else {
      EncodeFourBytes(b[0], Bits(b, 1), Bits(b, 2), Bits(b, 3));
    }
  }

  lemma EncodeFirst(c: char, rest: string, b: ByteString, n: nat)
    requires n <= |b| && EncodeChar(c) == b[..n] && Encode(rest) == b[n..]
    ensures Encode([c] + rest) == b
  {
    assert ([c] + rest)[1..] == rest;
    assert b == b[..n] + b[n..];
  }

  /** The decoder is strict: it accepts nothing but what the encoder produces. */
  lemma {:induction false} EncodeInvertsDecode(b: ByteString, s: string)
    requires Decode(b) == Some(s)
    ensures Encode(s) == b
    decreases |b|
  {
    if b == [] {
    } else {
      var (c, n) := DecodeChar(b).value;
      var rest := Decode(b[n..]).value;
      EncodeCharInvertsDecodeChar(b, c, n);
      EncodeInvertsDecode(b[n..], rest);
      EncodeFirst(c, rest, b, n);
    }
  }

  // ---------------------------------------------------------------- the platform's encoder and decoder

  function TextEncoderEncode(t: Text): ByteString {
    Encode(Scalars(t))
  }

  predicate BomAhead(b: ByteString) {
    |b| >= 3 && b[..3] == BOM_BYTES
  }

  function TextDecoderDecode(b: ByteString): Option<Text> {
    var s := Decode(if BomAhead(b) then b[3..] else b);
    if s.None? then None else Some(Units(s.value))
  }

  predicate StartsWithBom(t: Text) {
    t != [] && t[0] == BOM as int
  }

  function WithoutBom(t: Text): Text {
    if StartsWithBom(t) then t[1..] else t
  }

  lemma BomIsThreeBytes(s: string)
    ensures BomAhead(Encode(s)) <==> s != "" && s[0] == BOM
  {
    assert EncodeChar(BOM) == BOM_BYTES;
    if s != "" {
      var b, head := Encode(s), EncodeChar(s[0]);
      if s[0] == BOM {
        assert b[..3] == BOM_BYTES;
      } else if BomAhead(b) {
        assert b == BOM_BYTES + b[3..];
        DecodeCharInvertsEncodeChar(s[0], Encode(s[1..]));
        DecodeCharInvertsEncodeChar(BOM, b[3..]);
        assert false;
      }
    }
  }

  /** What comes back from the platform's codec: the text with unpaired surrogates replaced, and without its mark. */
  lemma DecodingWhatWasEncoded(t: Text)
    ensures TextDecoderDecode(TextEncoderEncode(t)) == Some(WithoutBom(Units(Scalars(t))))
  {
    var s, b := Scalars(t), TextEncoderEncode(t);
    BomIsThreeBytes(s);
    DecodeInvertsEncode(s);
    if s != "" && s[0] == BOM {
      assert EncodeChar(BOM) == BOM_BYTES;
      assert b[3..] == Encode(s[1..]);
      DecodeInvertsEncode(s[1..]);
      assert Units(s)[1..] == Units(s[1..]);
    } else if s != "" {
      assert UnitsOf(s[0])[0] != BOM as int;
    }
  }

  /** A text comes back exactly when it is well formed and does not start with a byte order mark. */
  lemma CodecRoundTrip(t: Text)
    ensures TextDecoderDecode(TextEncoderEncode(t)) == Some(t) <==> WellFormed(t) && !StartsWithBom(t)
  {
    DecodingWhatWasEncoded(t);
    UnitsOfScalars(t);
  }

  /** The bytes the decoder reads as this text: its encoding, with or without a mark in front. */
  predicate BytesOf(p: ByteString, t: Text) {
    WellFormed(t) && (p == BOM_BYTES + TextEncoderEncode(t) || (p == TextEncoderEncode(t) && !StartsWithBom(t)))
  }

  lemma DecodedAs(b: ByteString, t: Text)
    ensures Decode(b).Some? && Units(Decode(b).value) == t <==> WellFormed(t) && b == TextEncoderEncode(t)
  {
    UnitsOfScalars(t);
    DecodeInvertsEncode(Scalars(t));
    if Decode(b).Some? {
      var s := Decode(b).value;
      EncodeInvertsDecode(b, s);
      ScalarsOfUnits(s);
    }
  }

  lemma FirstUnitIsBom(t: Text)
    ensures StartsWithBom(t) <==> Scalars(t) != "" && Scalars(t)[0] == BOM
  {
  }

  /** The decoder reads these bytes as this text exactly when they are one of its two encodings. */
  lemma DecoderAcceptsExactly(p: ByteString, t: Text)
    ensures TextDecoderDecode(p) == Some(t) <==> BytesOf(p, t)
  {
    BomIsThreeBytes(Scalars(t));
    FirstUnitIsBom(t);
    if BomAhead(p) {
      DecodedAs(p[3..], t);
      assert p == BOM_BYTES + p[3..];
      assert (BOM_BYTES + TextEncoderEncode(t))[3..] == TextEncoderEncode(t);
    } else {
      DecodedAs(p, t);
      assert BomAhead(BOM_BYTES + TextEncoderEncode(t));
    }
  }

  // ---------------------------------------------------------------- the fallback encoder

  /** One code unit on its own, surrogate or not. */
  function EncodeUnit(c: CodeUnit): ByteString
  {
    if c < 0x80 then [c]
    else if c < 0x800 then [0xC0 + c / 64, 0x80 + c % 64]
    else [0xE0 + c / 64 / 64, 0x80 + c / 64 % 64, 0x80 + c % 64]
  }

  /** A high surrogate with whatever code unit follows it. */
  function EncodeTwo(c: CodeUnit, c2: CodeUnit): ByteString
    requires High(c)
  {
    var v := 0x1_0000 + c % 0x400 * 0x400 + c2 % 0x400;
    [0xF0 + v / 64 / 64 / 64, 0x80 + v / 64 / 64 % 64, 0x80 + v / 64 % 64, 0x80 + v % 64]
  }

  /** The fallback lays out every unit or pair, surrogate or not, by the low ten bits of the second unit of a pair. */
  lemma UnitsAreLaidOut(c: CodeUnit, c2: CodeUnit)
    ensures Layout(c, EncodeUnit(c))
    ensures High(c) ==> Layout(0x1_0000 + (c - 0xD800) * 0x400 + c2 % 0x400, EncodeTwo(c, c2))
  {
    if c < 0x80 {
    } else if c < 0x800 {
      TwoBytesAreLaidOut(c);
    } else {
      ThreeBytesAreLaidOut(c);
    }
    if High(c) {
      TenBits(c, 0xD800);
      FourBytesAreLaidOut(0x1_0000 + (c - 0xD800) * 0x400 + c2 % 0x400);
    }
  }

  function FallbackBytes(t: Text): ByteString {
    if t == [] then []
    else if |t| > 1 && High(t[0]) then EncodeTwo(t[0], t[1]) + FallbackBytes(t[2..])
    else EncodeUnit(t[0]) + FallbackBytes(t[1..])
  }

  lemma FallbackOfRest(s: Text, i: nat)
    requires i < |s|
    ensures FallbackBytes(s[i..]) ==
      if i + 1 < |s| && High(s[i]) then EncodeTwo(s[i], s[i + 1]) + FallbackBytes(s[i + 2..])
      else EncodeUnit(s[i]) + FallbackBytes(s[i + 1..])
  {
    var rest := s[i..];
    if |rest| > 1 && High(rest[0]) {
      assert rest[2..] == s[i + 2..];
    } else {
      assert rest[1..] == s[i + 1..];
    }
  }

  /** The encoding loop used when the platform has no text encoder. */
  method Utf8EncodeFallback(s: Text) returns (out: ByteString)
    ensures out == FallbackBytes(s)
  {
    out := [];
    var i := 0;
    while i < |s|
      invariant i <= |s| && FallbackBytes(s) == out + FallbackBytes(s[i..])
    {
      FallbackOfRest(s, i);
      ghost var before := out;
      var c := s[i];
      var bytes: ByteString;
      if High(c) && i + 1 < |s| {
        i := i + 1;
        bytes := EncodeTwo(c, s[i]);
      } else {
        bytes := EncodeUnit(c);
      }
      out := out + bytes;
      i := i + 1;
      Regroup(before, bytes, FallbackBytes(s[i..]));
    }
  }

  lemma SamePrefix(head: ByteString, a: ByteString, b: ByteString)
    ensures head + a == head + b <==> a == b
  {
    assert (head + a)[|head|..] == a && (head + b)[|head|..] == b;
  }

  lemma TenBits(c: CodeUnit, base: int)
    requires (base == 0xD800 || base == 0xDC00) && base <= c < base + 0x400
    ensures c % 0x400 == c - base
  {
    var q := if base == 0xD800 then 54 else 55;
    assert c == 0x400 * q + (c - base);
  }

  lemma PairsEncodeAlike(high: CodeUnit, low: CodeUnit)
    requires High(high) && Low(low)
    ensures EncodeTwo(high, low) == EncodeChar(OfPair(high, low))
  {
    TenBits(high, 0xD800);
    TenBits(low, 0xDC00);
  }

  /** What the fallback makes of an unpaired surrogate never starts like the replacement character. */
  lemma UnpairedDiffers(t: Text)
    requires t != [] && !PairAhead(t) && (High(t[0]) || Low(t[0]))
    ensures FallbackBytes(t) != TextEncoderEncode(t)
  {
    assert TextEncoderEncode(t)[0] == EncodeChar(REPLACEMENT)[0] == 0xEF;
    if |t| > 1 && High(t[0]) {
      assert FallbackBytes(t)[0] == EncodeTwo(t[0], t[1])[0];
    } else {
      assert FallbackBytes(t)[0] == EncodeUnit(t[0])[0] == 0xED;
    }
  }

  /** The fallback agrees with the platform's encoder exactly on well-formed text. */
  lemma {:induction false} FallbackAgreesIff(t: Text)
    ensures FallbackBytes(t) == TextEncoderEncode(t) <==> WellFormed(t)
  {
    if t == [] {
    } else if PairAhead(t) {
      var c, rest := OfPair(t[0], t[1]), t[2..];
      FallbackAgreesIff(rest);
      PairsEncodeAlike(t[0], t[1]);
      assert Scalars(t) == [c] + Scalars(rest);
      SamePrefix(EncodeChar(c), FallbackBytes(rest), TextEncoderEncode(rest));
      assert TextEncoderEncode(t) == EncodeChar(c) + TextEncoderEncode(rest);
    } else if High(t[0]) || Low(t[0]) {
      UnpairedDiffers(t);
    } else {
      var c, rest := t[0] as char, t[1..];
      FallbackAgreesIff(rest);
      assert Scalars(t) == [c] + Scalars(rest) && EncodeUnit(t[0]) == EncodeChar(c);
      SamePrefix(EncodeChar(c), FallbackBytes(rest), TextEncoderEncode(rest));
      assert TextEncoderEncode(t) == EncodeChar(c) + TextEncoderEncode(rest);
    }
  }
}
