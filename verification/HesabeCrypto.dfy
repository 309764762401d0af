/** Bytes, exclusive or, and lower-case hex. */
module Bytes {
  import opened Wrappers

  type Byte = x: int | 0 <= x < 256
  type ByteString = seq<Byte>

  function Pow2(n: nat): nat {
    if n == 0 then 1 else 2 * Pow2(n - 1)
  }

  /** Bitwise exclusive or of the low `n` bits. */
  function XorBits(a: nat, b: nat, n: nat): (r: nat)
    ensures r < Pow2(n)
  {
    if n == 0 then 0 else 2 * XorBits(a / 2, b / 2, n - 1) + (if a % 2 == b % 2 then 0 else 1)
  }

  /** The bit of weight two to the `j`. */
  ghost function Bit(a: nat, j: nat): (bit: nat)
    ensures bit < 2
  {
    if j == 0 then a % 2 else Bit(a / 2, j - 1)
  }

  /** Bit by bit, the result is set where exactly one of the two is. */
  lemma {:induction false} XorIsBitwise(a: nat, b: nat, n: nat, j: nat)
    requires j < n
    ensures Bit(XorBits(a, b, n), j) == (Bit(a, j) + Bit(b, j)) % 2
  {
    var higher := XorBits(a / 2, b / 2, n - 1);
    assert XorBits(a, b, n) / 2 == higher;
    if j == 0 {
    } else {
      XorIsBitwise(a / 2, b / 2, n - 1, j - 1);
    }
  }

  /** One bit of the cancellation: `r` is `a` against `b` in its last bit, over the higher bits `q`. */
  lemma CancelOneBit(a: nat, b: nat, q: nat, r: nat, n: nat)
    requires n > 0 && r == 2 * q + (if a % 2 == b % 2 then 0 else 1) && XorBits(q, b / 2, n - 1) == a / 2
    ensures XorBits(r, b, n) == a
  {
    assert r / 2 == q;
  }

  lemma {:induction false} XorBitsCancels(a: nat, b: nat, n: nat)
    requires a < Pow2(n)
    ensures XorBits(XorBits(a, b, n), b, n) == a
  {
    if n == 0 {
    } else {
      XorBitsCancels(a / 2, b / 2, n - 1);
      CancelOneBit(a, b, XorBits(a / 2, b / 2, n - 1), XorBits(a, b, n), n);
    }
  }

  lemma Pow2Of8()
    ensures Pow2(8) == 256
  {
    assert Pow2(4) == 16;
  }

  function Xor(a: Byte, b: Byte): (r: Byte)
    ensures forall j :: 0 <= j < 8 ==> Bit(r, j) == (Bit(a, j) + Bit(b, j)) % 2
  {
    Pow2Of8();
    assert forall j :: 0 <= j < 8 ==> Bit(XorBits(a, b, 8), j) == (Bit(a, j) + Bit(b, j)) % 2 by {
      forall j | 0 <= j < 8 ensures Bit(XorBits(a, b, 8), j) == (Bit(a, j) + Bit(b, j)) % 2 {
        XorIsBitwise(a, b, 8, j);
      }
    }
    XorBits(a, b, 8)
  }

  function XorAll(a: ByteString, b: ByteString): (r: ByteString)
    requires |a| == |b|
    ensures |r| == |a|
  {
    seq(|a|, i requires 0 <= i < |a| => Xor(a[i], b[i]))
  }

  lemma XorCancels(a: ByteString, b: ByteString)
    requires |a| == |b|
    ensures XorAll(XorAll(a, b), b) == a
  {
    Pow2Of8();
    forall i | 0 <= i < |a| ensures XorAll(XorAll(a, b), b)[i] == a[i] {
      XorBitsCancels(a[i], b[i], 8);
    }
  }

  lemma Regroup(a: ByteString, b: ByteString, c: ByteString)
    ensures a + (b + c) == (a + b) + c
  {
  }

  // ---------------------------------------------------------------- hex

  /** The character is the hex digit of value `v`, in either case. */
  predicate IsDigit(c: char, v: int) {
    0 <= v < 16 && (c == "0123456789abcdef"[v] || c == "0123456789ABCDEF"[v])
  }

  /** The text spells the bytes, two digits each, the higher one first. */
  ghost predicate Spells(s: string, bytes: ByteString) {
    && |s| == 2 * |bytes|
    && forall i :: 0 <= i < |bytes| ==> IsDigit(s[2 * i], bytes[i] / 16) && IsDigit(s[2 * i + 1], bytes[i] % 16)
  }

  function HexDigit(v: nat): (c: char)
    requires v < 16
    ensures c == "0123456789abcdef"[v]
  {
    if v < 10 then ('0' as int + v) as char else ('a' as int + v - 10) as char
  }

  function HexOf(bytes: ByteString): (s: string)
    ensures |s| == 2 * |bytes|
  {
    if bytes == [] then "" else [HexDigit(bytes[0] / 16), HexDigit(bytes[0] % 16)] + HexOf(bytes[1..])
  }

  /** The value of one hex digit, in either case; -1 for any other character. */
  function Nibble(c: char): (v: int)
    ensures -1 <= v < 16
  {
    if '0' <= c <= '9' then c as int - '0' as int
    else if 'a' <= c <= 'f' then c as int - 'a' as int + 10
    else if 'A' <= c <= 'F' then c as int - 'A' as int + 10
    else -1
  }

  function BytesOfHex(s: string): Option<ByteString> {
    if s == "" then Some([])
    else if |s| == 1 || Nibble(s[0]) < 0 || Nibble(s[1]) < 0 then None
    else
      var rest := BytesOfHex(s[2..]);
      if rest.None? then None else Some([16 * Nibble(s[0]) + Nibble(s[1])] + rest.value)
  }

  lemma NibbleIsDigit(c: char, v: nat)
    ensures Nibble(c) == v <==> IsDigit(c, v)
  {
  }

  lemma SpellsFirst(s: string, bytes: ByteString)
    requires |s| >= 2 && bytes != []
    ensures Spells(s, bytes) <==>
      IsDigit(s[0], bytes[0] / 16) && IsDigit(s[1], bytes[0] % 16) && Spells(s[2..], bytes[1..])
  {
    var s', rest := s[2..], bytes[1..];
    if Spells(s, bytes) {
      assert forall i :: 0 <= i < |rest| ==>
          s'[2 * i] == s[2 * (i + 1)] && s'[2 * i + 1] == s[2 * (i + 1) + 1] && rest[i] == bytes[i + 1];
    } else if |s| == 2 * |bytes| {
      assert forall i :: 1 <= i < |bytes| ==>
          s[2 * i] == s'[2 * (i - 1)] && s[2 * i + 1] == s'[2 * (i - 1) + 1] && bytes[i] == rest[i - 1];
    }
  }

  /** A text is read as these bytes exactly when it spells them. */
  lemma {:induction false} HexIsReadExactly(s: string, bytes: ByteString)
    ensures BytesOfHex(s) == Some(bytes) <==> Spells(s, bytes)
  {
    if |s| < 2 || bytes == [] {
    } else {
      NibbleIsDigit(s[0], bytes[0] / 16);
      NibbleIsDigit(s[1], bytes[0] % 16);
      SpellsFirst(s, bytes);
      HexIsReadExactly(s[2..], bytes[1..]);
      assert bytes == [bytes[0]] + bytes[1..];
    }
  }

  /** What is written spells the bytes in lower case. */
  lemma {:induction false} HexSpells(bytes: ByteString)
    ensures Spells(HexOf(bytes), bytes) && forall c :: c in HexOf(bytes) ==> c in "0123456789abcdef"
  {
    if bytes == [] {
    } else {
      HexSpells(bytes[1..]);
      SpellsFirst(HexOf(bytes), bytes);
    }
  }

  lemma HexRoundTrip(bytes: ByteString)
    ensures BytesOfHex(HexOf(bytes)) == Some(bytes)
  {
    HexSpells(bytes);
    HexIsReadExactly(HexOf(bytes), bytes);
  }

  /** White space and line ends (ECMA-262, sections 12.2 and 12.3). */
  const SPACES := "\t\n\U{B}\U{C}\r \U{A0}\U{1680}" +
    "\U{2000}\U{2001}\U{2002}\U{2003}\U{2004}\U{2005}\U{2006}\U{2007}\U{2008}\U{2009}\U{200A}" +
    "\U{2028}\U{2029}\U{202F}\U{205F}\U{3000}\U{FEFF}"

  /** The characters a trim removes. */
  predicate IsSpace(c: char) {
    || '\t' <= c <= '\r' || c == ' ' || c == '\U{A0}' || c == '\U{FEFF}' || c == '\U{1680}'
    || '\U{2000}' <= c <= '\U{200A}' || c == '\U{2028}' || c == '\U{2029}' || c == '\U{202F}' || c == '\U{205F}'
    || c == '\U{3000}'
  }

  lemma SpacesAre(c: char)
    ensures IsSpace(c) <==> c in SPACES
  {
  }

  function Trim(s: string): string {
    if s == "" then ""
    else if IsSpace(s[0]) then Trim(s[1..])
    else if IsSpace(s[|s| - 1]) then Trim(s[..|s| - 1])
    else s
  }

  /** `s[i..j]` is what is left of a text without the spaces around it. */
  ghost predicate Framed(s: string, i: nat, j: nat) {
    && i <= j <= |s|
    && (forall m :: 0 <= m < i || j <= m < |s| ==> IsSpace(s[m]))
    && (i < j ==> !IsSpace(s[i]) && !IsSpace(s[j - 1]))
  }

  lemma SpaceInFront(s: string, i: nat, j: nat)
    requires s != "" && IsSpace(s[0]) && Framed(s[1..], i, j)
    ensures Framed(s, i + 1, j + 1) && s[i + 1..j + 1] == s[1..][i..j]
  {
    assert forall m :: 1 <= m < |s| ==> s[m] == s[1..][m - 1];
  }

  lemma SpaceBehind(s: string, i: nat, j: nat)
    requires s != "" && IsSpace(s[|s| - 1]) && Framed(s[..|s| - 1], i, j)
    ensures Framed(s, i, j) && s[i..j] == s[..|s| - 1][i..j]
  {
  }

  lemma {:induction false} TrimIsFramed(s: string)
    returns (i: nat, j: nat)
    ensures Framed(s, i, j) && Trim(s) == s[i..j]
    decreases |s|
  {
    if s == "" {
      i, j := 0, 0;
    } else if IsSpace(s[0]) {
      i, j := TrimIsFramed(s[1..]);
      SpaceInFront(s, i, j);
      i, j := i + 1, j + 1;
    } else if IsSpace(s[|s| - 1]) {
      i, j := TrimIsFramed(s[..|s| - 1]);
      SpaceBehind(s, i, j);
    } else {
      i, j := 0, |s|;
    }
  }

  /** Trimming removes the spaces at both ends and nothing else. */
  lemma {:induction false} TrimKeepsTheFramed(s: string, i: nat, j: nat)
    requires Framed(s, i, j)
    ensures Trim(s) == s[i..j]
    decreases |s|
  {
    if s == "" {
    } else if 0 < i {
      assert forall m :: 1 <= m < |s| ==> s[m] == s[1..][m - 1];
      TrimKeepsTheFramed(s[1..], i - 1, j - 1);
    } else if i == j {
      assert IsSpace(s[0]);
      TrimKeepsTheFramed(s[1..], 0, 0);
    } else if j < |s| {
      assert IsSpace(s[|s| - 1]);
      TrimKeepsTheFramed(s[..|s| - 1], i, j);
    }
  }

  /** The text spells these bytes, up to spaces around it. */
  ghost predicate SpellsInside(s: string, i: nat, j: nat, bytes: ByteString) {
    && i <= j <= |s| && Spells(s[i..j], bytes)
    && forall m :: 0 <= m < i || j <= m < |s| ==> IsSpace(s[m])
  }

  lemma SpellingIsFramed(s: string, i: nat, j: nat, bytes: ByteString)
    requires SpellsInside(s, i, j, bytes)
    ensures Framed(s, i, j)
  {
    if i < j && bytes != [] {
      var inner, last := s[i..j], |bytes| - 1;
      assert IsDigit(inner[2 * 0], bytes[0] / 16) && inner[2 * 0] == s[i];
      assert IsDigit(inner[2 * last + 1], bytes[last] % 16) && inner[2 * last + 1] == s[j - 1];
    }
  }

  /** The trimmed text is read as these bytes exactly when the text spells them up to the spaces around it. */
  lemma TrimmedHexIsReadExactly(s: string, bytes: ByteString)
    ensures BytesOfHex(Trim(s)) == Some(bytes) <==> exists i: nat, j: nat :: SpellsInside(s, i, j, bytes)
  {
    if i: nat, j: nat :| SpellsInside(s, i, j, bytes) {
      SpellingIsFramed(s, i, j, bytes);
      TrimKeepsTheFramed(s, i, j);
      HexIsReadExactly(s[i..j], bytes);
    } else {
      var i, j := TrimIsFramed(s);
      assert !SpellsInside(s, i, j, bytes);
      HexIsReadExactly(s[i..j], bytes);
    }
  }
}

/**
 * Cipher block chaining (NIST SP 800-38A, section 6.2) over an arbitrary invertible 16-byte block function, and the
 * two paddings a Hesabe payload can carry: PKCS#7 to 16 bytes (RFC 5652, section 6.3) and the legacy form, which pads
 * the same way to 32 bytes.
 */
module Cbc {
  import opened Wrappers
  import opened Bytes

  type Block = b: ByteString | |b| == 16 witness seq(16, _ => 0)

  datatype Cipher = Cipher(enc: Block -> Block, dec: Block -> Block) {
    ghost predicate Invertible() {
      && (forall b: Block :: dec(enc(b)) == b)
      && (forall b: Block :: enc(dec(b)) == b)
    }
  }

  predicate Blocks(s: ByteString) {
    |s| % 16 == 0
  }

  lemma Remainder(x: nat, q: nat, r: nat, width: nat)
    requires (width == 16 && x == 16 * q + r) || (width == 32 && x == 32 * q + r)
    requires r < width
    ensures x % width == r
  {
  }

  lemma BlocksAppend(c: ByteString, more: ByteString)
    requires Blocks(c) && Blocks(more)
    ensures Blocks(c + more)
  {
    Remainder(|c + more|, |c| / 16 + |more| / 16, 0, 16);
  }

  function CbcEncrypt(k: Cipher, iv: Block, p: ByteString): (c: ByteString)
    requires Blocks(p)
    ensures |c| == |p|
    decreases |p|
  {
    if p == [] then []
    else
      var c := k.enc(XorAll(p[..16], iv));
      c + CbcEncrypt(k, c, p[16..])
  }

  function CbcDecrypt(k: Cipher, iv: Block, c: ByteString): (p: ByteString)
    requires Blocks(c)
    ensures |p| == |c|
    decreases |c|
  {
    if c == [] then [] else XorAll(k.dec(c[..16]), iv) + CbcDecrypt(k, c[..16], c[16..])
  }

  /** Block `i` of a text. */
  function At(s: ByteString, i: nat): Block
    requires 16 * i + 16 <= |s|
  {
    s[16 * i..16 * i + 16]
  }

  lemma AtRest(head: Block, rest: ByteString, i: nat)
    requires i > 0 && 16 * i <= |rest|
    ensures At(head + rest, i) == At(rest, i - 1)
  {
  }

  /** Each block of plaintext is enciphered against the block of ciphertext before it, the first against the vector. */
  lemma {:induction false} BlocksAreChained(k: Cipher, iv: Block, p: ByteString, i: nat)
    requires Blocks(p) && 16 * i + 16 <= |p|
    ensures var c := CbcEncrypt(k, iv, p);
      At(c, i) == k.enc(XorAll(At(p, i), if i == 0 then iv else At(c, i - 1)))
    decreases i
  {
    var c0 := k.enc(XorAll(p[..16], iv));
    var rest := CbcEncrypt(k, c0, p[16..]);
    if i == 0 {
    } else {
      BlocksAreChained(k, c0, p[16..], i - 1);
      AtRest(c0, rest, i);
      assert p == p[..16] + p[16..];
      AtRest(p[..16], p[16..], i);
      if i > 1 {
        AtRest(c0, rest, i - 1);
      }
    }
  }

  lemma {:induction false} DecryptAfterEncrypt(k: Cipher, iv: Block, p: ByteString)
    requires k.Invertible() && Blocks(p)
    ensures CbcDecrypt(k, iv, CbcEncrypt(k, iv, p)) == p
    decreases |p|
  {
    if p == [] {
    } else {
      var head, c := p[..16], CbcEncrypt(k, iv, p);
      var c0 := k.enc(XorAll(head, iv));
      assert c[..16] == c0 && c[16..] == CbcEncrypt(k, c0, p[16..]);
      XorCancels(head, iv);
      DecryptAfterEncrypt(k, c0, p[16..]);
      assert p == head + p[16..];
    }
  }

  lemma {:induction false} EncryptAfterDecrypt(k: Cipher, iv: Block, c: ByteString)
    requires k.Invertible() && Blocks(c)
    ensures CbcEncrypt(k, iv, CbcDecrypt(k, iv, c)) == c
    decreases |c|
  {
    if c == [] {
    } else {
      var head, p := c[..16], CbcDecrypt(k, iv, c);
      var p0 := XorAll(k.dec(head), iv);
      assert p[..16] == p0 && p[16..] == CbcDecrypt(k, head, c[16..]);
      XorCancels(k.dec(head), iv);
      EncryptAfterDecrypt(k, head, c[16..]);
      assert c == head + c[16..];
    }
  }

  function LastBlock(iv: Block, c: ByteString): Block
    requires Blocks(c)
  {
    if c == [] then iv else c[|c| - 16..]
  }

  lemma DecryptFirst(k: Cipher, iv: Block, c: ByteString, head: Block, rest: ByteString)
    requires Blocks(c) && Blocks(rest) && c == head + rest
    ensures CbcDecrypt(k, iv, c) == XorAll(k.dec(head), iv) + CbcDecrypt(k, head, rest)
  {
    assert c[..16] == head && c[16..] == rest;
  }

  lemma LastBlockOfRest(iv: Block, head: Block, rest: ByteString)
    requires Blocks(rest) && Blocks(head + rest)
    ensures LastBlock(iv, head + rest) == LastBlock(head, rest)
  {
    if rest == [] {
      assert head + rest == head;
    } else {
      assert |rest| >= 16;
    }
  }

  /** Decryption of a longer ciphertext starts with that of the shorter one. */
  lemma {:induction false} DecryptAppend(k: Cipher, iv: Block, c: ByteString, more: ByteString)
    requires Blocks(c) && Blocks(more)
    ensures Blocks(c + more)
    ensures CbcDecrypt(k, iv, c + more) == CbcDecrypt(k, iv, c) + CbcDecrypt(k, LastBlock(iv, c), more)
    decreases |c|
  {
    BlocksAppend(c, more);
    if c == [] {
      assert c + more == more;
    } else {
      var head: Block, rest := c[..16], c[16..];
      BlocksAppend(rest, more);
      assert c == head + rest;
      Regroup(head, rest, more);
      DecryptFirst(k, iv, c, head, rest);
      DecryptFirst(k, iv, c + more, head, rest + more);
      DecryptAppend(k, head, rest, more);
      LastBlockOfRest(iv, head, rest);
      Regroup(XorAll(k.dec(head), iv), CbcDecrypt(k, head, rest), CbcDecrypt(k, LastBlock(head, rest), more));
    }
  }

  // ---------------------------------------------------------------- padding

  function Repeat(b: Byte, n: nat): (s: ByteString)
    ensures |s| == n && forall i :: 0 <= i < n ==> s[i] == b
  {
    seq(n, _ => b)
  }

  /** Fill up to a whole number of `width`-byte units, always adding at least one byte; each byte is the count. */
  function Pad(p: ByteString, width: nat): (s: ByteString)
    requires width == 16 || width == 32
    ensures |s| % width == 0 && Blocks(s) && |p| < |s| <= |p| + width
    ensures s[..|p|] == p && forall i :: |p| <= i < |s| ==> s[i] == |s| - |p|
  {
    var n := width - |p| % width;
    var units := |p| / width + 1;
    Remainder(|p| + n, units, 0, width);
    Remainder(|p| + n, if width == 16 then units else 2 * units, 0, 16);
    p + Repeat(n, n)
  }

  /** The text ends in `n` bytes of value `n`, for some `n` between `lo` and `hi`. */
  predicate PaddedBetween(s: ByteString, lo: nat, hi: nat) {
    s != [] && lo <= s[|s| - 1] <= hi && s[|s| - 1] <= |s|
    && forall i :: |s| - s[|s| - 1] <= i < |s| ==> s[i] == s[|s| - 1]
  }

  function Unpad(s: ByteString): ByteString
    requires s != [] && s[|s| - 1] <= |s|
  {
    s[..|s| - s[|s| - 1]]
  }

  /** Web cryptography's AES-CBC, which adds and removes PKCS#7 padding. */
  function WebEncrypt(k: Cipher, iv: Block, p: ByteString): ByteString {
    CbcEncrypt(k, iv, Pad(p, 16))
  }

  function WebDecrypt(k: Cipher, iv: Block, c: ByteString): Option<ByteString> {
    if c == [] || !Blocks(c) then None
    else
      var raw := CbcDecrypt(k, iv, c);
      if PaddedBetween(raw, 1, 16) then Some(Unpad(raw)) else None
  }

  function StripLegacyPadding(padded: ByteString): Option<ByteString> {
    if |padded| % 32 == 0 && PaddedBetween(padded, 17, 32) then Some(Unpad(padded)) else None
  }

  function Legacy(k: Cipher, iv: Block, p: ByteString): ByteString {
    CbcEncrypt(k, iv, Pad(p, 32))
  }

  /** What decryption of a whole number of blocks should give. */
  function Decrypted(k: Cipher, iv: Block, c: ByteString): Option<ByteString>
    requires Blocks(c) && c != []
  {
    var raw := CbcDecrypt(k, iv, c);
    if PaddedBetween(raw, 1, 16) then Some(Unpad(raw)) else StripLegacyPadding(raw)
  }

  /** A fresh buffer holding the ciphertext followed by one more block. */
  method Extend(bytes: ByteString, block: ByteString) returns (extended: array<Byte>)
    requires |block| == 16
    ensures fresh(extended) && extended[..] == bytes + block
  {
    extended := new Byte[|bytes| + 16];
    forall i | 0 <= i < |bytes| {
      extended[i] := bytes[i];
    }
    assert extended[..|bytes|] == bytes;
    forall i | |bytes| <= i < |bytes| + 16 {
      extended[i] := block[i - |bytes|];
    }
    assert extended[..|bytes|] == bytes && extended[|bytes|..] == block;
  }

  /** One padding block is encrypted after the last ciphertext block; the primitive then strips that block only. */
  method DecryptWithoutStripping(k: Cipher, iv: Block, bytes: ByteString) returns (padded: Option<ByteString>)
    requires k.Invertible() && Blocks(bytes) && bytes != []
    ensures padded == Some(CbcDecrypt(k, iv, bytes))
  {
    AppendedBlockExposesTheBytes(k, iv, bytes);
    var finalBlock := WebEncrypt(k, LastBlock(iv, bytes), []);
    var extended := Extend(bytes, finalBlock);
    padded := WebDecrypt(k, iv, extended[..]);
  }

  /**
   * Decryption as the gateway does it, with a primitive that always removes PKCS#7 padding: when that fails, the
   * original bytes are exposed through an appended block and the legacy padding is removed by hand.
   */
  method DecryptPayload(k: Cipher, iv: Block, bytes: ByteString) returns (plain: Option<ByteString>)
    requires k.Invertible() && Blocks(bytes) && bytes != []
    ensures plain == Decrypted(k, iv, bytes)
  {
    plain := WebDecrypt(k, iv, bytes);
    if plain.None? {
      var padded := DecryptWithoutStripping(k, iv, bytes);
      plain := StripLegacyPadding(padded.value);
    }
  }

  /** The appended block decrypts to a full block of padding, whatever came before it. */
  lemma AppendedBlockExposesTheBytes(k: Cipher, iv: Block, c: ByteString)
    requires k.Invertible() && Blocks(c) && c != []
    ensures |WebEncrypt(k, LastBlock(iv, c), [])| == 16
    ensures WebDecrypt(k, iv, c + WebEncrypt(k, LastBlock(iv, c), [])) == Some(CbcDecrypt(k, iv, c))
  {
    var raw, last := CbcDecrypt(k, iv, c), LastBlock(iv, c);
    var block := WebEncrypt(k, last, []);
    DecryptAppend(k, iv, c, block);
    DecryptAfterEncrypt(k, last, Pad([], 16));
    assert Pad([], 16) == Repeat(16, 16);
    var all := CbcDecrypt(k, iv, c + block);
    assert all == raw + Repeat(16, 16);
    assert Unpad(all) == raw;
  }

  // ---------------------------------------------------------------- what is accepted

  lemma PaddingIsRecognized(p: ByteString, width: nat)
    requires width == 16 || width == 32
    ensures PaddedBetween(Pad(p, width), 1, width) && Unpad(Pad(p, width)) == p
  {
  }

  lemma PadCount(length: nat, n: nat, width: nat)
    requires width == 16 || width == 32
    requires length % width == 0 && 1 <= n <= width && n <= length
    ensures width - (length - n) % width == n
  {
    Remainder(length - n, length / width - 1, width - n, width);
  }

  /** Removing a padding of `n` bytes and adding it again gives the text back. */
  lemma RepaddingRestores(s: ByteString, width: nat)
    requires width == 16 || width == 32
    requires |s| % width == 0 && PaddedBetween(s, 1, width)
    ensures Pad(Unpad(s), width) == s
  {
    var n := s[|s| - 1];
    var p := Unpad(s);
    assert s == p + Repeat(n, n);
    PadCount(|s|, n, width);
  }

  /** Both encodings of a text decrypt to it, also when the legacy padding is short enough to pass for PKCS#7. */
  lemma BothPaddingsDecrypt(k: Cipher, iv: Block, p: ByteString)
    requires k.Invertible()
    ensures Decrypted(k, iv, WebEncrypt(k, iv, p)) == Some(p)
    ensures Decrypted(k, iv, Legacy(k, iv, p)) == Some(p)
  {
    DecryptAfterEncrypt(k, iv, Pad(p, 16));
    PaddingIsRecognized(p, 16);
    DecryptAfterEncrypt(k, iv, Pad(p, 32));
    PaddingIsRecognized(p, 32);
  }

  /** Decryption accepts exactly the two encodings of a text, and so never reads one text as another. */
  lemma AcceptsExactlyTheTwoPaddings(k: Cipher, iv: Block, c: ByteString, p: ByteString)
    requires k.Invertible() && Blocks(c) && c != []
    ensures Decrypted(k, iv, c) == Some(p) <==> c == WebEncrypt(k, iv, p) || c == Legacy(k, iv, p)
  {
    BothPaddingsDecrypt(k, iv, p);
    var raw := CbcDecrypt(k, iv, c);
    EncryptAfterDecrypt(k, iv, c);
    if Decrypted(k, iv, c) == Some(p) {
      RepaddingRestores(raw, if PaddedBetween(raw, 1, 16) then 16 else 32);
    }
  }

  /**
   * The two accepted forms never overlap, and a text has a single encoding exactly when its last 32-byte unit is at
   * least half full.
   */
  lemma PaddingFormsAreDisjoint(k: Cipher, iv: Block, p: ByteString)
    requires k.Invertible()
    ensures forall raw :: !(PaddedBetween(raw, 1, 16) && StripLegacyPadding(raw).Some?)
    ensures (WebEncrypt(k, iv, p) == Legacy(k, iv, p) <==> |p| % 32 >= 16)
  {
    if |p| % 32 >= 16 {
      assert 32 - |p| % 32 == 16 - |p| % 16;
    } else {
      assert |Pad(p, 32)| != |Pad(p, 16)|;
    }
  }
}
