/** Hesabe payload encryption on text: UTF-8, lower-case hex, a 32-byte key and a 16-byte initialization vector. */
module HesabeText {
  import opened Wrappers
  import opened Bytes
  import opened Cbc
  import opened Utf8

  datatype CryptoError = NotHex | BadBlockSize | BadKey | EncryptFailed | DecryptFailed | NotUtf8

  datatype Outcome<+T> = Ok(value: T) | Err(error: CryptoError)

  /** The block cipher each 32-byte key selects. */
  datatype Platform = Platform(cipher: ByteString -> Cipher) {
    ghost predicate Sound() {
      forall key :: cipher(key).Invertible()
    }
  }

  predicate UsableKeys(key: Text, iv: Text) {
    |TextEncoderEncode(key)| == 32 && |TextEncoderEncode(iv)| == 16
  }

  /** The text's UTF-8, padded to whole blocks and chained. */
  ghost function Sent(platform: Platform, plaintext: Text, key: Text, iv: Text): ByteString
    requires UsableKeys(key, iv)
  {
    CbcEncrypt(platform.cipher(TextEncoderEncode(key)), TextEncoderEncode(iv), Pad(TextEncoderEncode(plaintext), 16))
  }

  ghost predicate InLowerCase(hex: string) {
    forall c :: c in hex ==> c in "0123456789abcdef"
  }

  function HesabeEncrypt(platform: Platform, plaintext: Text, key: Text, iv: Text): (r: Outcome<string>)
    ensures r == Err(BadKey) <==> |TextEncoderEncode(key)| != 32
    ensures r == Err(EncryptFailed) <==> |TextEncoderEncode(key)| == 32 && |TextEncoderEncode(iv)| != 16
    ensures r.Ok? <==> UsableKeys(key, iv)
    ensures r.Ok? ==> Spells(r.value, Sent(platform, plaintext, key, iv)) && InLowerCase(r.value)
  {
    var keyBytes, ivBytes := TextEncoderEncode(key), TextEncoderEncode(iv);
    if |keyBytes| != 32 then Err(BadKey)
    else if |ivBytes| != 16 then Err(EncryptFailed)
    else
      var c := WebEncrypt(platform.cipher(keyBytes), ivBytes, TextEncoderEncode(plaintext));
      HexSpells(c);
      Ok(HexOf(c))
  }

  function HexPayload(hex: string): Outcome<ByteString> {
    TrimmedPayload(Trim(hex))
  }

  function TrimmedPayload(trimmed: string): Outcome<ByteString> {
    if trimmed == "" || |trimmed| % 2 != 0 then Err(NotHex)
    else
      var bytes := BytesOfHex(trimmed);
      if bytes.None? then Err(NotHex)
      else if bytes.value == [] || !Blocks(bytes.value) then Err(BadBlockSize)
      else Ok(bytes.value)
  }

  function DecodedText(plain: Option<ByteString>): Outcome<Text> {
    if plain.None? then Err(DecryptFailed)
    else
      var text := TextDecoderDecode(plain.value);
      if text.None? then Err(NotUtf8) else Ok(text.value)
  }

  /** What decryption of a payload should give; a wrong vector length surfaces as a decryption failure. */
  function DecryptedText(platform: Platform, hex: string, key: Text, iv: Text): Outcome<Text> {
    var bytes := HexPayload(hex);
    var keyBytes, ivBytes := TextEncoderEncode(key), TextEncoderEncode(iv);
    if bytes.Err? then Err(bytes.error)
    else if |keyBytes| != 32 then Err(BadKey)
    else if |ivBytes| != 16 then Err(DecryptFailed)
    else if bytes.value == [] || !Blocks(bytes.value) then Err(BadBlockSize)
    else DecodedText(Decrypted(platform.cipher(keyBytes), ivBytes, bytes.value))
  }

  method HesabeDecrypt(platform: Platform, hex: string, key: Text, iv: Text) returns (r: Outcome<Text>)
    requires platform.Sound()
    ensures r == DecryptedText(platform, hex, key, iv)
  {
    var bytes := HexPayload(hex);
    if bytes.Err? {
      return Err(bytes.error);
    }
    var keyBytes, ivBytes := TextEncoderEncode(key), TextEncoderEncode(iv);
    if |keyBytes| != 32 {
      return Err(BadKey);
    }
    if |ivBytes| != 16 {
      return Err(DecryptFailed);
    }
    var plain := DecryptPayload(platform.cipher(keyBytes), ivBytes, bytes.value);
    return DecodedText(plain);
  }

  /** The payload spells these bytes in hex, with at most spaces around it. */
  ghost predicate Carried(hex: string, bytes: ByteString) {
    exists i: nat, j: nat :: SpellsInside(hex, i, j, bytes)
  }

  lemma SpelledLength(s: string, bytes: ByteString)
    requires BytesOfHex(s) == Some(bytes)
    ensures |s| == 2 * |bytes|
  {
    HexIsReadExactly(s, bytes);
  }

  /** A payload is hex exactly when it carries some bytes, and it is usable when they are whole blocks. */
  lemma PayloadsAreReadExactly(hex: string, bytes: ByteString)
    ensures HexPayload(hex) == Ok(bytes) <==> Carried(hex, bytes) && bytes != [] && Blocks(bytes)
    ensures Carried(hex, bytes) ==> (HexPayload(hex) == Err(NotHex) <==> bytes == [])
    ensures Carried(hex, bytes) ==> (HexPayload(hex) == Err(BadBlockSize) <==> !Blocks(bytes))
    ensures HexPayload(hex).Ok? || HexPayload(hex) == Err(NotHex) || HexPayload(hex) == Err(BadBlockSize)
  {
    TrimmedHexIsReadExactly(hex, bytes);
    var read := BytesOfHex(Trim(hex));
    if read.Some? {
      SpelledLength(Trim(hex), read.value);
    }
  }

  /** A payload that carries no bytes is not hex. */
  lemma OtherPayloadsAreNotHex(hex: string)
    ensures HexPayload(hex) == Err(NotHex) || exists bytes :: Carried(hex, bytes)
  {
    var read := BytesOfHex(Trim(hex));
    if read.Some? {
      TrimmedHexIsReadExactly(hex, read.value);
      assert Carried(hex, read.value);
    }
  }

  lemma HexPayloadOfHex(bytes: ByteString)
    requires bytes != [] && Blocks(bytes)
    ensures HexPayload(HexOf(bytes)) == Ok(bytes)
  {
    HexSpells(bytes);
    var s := HexOf(bytes);
    assert s[0..|s|] == s;
    assert SpellsInside(s, 0, |s|, bytes);
    PayloadsAreReadExactly(s, bytes);
  }

  /**
   * Decryption inverts encryption exactly for the well-formed texts that do not start with a byte order mark; of others
   * it replaces the unpaired surrogates and drops the mark.
   */
  lemma DecryptInvertsEncrypt(platform: Platform, t: Text, key: Text, iv: Text)
    requires platform.Sound() && UsableKeys(key, iv)
    ensures
      var sent := HesabeEncrypt(platform, t, key, iv);
      && sent.Ok? && DecryptedText(platform, sent.value, key, iv) == Ok(WithoutBom(Repaired(t)))
      && (DecryptedText(platform, sent.value, key, iv) == Ok(t) <==> WellFormed(t) && !StartsWithBom(t))
  {
    var k, ivBytes, p := platform.cipher(TextEncoderEncode(key)), TextEncoderEncode(iv), TextEncoderEncode(t);
    HexPayloadOfHex(WebEncrypt(k, ivBytes, p));
    BothPaddingsDecrypt(k, ivBytes, p);
    DecodingWhatWasEncoded(t);
    ReadingRepairs(t);
    CodecRoundTrip(t);
  }

  /** The same for a response the provider padded in the legacy way. */
  lemma DecryptInvertsLegacy(platform: Platform, t: Text, key: Text, iv: Text)
    requires platform.Sound() && UsableKeys(key, iv)
    ensures
      var k, p := platform.cipher(TextEncoderEncode(key)), TextEncoderEncode(t);
      var got := DecryptedText(platform, HexOf(Legacy(k, TextEncoderEncode(iv), p)), key, iv);
      && got == Ok(WithoutBom(Repaired(t)))
      && (got == Ok(t) <==> WellFormed(t) && !StartsWithBom(t))
  {
    var k, ivBytes, p := platform.cipher(TextEncoderEncode(key)), TextEncoderEncode(iv), TextEncoderEncode(t);
    BothPaddingsDecrypt(k, ivBytes, p);
    HexPayloadOfHex(Legacy(k, ivBytes, p));
    DecodingWhatWasEncoded(t);
    ReadingRepairs(t);
    CodecRoundTrip(t);
  }

  /** The ciphertext carries these bytes under one of the two paddings. */
  predicate Carries(k: Cipher, iv: Block, c: ByteString, p: ByteString) {
    c == WebEncrypt(k, iv, p) || c == Legacy(k, iv, p)
  }

  function Marked(t: Text): ByteString {
    BOM_BYTES + TextEncoderEncode(t)
  }

  /** Reading bytes as a text, given which of the text's two encodings they are. */
  lemma ReadExactly(plain: Option<ByteString>, t: Text, marked: bool, unmarked: bool)
    requires plain == Some(Marked(t)) <==> marked
    requires plain == Some(TextEncoderEncode(t)) <==> unmarked
    ensures DecodedText(plain) == Ok(t) <==> WellFormed(t) && (marked || (unmarked && !StartsWithBom(t)))
  {
    if plain.Some? {
      DecoderAcceptsExactly(plain.value, t);
    }
  }

  /**
   * A payload decrypts to a text exactly when the text is well formed and the payload carries its UTF-8 in either
   * padding, with a byte order mark in front or, unless the text itself starts with one, without.
   */
  lemma DecryptsExactlyItsEncodings(
    platform: Platform, hex: string, c: ByteString, t: Text, key: Text, iv: Text)
    requires platform.Sound() && UsableKeys(key, iv) && Carried(hex, c) && Blocks(c) && c != []
    ensures
      var k, ivBytes := platform.cipher(TextEncoderEncode(key)), TextEncoderEncode(iv);
      DecryptedText(platform, hex, key, iv) == Ok(t) <==>
        && WellFormed(t)
        && (Carries(k, ivBytes, c, Marked(t)) || (Carries(k, ivBytes, c, TextEncoderEncode(t)) && !StartsWithBom(t)))
  {
    var k, ivBytes := platform.cipher(TextEncoderEncode(key)), TextEncoderEncode(iv);
    PayloadsAreReadExactly(hex, c);
    AcceptsExactlyTheTwoPaddings(k, ivBytes, c, Marked(t));
    AcceptsExactlyTheTwoPaddings(k, ivBytes, c, TextEncoderEncode(t));
    ReadExactly(
      Decrypted(k, ivBytes, c), t, Carries(k, ivBytes, c, Marked(t)), Carries(k, ivBytes, c, TextEncoderEncode(t)));
  }

  /** The ciphertext carries some bytes under one of the two paddings. */
  ghost predicate CarriesSome(k: Cipher, iv: Block, c: ByteString) {
    exists p :: Carries(k, iv, c, p)
  }

  /** The bytes are no text, with or without a byte order mark. */
  ghost predicate NoText(p: ByteString) {
    forall t :: !BytesOf(p, t)
  }

  /** The ciphertext carries bytes that are no text. */
  ghost predicate CarriesNoText(k: Cipher, iv: Block, c: ByteString) {
    exists p :: Carries(k, iv, c, p) && NoText(p)
  }

  lemma DecryptedIffCarried(k: Cipher, iv: Block, c: ByteString)
    requires k.Invertible() && Blocks(c) && c != []
    ensures Decrypted(k, iv, c).Some? <==> CarriesSome(k, iv, c)
  {
    var plain := Decrypted(k, iv, c);
    if plain.Some? {
      AcceptsExactlyTheTwoPaddings(k, iv, c, plain.value);
      assert Carries(k, iv, c, plain.value);
    } else if CarriesSome(k, iv, c) {
      var p :| Carries(k, iv, c, p);
      AcceptsExactlyTheTwoPaddings(k, iv, c, p);
      assert false;
    }
  }

  lemma NoTextIsUndecodable(p: ByteString)
    ensures TextDecoderDecode(p).None? <==> NoText(p)
  {
    if TextDecoderDecode(p).Some? {
      DecoderAcceptsExactly(p, TextDecoderDecode(p).value);
    } else {
      forall t ensures !BytesOf(p, t) {
        DecoderAcceptsExactly(p, t);
      }
    }
  }

  lemma NoTextIffCarried(k: Cipher, iv: Block, c: ByteString)
    requires k.Invertible() && Blocks(c) && c != []
    ensures DecodedText(Decrypted(k, iv, c)) == Err(NotUtf8) <==> CarriesNoText(k, iv, c)
  {
    var plain := Decrypted(k, iv, c);
    if plain.Some? {
      AcceptsExactlyTheTwoPaddings(k, iv, c, plain.value);
      NoTextIsUndecodable(plain.value);
    }
    if CarriesNoText(k, iv, c) {
      var p :| Carries(k, iv, c, p) && NoText(p);
      AcceptsExactlyTheTwoPaddings(k, iv, c, p);
    }
  }

  /** Each refusal has its own condition, looked at in this order: the hex, the blocks, the key, the rest. */
  lemma RefusalsAreExact(platform: Platform, hex: string, c: ByteString, key: Text, iv: Text)
    requires platform.Sound() && Carried(hex, c)
    ensures
      var r := DecryptedText(platform, hex, key, iv);
      && (r == Err(NotHex) <==> c == [])
      && (r == Err(BadBlockSize) <==> !Blocks(c))
      && (r == Err(BadKey) <==> c != [] && Blocks(c) && |TextEncoderEncode(key)| != 32)
      && (c != [] && Blocks(c) && |TextEncoderEncode(key)| == 32 && |TextEncoderEncode(iv)| != 16 ==>
            r == Err(DecryptFailed))
      && (c != [] && Blocks(c) && UsableKeys(key, iv) ==>
            var k, ivBytes := platform.cipher(TextEncoderEncode(key)), TextEncoderEncode(iv);
            && (r == Err(DecryptFailed) <==> !CarriesSome(k, ivBytes, c))
            && (r == Err(NotUtf8) <==> CarriesNoText(k, ivBytes, c)))
      && r != Err(EncryptFailed)
  {
    PayloadsAreReadExactly(hex, c);
    if c != [] && Blocks(c) && UsableKeys(key, iv) {
      var k, ivBytes := platform.cipher(TextEncoderEncode(key)), TextEncoderEncode(iv);
      DecryptedIffCarried(k, ivBytes, c);
      NoTextIffCarried(k, ivBytes, c);
    }
  }
}
