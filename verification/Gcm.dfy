/** Sealed texts (internal/crypto/crypto.go): AES-256-GCM in the form "ivHex:tagHex:ctHex".

    The block cipher, GHASH and Argon2id are parameters of the model. What is asked of them is the
    structure that sections 6.5, 7.1 and 7.2 of NIST SP 800-38D give GCM: the counter-mode
    transform keeps the length and is its own inverse, it does not depend on the additional data,
    and the tag has 16 bytes. Nothing is assumed about how hard tags are to forge. */
module Gcm {
  import opened Hex
  import opened Wrappers

  const MASTER_KEY_LEN := 32
  const NONCE_LEN := 12
  const TAG_LEN := 16

  /** Argon2id costs (crypto.go's Params). */
  datatype Params = Params(m: nat, t: nat, p: nat)

  datatype Primitives = Primitives(
    ctr: (Bytes, Bytes, Bytes) -> Bytes,
    tag: (Bytes, Bytes, Bytes, string) -> Bytes,
    kdf: (string, Bytes, Params) -> Bytes)

  ghost predicate WellFormed(g: Primitives) {
    && (forall k, n, p :: |g.ctr(k, n, p)| == |p| && g.ctr(k, n, g.ctr(k, n, p)) == p)
    && (forall k, n, c, a :: |g.tag(k, n, c, a)| == TAG_LEN)
    && (forall pw, salt, p :: |g.kdf(pw, salt, p)| == MASTER_KEY_LEN)
  }

  type Cipher = g: Primitives | WellFormed(g)
    ghost witness Primitives(
                    (k: Bytes, n: Bytes, p: Bytes) => p,
                    (k: Bytes, n: Bytes, c: Bytes, a: string) => seq(TAG_LEN, _ => 0),
                    (pw: string, salt: Bytes, p: Params) => seq(MASTER_KEY_LEN, _ => 0))

  type Nonce = n: Bytes | |n| == NONCE_LEN witness seq(NONCE_LEN, _ => 0)

  datatype CryptoError =
    | Malformed | BadHex | BadNonceLength | BadTagLength | BadKeyLength | AuthFailed

  /** The key lengths `aes.NewCipher` takes. */
  predicate KeyOk(key: Bytes) {
    |key| == 16 || |key| == 24 || |key| == 32
  }

  /** `gcm.Seal`: the ciphertext followed by the tag. */
  function Seal(g: Cipher, key: Bytes, iv: Nonce, pt: Bytes, aad: string): Bytes {
    var ct := g.ctr(key, iv, pt);
    ct + g.tag(key, iv, ct, aad)
  }

  /** `gcm.Open`. Go panics on a nonce of another length, so callers must not pass one. */
  function Open(g: Cipher, key: Bytes, iv: Bytes, sealed: Bytes, aad: string): Option<Bytes>
    requires |iv| == NONCE_LEN
  {
    if |sealed| < TAG_LEN then None
    else
      var ct := sealed[..|sealed| - TAG_LEN];
      if g.tag(key, iv, ct, aad) == sealed[|sealed| - TAG_LEN..] then Some(g.ctr(key, iv, ct)) else None
  }

  /** `sealAAD`; the random nonce is a parameter. */
  function SealText(g: Cipher, key: Bytes, iv: Nonce, pt: Bytes, aad: string): Result<string, CryptoError> {
    if !KeyOk(key) then Err(BadKeyLength)
    else
      var sealed := Seal(g, key, iv, pt, aad);
      var cut := |sealed| - TAG_LEN;
      Ok(Encode(iv) + ":" + Encode(sealed[cut..]) + ":" + Encode(sealed[..cut]))
  }

  /** The text before and after the first colon. */
  function CutColon(s: string): Option<(string, string)> {
    if s == "" then None
    else if s[0] == ':' then Some(("", s[1..]))
    else
      match CutColon(s[1..])
      case None => None
      case Some((a, b)) => Some(([s[0]] + a, b))
  }

  /** `splitPacked`: at most two cuts, so the last part may hold further colons. */
  function SplitPacked(s: string): Option<(string, string, string)> {
    match CutColon(s)
    case None => None
    case Some((iv, rest)) =>
      match CutColon(rest)
      case None => None
      case Some((tag, ct)) => Some((iv, tag, ct))
  }

  function DecodeOr(s: string): Result<Bytes, CryptoError> {
    match Decode(s)
    case None => Err(BadHex)
    case Some(b) => Ok(b)
  }

  /** `openAAD`. That the call of `Open` verifies shows that, whatever the text, the cipher is
      never handed a nonce of another length than 12. */
  function OpenText(g: Cipher, key: Bytes, packed: string, aad: string): Result<Bytes, CryptoError> {
    match SplitPacked(packed)
    case None => Err(Malformed)
    case Some((ivHex, tagHex, ctHex)) =>
      var iv :- DecodeOr(ivHex);
      var tag :- DecodeOr(tagHex);
      var ct :- DecodeOr(ctHex);
      if |iv| != NONCE_LEN then Err(BadNonceLength)
      else if |tag| != TAG_LEN then Err(BadTagLength)
      else if !KeyOk(key) then Err(BadKeyLength)
      else
        match Open(g, key, iv, ct + tag, aad)
        case None => Err(AuthFailed)
        case Some(pt) => Ok(pt)
  }

  // ---------- properties ----------

  lemma {:induction false} CutColonAt(a: string, b: string)
    requires ':' !in a
    ensures CutColon(a + ":" + b) == Some((a, b))
  {
    var s := a + ":" + b;
    if a == "" {
      assert s[1..] == b;
    } else {
      assert s[1..] == a[1..] + ":" + b;
      CutColonAt(a[1..], b);
      assert a == [a[0]] + a[1..];
    }
  }

  lemma {:induction false} CutColonSound(s: string)
    ensures CutColon(s).Some? ==> s == CutColon(s).value.0 + ":" + CutColon(s).value.1
    ensures CutColon(s).Some? ==> ':' !in CutColon(s).value.0
  {
    if s != "" && s[0] != ':' {
      CutColonSound(s[1..]);
      if CutColon(s[1..]).Some? {
        var (a, b) := CutColon(s[1..]).value;
        assert s == [s[0]] + (a + ":" + b);
      }
    }
  }

  lemma EncodeNoColon(b: Bytes)
    ensures ':' !in Encode(b) && '\n' !in Encode(b)
  {
    EncodeShape(b);
  }

  lemma SplitThree(x: string, y: string, z: string)
    requires ':' !in x && ':' !in y
    ensures SplitPacked(x + ":" + y + ":" + z) == Some((x, y, z))
  {
    assert x + ":" + y + ":" + z == x + ":" + (y + ":" + z);
    CutColonAt(x, y + ":" + z);
    CutColonAt(y, z);
  }

  /** What `OpenText` does with a text whose three parts decode. */
  lemma OpenParts(g: Cipher, key: Bytes, iv: Bytes, tag: Bytes, ct: Bytes, aad: string)
    requires KeyOk(key) && |iv| == NONCE_LEN && |tag| == TAG_LEN
    ensures OpenText(g, key, Encode(iv) + ":" + Encode(tag) + ":" + Encode(ct), aad)
         == if g.tag(key, iv, ct, aad) == tag then Ok(g.ctr(key, iv, ct)) else Err(AuthFailed)
  {
    EncodeNoColon(iv);
    EncodeNoColon(tag);
    SplitThree(Encode(iv), Encode(tag), Encode(ct));
    DecodeEncode(iv);
    DecodeEncode(tag);
    DecodeEncode(ct);
    assert (ct + tag)[..|ct + tag| - TAG_LEN] == ct;
    assert (ct + tag)[|ct + tag| - TAG_LEN..] == tag;
  }

  lemma SealParts(g: Cipher, key: Bytes, iv: Nonce, pt: Bytes, aad: string)
    requires KeyOk(key)
    ensures var ct := g.ctr(key, iv, pt);
            SealText(g, key, iv, pt, aad) == Ok(Encode(iv) + ":" + Encode(g.tag(key, iv, ct, aad)) + ":" + Encode(ct))
  {
    var ct := g.ctr(key, iv, pt);
    var sealed := Seal(g, key, iv, pt, aad);
    assert sealed[..|sealed| - TAG_LEN] == ct;
    assert sealed[|sealed| - TAG_LEN..] == g.tag(key, iv, ct, aad);
  }

  /** What is sealed under a name opens under it; under another name exactly when the tags collide. */
  lemma OpenSealed(g: Cipher, key: Bytes, iv: Nonce, pt: Bytes, name: string, other: string)
    requires KeyOk(key)
    ensures SealText(g, key, iv, pt, name).Ok?
    ensures var packed := SealText(g, key, iv, pt, name).value;
            var ct := g.ctr(key, iv, pt);
            && OpenText(g, key, packed, name) == Ok(pt)
            && OpenText(g, key, packed, other)
               == if g.tag(key, iv, ct, name) == g.tag(key, iv, ct, other) then Ok(pt) else Err(AuthFailed)
  {
    var ct := g.ctr(key, iv, pt);
    SealParts(g, key, iv, pt, name);
    OpenParts(g, key, iv, g.tag(key, iv, ct, name), ct, name);
    OpenParts(g, key, iv, g.tag(key, iv, ct, name), ct, other);
  }

  /** A sealed text has no line break and does not begin with a version prefix. */
  lemma SealedShape(g: Cipher, key: Bytes, iv: Nonce, pt: Bytes, name: string)
    requires KeyOk(key)
    ensures var packed := SealText(g, key, iv, pt, name).value;
            packed != "" && '\n' !in packed && IsLowerHex(packed[0])
  {
    var ct := g.ctr(key, iv, pt);
    SealParts(g, key, iv, pt, name);
    EncodeNoColon(ct);
    EncodeNoColon(g.tag(key, iv, ct, name));
    EncodeNoColon(iv);
    EncodeShape(iv);
  }

  lemma LowerThree(x: string, y: string, z: string)
    ensures Lower(x + ":" + y + ":" + z) == Lower(x) + ":" + Lower(y) + ":" + Lower(z)
  {}

  /** A text that opens is, up to the case of its hex digits, one that sealing can print. */
  lemma OpenedWasSealed(g: Cipher, key: Bytes, packed: string, name: string) returns (iv: Nonce)
    requires OpenText(g, key, packed, name).Ok?
    ensures SealText(g, key, iv, OpenText(g, key, packed, name).value, name) == Ok(Lower(packed))
  {
    var (ivHex, tagHex, ctHex) := SplitPacked(packed).value;
    CutColonSound(packed);
    CutColonSound(CutColon(packed).value.1);
    assert packed == ivHex + ":" + tagHex + ":" + ctHex;
    iv := Decode(ivHex).value;
    var tag, ct := Decode(tagHex).value, Decode(ctHex).value;
    DecodeExactly(ivHex, iv);
    DecodeExactly(tagHex, tag);
    DecodeExactly(ctHex, ct);
    assert (ct + tag)[..|ct + tag| - TAG_LEN] == ct;
    assert (ct + tag)[|ct + tag| - TAG_LEN..] == tag;
    var pt := g.ctr(key, iv, ct);
    assert OpenText(g, key, packed, name) == Ok(pt) && g.tag(key, iv, ct, name) == tag;
    assert g.ctr(key, iv, pt) == ct;
    SealParts(g, key, iv, pt, name);
    LowerThree(ivHex, tagHex, ctHex);
  }

  /** A text opens to `pt` exactly when it is, up to the case of its hex digits, a text that
      sealing `pt` under the same name can print. */
  lemma OpenExactly(g: Cipher, key: Bytes, packed: string, pt: Bytes, name: string)
    ensures OpenText(g, key, packed, name) == Ok(pt)
       <==> exists iv: Nonce :: SealText(g, key, iv, pt, name) == Ok(Lower(packed))
  {
    if OpenText(g, key, packed, name) == Ok(pt) {
      var iv := OpenedWasSealed(g, key, packed, name);
    }
    if iv: Nonce :| SealText(g, key, iv, pt, name) == Ok(Lower(packed)) {
      OpenSealed(g, key, iv, pt, name, name);
      OpenLower(g, key, packed, name);
    }
  }

  lemma {:induction false} CutColonLower(s: string)
    ensures CutColon(Lower(s)) == match CutColon(s) case None => None case Some((a, b)) => Some((Lower(a), Lower(b)))
  {
    if s != "" {
      assert Lower(s)[1..] == Lower(s[1..]);
      if s[0] != ':' {
        CutColonLower(s[1..]);
        if CutColon(s[1..]).Some? {
          var (a, b) := CutColon(s[1..]).value;
          assert Lower([s[0]] + a) == [LowerChar(s[0])] + Lower(a);
        }
      }
    }
  }

  lemma DecodeLower(s: string)
    ensures Decode(Lower(s)) == Decode(s)
  {
    assert Lower(Lower(s)) == Lower(s);
    if Decode(s).Some? {
      DecodeExactly(s, Decode(s).value);
      DecodeExactly(Lower(s), Decode(s).value);
    } else if Decode(Lower(s)).Some? {
      DecodeExactly(s, Decode(Lower(s)).value);
      DecodeExactly(Lower(s), Decode(Lower(s)).value);
    }
  }

  /** Reading ignores the case of the hex digits. */
  lemma OpenLower(g: Cipher, key: Bytes, packed: string, name: string)
    ensures OpenText(g, key, Lower(packed), name) == OpenText(g, key, packed, name)
  {
    CutColonLower(packed);
    if CutColon(packed).Some? {
      CutColonLower(CutColon(packed).value.1);
    }
    if SplitPacked(packed).Some? {
      var (ivHex, tagHex, ctHex) := SplitPacked(packed).value;
      DecodeLower(ivHex);
      DecodeLower(tagHex);
      DecodeLower(ctHex);
    }
  }

  /** If a text opens under two names, it opens to the same plaintext. */
  lemma PlaintextIgnoresName(g: Cipher, key: Bytes, packed: string, a: string, b: string)
    requires OpenText(g, key, packed, a).Ok? && OpenText(g, key, packed, b).Ok?
    ensures OpenText(g, key, packed, a) == OpenText(g, key, packed, b)
  {}
}
