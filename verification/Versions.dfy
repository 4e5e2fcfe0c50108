/** The "v<N>:" prefix of stored ciphertexts (internal/crypto/envelope.go). */
module Versions {
  import opened Wrappers
  import opened Hex
  import opened Gcm

  /** Go's int is 64 bits wide; `strconv.Atoi` refuses larger values. */
  const MAX_INT := 0x7fff_ffff_ffff_ffff

  predicate IsDigit(c: char) {
    '0' <= c <= '9'
  }

  predicate AllDigits(s: string) {
    forall i :: 0 <= i < |s| ==> IsDigit(s[i])
  }

  function DigitsOf(n: nat): (s: string)
    ensures s != "" && AllDigits(s) && DigitsValue(s) == n
  {
    if n < 10 then [Digit(n)]
    else
      var front := DigitsOf(n / 10);
      var s := front + [Digit(n % 10)];
      assert s[..|s| - 1] == front;
      s
  }

  /** `strconv.Itoa`. */
  function Itoa(n: int): string {
    if n < 0 then "-" + DigitsOf(-n) else DigitsOf(n)
  }

  function DigitsValue(s: string): nat
    requires AllDigits(s)
  {
    if s == "" then 0 else DigitsValue(s[..|s| - 1]) * 10 + (s[|s| - 1] - '0') as int
  }

  /** The length of the longest prefix of digits. */
  function DigitRun(s: string): (k: nat)
    ensures k <= |s| && AllDigits(s[..k]) && (k < |s| ==> !IsDigit(s[k]))
  {
    if s != "" && IsDigit(s[0]) then
      var k := 1 + DigitRun(s[1..]);
      assert forall i :: 1 <= i < k ==> s[i] == s[1..][i - 1];
      k
    else 0
  }

  datatype VersionError = EmptyValue | BadPrefix

  function PackVersion(version: int, raw: string): string {
    "v" + Itoa(version) + ":" + raw
  }

  /** Where a match of `^v([0-9]+):(.*)$` puts its colon; the dot does not match a line break. */
  function PrefixColon(s: string): Option<nat> {
    if s == "" || s[0] != 'v' then None
    else
      var k := DigitRun(s[1..]);
      if k == 0 || 1 + k == |s| || s[1 + k] != ':' || '\n' in s[2 + k..] then None else Some(1 + k)
  }

  function ParseVersion(s: string): Result<(int, string), VersionError> {
    if s == "" then Err(EmptyValue)
    else
      match PrefixColon(s)
      case None => Ok((1, s))
      case Some(i) =>
        assert s[1..i] == s[1..][..i - 1];
        var v := DigitsValue(s[1..i]);
        if v > MAX_INT || v < 1 then Err(BadPrefix) else Ok((v, s[i + 1..]))
  }

  lemma PrefixColonAt(digits: string, raw: string)
    requires digits != "" && AllDigits(digits)
    ensures PrefixColon("v" + digits + ":" + raw) == if '\n' in raw then None else Some(1 + |digits|)
  {
    var s := "v" + digits + ":" + raw;
    var k := DigitRun(s[1..]);
    assert s[1..] == digits + ":" + raw;
    assert s[1..][|digits|] == ':';
    assert forall i :: 0 <= i < |digits| ==> s[1..][i] == digits[i];
    assert forall i :: 0 <= i < k ==> s[1..][..k][i] == s[1..][i];
    assert k == |digits|;
    assert s[2 + k..] == raw;
  }

  /** Packing is undone by parsing exactly for positive versions that fit Go's int and for texts
      without a line break. */
  lemma ParsePacked(version: int, raw: string)
    ensures ParseVersion(PackVersion(version, raw)) == Ok((version, raw))
       <==> 1 <= version <= MAX_INT && '\n' !in raw
  {
    var s := PackVersion(version, raw);
    if version < 0 {
      assert s[1] == '-';
      assert DigitRun(s[1..]) == 0;
    } else {
      var digits := DigitsOf(version);
      PrefixColonAt(digits, raw);
      assert s[1..1 + |digits|] == digits;
      assert s[2 + |digits|..] == raw;
    }
  }

  /** A text without the prefix is read as version 1, unchanged. */
  lemma ParseBare(s: string)
    requires s != "" && s[0] != 'v'
    ensures ParseVersion(s) == Ok((1, s))
  {}

  /** A sealed text is read as version 1 when bare and as its own version when packed. */
  lemma ParseSealed(g: Cipher, key: Bytes, iv: Nonce, pt: Bytes, name: string, version: int)
    requires KeyOk(key)
    ensures var raw := SealText(g, key, iv, pt, name).value;
            && ParseVersion(raw) == Ok((1, raw))
            && (1 <= version <= MAX_INT ==> ParseVersion(PackVersion(version, raw)) == Ok((version, raw)))
            && PackVersion(version, raw) != ""
  {
    var raw := SealText(g, key, iv, pt, name).value;
    SealedShape(g, key, iv, pt, name);
    ParseBare(raw);
    ParsePacked(version, raw);
  }
}
