/** Byte strings and Go's `encoding/hex`. */
module Hex {
  import opened Wrappers

  type Byte = x: int | 0 <= x < 256
  type Bytes = seq<Byte>

  predicate IsLowerHex(c: char) {
    '0' <= c <= '9' || 'a' <= c <= 'f'
  }

  predicate IsHex(c: char) {
    IsLowerHex(c) || 'A' <= c <= 'F'
  }

  function Digit(n: nat): char
    requires n < 16
  {
    if n < 10 then '0' + n as char else 'a' + (n - 10) as char
  }

  function Value(c: char): (n: nat)
    requires IsHex(c)
    ensures n < 16
  {
    if c <= '9' then (c - '0') as int
    else if c <= 'F' then (c - 'A') as int + 10
    else (c - 'a') as int + 10
  }

  function LowerChar(c: char): char {
    if 'A' <= c <= 'F' then c - 'A' + 'a' else c
  }

  /** The text with the hex digits A-F in lower case. */
  function Lower(s: string): (t: string)
    ensures |t| == |s|
  {
    seq(|s|, i requires 0 <= i < |s| => LowerChar(s[i]))
  }

  /** `hex.EncodeToString`. */
  function Encode(b: Bytes): string {
    if b == [] then "" else [Digit(b[0] / 16), Digit(b[0] % 16)] + Encode(b[1..])
  }

  /** `hex.DecodeString`, which also accepts upper-case digits. */
  function Decode(s: string): Option<Bytes> {
    if s == "" then Some([])
    else if |s| == 1 || !IsHex(s[0]) || !IsHex(s[1]) then None
    else
      match Decode(s[2..])
      case None => None
      case Some(rest) => Some([Value(s[0]) * 16 + Value(s[1])] + rest)
  }

  lemma {:induction false} EncodeShape(b: Bytes)
    ensures |Encode(b)| == 2 * |b|
    ensures forall i :: 0 <= i < |Encode(b)| ==> IsLowerHex(Encode(b)[i])
  {
    if b != [] {
      EncodeShape(b[1..]);
    }
  }

  /** A text decodes to `b` exactly when it is the encoding of `b` up to the case of its digits. */
  lemma {:induction false} DecodeExactly(s: string, b: Bytes)
    ensures Decode(s) == Some(b) <==> Lower(s) == Encode(b)
  {
    EncodeShape(b);
    if s == "" || b == [] {
      assert |Lower(s)| == |s|;
    } else if |s| == 1 {
    } else {
      DecodeExactly(s[2..], b[1..]);
      assert Lower(s) == [LowerChar(s[0]), LowerChar(s[1])] + Lower(s[2..]);
      assert Lower(s)[2..] == Lower(s[2..]);
      assert Encode(b)[2..] == Encode(b[1..]);
      assert Lower(s) == Encode(b) <==>
        LowerChar(s[0]) == Digit(b[0] / 16) && LowerChar(s[1]) == Digit(b[0] % 16)
        && Lower(s[2..]) == Encode(b[1..]) by {
        if Lower(s) == Encode(b) {
          assert Lower(s)[0] == Encode(b)[0] && Lower(s)[1] == Encode(b)[1];
        }
      }
      assert b == [b[0]] + b[1..];
      if IsHex(s[0]) && IsHex(s[1]) {
        DigitValue(s[0], b[0] / 16);
        DigitValue(s[1], b[0] % 16);
        var v := Value(s[0]) * 16 + Value(s[1]);
        assert v / 16 == Value(s[0]) && v % 16 == Value(s[1]);
        if Decode(s[2..]).Some? {
          var rest := Decode(s[2..]).value;
          assert ([v] + rest)[1..] == rest;
        }
      }
    }
  }

  lemma DigitValue(c: char, n: nat)
    requires IsHex(c) && n < 16
    ensures LowerChar(c) == Digit(n) <==> Value(c) == n
  {}

  lemma DecodeEncode(b: Bytes)
    ensures Decode(Encode(b)) == Some(b)
  {
    EncodeShape(b);
    assert Lower(Encode(b)) == Encode(b);
    DecodeExactly(Encode(b), b);
  }
}
