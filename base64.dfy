/**
 * Base 64 as the browser applies it to data URLs: the padded encoding of
 * section 4 of RFC 4648 (what `FileReader.readAsDataURL` writes) and the
 * forgiving decoder of the WHATWG Infra standard that `atob` runs (strip
 * ASCII white space, drop one or two trailing `=` from a length that is a
 * multiple of four, refuse a length of 4k+1 or any character outside the
 * alphabet, discard the bits left over in the last group).
 */
module Base64 {

  import opened Types
  import JsText

  type byte = x: int | 0 <= x < 256
  type sextet = x: int | 0 <= x < 64

  /** The character that encodes a 6-bit value (RFC 4648, Table 1). */
  function Letter(v: sextet): (c: char)
    ensures IsLetter(c)
  {
    if v < 26 then (65 + v) as char        // 'A'..'Z'
    else if v < 52 then (71 + v) as char   // 'a'..'z'
    else if v < 62 then (v - 4) as char    // '0'..'9'
    else if v == 62 then '+'
    else '/'
  }

  predicate IsLetter(c: char)
  {
    ('A' <= c <= 'Z') || ('a' <= c <= 'z') || ('0' <= c <= '9') || c == '+' || c == '/'
  }

  predicate AllLetters(s: string)
  {
    forall i :: 0 <= i < |s| ==> IsLetter(s[i])
  }

  /** The 6-bit value a character of the alphabet encodes. */
  function Value(c: char): (v: sextet)
    requires IsLetter(c)
    ensures Letter(v) == c
  {
    if 'A' <= c <= 'Z' then c as int - 65
    else if 'a' <= c <= 'z' then c as int - 71
    else if '0' <= c <= '9' then c as int + 4
    else if c == '+' then 62
    else 63
  }

  lemma ValueOfLetter(v: sextet)
    ensures Value(Letter(v)) == v
  {
  }

  /** Three bytes as four characters, six bits each. */
  function EncodeGroup(b0: byte, b1: byte, b2: byte): (s: string)
    ensures |s| == 4 && AllLetters(s)
  {
    [Letter(b0 / 4), Letter(b0 % 4 * 16 + b1 / 16), Letter(b1 % 16 * 4 + b2 / 64), Letter(b2 % 64)]
  }

  /** Whole groups of three bytes become four characters; a final one or two
      bytes become two or three characters, their unused low bits zero. */
  function EncodeUnpadded(b: seq<byte>): (s: string)
    ensures AllLetters(s)
    decreases |b|
  {
    if |b| == 0 then ""
    else if |b| == 1 then
      [Letter(b[0] / 4), Letter(b[0] % 4 * 16)]
    else if |b| == 2 then
      [Letter(b[0] / 4), Letter(b[0] % 4 * 16 + b[1] / 16), Letter(b[1] % 16 * 4)]
    else
      EncodeGroup(b[0], b[1], b[2]) + EncodeUnpadded(b[3..])
  }

  /** The `=` characters that bring the encoding to a multiple of four. */
  function Padding(n: nat): string
  {
    if n % 3 == 1 then "==" else if n % 3 == 2 then "=" else ""
  }

  /** Four characters for every three bytes, the last group partial. */
  lemma {:induction false} UnpaddedLength(b: seq<byte>)
    ensures |EncodeUnpadded(b)| == 4 * (|b| / 3) + (if |b| % 3 == 0 then 0 else |b| % 3 + 1)
    decreases |b|
  {
    if |b| >= 3 {
      UnpaddedLength(b[3..]);
      Div3Step(|b|);
    }
  }

  lemma Div3Step(n: nat)
    requires n >= 3
    ensures (n - 3) / 3 == n / 3 - 1 && (n - 3) % 3 == n % 3
  {
  }

  /** The unpadded length modulo four: 0, 2 or 3, never 1. */
  lemma {:induction false} UnpaddedResidue(b: seq<byte>)
    ensures |EncodeUnpadded(b)| % 4 == (if |b| % 3 == 0 then 0 else |b| % 3 + 1)
    decreases |b|
  {
    if |b| >= 3 {
      UnpaddedResidue(b[3..]);
      assert |EncodeUnpadded(b)| == |EncodeUnpadded(b[3..])| + 4;
      Mod4Step(|EncodeUnpadded(b[3..])|);
      Div3Step(|b|);
    }
  }

  lemma Mod4Step(n: nat)
    ensures (n + 4) % 4 == n % 4
  {
  }

  /** The padded encoding of RFC 4648, section 4. */
  function Encode(b: seq<byte>): (s: string)
    ensures forall i :: 0 <= i < |s| ==> IsLetter(s[i]) || s[i] == '='
  {
    EncodeUnpadded(b) + Padding(|b|)
  }

  /** Four characters for every three bytes or part of three. */
  lemma EncodedLength(b: seq<byte>)
    ensures |Encode(b)| == 4 * ((|b| + 2) / 3)
  {
    UnpaddedLength(b);
    var n := |b|;
    var q := n / 3;
    assert n == 3 * q + n % 3;
    assert (n + 2) / 3 == (if n % 3 == 0 then q else q + 1);
  }

  /** Four characters of the alphabet as the three bytes they encode. */
  function DecodeGroup(c0: char, c1: char, c2: char, c3: char): (b: seq<byte>)
    requires IsLetter(c0) && IsLetter(c1) && IsLetter(c2) && IsLetter(c3)
    ensures |b| == 3
  {
    [Value(c0) * 4 + Value(c1) / 16, Value(c1) % 16 * 16 + Value(c2) / 4, Value(c2) % 4 * 64 + Value(c3)]
  }

  /** The groups of a padding-free, white-space-free string of letters,
      decoded; the bits of a final partial group that do not fill a byte are
      discarded (a lone final letter, which fills none, is refused before
      this step). */
  function DecodeLetters(s: string): (b: seq<byte>)
    requires AllLetters(s)
    decreases |s|
  {
    if |s| < 2 then []
    else if |s| == 2 then
      [Value(s[0]) * 4 + Value(s[1]) / 16]
    else if |s| == 3 then
      [Value(s[0]) * 4 + Value(s[1]) / 16, Value(s[1]) % 16 * 16 + Value(s[2]) / 4]
    else
      DecodeGroup(s[0], s[1], s[2], s[3]) + DecodeLetters(s[4..])
  }

  /** The ASCII white space of the Infra standard: TAB, LF, FF, CR, SPACE. */
  const AsciiWhitespace: set<char> := {'\t', '\n', '\U{000C}', '\r', ' '}

  /** Step 2 of forgiving-base64 decode: a length divisible by four loses one
      or two trailing `=`. */
  function DropPadding(s: string): (r: string)
    ensures |r| <= |s| && r == s[..|r|]
  {
    if |s| % 4 == 0 && |s| >= 2 && s[|s| - 2] == '=' && s[|s| - 1] == '=' then s[..|s| - 2]
    else if |s| % 4 == 0 && |s| >= 1 && s[|s| - 1] == '=' then s[..|s| - 1]
    else s
  }

  /** Forgiving-base64 decode, the algorithm behind `atob`; `None` is failure. */
  function ForgivingDecode(s: string): Option<seq<byte>>
  {
    var d := DropPadding(JsText.RemoveChars(s, AsciiWhitespace));
    if |d| % 4 == 1 || !AllLetters(d) then None else Some(DecodeLetters(d))
  }

  /** A byte sequence as a JavaScript binary string: one character per byte,
      its code the byte's value. */
  function BinaryString(b: seq<byte>): (s: string)
    ensures |s| == |b|
    ensures forall i :: 0 <= i < |b| ==> s[i] as int == b[i]
  {
    seq(|b|, i requires 0 <= i < |b| => b[i] as char)
  }

  /** `atob`: the decoded bytes as a binary string, or the error it throws. */
  function Atob(s: string): (r: Option<string>)
    ensures r.Some? <==> ForgivingDecode(s).Some?
    ensures r.Some? ==> r.value == BinaryString(ForgivingDecode(s).value)
  {
    match ForgivingDecode(s)
    case None => None
    case Some(b) => Some(BinaryString(b))
  }

  /** The bit arithmetic of one group: regrouping three bytes into four
      sextets and back loses nothing. */
  lemma RegroupBytes(b0: byte, b1: byte, b2: byte)
    ensures b0 / 4 * 4 + (b0 % 4 * 16 + b1 / 16) / 16 == b0
    ensures (b0 % 4 * 16 + b1 / 16) % 16 * 16 + (b1 % 16 * 4 + b2 / 64) / 4 == b1
    ensures (b1 % 16 * 4 + b2 / 64) % 4 * 64 + b2 % 64 == b2
  {
  }

  /** One whole group decodes to the three bytes it encodes. */
  lemma DecodeEncodeGroup(b0: byte, b1: byte, b2: byte)
    ensures var g := EncodeGroup(b0, b1, b2); DecodeGroup(g[0], g[1], g[2], g[3]) == [b0, b1, b2]
  {
    RegroupBytes(b0, b1, b2);
    ValueOfLetter(b0 / 4);
    ValueOfLetter(b0 % 4 * 16 + b1 / 16);
    ValueOfLetter(b1 % 16 * 4 + b2 / 64);
    ValueOfLetter(b2 % 64);
  }

  lemma DecodeWholeGroup(b0: byte, b1: byte, b2: byte)
    ensures DecodeLetters(EncodeGroup(b0, b1, b2)) == [b0, b1, b2]
  {
    var g := EncodeGroup(b0, b1, b2);
    assert g[4..] == [];
    assert DecodeLetters(g) == DecodeGroup(g[0], g[1], g[2], g[3]) + DecodeLetters([]);
    DecodeEncodeGroup(b0, b1, b2);
  }

  /** A final group of one or two bytes is the front of a whole group padded
      with zero bytes, and decodes as the front of that group; so it, too,
      decodes to the bytes it encodes. */
  lemma DecodeEncodeOne(b0: byte)
    ensures DecodeLetters(EncodeUnpadded([b0])) == [b0]
  {
    var g := EncodeGroup(b0, 0, 0);
    assert EncodeUnpadded([b0]) == g[..2];
    assert Letter(0) == 'A';
    DecodeEncodeGroup(b0, 0, 0);
    assert DecodeLetters(g[..2]) == DecodeGroup(g[0], g[1], g[2], g[3])[..1];
  }

  lemma DecodeEncodeTwo(b0: byte, b1: byte)
    ensures DecodeLetters(EncodeUnpadded([b0, b1])) == [b0, b1]
  {
    var g := EncodeGroup(b0, b1, 0);
    assert EncodeUnpadded([b0, b1]) == g[..3];
    assert Letter(0) == 'A';
    DecodeEncodeGroup(b0, b1, 0);
    assert DecodeLetters(g[..3]) == DecodeGroup(g[0], g[1], g[2], g[3])[..2];
  }

  lemma DecodeSplits(x: string, y: string)
    requires |x| == 4 && AllLetters(x) && AllLetters(y)
    ensures AllLetters(x + y) && DecodeLetters(x + y) == DecodeLetters(x) + DecodeLetters(y)
  {
    var s := x + y;
    assert s[4..] == y;
    assert x[4..] == [];
    assert s[0] == x[0] && s[1] == x[1] && s[2] == x[2] && s[3] == x[3];
    assert DecodeLetters(x) == DecodeGroup(x[0], x[1], x[2], x[3]) + DecodeLetters([]);
  }

  /** Decoding the bit groups of an encoding gives back the bytes. */
  lemma {:induction false} DecodeEncodeUnpadded(b: seq<byte>)
    ensures DecodeLetters(EncodeUnpadded(b)) == b
    decreases |b|
  {
    if |b| == 1 {
      assert b == [b[0]];
      DecodeEncodeOne(b[0]);
    } else if |b| == 2 {
      assert b == [b[0], b[1]];
      DecodeEncodeTwo(b[0], b[1]);
    } else if |b| >= 3 {
      var g := EncodeGroup(b[0], b[1], b[2]);
      var rest := EncodeUnpadded(b[3..]);
      assert DecodeLetters(EncodeUnpadded(b)) == DecodeLetters(g) + DecodeLetters(rest) by {
        assert EncodeUnpadded(b) == g + rest;
        DecodeSplits(g, rest);
      }
      assert DecodeLetters(g) == [b[0], b[1], b[2]] by {
        DecodeWholeGroup(b[0], b[1], b[2]);
      }
      DecodeEncodeUnpadded(b[3..]);
      assert b == [b[0], b[1], b[2]] + b[3..];
    }
  }

  /** The padding the encoder adds is exactly what the decoder drops. */
  lemma DropPaddingOfEncode(b: seq<byte>)
    ensures DropPadding(Encode(b)) == EncodeUnpadded(b)
  {
    var u := EncodeUnpadded(b);
    var s := Encode(b);
    assert s == u + Padding(|b|);
    UnpaddedResidue(b);
    if |b| % 3 == 1 {
      DropTwo(u);
    } else if |b| % 3 == 2 {
      DropOne(u);
    } else {
      assert s == u;
      assert |s| > 0 ==> IsLetter(u[|u| - 1]);
    }
  }

  lemma DropTwo(u: string)
    requires |u| % 4 == 2
    ensures DropPadding(u + "==") == u
  {
    var s := u + "==";
    assert s[..|u|] == u;
  }

  lemma DropOne(u: string)
    requires |u| % 4 == 3 && AllLetters(u)
    ensures DropPadding(u + "=") == u
  {
    var s := u + "=";
    assert s[|s| - 2] == u[|u| - 1];
    assert s[..|u|] == u;
  }

  /** No character of the alphabet is white space. */
  lemma LettersKept(s: string)
    requires AllLetters(s)
    ensures JsText.RemoveChars(s, AsciiWhitespace) == s
  {
    forall i | 0 <= i < |s| ensures s[i] !in AsciiWhitespace {
      NotWhitespace(s[i]);
    }
  }

  /** Nor is the padding character. */
  lemma EncodingKept(s: string)
    requires forall i :: 0 <= i < |s| ==> IsLetter(s[i]) || s[i] == '='
    ensures JsText.RemoveChars(s, AsciiWhitespace) == s
  {
    forall i | 0 <= i < |s| ensures s[i] !in AsciiWhitespace {
      NotWhitespace(s[i]);
    }
  }

  lemma NotWhitespace(c: char)
    requires IsLetter(c) || c == '='
    ensures c !in AsciiWhitespace
  {
    assert c as int > ' ' as int;
  }

  /** Round trip: `atob` undoes the encoding, for every byte sequence. */
  lemma DecodeEncode(b: seq<byte>)
    ensures ForgivingDecode(Encode(b)) == Some(b)
    ensures Atob(Encode(b)) == Some(BinaryString(b))
  {
    var s := Encode(b);
    var u := EncodeUnpadded(b);
    EncodingKept(s);
    assert DropPadding(s) == u by {
      DropPaddingOfEncode(b);
    }
    assert |u| % 4 != 1 by {
      UnpaddedResidue(b);
    }
    DecodeValidInput(s, u);
    DecodeEncodeUnpadded(b);
  }

  lemma DecodeValidInput(s: string, d: string)
    requires DropPadding(JsText.RemoveChars(s, AsciiWhitespace)) == d
    requires |d| % 4 != 1 && AllLetters(d)
    ensures ForgivingDecode(s) == Some(DecodeLetters(d))
    ensures Atob(s) == Some(BinaryString(DecodeLetters(d)))
  {
  }

  /** A string of letters one longer than a multiple of four is refused. */
  lemma LoneLetterFails(s: string)
    requires AllLetters(s) && |s| % 4 == 1
    ensures Atob(s) == None
  {
    LettersKept(s);
    assert DropPadding(s) == s;
  }

  /** `atob` of JavaScript's `String(undefined)` throws: nine characters
      leave a remainder of one. */
  lemma AtobUndefinedFails()
    ensures Atob("undefined") == None
  {
    LoneLetterFails("undefined");
  }
}
