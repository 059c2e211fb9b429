/**
 * The few ECMAScript string primitives the studio's text handling is built
 * from: the white-space class shared by `String.prototype.trim` and the
 * regular-expression escape `\s`, the line terminators that the regular
 * expression `.` refuses to match, `trim`, `split(c)[0]`, `split(c)[1]` and
 * a global `replace` of a character class by the empty string.
 */
module JsText {

  import Types

  /** A code point of ECMAScript's WhiteSpace or LineTerminator productions. */
  predicate IsSpace(c: char)
  {
    || c == '\t' || c == '\n' || c == '\U{000B}' || c == '\U{000C}' || c == '\r' || c == ' '
    || c == '\U{00A0}' || c == '\U{1680}' || ('\U{2000}' <= c <= '\U{200A}')
    || c == '\U{2028}' || c == '\U{2029}' || c == '\U{202F}' || c == '\U{205F}'
    || c == '\U{3000}' || c == '\U{FEFF}'
  }

  /** A code point the regular-expression atom `.` does not match. */
  predicate IsLineTerminator(c: char)
  {
    c == '\n' || c == '\r' || c == '\U{2028}' || c == '\U{2029}'
  }

  predicate AllSpace(s: string)
  {
    forall i :: 0 <= i < |s| ==> IsSpace(s[i])
  }

  /** No white space at either end. */
  predicate Trimmed(s: string)
  {
    s == [] || (!IsSpace(s[0]) && !IsSpace(s[|s| - 1]))
  }

  /** The string without its leading white space. */
  function TrimStart(s: string): (r: string)
    ensures |r| <= |s| && r == s[|s| - |r|..]
    ensures AllSpace(s[..|s| - |r|])
    ensures r == [] || !IsSpace(r[0])
    decreases |s|
  {
    if |s| > 0 && IsSpace(s[0]) then TrimStart(s[1..]) else s
  }

  /** The string without its trailing white space. */
  function TrimEnd(s: string): (r: string)
    ensures |r| <= |s| && r == s[..|r|]
    ensures AllSpace(s[|r|..])
    ensures r == [] || !IsSpace(r[|r| - 1])
    decreases |s|
  {
    if |s| > 0 && IsSpace(s[|s| - 1]) then TrimEnd(s[..|s| - 1]) else s
  }

  /** `String.prototype.trim`. */
  function Trim(s: string): string
  {
    TrimEnd(TrimStart(s))
  }

  /** What `trim` promises: no white space left at either end, nothing left
      exactly when the string is all white space, no character that was not
      there, and a string already trimmed kept as it is. */
  lemma TrimSpec(s: string)
    ensures Trimmed(Trim(s))
    ensures Trim(s) == [] <==> AllSpace(s)
    ensures forall c :: c in Trim(s) ==> c in s
    ensures Trimmed(s) ==> Trim(s) == s
  {
    var t := TrimStart(s);
    TrimmedEnds(t);
    TrimBlank(s, t);
    TrimChars(s, t);
  }

  lemma TrimChars(s: string, t: string)
    requires t == TrimStart(s)
    ensures forall c :: c in TrimEnd(t) ==> c in s
  {
    InfixChars(s, t);
    InfixChars(t, TrimEnd(t));
  }

  lemma TrimmedEnds(t: string)
    requires t == [] || !IsSpace(t[0])
    ensures Trimmed(TrimEnd(t))
  {
    var r := TrimEnd(t);
    assert r != [] ==> r[0] == t[0];
  }

  lemma TrimBlank(s: string, t: string)
    requires t == TrimStart(s)
    ensures TrimEnd(t) == [] <==> AllSpace(s)
    ensures Trimmed(s) ==> TrimEnd(t) == s
  {
    var r := TrimEnd(t);
    var n := |s| - |t|;
    if r == [] {
      assert t[|r|..] == t;
      assert s[..n] == s;
    }
    assert t != [] ==> t[0] == s[n];
    if Trimmed(s) && s != [] {
      assert t == s;
    }
  }

  /** Every character of a suffix or prefix of `s` occurs in `s`. */
  lemma InfixChars(s: string, t: string)
    requires |t| <= |s| && (t == s[|s| - |t|..] || t == s[..|t|])
    ensures forall c :: c in t ==> c in s
  {
    forall c | c in t ensures c in s {
      var i :| 0 <= i < |t| && t[i] == c;
      if t == s[..|t|] {
        assert s[i] == c;
      } else {
        assert s[|s| - |t| + i] == c;
      }
    }
  }

  /** The index of the first `c` in `s`, or `|s|` when there is none. */
  function FirstIndex(s: string, c: char): (k: nat)
    ensures k <= |s|
    ensures k < |s| ==> s[k] == c
    ensures forall i :: 0 <= i < k ==> s[i] != c
    decreases |s|
  {
    if |s| == 0 then 0
    else if s[0] == c then 0
    else 1 + FirstIndex(s[1..], c)
  }

  /** `s.split(c)[0]`: everything before the first `c` (all of `s` without one). */
  function FirstField(s: string, c: char): (r: string)
    ensures |r| <= |s| && r == s[..|r|]
    ensures c !in r
    ensures |r| < |s| ==> s[|r|] == c
  {
    var k := FirstIndex(s, c);
    assert forall x :: x in s[..k] ==> x != c;
    s[..k]
  }

  /** `s.split(c)[1]`: the field after the first `c`, or nothing (JavaScript's
      `undefined`) when `s` holds no `c`. */
  function SecondField(s: string, c: char): (r: Types.Option<string>)
    ensures r.None? <==> c !in s
    ensures r.Some? ==> c !in r.value
    ensures r.Some? ==> (|FirstField(s, c)| + 1 + |r.value| <= |s| &&
      s[..|FirstField(s, c)| + 1 + |r.value|] == FirstField(s, c) + [c] + r.value)
    ensures r.Some? ==> (var e := |FirstField(s, c)| + 1 + |r.value|; e == |s| || s[e] == c)
  {
    var k := FirstIndex(s, c);
    if k == |s| then
      Types.None
    else
      var rest := s[k + 1..];
      var f := FirstField(rest, c);
      assert s[..k + 1 + |f|] == s[..k] + [c] + rest[..|f|];
      assert k + 1 + |f| < |s| ==> s[k + 1 + |f|] == rest[|f|];
      Types.Some(f)
  }

  /** `s.replace(/[...]/g, '')`: every character in `drop` removed, the others kept in order. */
  function RemoveChars(s: string, drop: set<char>): (r: string)
    ensures forall i :: 0 <= i < |r| ==> r[i] !in drop
    ensures forall c :: c in r ==> c in s
    ensures (forall i :: 0 <= i < |s| ==> s[i] !in drop) ==> r == s
    decreases |s|
  {
    if |s| == 0 then ""
    else if s[0] in drop then RemoveChars(s[1..], drop)
    else [s[0]] + RemoveChars(s[1..], drop)
  }

  /** The removal works character by character, so it distributes over
      concatenation: the kept characters stay, in their order. */
  lemma {:induction false} RemoveCharsAppend(x: string, y: string, drop: set<char>)
    ensures RemoveChars(x + y, drop) == RemoveChars(x, drop) + RemoveChars(y, drop)
    decreases |x|
  {
    if |x| == 0 {
      assert x + y == y;
    } else {
      assert (x + y)[1..] == x[1..] + y;
      RemoveCharsAppend(x[1..], y, drop);
    }
  }

  /** Removing a set of characters and then another is removing their union. */
  lemma {:induction false} RemoveCharsTwice(s: string, a: set<char>, b: set<char>)
    ensures RemoveChars(RemoveChars(s, a), b) == RemoveChars(s, a + b)
    decreases |s|
  {
    if |s| > 0 {
      RemoveCharsTwice(s[1..], a, b);
      if s[0] !in a {
        assert RemoveChars(s, a) == [s[0]] + RemoveChars(s[1..], a);
        assert RemoveChars(s, a)[1..] == RemoveChars(s[1..], a);
      }
    }
  }

  /** The field before the first separator, whatever follows it. */
  lemma FirstFieldOfJoin(h: string, e: string, c: char)
    requires c !in h
    ensures FirstIndex(h + [c] + e, c) == |h|
    ensures FirstField(h + [c] + e, c) == h
  {
    var s := h + [c] + e;
    assert forall i :: 0 <= i < |h| ==> s[i] == h[i];
    assert s[|h|] == c;
    assert s[..|h|] == h;
  }

  /** The two fields around a separator that neither side contains. */
  lemma FieldsOfJoin(h: string, e: string, c: char)
    requires c !in h && c !in e
    ensures FirstField(h + [c] + e, c) == h
    ensures SecondField(h + [c] + e, c) == Types.Some(e)
  {
    var s := h + [c] + e;
    FirstFieldOfJoin(h, e, c);
    assert s[|h| + 1..] == e;
    assert FirstIndex(e, c) == |e| by {
      assert forall i :: 0 <= i < |e| ==> e[i] != c;
    }
    assert FirstField(e, c) == e[..|e|] == e;
  }
}
