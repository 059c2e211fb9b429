/**
 * The text and response handling of the Gemini service
 * (services/geminiService.ts). The client and its network calls are not
 * modelled: every call's reply is a parameter, either the settled value the
 * call would produce or the message of the error it would throw.
 */
module GeminiService {

  import opened Types
  import JsText

  const MissingKeyMessage: string := "API 密钥未配置。请在设置中输入您的 API 密钥。"
  const NoImageMessage: string := "图像生成失败或未返回图像。"
  /** The TypeError a V8-based page raises for `response.candidates[0].content`
      when the reply has no candidate. */
  const NoCandidateMessage: string := "Cannot read properties of undefined (reading 'content')"
  /** The TypeError for `response.text.trim()` when the reply has no text. */
  const NoTextMessage: string := "Cannot read properties of undefined (reading 'trim')"

  const TextModel: string := "gemini-2.5-flash"
  const ImageModel: string := "gemini-2.5-flash-image"

  // ---------------------------------------------------------------------
  // Credentials
  // ---------------------------------------------------------------------

  /** `getAiClient`: the key `userApiKey || process.env.API_KEY` selects, or
      the error thrown when it is missing or empty. An absent value stands
      for `null`/`undefined`. */
  function ApiKey(userKey: Option<string>, envKey: Option<string>): (r: Settled<string>)
    ensures userKey.Some? && userKey.value != "" ==> r == Resolved(userKey.value)
    ensures (userKey.None? || userKey.value == "") && envKey.Some? && envKey.value != "" ==> r == Resolved(envKey.value)
    ensures r.Rejected? <==> (userKey.None? || userKey.value == "") && (envKey.None? || envKey.value == "")
    ensures r.Rejected? ==> r.message == MissingKeyMessage
  {
    var apiKey := if userKey.Some? && userKey.value != "" then userKey else envKey;
    if apiKey.None? || apiKey.value == "" then Rejected(MissingKeyMessage) else Resolved(apiKey.value)
  }

  // ---------------------------------------------------------------------
  // Inspiration clean-up
  // ---------------------------------------------------------------------

  /** `\d`: an ASCII digit. */
  predicate IsDigit(c: char)
  {
    '0' <= c <= '9'
  }

  /** The end of the run of `\s` characters that starts at `i`. */
  function SpaceRunEnd(s: string, i: nat): (k: nat)
    requires i <= |s|
    ensures i <= k <= |s|
    ensures JsText.AllSpace(s[i..k])
    ensures k < |s| ==> !JsText.IsSpace(s[k])
    decreases |s| - i
  {
    if i < |s| && JsText.IsSpace(s[i]) then SpaceRunEnd(s, i + 1) else i
  }

  /** The end of the run of digits that starts at `i`. */
  function DigitRunEnd(s: string, i: nat): (k: nat)
    requires i <= |s|
    ensures i <= k <= |s|
    ensures forall j :: i <= j < k ==> IsDigit(s[j])
    ensures k < |s| ==> !IsDigit(s[k])
    decreases |s| - i
  {
    if i < |s| && IsDigit(s[i]) then DigitRunEnd(s, i + 1) else i
  }

  /** A token of the group `(\d+\.|-|\*)`. */
  predicate MarkerToken(w: string)
  {
    w == "-" || w == "*" || (|w| >= 2 && w[|w| - 1] == '.' && forall i :: 0 <= i < |w| - 1 ==> IsDigit(w[i]))
  }

  /** `x` is a list marker with its white space, `\s*(\d+\.|-|\*)\s*`, split
      at `a` and `b`. */
  predicate MarkerSplit(x: string, a: nat, b: nat)
  {
    a < b <= |x| && JsText.AllSpace(x[..a]) && MarkerToken(x[a..b]) && JsText.AllSpace(x[b..])
  }

  /** `x` is a list marker with its white space. */
  ghost predicate IsMarkerPrefix(x: string)
  {
    exists a, b :: MarkerSplit(x, a, b)
  }

  /** The length of the text that `/^\s*(\d+\.|-|\*)\s*` matches at the start
      of `s`, when it does. */
  function ListMarkerEnd(s: string): (e: Option<nat>)
    ensures e.Some? ==> 0 < e.value <= |s|
    ensures e.Some? ==> IsMarkerPrefix(s[..e.value])
    ensures e.Some? ==> e.value == |s| || !JsText.IsSpace(s[e.value])
  {
    var a := SpaceRunEnd(s, 0);
    if a < |s| && (s[a] == '-' || s[a] == '*') then
      var e := SpaceRunEnd(s, a + 1);
      assert MarkerToken(s[a..a + 1]) by {
        assert s[a..a + 1] == [s[a]];
      }
      MarkerSplitAt(s, a, a + 1, e);
      Some(e)
    else if a < |s| && IsDigit(s[a]) then
      var d := DigitRunEnd(s, a);
      if d < |s| && s[d] == '.' then
        var e := SpaceRunEnd(s, d + 1);
        DigitMarkerToken(s, a, d);
        MarkerSplitAt(s, a, d + 1, e);
        Some(e)
      else None
    else None
  }

  /** Digits from `a` up to a `.` at `d` make the token `\d+\.`. */
  lemma DigitMarkerToken(s: string, a: nat, d: nat)
    requires a < d < |s| && s[d] == '.'
    requires forall j :: a <= j < d ==> IsDigit(s[j])
    ensures MarkerToken(s[a..d + 1])
  {
    var w := s[a..d + 1];
    assert w[|w| - 1] == '.';
    forall i | 0 <= i < |w| - 1 ensures IsDigit(w[i]) {
      assert w[i] == s[a + i];
    }
  }

  /** White space, a marker token and white space, in that order, make a
      list-marker prefix. */
  lemma MarkerSplitAt(s: string, a: nat, b: nat, e: nat)
    requires a < b <= e <= |s|
    requires JsText.AllSpace(s[0..a]) && MarkerToken(s[a..b]) && JsText.AllSpace(s[b..e])
    ensures MarkerSplit(s[..e], a, b)
  {
    var x := s[..e];
    assert x[..a] == s[0..a];
    assert x[a..b] == s[a..b];
    assert x[b..] == s[b..e];
  }

  /** `.replace(/^\s*(\d+\.|-|\*)\s*\/, '')`. */
  function StripListMarker(s: string): (r: string)
    ensures |r| <= |s| && r == s[|s| - |r|..]
    ensures r != s ==> IsMarkerPrefix(s[..|s| - |r|]) && (r == [] || !JsText.IsSpace(r[0]))
  {
    match ListMarkerEnd(s)
    case None => s
    case Some(e) =>
      assert s[..e] == s[..|s| - |s[e..]|];
      s[e..]
  }

  /** The reverse direction: whenever a prefix of `s` is a list marker with
      its white space, the marker is removed. */
  lemma MarkerIsStripped(s: string, e: nat, a: nat, b: nat)
    requires e <= |s| && MarkerSplit(s[..e], a, b)
    ensures StripListMarker(s) != s
  {
    var w := s[..e][a..b];
    assert SpaceRunEnd(s, 0) == a by {
      assert forall i :: 0 <= i < a ==> s[..e][..a][i] == s[i];
      assert s[a] == w[0];
      TokenStartNotSpace(s[a]);
      SpaceRunEndAt(s, 0, a);
    }
    if w == "-" || w == "*" {
      assert s[a] == w[0];
    } else {
      assert s[a] == w[0];
      assert s[b - 1] == w[|w| - 1];
      assert forall i :: a <= i < b - 1 ==> IsDigit(s[i]) by {
        assert forall i :: a <= i < b - 1 ==> w[i - a] == s[i];
      }
      DigitRunEndAt(s, a, b - 1);
    }
    assert ListMarkerEnd(s).Some?;
  }

  /** A marker begins with a character that is not white space. */
  lemma TokenStartNotSpace(c: char)
    requires c == '-' || c == '*' || IsDigit(c)
    ensures !JsText.IsSpace(c)
  {
    assert '*' <= c <= '9';
  }

  lemma {:induction false} SpaceRunEndAt(s: string, i: nat, k: nat)
    requires i <= k < |s| && !JsText.IsSpace(s[k])
    requires forall j :: i <= j < k ==> JsText.IsSpace(s[j])
    ensures SpaceRunEnd(s, i) == k
    decreases k - i
  {
    if i < k {
      SpaceRunEndAt(s, i + 1, k);
    }
  }

  lemma {:induction false} DigitRunEndAt(s: string, i: nat, k: nat)
    requires i <= k < |s| && !IsDigit(s[k])
    requires forall j :: i <= j < k ==> IsDigit(s[j])
    ensures DigitRunEnd(s, i) == k
    decreases k - i
  {
    if i < k {
      DigitRunEndAt(s, i + 1, k);
    }
  }

  /** No `\r`, `\n`, U+2028 or U+2029 between positions `a` and `b`. */
  predicate NoLineBreak(s: string, a: nat, b: nat)
    requires a <= b <= |s|
  {
    forall i :: a <= i < b ==> !JsText.IsLineTerminator(s[i])
  }

  /** `/\s*\(.*\)\s*$/` matches from position `p` to the end of `s`. */
  predicate TailParenAt(s: string, p: nat)
  {
    exists k, m :: p <= k < m < |s| && JsText.AllSpace(s[p..k]) && s[k] == '(' && NoLineBreak(s, k + 1, m)
                   && s[m] == ')' && JsText.AllSpace(s[m + 1..])
  }

  /** An opening parenthesis at `q` that `.*` can join to the `)` at `m`. */
  predicate OpensAt(s: string, q: nat, m: nat)
    requires q < m < |s|
  {
    s[q] == '(' && NoLineBreak(s, q + 1, m)
  }

  /** The leftmost `q` in `[i, m)` opening a parenthesis that reaches `m`
      (`m` when there is none). */
  function FirstOpen(s: string, i: nat, m: nat): (q: nat)
    requires i <= m < |s|
    ensures i <= q <= m
    ensures q < m ==> OpensAt(s, q, m)
    ensures forall j :: i <= j < q ==> !OpensAt(s, j, m)
    decreases m - i
  {
    if i == m || OpensAt(s, i, m) then i else FirstOpen(s, i + 1, m)
  }

  /** `.replace(/\s*\(.*\)\s*$/, '')`: the text before the leftmost match of
      the expression, or all of `s` when it does not match. */
  function StripTrailingParen(s: string): (r: string)
    ensures |r| <= |s| && r == s[..|r|]
    ensures |r| < |s| ==> TailParenAt(s, |r|)
    ensures forall p :: 0 <= p < |r| ==> !TailParenAt(s, p)
  {
    var t := JsText.TrimEnd(s);
    if t == [] || t[|t| - 1] != ')' then
      NoTailParenWithoutClose(s);
      s
    else
      var m := |t| - 1;
      var q := FirstOpen(s, 0, m);
      if q == m then
        NoTailParenWithoutOpen(s, m);
        s
      else
        var p := |JsText.TrimEnd(s[..q])|;
        TailParenFound(s, m, q, p);
        s[..p]
  }

  /** Only white space between positions `a` and `b`. */
  predicate SpacesBetween(s: string, a: nat, b: nat)
    requires a <= b <= |s|
  {
    forall j :: a <= j < b ==> JsText.IsSpace(s[j])
  }

  /** An opening parenthesis, after white space only from `p`, that reaches
      the `)` at `m`. */
  predicate OpenReaching(s: string, p: nat, m: nat)
    requires p <= m < |s|
  {
    exists k :: p <= k < m && OpensAt(s, k, m) && SpacesBetween(s, p, k)
  }

  /** The last character other than white space is at `m`. */
  lemma CloseIsLast(s: string, m: nat)
    requires m < |s| && !JsText.IsSpace(s[m]) && SpacesBetween(s, m + 1, |s|)
    ensures m == |JsText.TrimEnd(s)| - 1
  {
    var t := JsText.TrimEnd(s);
    assert forall j :: |t| <= j < |s| ==> JsText.IsSpace(s[j]) by {
      assert forall j :: |t| <= j < |s| ==> s[|t|..][j - |t|] == s[j];
    }
    assert t != [] ==> s[|t| - 1] == t[|t| - 1];
  }

  /** Any match of the expression from `p` ends with the `)` that is the
      last character other than white space, and begins, after white space
      only, with an opening parenthesis that reaches it. */
  lemma TailParenShape(s: string, p: nat)
    requires TailParenAt(s, p)
    ensures 0 < |JsText.TrimEnd(s)| <= |s| && JsText.TrimEnd(s)[|JsText.TrimEnd(s)| - 1] == ')'
    ensures p < |JsText.TrimEnd(s)| - 1 && OpenReaching(s, p, |JsText.TrimEnd(s)| - 1)
  {
    var k, m := TailParenParts(s, p);
    CloseIsLast(s, m);
    var t := JsText.TrimEnd(s);
    assert t[m] == ')';
  }

  /** The opening and closing parenthesis of a match from `p`. */
  lemma TailParenParts(s: string, p: nat) returns (k: nat, m: nat)
    requires TailParenAt(s, p)
    ensures p <= k < m < |s| && s[m] == ')' && !JsText.IsSpace(s[m])
    ensures OpensAt(s, k, m) && SpacesBetween(s, p, k) && SpacesBetween(s, m + 1, |s|)
  {
    k, m :| p <= k < m < |s| && JsText.AllSpace(s[p..k]) && s[k] == '(' && NoLineBreak(s, k + 1, m)
             && s[m] == ')' && JsText.AllSpace(s[m + 1..]);
    assert SpacesBetween(s, m + 1, |s|) by {
      assert forall j :: m < j < |s| ==> s[m + 1..][j - m - 1] == s[j];
    }
    assert SpacesBetween(s, p, k) by {
      assert forall j :: p <= j < k ==> s[p..k][j - p] == s[j];
    }
  }

  lemma NoTailParenWithoutClose(s: string)
    requires JsText.TrimEnd(s) == [] || JsText.TrimEnd(s)[|JsText.TrimEnd(s)| - 1] != ')'
    ensures forall p :: 0 <= p < |s| ==> !TailParenAt(s, p)
  {
    forall p | 0 <= p < |s| ensures !TailParenAt(s, p) {
      if TailParenAt(s, p) {
        TailParenShape(s, p);
      }
    }
  }

  lemma NoTailParenWithoutOpen(s: string, m: nat)
    requires m == |JsText.TrimEnd(s)| - 1 && m < |s|
    requires forall j :: 0 <= j < m ==> !OpensAt(s, j, m)
    ensures forall p :: 0 <= p < |s| ==> !TailParenAt(s, p)
  {
    forall p | 0 <= p < |s| ensures !TailParenAt(s, p) {
      if TailParenAt(s, p) {
        TailParenShape(s, p);
      }
    }
  }

  lemma TailParenFound(s: string, m: nat, q: nat, p: nat)
    requires m == |JsText.TrimEnd(s)| - 1 && m < |s| && s[m] == ')'
    requires q < m && OpensAt(s, q, m) && forall j :: 0 <= j < q ==> !OpensAt(s, j, m)
    requires p == |JsText.TrimEnd(s[..q])|
    ensures p <= q && TailParenAt(s, p)
    ensures forall p' :: 0 <= p' < p ==> !TailParenAt(s, p')
  {
    var u := s[..q];
    var v := JsText.TrimEnd(u);
    assert TailParenAt(s, p) by {
      assert JsText.AllSpace(s[p..q]) by {
        assert s[p..q] == u[|v|..];
      }
      var t := JsText.TrimEnd(s);
      assert JsText.AllSpace(s[m + 1..]) by {
        assert s[m + 1..] == s[|t|..];
      }
    }
    assert p > 0 ==> !JsText.IsSpace(s[p - 1]) by {
      assert p > 0 ==> s[p - 1] == v[|v| - 1];
    }
    NoEarlierTailParen(s, m, q, p);
  }

  /** Before the white space that precedes the leftmost opening parenthesis
      nothing matches. */
  lemma NoEarlierTailParen(s: string, m: nat, q: nat, p: nat)
    requires m == |JsText.TrimEnd(s)| - 1 && m < |s|
    requires p <= q < m && forall j :: 0 <= j < q ==> !OpensAt(s, j, m)
    requires p > 0 ==> !JsText.IsSpace(s[p - 1])
    ensures forall p' :: 0 <= p' < p ==> !TailParenAt(s, p')
  {
    forall p' | 0 <= p' < p ensures !TailParenAt(s, p') {
      forall k | p' <= k < m && OpensAt(s, k, m) ensures !SpacesBetween(s, p', k) {
        assert q <= k;
        assert p' <= p - 1 < k;
      }
      assert !OpenReaching(s, p', m);
      if TailParenAt(s, p') {
        TailParenShape(s, p');
      }
    }
  }

  /** The characters the second `replace` removes: `"`, `“`, `”` and `*`. */
  const Decorations: set<char> := {'"', '“', '”', '*'}

  /** The clean-up `generateInspirationPrompt` applies to the reply's text. */
  function CleanInspiration(text: string): (r: string)
    ensures JsText.Trimmed(r)
    ensures '\n' !in r
    ensures forall i :: 0 <= i < |r| ==> r[i] !in Decorations
  {
    var line := JsText.FirstField(JsText.Trim(text), '\n');
    CleanInspirationChars(text);
    TrimmedWithin(CleanSteps(text), line);
    JsText.Trim(CleanSteps(text))
  }

  /** A trimmed string whose characters all lie on a decoration-free line
      is itself a trimmed, decoration-free single line. */
  lemma TrimmedWithin(s: string, line: string)
    requires '\n' !in line
    requires forall c :: c in JsText.Trim(s) ==> c in line && c !in Decorations
    ensures JsText.Trimmed(JsText.Trim(s))
    ensures '\n' !in JsText.Trim(s)
    ensures forall i :: 0 <= i < |JsText.Trim(s)| ==> JsText.Trim(s)[i] !in Decorations
  {
    JsText.TrimSpec(s);
    var t := JsText.Trim(s);
    assert forall i :: 0 <= i < |t| ==> t[i] in t;
  }

  /** The first line of the trimmed reply with its marker, decorations and
      trailing parenthesis removed, before the final trim. */
  function CleanSteps(text: string): string
  {
    StripTrailingParen(JsText.RemoveChars(StripListMarker(JsText.FirstField(JsText.Trim(text), '\n')), Decorations))
  }

  /** Every character left by the clean-up comes from the first line of the
      trimmed reply and is not a decoration. */
  lemma CleanInspirationChars(text: string)
    ensures forall c :: c in JsText.Trim(CleanSteps(text)) ==>
              c in JsText.FirstField(JsText.Trim(text), '\n') && c !in Decorations
  {
    var line := JsText.FirstField(JsText.Trim(text), '\n');
    var unmarked := StripListMarker(line);
    var plain := JsText.RemoveChars(unmarked, Decorations);
    var stripped := StripTrailingParen(plain);
    assert forall c :: c in stripped ==> c in plain by {
      JsText.InfixChars(plain, stripped);
    }
    assert forall c :: c in plain ==> c in line && c !in Decorations by {
      JsText.InfixChars(line, unmarked);
      forall c | c in plain ensures c !in Decorations {
        var i :| 0 <= i < |plain| && plain[i] == c;
      }
    }
    assert CleanSteps(text) == stripped;
  }

  /** `generateInspirationPrompt` (services/geminiService.ts:14-33): the key
      check, then the reply's text cleaned up. */
  function GenerateInspirationPrompt(userKey: Option<string>, envKey: Option<string>,
                                     reply: Settled<Option<string>>): (r: Settled<string>)
    ensures ApiKey(userKey, envKey).Rejected? ==> r == Rejected(MissingKeyMessage)
    ensures ApiKey(userKey, envKey).Resolved? ==>
              match reply
              case Rejected(msg) => r == Rejected(msg)
              case Resolved(None) => r == Rejected(NoTextMessage)
              case Resolved(Some(text)) => r == Resolved(CleanInspiration(text))
  {
    match ApiKey(userKey, envKey)
    case Rejected(msg) => Rejected(msg)
    case Resolved(_) =>
      match reply
      case Rejected(msg) => Rejected(msg)
      case Resolved(None) => Rejected(NoTextMessage)
      case Resolved(Some(text)) => Resolved(CleanInspiration(text))
  }

  /** The inspiration text is drawn from the first line of the trimmed reply:
      each of its characters occurs in that line. */
  lemma InspirationFromFirstLine(text: string)
    ensures forall c :: c in CleanInspiration(text) ==> c in JsText.FirstField(JsText.Trim(text), '\n')
  {
    CleanInspirationChars(text);
  }

  // ---------------------------------------------------------------------
  // Prompt optimisation
  // ---------------------------------------------------------------------

  const Quotes: set<char> := {'"', '“', '”'}

  /** `text.trim().replace(/"/g, '').replace(/“/g, '').replace(/”/g, '')`. */
  function StripQuotes(text: string): (r: string)
    ensures '"' !in r && '“' !in r && '”' !in r
  {
    var t := JsText.Trim(text);
    JsText.RemoveCharsTwice(t, {'"'}, {'“'});
    JsText.RemoveCharsTwice(t, {'"'} + {'“'}, {'”'});
    JsText.RemoveChars(JsText.RemoveChars(JsText.RemoveChars(t, {'"'}), {'“'}), {'”'})
  }

  /** The three replacements remove every quotation mark of the three kinds
      from the trimmed reply, and nothing else. */
  lemma StripQuotesRemovesQuotes(text: string)
    ensures StripQuotes(text) == JsText.RemoveChars(JsText.Trim(text), Quotes)
    ensures forall i :: 0 <= i < |StripQuotes(text)| ==> StripQuotes(text)[i] !in Quotes
  {
    var t := JsText.Trim(text);
    JsText.RemoveCharsTwice(t, {'"'}, {'“'});
    JsText.RemoveCharsTwice(t, {'"'} + {'“'}, {'”'});
    assert {'"'} + {'“'} + {'”'} == Quotes;
  }

  /** `optimizePrompt` (services/geminiService.ts:35-45). */
  function OptimizePrompt(currentPrompt: string, userKey: Option<string>, envKey: Option<string>,
                          reply: Settled<Option<string>>): (r: Settled<string>)
    ensures JsText.AllSpace(currentPrompt) ==> r == Resolved(currentPrompt)
    ensures !JsText.AllSpace(currentPrompt) && ApiKey(userKey, envKey).Rejected? ==> r == Rejected(MissingKeyMessage)
    ensures !JsText.AllSpace(currentPrompt) && ApiKey(userKey, envKey).Resolved? ==>
              match reply
              case Rejected(msg) => r == Rejected(msg)
              case Resolved(None) => r == Rejected(NoTextMessage)
              case Resolved(Some(text)) => r == Resolved(JsText.RemoveChars(JsText.Trim(text), Quotes))
  {
    // `!currentPrompt.trim()`, by `JsText.TrimSpec`.
    if JsText.AllSpace(currentPrompt) then Resolved(currentPrompt)
    else
      match ApiKey(userKey, envKey)
      case Rejected(msg) => Rejected(msg)
      case Resolved(_) =>
        match reply
        case Rejected(msg) => Rejected(msg)
        case Resolved(None) => Rejected(NoTextMessage)
        case Resolved(Some(text)) =>
          StripQuotesRemovesQuotes(text);
          Resolved(StripQuotes(text))
  }

  /** A blank prompt comes back as it is, whatever the keys and the reply. */
  lemma BlankPromptIgnoresKeyAndReply(currentPrompt: string, userKey: Option<string>, envKey: Option<string>,
                                      reply: Settled<Option<string>>)
    requires JsText.AllSpace(currentPrompt)
    ensures OptimizePrompt(currentPrompt, userKey, envKey, reply) == OptimizePrompt(currentPrompt, None, None, Rejected(""))
  {
  }

  // ---------------------------------------------------------------------
  // Image generation
  // ---------------------------------------------------------------------

  datatype InlineData = InlineData(data: string, mimeType: string)

  /** A part of a request or of a reply's content. */
  datatype Part = Part(inlineData: Option<InlineData>, text: Option<string>)

  /** A reply: the parts of each candidate's content. */
  datatype GenerateReply = GenerateReply(candidates: seq<seq<Part>>)

  /** The request the client sends (model parameters beyond these are fixed). */
  datatype ImageRequest = ImageRequest(model: string, parts: seq<Part>, aspectRatio: Option<AspectRatio>)

  /** The image model as the client reaches it: what `generateContent`
      settles to for each request. */
  type ImageService = ImageRequest -> Settled<GenerateReply>

  /** `data:${mimeType};base64,${base64ImageBytes}`: when neither the MIME
      type nor the payload holds a comma, `split(',')[1]` of it is the
      payload again. */
  function InlineDataUrl(d: InlineData): (url: string)
    ensures ',' !in d.mimeType && ',' !in d.data ==> JsText.SecondField(url, ',') == Some(d.data)
  {
    var h := "data:" + d.mimeType + ";base64";
    var url := "data:" + d.mimeType + ";base64," + d.data;
    assert url == h + [','] + d.data;
    if ',' in d.mimeType || ',' in d.data then url
    else
      JsText.FieldsOfJoin(h, d.data, ',');
      url
  }

  /** The `for…of` of both image calls: the data URL of the first part that
      carries inline data. */
  function FirstInlineImage(parts: seq<Part>): (r: Option<string>)
    ensures r.None? <==> forall i :: 0 <= i < |parts| ==> parts[i].inlineData.None?
    ensures r.Some? ==> exists i :: 0 <= i < |parts| && parts[i].inlineData.Some?
                          && (forall j :: 0 <= j < i ==> parts[j].inlineData.None?)
                          && r.value == InlineDataUrl(parts[i].inlineData.value)
    decreases |parts|
  {
    if parts == [] then None
    else if parts[0].inlineData.Some? then Some(InlineDataUrl(parts[0].inlineData.value))
    else
      var r := FirstInlineImage(parts[1..]);
      assert forall i :: 1 <= i < |parts| ==> parts[i] == parts[1..][i - 1];
      r
  }

  /** How both image calls read a reply. */
  function ImageFromReply(reply: Settled<GenerateReply>): (r: Settled<string>)
    ensures reply.Rejected? ==> r == Rejected(reply.message)
    ensures reply.Resolved? && reply.value.candidates == [] ==> r == Rejected(NoCandidateMessage)
    ensures reply.Resolved? && reply.value.candidates != [] ==>
              match FirstInlineImage(reply.value.candidates[0])
              case None => r == Rejected(NoImageMessage)
              case Some(url) => r == Resolved(url)
  {
    match reply
    case Rejected(msg) => Rejected(msg)
    case Resolved(response) =>
      if response.candidates == [] then Rejected(NoCandidateMessage)
      else
        match FirstInlineImage(response.candidates[0])
        case None => Rejected(NoImageMessage)
        case Some(url) => Resolved(url)
  }

  /** The request `textToImage` sends: the prompt as the only part, and the ratio. */
  function TextToImageRequest(prompt: string, aspectRatio: AspectRatio): (q: ImageRequest)
    ensures q.model == ImageModel && q.aspectRatio == Some(aspectRatio)
    ensures q.parts == [Part(None, Some(prompt))]
  {
    ImageRequest(ImageModel, [Part(None, Some(prompt))], Some(aspectRatio))
  }

  /** `textToImage` (services/geminiService.ts:47-73): the key check, then
      the reply the service gives to the text-to-image request. */
  function TextToImage(prompt: string, aspectRatio: AspectRatio, userKey: Option<string>, envKey: Option<string>,
                       service: ImageService): (r: Settled<string>)
    ensures ApiKey(userKey, envKey).Rejected? ==> r == Rejected(MissingKeyMessage)
    ensures ApiKey(userKey, envKey).Resolved? ==> r == ImageFromReply(service(TextToImageRequest(prompt, aspectRatio)))
  {
    match ApiKey(userKey, envKey)
    case Rejected(msg) => Rejected(msg)
    case Resolved(_) => ImageFromReply(service(TextToImageRequest(prompt, aspectRatio)))
  }

  /** The request `imageToImage` sends: the uploaded image's payload (absent,
      that is `undefined`, when its URL has no comma) and MIME type, then the
      prompt. */
  function ImageToImageRequest(prompt: string, image: UploadedImage): (q: ImageRequest)
    ensures q.model == ImageModel && q.aspectRatio == None
    ensures |q.parts| == 2 && q.parts[1] == Part(None, Some(prompt))
    ensures var d := JsText.SecondField(image.dataUrl, ',');
            q.parts[0] == Part(if d.Some? then Some(InlineData(d.value, image.mimeType)) else None, None)
  {
    var base64Data := JsText.SecondField(image.dataUrl, ',');
    var inline := if base64Data.Some? then Some(InlineData(base64Data.value, image.mimeType)) else None;
    ImageRequest(ImageModel, [Part(inline, None), Part(None, Some(prompt))], None)
  }

  /** `imageToImage` (services/geminiService.ts:75-108): the key check, then
      the reply the service gives to the image-to-image request. */
  function ImageToImage(prompt: string, image: UploadedImage, userKey: Option<string>, envKey: Option<string>,
                        service: ImageService): (r: Settled<string>)
    ensures ApiKey(userKey, envKey).Rejected? ==> r == Rejected(MissingKeyMessage)
    ensures ApiKey(userKey, envKey).Resolved? ==> r == ImageFromReply(service(ImageToImageRequest(prompt, image)))
  {
    match ApiKey(userKey, envKey)
    case Rejected(msg) => Rejected(msg)
    case Resolved(_) => ImageFromReply(service(ImageToImageRequest(prompt, image)))
  }

  /** An image generated by one call and handed to image-to-image travels
      with the payload the reply carried. */
  lemma ImageRoundTripsIntoRequest(prompt: string, d: InlineData)
    requires ',' !in d.mimeType && ',' !in d.data
    ensures ImageToImageRequest(prompt, UploadedImage(InlineDataUrl(d), d.mimeType)).parts[0]
         == Part(Some(d), None)
  {
  }

  /** Any uploaded URL of the form header,payload (what FileReader's
      `readAsDataURL` and a canvas's `toDataURL` write) reaches the service
      as that payload with the upload's own MIME type. */
  lemma UploadIntoRequest(prompt: string, header: string, payload: string, mimeType: string)
    requires ',' !in header && ',' !in payload
    ensures ImageToImageRequest(prompt, UploadedImage(header + "," + payload, mimeType)).parts[0]
         == Part(Some(InlineData(payload, mimeType)), None)
  {
    assert header + "," + payload == header + [','] + payload;
    JsText.FieldsOfJoin(header, payload, ',');
  }
}
