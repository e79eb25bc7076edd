/**
 * The two regular expressions of parser.ts as hand-written matchers.
 *
 * The parsing regex (parser.ts:26) is tried at a position and yields one of
 * five kinds of token, or nothing, in which case its global `exec` moves on
 * one character. The template regex (parser.ts:27) reads one template
 * fragment starting at a backtick or at the `}` that closes an
 * interpolation. JavaScript's `.` does not match a line terminator, and `$`
 * without the m flag is the end of the input.
 */
module Scanner {
  import opened Wrappers
  import opened Escapes

  /** What one match of the parsing regex found. */
  datatype Token =
    | Comment
    | Quoted(quote: char, body: string, closed: bool)
    | Backtick
    | Bracket(c: char)
    | CurlyKet

  /** A token and the index just past the matched text. */
  datatype Match = Match(token: Token, end: nat)

  // ---------------------------------------------------------------------
  // Comments: `\/\*[\s\S]*?(?:\*\/|$)` and `\/\/.*`
  // ---------------------------------------------------------------------

  /** The lazy body of a block comment from k: the first star-slash pair at or after k
      ends it, and without one it runs to the end of the input. */
  function BlockCommentEnd(s: string, k: nat): (e: nat)
    requires k <= |s|
    ensures k <= e <= |s|
    ensures e == |s| || (k + 2 <= e && s[e - 2] == '*' && s[e - 1] == '/')
    ensures forall j :: k <= j && j + 2 < e + 1 && j + 1 < |s| && s[j] == '*' && s[j + 1] == '/' ==> j + 2 == e
    decreases |s| - k
  {
    if k + 1 >= |s| then |s|
    else if s[k] == '*' && s[k + 1] == '/' then k + 2
    else BlockCommentEnd(s, k + 1)
  }

  /** A line comment from k runs up to the first line terminator, or to the end. */
  function LineCommentEnd(s: string, k: nat): (e: nat)
    requires k <= |s|
    ensures k <= e <= |s|
    ensures forall j :: k <= j < e ==> !IsLineTerminator(s[j])
    ensures e < |s| ==> IsLineTerminator(s[e])
    decreases |s| - k
  {
    if k == |s| || IsLineTerminator(s[k]) then k
    else LineCommentEnd(s, k + 1)
  }

  // ---------------------------------------------------------------------
  // Quoted literals: `(["'])((?:\\(?:\r\n|[^])|(?!\2).)*)(\2)?`
  // ---------------------------------------------------------------------

  /** The greedy body of a literal quoted by q, read from j: a backslash takes
      a following CR LF or any one character with it; any other character
      that is neither q nor a line terminator is taken alone. */
  function QuotedBodyEnd(s: string, q: char, j: nat): (e: nat)
    requires j <= |s|
    ensures j <= e <= |s|
    decreases |s| - j
  {
    if j == |s| then j
    else if s[j] == '\\' && j + 2 < |s| && s[j + 1] == '\r' && s[j + 2] == '\n' then QuotedBodyEnd(s, q, j + 3)
    else if s[j] == '\\' && j + 1 < |s| then QuotedBodyEnd(s, q, j + 2)
    else if s[j] != q && !IsLineTerminator(s[j]) then QuotedBodyEnd(s, q, j + 1)
    else j
  }

  /** s[lo..e] is the body of a literal quoted by q: every q and every line
      terminator in it is part of an escape, and what follows it (if anything)
      is a q or a line terminator that is not. */
  predicate QuotedBodyAt(s: string, q: char, lo: nat, e: nat)
    requires lo <= e <= |s|
  {
    && (forall k :: lo <= k < e ==> InQuotedBody(s, q, lo, k))
    && (e < |s| ==> !InQuotedBody(s, q, lo, e))
  }

  /** The character at k may stand inside a body that starts at lo: if it is q
      or a line terminator, it is part of an escape. */
  predicate InQuotedBody(s: string, q: char, lo: nat, k: nat)
    requires lo <= k < |s|
  {
    && (s[k] == q ==> Escaped(s, lo, k))
    && (IsLineTerminator(s[k]) ==> EscapedTerminator(s, lo, k))
  }

  /** s[lo..j] can start a literal body: every q and line terminator in it is
      part of an escape, it has no dangling backslash, and it does not end in
      an escaped CR whose LF would follow at j. */
  predicate QuotedPrefixOk(s: string, q: char, lo: nat, j: nat)
    requires lo <= j <= |s|
  {
    && BackslashRun(s, lo, j) % 2 == 0
    && (lo < j < |s| && s[j - 1] == '\r' && s[j] == '\n' ==> !Escaped(s, lo, j - 1))
    && (forall k :: lo <= k < j ==> InQuotedBody(s, q, lo, k))
  }

  /** Taking a backslash with a CR LF keeps the prefix well formed. */
  lemma QuotedPrefixContinuation(s: string, q: char, lo: nat, j: nat)
    requires lo <= j && j + 2 < |s| && s[j] == '\\' && s[j + 1] == '\r' && s[j + 2] == '\n'
    requires q != '\\' && !IsLineTerminator(q)
    requires QuotedPrefixOk(s, q, lo, j)
    ensures QuotedPrefixOk(s, q, lo, j + 3)
  {
    var n := BackslashRun(s, lo, j);
    assert BackslashRun(s, lo, j + 1) == n + 1;
    assert BackslashRun(s, lo, j + 2) == 0;
    assert BackslashRun(s, lo, j + 3) == 0;
    assert InQuotedBody(s, q, lo, j);
    assert InQuotedBody(s, q, lo, j + 1);
    assert InQuotedBody(s, q, lo, j + 2);
  }

  /** Taking a backslash with any other character keeps the prefix well formed. */
  lemma QuotedPrefixPair(s: string, q: char, lo: nat, j: nat)
    requires lo <= j && j + 1 < |s| && s[j] == '\\'
    requires !(j + 2 < |s| && s[j + 1] == '\r' && s[j + 2] == '\n')
    requires q != '\\' && !IsLineTerminator(q)
    requires QuotedPrefixOk(s, q, lo, j)
    ensures QuotedPrefixOk(s, q, lo, j + 2)
  {
    var n := BackslashRun(s, lo, j);
    assert BackslashRun(s, lo, j + 1) == n + 1;
    if s[j + 1] == '\\' {
      assert BackslashRun(s, lo, j + 2) == n + 2;
    } else {
      assert BackslashRun(s, lo, j + 2) == 0;
    }
    assert InQuotedBody(s, q, lo, j);
    assert InQuotedBody(s, q, lo, j + 1);
  }

  /** Taking a character that is neither a backslash, q nor a line terminator
      keeps the prefix well formed. */
  lemma QuotedPrefixSingle(s: string, q: char, lo: nat, j: nat)
    requires lo <= j < |s| && s[j] != '\\' && s[j] != q && !IsLineTerminator(s[j])
    requires QuotedPrefixOk(s, q, lo, j)
    ensures QuotedPrefixOk(s, q, lo, j + 1)
  {
    assert BackslashRun(s, lo, j + 1) == 0;
    assert InQuotedBody(s, q, lo, j);
  }

  /** The greedy scan stops exactly at the end of the literal body. */
  lemma {:induction false} QuotedBodyEndCorrect(s: string, q: char, lo: nat, j: nat)
    requires lo <= j <= |s| && q != '\\' && !IsLineTerminator(q)
    requires QuotedPrefixOk(s, q, lo, j)
    ensures QuotedBodyAt(s, q, lo, QuotedBodyEnd(s, q, j))
    decreases |s| - j, 1
  {
    if j == |s| {
    } else if s[j] == '\\' && j + 2 < |s| && s[j + 1] == '\r' && s[j + 2] == '\n' {
      QuotedBodyEndContinuation(s, q, lo, j);
    } else if s[j] == '\\' && j + 1 < |s| {
      QuotedBodyEndPair(s, q, lo, j);
    } else if s[j] != q && !IsLineTerminator(s[j]) {
      QuotedBodyEndSingle(s, q, lo, j);
    } else {
      assert QuotedBodyEnd(s, q, j) == j;
      assert !InQuotedBody(s, q, lo, j);
    }
  }

  /** The scan after a backslash with a CR LF. */
  lemma {:induction false} QuotedBodyEndContinuation(s: string, q: char, lo: nat, j: nat)
    requires lo <= j && j + 2 < |s| && s[j] == '\\' && s[j + 1] == '\r' && s[j + 2] == '\n'
    requires q != '\\' && !IsLineTerminator(q) && QuotedPrefixOk(s, q, lo, j)
    ensures QuotedBodyAt(s, q, lo, QuotedBodyEnd(s, q, j))
    decreases |s| - j, 0
  {
    QuotedPrefixContinuation(s, q, lo, j);
    QuotedBodyEndCorrect(s, q, lo, j + 3);
    assert QuotedBodyEnd(s, q, j) == QuotedBodyEnd(s, q, j + 3);
  }

  /** The scan after a backslash with any other character. */
  lemma {:induction false} QuotedBodyEndPair(s: string, q: char, lo: nat, j: nat)
    requires lo <= j && j + 1 < |s| && s[j] == '\\'
    requires !(j + 2 < |s| && s[j + 1] == '\r' && s[j + 2] == '\n')
    requires q != '\\' && !IsLineTerminator(q) && QuotedPrefixOk(s, q, lo, j)
    ensures QuotedBodyAt(s, q, lo, QuotedBodyEnd(s, q, j))
    decreases |s| - j, 0
  {
    QuotedPrefixPair(s, q, lo, j);
    QuotedBodyEndCorrect(s, q, lo, j + 2);
    assert QuotedBodyEnd(s, q, j) == QuotedBodyEnd(s, q, j + 2);
  }

  /** The scan after a character taken alone. */
  lemma {:induction false} QuotedBodyEndSingle(s: string, q: char, lo: nat, j: nat)
    requires lo <= j < |s| && s[j] != q && !IsLineTerminator(s[j])
    requires !(s[j] == '\\' && j + 1 < |s|)
    requires q != '\\' && !IsLineTerminator(q) && QuotedPrefixOk(s, q, lo, j)
    ensures QuotedBodyAt(s, q, lo, QuotedBodyEnd(s, q, j))
    decreases |s| - j, 0
  {
    if s[j] == '\\' {
      // a lone backslash as the last character is a body character of its own
      assert QuotedBodyEnd(s, q, j + 1) == |s|;
      assert InQuotedBody(s, q, lo, j);
    } else {
      QuotedPrefixSingle(s, q, lo, j);
      QuotedBodyEndCorrect(s, q, lo, j + 1);
    }
  }

  /** At most one end satisfies QuotedBodyAt: the stop character of a shorter
      body would have to be escaped inside a longer one. */
  lemma QuotedBodyAtUnique(s: string, q: char, lo: nat, e1: nat, e2: nat)
    requires lo <= e1 <= |s| && lo <= e2 <= |s| && !IsLineTerminator(q)
    requires QuotedBodyAt(s, q, lo, e1) && QuotedBodyAt(s, q, lo, e2)
    ensures e1 == e2
  {
  }

  /** A quoted literal: its body, whether the closing quote is there, and the
      index just past it. */
  datatype Literal = Literal(body: string, closed: bool, end: nat)

  /** The quoted literal opened at p. Its body runs to the first unescaped
      quote or line terminator, or to the end of the input; it is closed
      exactly when that stop is the opening quote, which is then part of the
      match. */
  function QuotedAt(s: string, p: nat): (l: Literal)
    requires p < |s| && (s[p] == '"' || s[p] == '\'')
    ensures p + 1 + |l.body| <= |s| && l.body == s[p + 1..p + 1 + |l.body|]
    ensures QuotedBodyAt(s, s[p], p + 1, p + 1 + |l.body|)
    ensures l.closed <==> p + 1 + |l.body| < |s| && s[p + 1 + |l.body|] == s[p]
    ensures l.end == p + 1 + |l.body| + (if l.closed then 1 else 0)
  {
    var e := QuotedBodyEnd(s, s[p], p + 1);
    QuotedBodyEndCorrect(s, s[p], p + 1, p + 1);
    var closed := e < |s| && s[e] == s[p];
    Literal(s[p + 1..e], closed, if closed then e + 1 else e)
  }

  // ---------------------------------------------------------------------
  // The parsing regex at one position
  // ---------------------------------------------------------------------

  /** The parsing regex tried at p, alternatives in order: a comment, a quoted
      literal, a backtick, a bracket other than `}`, a `}`. None when no
      alternative matches there. */
  function MatchAt(s: string, p: nat): (m: Option<Match>)
    requires p < |s|
    ensures m.Some? ==> p < m.value.end <= |s|
    ensures m.Some? && m.value.token.Comment? <==> s[p] == '/' && p + 1 < |s| && (s[p + 1] == '*' || s[p + 1] == '/')
    ensures m.Some? && m.value.token.Comment? ==>
      m.value.end == if s[p + 1] == '*' then BlockCommentEnd(s, p + 2) else LineCommentEnd(s, p + 2)
    ensures m.Some? && m.value.token.Quoted? <==> s[p] == '"' || s[p] == '\''
    ensures m.Some? && m.value.token.Quoted? ==>
      var l := QuotedAt(s, p);
      m.value == Match(Quoted(s[p], l.body, l.closed), l.end)
    ensures m.Some? && m.value.token.Backtick? <==> s[p] == '`'
    ensures m.Some? && m.value.token.Bracket? <==> s[p] in "()[]{"
    ensures m.Some? && m.value.token.Bracket? ==> m.value == Match(Bracket(s[p]), p + 1)
    ensures m.Some? && m.value.token.CurlyKet? <==> s[p] == '}'
    ensures m.Some? && !m.value.token.Comment? && !m.value.token.Quoted? ==> m.value.end == p + 1
  {
    var c := s[p];
    if c == '/' && p + 1 < |s| && s[p + 1] == '*' then
      Some(Match(Comment, BlockCommentEnd(s, p + 2)))
    else if c == '/' && p + 1 < |s| && s[p + 1] == '/' then
      Some(Match(Comment, LineCommentEnd(s, p + 2)))
    else if c == '"' || c == '\'' then
      var l := QuotedAt(s, p);
      Some(Match(Quoted(c, l.body, l.closed), l.end))
    else if c == '`' then
      Some(Match(Backtick, p + 1))
    else if c in "()[]{" then
      Some(Match(Bracket(c), p + 1))
    else if c == '}' then
      Some(Match(CurlyKet, p + 1))
    else
      None
  }

  // ---------------------------------------------------------------------
  // Template fragments: ([`}])((?:\\[^]|(?!\$\{)[^`])*)(`|\$\{)?
  // ---------------------------------------------------------------------

  /** `${` starts at k. */
  predicate DollarBraceAt(s: string, k: nat) {
    k + 1 < |s| && s[k] == '$' && s[k + 1] == '{'
  }

  /** The greedy body of a template fragment from j: a backslash takes any one
      character with it; any other character is taken unless it is a backtick
      or starts `${`. */
  function TemplateBodyEnd(s: string, j: nat): (e: nat)
    requires j <= |s|
    ensures j <= e <= |s|
    decreases |s| - j
  {
    if j == |s| then j
    else if s[j] == '\\' && j + 1 < |s| then TemplateBodyEnd(s, j + 2)
    else if s[j] != '`' && !DollarBraceAt(s, j) then TemplateBodyEnd(s, j + 1)
    else j
  }

  /** s[lo..e] is a template fragment body: every backtick and every `${` in
      it is escaped, and what follows it (if anything) is a backtick or a `${`
      that is not. */
  predicate TemplateBodyAt(s: string, lo: nat, e: nat)
    requires lo <= e <= |s|
  {
    && (forall k :: lo <= k < e && s[k] == '`' ==> Escaped(s, lo, k))
    && (forall k :: lo <= k < e && DollarBraceAt(s, k) ==> Escaped(s, lo, k))
    && (e < |s| ==> (s[e] == '`' || DollarBraceAt(s, e)) && !Escaped(s, lo, e))
  }

  /** Every backtick and every `${` in s[lo..j] is escaped, and s[lo..j] has no
      dangling backslash. */
  predicate TemplatePrefixOk(s: string, lo: nat, j: nat)
    requires lo <= j <= |s|
  {
    && BackslashRun(s, lo, j) % 2 == 0
    && (forall k :: lo <= k < j && s[k] == '`' ==> Escaped(s, lo, k))
    && (forall k :: lo <= k < j && DollarBraceAt(s, k) ==> Escaped(s, lo, k))
  }

  /** After a backslash pair, a backtick or `${` of the prefix is escaped. */
  lemma TemplatePairEscapes(s: string, lo: nat, j: nat, k: nat)
    requires lo <= j && j + 1 < |s| && s[j] == '\\'
    requires TemplatePrefixOk(s, lo, j)
    requires lo <= k < j + 2 && (s[k] == '`' || DollarBraceAt(s, k))
    ensures Escaped(s, lo, k)
  {
    if k == j + 1 {
      assert BackslashRun(s, lo, k) == BackslashRun(s, lo, j) + 1;
    }
  }

  /** A backslash pair after an even run of backslashes leaves an even run. */
  lemma PairKeepsRunEven(s: string, lo: nat, j: nat)
    requires lo <= j && j + 1 < |s| && s[j] == '\\' && BackslashRun(s, lo, j) % 2 == 0
    ensures BackslashRun(s, lo, j + 2) % 2 == 0
  {
    var n := BackslashRun(s, lo, j);
    assert BackslashRun(s, lo, j + 1) == n + 1;
    if s[j + 1] == '\\' {
      assert BackslashRun(s, lo, j + 2) == n + 2;
    } else {
      assert BackslashRun(s, lo, j + 2) == 0;
    }
  }

  /** Taking a backslash pair keeps the prefix well formed. */
  lemma TemplatePrefixPair(s: string, lo: nat, j: nat)
    requires lo <= j && j + 1 < |s| && s[j] == '\\'
    requires TemplatePrefixOk(s, lo, j)
    ensures TemplatePrefixOk(s, lo, j + 2)
  {
    PairKeepsRunEven(s, lo, j);
    forall k | lo <= k < j + 2 && s[k] == '`'
      ensures Escaped(s, lo, k)
    {
      TemplatePairEscapes(s, lo, j, k);
    }
    forall k | lo <= k < j + 2 && DollarBraceAt(s, k)
      ensures Escaped(s, lo, k)
    {
      TemplatePairEscapes(s, lo, j, k);
    }
  }

  /** Taking a single character other than a backtick or the start of `${`
      keeps the prefix well formed. */
  lemma TemplatePrefixSingle(s: string, lo: nat, j: nat)
    requires lo <= j < |s| && s[j] != '`' && !DollarBraceAt(s, j) && s[j] != '\\'
    requires TemplatePrefixOk(s, lo, j)
    ensures TemplatePrefixOk(s, lo, j + 1)
  {
    assert BackslashRun(s, lo, j + 1) == 0;
  }

  /** The greedy scan stops exactly at the end of the fragment body. */
  lemma {:induction false} TemplateBodyEndCorrect(s: string, lo: nat, j: nat)
    requires lo <= j <= |s|
    requires TemplatePrefixOk(s, lo, j)
    ensures TemplateBodyAt(s, lo, TemplateBodyEnd(s, j))
    decreases |s| - j, 1
  {
    if j == |s| {
    } else if s[j] == '\\' && j + 1 < |s| {
      TemplateBodyEndPair(s, lo, j);
    } else if s[j] != '`' && !DollarBraceAt(s, j) {
      TemplateBodyEndSingle(s, lo, j);
    }
  }

  /** The scan after a backslash pair. */
  lemma {:induction false} TemplateBodyEndPair(s: string, lo: nat, j: nat)
    requires lo <= j && j + 1 < |s| && s[j] == '\\'
    requires TemplatePrefixOk(s, lo, j)
    ensures TemplateBodyAt(s, lo, TemplateBodyEnd(s, j))
    decreases |s| - j, 0
  {
    TemplatePrefixPair(s, lo, j);
    TemplateBodyEndCorrect(s, lo, j + 2);
  }

  /** The scan after a character taken alone. */
  lemma {:induction false} TemplateBodyEndSingle(s: string, lo: nat, j: nat)
    requires lo <= j < |s| && s[j] != '`' && !DollarBraceAt(s, j)
    requires !(s[j] == '\\' && j + 1 < |s|)
    requires TemplatePrefixOk(s, lo, j)
    ensures TemplateBodyAt(s, lo, TemplateBodyEnd(s, j))
    decreases |s| - j, 0
  {
    if s[j] == '\\' {
      // a lone backslash as the last character is a body character of its own
      assert TemplateBodyEnd(s, j + 1) == |s|;
    } else {
      TemplatePrefixSingle(s, lo, j);
      TemplateBodyEndCorrect(s, lo, j + 1);
    }
  }

  /** At most one end satisfies TemplateBodyAt. */
  lemma TemplateBodyAtUnique(s: string, lo: nat, e1: nat, e2: nat)
    requires lo <= e1 <= |s| && lo <= e2 <= |s|
    requires TemplateBodyAt(s, lo, e1) && TemplateBodyAt(s, lo, e2)
    ensures e1 == e2
  {
  }

  /** One template fragment: its opening and closing delimiters, its body and
      the index just past it. */
  datatype Fragment = Fragment(opening: string, body: string, closing: string, end: nat)

  /** The template regex run at p, where a backtick or a `}` stands. Without a
      closing delimiter the fragment runs to the end of the input and its
      closing defaults to a backtick (parser.ts:112). */
  function TemplateAt(s: string, p: nat): (f: Fragment)
    requires p < |s| && (s[p] == '`' || s[p] == '}')
    ensures p < f.end <= |s|
    ensures f.opening == [s[p]]
    ensures f.closing == "`" || f.closing == "${"
    ensures p + 1 + |f.body| <= |s|
    ensures TemplateBodyAt(s, p + 1, p + 1 + |f.body|) && f.body == s[p + 1..p + 1 + |f.body|]
    ensures f.end == p + 1 + |f.body| + (if p + 1 + |f.body| == |s| then 0 else |f.closing|)
    ensures p + 1 + |f.body| < |s| ==> s[p + 1 + |f.body|..f.end] == f.closing
    ensures p + 1 + |f.body| == |s| ==> f.closing == "`"
  {
    var e := TemplateBodyEnd(s, p + 1);
    TemplateBodyEndCorrect(s, p + 1, p + 1);
    if e < |s| && s[e] == '`' then Fragment([s[p]], s[p + 1..e], "`", e + 1)
    else if e < |s| then Fragment([s[p]], s[p + 1..e], "${", e + 2)
    else Fragment([s[p]], s[p + 1..e], "`", e)
  }
}
