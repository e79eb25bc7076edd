/**
 * transform.ts: rewriting the body of a string literal when the literal
 * changes kind, then wrapping it in the new delimiters.
 *
 * Each rewrite of the source is one global `replace` over a regex of
 * alternatives. It is modelled as a left-to-right scan: at each position a
 * step function picks the first alternative that matches there and says how
 * many characters it consumes and what replaces them; a position where no
 * alternative matches copies one character.
 */
module Transform {
  import opened Escapes
  import opened EsQuotes

  /** Characters consumed by one step of a global replace, and their replacement. */
  datatype Piece = Piece(consumed: nat, replacement: string)

  /** The quote character of a normal (non-template) literal. */
  function QuoteChar(t: StringType): (q: char)
    requires t != Template
    ensures q == '\'' <==> t == SingleQuoted
    ensures q == '"' <==> t == DoubleQuoted
  {
    match t
    case SingleQuoted => '\''
    case DoubleQuoted => '"'
  }

  /** src and dst are the two different normal quotes. */
  predicate NormalQuotes(src: char, dst: char) {
    (src == '\'' && dst == '"') || (src == '"' && dst == '\'')
  }

  // ---------------------------------------------------------------------
  // Single to double and double to single (transform.ts:9-43)
  // ---------------------------------------------------------------------

  /** One step of `(\\src)|(dst)|\\[^]`: an escaped source quote loses its
      backslash, a bare destination quote gains one, any other escape pair is
      copied as a unit. */
  function RequoteStep(body: string, src: char, dst: char): (p: Piece)
    requires body != []
    ensures 1 <= p.consumed <= |body| && p.replacement != []
  {
    if |body| >= 2 && body[0] == '\\' && body[1] == src then Piece(2, [src])
    else if body[0] == dst then Piece(1, ['\\', dst])
    else if |body| >= 2 && body[0] == '\\' then Piece(2, body[..2])
    else Piece(1, [body[0]])
  }

  /** One requote step escapes every destination quote and no source quote
      of its output, and ends it in the same backslash run as what it
      consumed. */
  lemma RequoteStepEscapes(body: string, src: char, dst: char)
    requires body != [] && NormalQuotes(src, dst)
    ensures var p := RequoteStep(body, src, dst);
      var used := body[..p.consumed];
      var rep := p.replacement;
      && AllEscaped(rep, dst)
      && NoneEscaped(rep, src)
      && BackslashRun(rep, 0, |rep|) == BackslashRun(used, 0, |used|)
      && (p.consumed < |body| ==> NoDanglingEscape(used))
  {
    var p := RequoteStep(body, src, dst);
    var rep := p.replacement;
    if |body| >= 2 && body[0] == '\\' && body[1] == src {
      assert BackslashRun(body[..2], 0, 2) == 0;
    } else if body[0] == dst {
      assert BackslashRun(rep, 0, 1) == 1;
    } else if |body| >= 2 && body[0] == '\\' {
      assert BackslashRun(rep, 0, 1) == 1;
    }
  }

  /** One requote step keeps the line terminators after the first character
      of its output escaped, and copies a terminator at its head, or a
      consumed piece ending in an escaped CR, unchanged. */
  lemma RequoteStepTerminators(body: string, src: char, dst: char)
    requires body != [] && NormalQuotes(src, dst)
    ensures var p := RequoteStep(body, src, dst);
      var used := body[..p.consumed];
      var rep := p.replacement;
      && TerminatorsEscapedAfterFirst(rep)
      && (IsLineTerminator(rep[0]) ==> rep == used)
      && (used[|used| - 1] == '\r' && Escaped(used, 0, |used| - 1) ==> rep == used)
  {
    var p := RequoteStep(body, src, dst);
    var rep := p.replacement;
    if |body| >= 2 && body[0] == '\\' && body[1] == src {
    } else if body[0] == dst {
      assert BackslashRun(rep, 0, 1) == 1;
    } else if |body| >= 2 && body[0] == '\\' {
      assert BackslashRun(rep, 0, 1) == 1;
    }
  }

  /** The global replace of `(\\src)|(dst)|\\[^]`: one step, then the rest. */
  function Requote(body: string, src: char, dst: char): (r: string)
    ensures r == [] <==> body == []
    decreases |body|
  {
    if body == [] then []
    else
      var p := RequoteStep(body, src, dst);
      p.replacement + Requote(body[p.consumed..], src, dst)
  }

  /** One requote step followed by the requoted rest: the output's escapes
      are joined from the step's and the rest's. */
  lemma RequoteJoin(body: string, used: string, rest: string, rep: string, tail: string, src: char, dst: char)
    requires body == used + rest && (rest == [] ==> tail == [])
    requires AllEscaped(rep, dst) && NoneEscaped(rep, src)
    requires BackslashRun(rep, 0, |rep|) == BackslashRun(used, 0, |used|)
    requires rest != [] ==> NoDanglingEscape(used)
    requires AllEscaped(tail, dst) && NoneEscaped(tail, src)
    requires NoDanglingEscape(tail) <==> NoDanglingEscape(rest)
    ensures AllEscaped(rep + tail, dst) && NoneEscaped(rep + tail, src)
    ensures NoDanglingEscape(rep + tail) <==> NoDanglingEscape(body)
  {
    if rest == [] {
      assert used == body;
      assert rep + tail == rep;
    } else {
      ConcatAllEscaped(rep, tail, dst);
      ConcatNoneEscaped(rep, tail, src);
      ConcatNoDangling(rep, tail);
      ConcatNoDangling(used, rest);
    }
  }

  /** After requoting every destination quote is escaped and no source quote
      is, whatever the input; and the output ends in a dangling backslash
      exactly when the input does. */
  lemma {:induction false} RequoteEscapes(body: string, src: char, dst: char)
    requires NormalQuotes(src, dst)
    ensures var r := Requote(body, src, dst);
      && AllEscaped(r, dst) && NoneEscaped(r, src)
      && (NoDanglingEscape(r) <==> NoDanglingEscape(body))
    decreases |body|
  {
    if body != [] {
      var p := RequoteStep(body, src, dst);
      var rest := body[p.consumed..];
      RequoteEscapes(rest, src, dst);
      RequoteStepEscapes(body, src, dst);
      RequoteJoin(body, body[..p.consumed], rest, p.replacement, Requote(rest, src, dst), src, dst);
    }
  }

  /** transformSingleToDouble (transform.ts:9-25). */
  function SingleToDouble(body: string): (r: string)
    ensures AllEscaped(r, '"') && NoneEscaped(r, '\'')
    ensures NoDanglingEscape(r) <==> NoDanglingEscape(body)
    ensures TerminatorsEscaped(body) ==> TerminatorsEscaped(r)
  {
    RequoteEscapes(body, '\'', '"');
    RequoteKeepsTerminatorsEscaped(body, '\'', '"');
    Requote(body, '\'', '"')
  }

  /** transformDoubleToSingle (transform.ts:27-43). */
  function DoubleToSingle(body: string): (r: string)
    ensures AllEscaped(r, '\'') && NoneEscaped(r, '"')
    ensures NoDanglingEscape(r) <==> NoDanglingEscape(body)
    ensures TerminatorsEscaped(body) ==> TerminatorsEscaped(r)
  {
    RequoteEscapes(body, '"', '\'');
    RequoteKeepsTerminatorsEscaped(body, '"', '\'');
    Requote(body, '"', '\'')
  }

  /** Terminators after the first character of s are all part of an escape. */
  predicate TerminatorsEscapedAfterFirst(s: string) {
    forall k :: 0 < k < |s| && IsLineTerminator(s[k]) ==> EscapedTerminator(s, 0, k)
  }

  /** Dropping a prefix without a dangling escape keeps the property. */
  lemma SuffixTerminatorsEscapedAfterFirst(a: string, b: string)
    requires TerminatorsEscapedAfterFirst(a + b) && NoDanglingEscape(a) && |a| > 0
    ensures TerminatorsEscapedAfterFirst(b)
  {
    forall k | 0 < k < |b| && IsLineTerminator(b[k])
      ensures EscapedTerminator(b, 0, k)
    {
      assert (a + b)[|a| + k] == b[k];
      assert (a + b)[|a| + k - 1] == b[k - 1];
      EscapedAfterEvenPrefix(a, b, k);
      EscapedAfterEvenPrefix(a, b, k - 1);
    }
  }

  /** Joining two pieces, at one index: a terminator at the head of b is fine
      when it copies an LF that followed an escaped CR at the end of a. */
  lemma ConcatAfterFirstAt(a: string, b: string, k: nat)
    requires TerminatorsEscapedAfterFirst(a) && TerminatorsEscapedAfterFirst(b) && NoDanglingEscape(a)
    requires |a| > 0 && |b| > 0 && IsLineTerminator(b[0]) ==>
      b[0] == '\n' && a[|a| - 1] == '\r' && Escaped(a, 0, |a| - 1)
    requires 0 < k < |a + b| && IsLineTerminator((a + b)[k])
    ensures EscapedTerminator(a + b, 0, k)
  {
    EscapedInConcat(a, b, k);
    EscapedInConcat(a, b, k - 1);
    if k < |a| {
      assert a[k] == (a + b)[k] && a[k - 1] == (a + b)[k - 1];
    } else if k == |a| {
      assert b[0] == (a + b)[k] && a[k - 1] == (a + b)[k - 1];
    } else {
      assert b[k - |a|] == (a + b)[k] && b[k - |a| - 1] == (a + b)[k - 1];
    }
  }

  lemma ConcatTerminatorsEscapedAfterFirst(a: string, b: string)
    requires TerminatorsEscapedAfterFirst(a) && TerminatorsEscapedAfterFirst(b) && NoDanglingEscape(a)
    requires |a| > 0 && |b| > 0 && IsLineTerminator(b[0]) ==>
      b[0] == '\n' && a[|a| - 1] == '\r' && Escaped(a, 0, |a| - 1)
    ensures TerminatorsEscapedAfterFirst(a + b)
  {
    forall k | 0 < k < |a + b| && IsLineTerminator((a + b)[k])
      ensures EscapedTerminator(a + b, 0, k)
    {
      ConcatAfterFirstAt(a, b, k);
    }
  }

  /** In body, an LF right after a prefix without a dangling escape is part of
      an escape only as the LF of an escaped CR at the end of that prefix. */
  lemma JunctionTerminator(used: string, rest: string)
    requires NoDanglingEscape(used) && |used| > 0 && |rest| > 0
    requires IsLineTerminator(rest[0]) && EscapedTerminator(used + rest, 0, |used|)
    ensures rest[0] == '\n' && used[|used| - 1] == '\r' && Escaped(used, 0, |used| - 1)
  {
    assert (used + rest)[|used|] == rest[0];
    assert (used + rest)[|used| - 1] == used[|used| - 1];
    EscapedAfterEvenPrefix(used, rest, 0);
    RunOfPrefix(used, rest, 0, |used| - 1);
  }

  /** One requote step followed by the requoted rest keeps the terminators
      after the first character escaped. */
  lemma RequoteTerminatorsJoin(body: string, used: string, rest: string, rep: string, tail: string)
    requires body == used + rest && used != [] && rep != [] && (rest == [] ==> tail == [])
    requires TerminatorsEscapedAfterFirst(body) && TerminatorsEscapedAfterFirst(rep)
    requires BackslashRun(rep, 0, |rep|) == BackslashRun(used, 0, |used|)
    requires rest != [] ==> NoDanglingEscape(used)
    requires IsLineTerminator(rep[0]) ==> rep == used
    requires used[|used| - 1] == '\r' && Escaped(used, 0, |used| - 1) ==> rep == used
    requires rest != [] ==> TerminatorsEscapedAfterFirst(tail)
    requires rest != [] && |tail| > 0 && IsLineTerminator(tail[0]) ==> rest[0] == tail[0]
    ensures TerminatorsEscapedAfterFirst(rep + tail)
    ensures IsLineTerminator((rep + tail)[0]) ==> body[0] == (rep + tail)[0]
  {
    assert (rep + tail)[0] == rep[0];
    assert body[0] == used[0];
    if rest == [] {
      assert rep + tail == rep;
    } else {
      if |tail| > 0 && IsLineTerminator(tail[0]) {
        assert body[|used|] == rest[0];
        JunctionTerminator(used, rest);
      }
      ConcatTerminatorsEscapedAfterFirst(rep, tail);
    }
  }

  /** Requoting keeps every line terminator inside an escape. The clause on
      the first character carries the case of an escaped CR whose LF is
      copied by the next step. */
  lemma {:induction false} RequoteTerminators(body: string, src: char, dst: char)
    requires NormalQuotes(src, dst)
    requires TerminatorsEscapedAfterFirst(body)
    ensures var r := Requote(body, src, dst);
      && TerminatorsEscapedAfterFirst(r)
      && (|r| > 0 && IsLineTerminator(r[0]) ==> |body| > 0 && body[0] == r[0])
    decreases |body|
  {
    if body != [] {
      var p := RequoteStep(body, src, dst);
      var used := body[..p.consumed];
      var rest := body[p.consumed..];
      RequoteStepEscapes(body, src, dst);
      RequoteStepTerminators(body, src, dst);
      if rest != [] {
        assert body == used + rest;
        SuffixTerminatorsEscapedAfterFirst(used, rest);
        RequoteTerminators(rest, src, dst);
      }
      RequoteTerminatorsJoin(body, used, rest, p.replacement, Requote(rest, src, dst));
    }
  }

  /** Requoting a body whose line terminators are all escaped keeps them so. */
  lemma RequoteKeepsTerminatorsEscaped(body: string, src: char, dst: char)
    requires NormalQuotes(src, dst)
    ensures TerminatorsEscaped(body) ==> TerminatorsEscaped(Requote(body, src, dst))
  {
    if TerminatorsEscaped(body) {
      RequoteTerminators(body, src, dst);
      var r := Requote(body, src, dst);
      if |r| > 0 && IsLineTerminator(r[0]) {
        assert false;
      }
    }
  }

  /** The inverse step, run on the output of one step followed by anything,
      consumes exactly that output and gives back what the step consumed. */
  lemma InverseRequoteStep(body: string, src: char, dst: char, tail: string)
    requires body != [] && NormalQuotes(src, dst)
    requires AllEscaped(body, src) && NoneEscaped(body, dst)
    requires RequoteStep(body, src, dst).consumed == |body| ==> tail == []
    ensures var p := RequoteStep(body, src, dst);
      RequoteStep(p.replacement + tail, dst, src) == Piece(|p.replacement|, body[..p.consumed])
  {
    var p := RequoteStep(body, src, dst);
    var x := p.replacement + tail;
    if |body| >= 2 && body[0] == '\\' && body[1] == src {
      assert x[0] == src;
    } else if body[0] == dst {
      assert x[0] == '\\' && x[1] == dst;
    } else if |body| >= 2 && body[0] == '\\' {
      assert BackslashRun(body, 0, 1) == 1;
      assert x[0] == '\\' && x[1] == body[1];
    } else {
      assert BackslashRun(body, 0, 0) == 0;
      assert x[0] == body[0];
    }
  }

  /** Requoting back restores a body whose source quotes are all escaped and
      whose destination quotes are all bare. */
  lemma {:induction false} RequoteRoundTrip(body: string, src: char, dst: char)
    requires NormalQuotes(src, dst)
    requires AllEscaped(body, src) && NoneEscaped(body, dst)
    ensures Requote(Requote(body, src, dst), dst, src) == body
    decreases |body|
  {
    if body != [] {
      var p := RequoteStep(body, src, dst);
      var used := body[..p.consumed];
      var rest := body[p.consumed..];
      var rep := p.replacement;
      var tail := Requote(rest, src, dst);
      RequoteStepEscapes(body, src, dst);
      assert body == used + rest;
      if rest != [] {
        RequoteEscapes(rest, src, dst);
        SuffixAllEscaped(used, rest, src);
        SuffixNoneEscaped(used, rest, dst);
        RequoteRoundTrip(rest, src, dst);
      }
      InverseRequoteStep(body, src, dst, tail);
      var x := rep + tail;
      assert x[|rep|..] == tail;
      assert Requote(x, dst, src) == used + Requote(tail, dst, src);
    }
  }

  /** Double to single after single to double is the identity on a body
      with no bare `'` and no `\"`. */
  lemma SingleDoubleRoundTrip(body: string)
    requires AllEscaped(body, '\'') && NoneEscaped(body, '"')
    ensures DoubleToSingle(SingleToDouble(body)) == body
  {
    RequoteRoundTrip(body, '\'', '"');
  }

  /** Single to double after double to single is the identity on a body
      with no bare `"` and no `\'`. */
  lemma DoubleSingleRoundTrip(body: string)
    requires AllEscaped(body, '"') && NoneEscaped(body, '\'')
    ensures SingleToDouble(DoubleToSingle(body)) == body
  {
    RequoteRoundTrip(body, '"', '\'');
  }

  // ---------------------------------------------------------------------
  // Normal to template (transform.ts:45-67)
  // ---------------------------------------------------------------------

  /** One step of `(\\["'])|(`)|(\$\{)|(\\n\\\r?\n)|\\[^]`. */
  function NormalToTemplateStep(body: string): (p: Piece)
    requires body != []
    ensures 1 <= p.consumed <= |body| && p.replacement != []
  {
    if |body| >= 2 && body[0] == '\\' && (body[1] == '"' || body[1] == '\'') then
      Piece(2, [body[1]])
    else if body[0] == '`' then
      Piece(1, "\\`")
    else if |body| >= 2 && body[0] == '$' && body[1] == '{' then
      Piece(2, "\\${")
    else if |body| >= 4 && body[0] == '\\' && body[1] == 'n' && body[2] == '\\' && body[3] == '\n' then
      Piece(4, "\n")
    else if |body| >= 5 && body[0] == '\\' && body[1] == 'n' && body[2] == '\\' && body[3] == '\r' && body[4] == '\n' then
      Piece(5, "\n")
    else if |body| >= 2 && body[0] == '\\' then
      Piece(2, body[..2])
    else
      Piece(1, [body[0]])
  }

  /** transformNormalToTemplate (transform.ts:45-67). */
  function NormalToTemplate(body: string): (r: string)
    ensures r == [] <==> body == []
    decreases |body|
  {
    if body == [] then []
    else
      var p := NormalToTemplateStep(body);
      p.replacement + NormalToTemplate(body[p.consumed..])
  }

  /** One step leaves no bare backtick and no bare `${` in its output; its
      output starts with `{` only when the body does, and ends in a bare `$`
      only when the body does not go on with `{`. */
  lemma NormalToTemplateStepEscapes(body: string)
    requires body != []
    ensures var p := NormalToTemplateStep(body);
      var rep := p.replacement;
      && AllEscaped(rep, '`')
      && DollarBracesEscaped(rep)
      && (rep[0] == '{' ==> body[0] == '{')
      && (rep[|rep| - 1] == '$' && !Escaped(rep, 0, |rep| - 1) ==>
            p.consumed < |body| ==> body[p.consumed] != '{')
  {
    var p := NormalToTemplateStep(body);
    var rep := p.replacement;
    if |body| >= 2 && body[0] == '\\' && (body[1] == '"' || body[1] == '\'') {
    } else if body[0] == '`' {
      assert BackslashRun(rep, 0, 1) == 1;
    } else if |body| >= 2 && body[0] == '$' && body[1] == '{' {
      assert BackslashRun(rep, 0, 1) == 1;
    } else if |body| >= 4 && body[0] == '\\' && body[1] == 'n' && body[2] == '\\' && body[3] == '\n' {
    } else if |body| >= 5 && body[0] == '\\' && body[1] == 'n' && body[2] == '\\' && body[3] == '\r' && body[4] == '\n' {
    } else if |body| >= 2 && body[0] == '\\' {
      assert BackslashRun(rep, 0, 1) == 1;
    }
  }

  /** One step ends its output in the same backslash run as what it consumed. */
  lemma NormalToTemplateStepBackslashes(body: string)
    requires body != []
    ensures var p := NormalToTemplateStep(body);
      var used := body[..p.consumed];
      var rep := p.replacement;
      && BackslashRun(rep, 0, |rep|) == BackslashRun(used, 0, |used|)
      && (p.consumed < |body| ==> NoDanglingEscape(used))
  {
    var p := NormalToTemplateStep(body);
    var rep := p.replacement;
    if |body| >= 2 && body[0] == '\\' && (body[1] == '"' || body[1] == '\'') {
      assert BackslashRun(body[..2], 0, 2) == 0;
    } else if body[0] == '`' {
    } else if |body| >= 2 && body[0] == '$' && body[1] == '{' {
    } else if |body| >= 4 && body[0] == '\\' && body[1] == 'n' && body[2] == '\\' && body[3] == '\n' {
      assert BackslashRun(body[..4], 0, 4) == 0;
    } else if |body| >= 5 && body[0] == '\\' && body[1] == 'n' && body[2] == '\\' && body[3] == '\r' && body[4] == '\n' {
      assert BackslashRun(body[..5], 0, 5) == 0;
    } else if |body| >= 2 && body[0] == '\\' {
    }
  }

  /** One step followed by the converted rest: the output's escapes are
      joined from the step's and the rest's. */
  lemma NormalToTemplateJoin(body: string, used: string, rest: string, rep: string, tail: string)
    requires body == used + rest && used != [] && rep != [] && (rest == [] ==> tail == [])
    requires AllEscaped(rep, '`') && DollarBracesEscaped(rep)
    requires BackslashRun(rep, 0, |rep|) == BackslashRun(used, 0, |used|)
    requires rest != [] ==> NoDanglingEscape(used)
    requires rep[0] == '{' ==> body[0] == '{'
    requires rep[|rep| - 1] == '$' && !Escaped(rep, 0, |rep| - 1) && rest != [] ==> rest[0] != '{'
    requires AllEscaped(tail, '`') && DollarBracesEscaped(tail)
    requires NoDanglingEscape(tail) <==> NoDanglingEscape(rest)
    requires rest != [] && |tail| > 0 && tail[0] == '{' ==> rest[0] == '{'
    ensures AllEscaped(rep + tail, '`') && DollarBracesEscaped(rep + tail)
    ensures NoDanglingEscape(rep + tail) <==> NoDanglingEscape(body)
    ensures (rep + tail)[0] == '{' ==> body[0] == '{'
  {
    assert (rep + tail)[0] == rep[0];
    if rest == [] {
      assert used == body;
      assert rep + tail == rep;
    } else {
      ConcatAllEscaped(rep, tail, '`');
      ConcatDollarBracesEscaped(rep, tail);
      ConcatNoDangling(rep, tail);
      ConcatNoDangling(used, rest);
    }
  }

  /** After normal to template no backtick is bare and no `${` opens an
      interpolation; the output ends in a dangling backslash exactly when the
      input does. */
  lemma {:induction false} NormalToTemplateEscapes(body: string)
    ensures var r := NormalToTemplate(body);
      && AllEscaped(r, '`') && DollarBracesEscaped(r)
      && (NoDanglingEscape(r) <==> NoDanglingEscape(body))
      && (|r| > 0 && r[0] == '{' ==> body[0] == '{')
    decreases |body|
  {
    if body != [] {
      var p := NormalToTemplateStep(body);
      var rest := body[p.consumed..];
      NormalToTemplateEscapes(rest);
      NormalToTemplateStepEscapes(body);
      NormalToTemplateStepBackslashes(body);
      if rest != [] {
        assert rest[0] == body[p.consumed];
      }
      NormalToTemplateJoin(body, body[..p.consumed], rest, p.replacement, NormalToTemplate(rest));
    }
  }

  // ---------------------------------------------------------------------
  // Template to normal (transform.ts:69-101)
  // ---------------------------------------------------------------------

  /** One step of `(\\`)|(\\\$\\?\{|\$\\\{)|(["'])|(\r?\n)|\\(?:\r\n|[^])`; a bare
      quote is escaped only when it is the quote of the destination kind. */
  function TemplateToNormalStep(body: string, t: StringType): (p: Piece)
    requires body != []
    ensures 1 <= p.consumed <= |body| && p.replacement != []
  {
    if |body| >= 2 && body[0] == '\\' && body[1] == '`' then
      Piece(2, "`")
    else if |body| >= 4 && body[0] == '\\' && body[1] == '$' && body[2] == '\\' && body[3] == '{' then
      Piece(4, "${")
    else if |body| >= 3 && body[0] == '\\' && body[1] == '$' && body[2] == '{' then
      Piece(3, "${")
    else if |body| >= 3 && body[0] == '$' && body[1] == '\\' && body[2] == '{' then
      Piece(3, "${")
    else if body[0] == '"' then
      Piece(1, if t == DoubleQuoted then "\\\"" else "\"")
    else if body[0] == '\'' then
      Piece(1, if t == SingleQuoted then "\\'" else "'")
    else if |body| >= 2 && body[0] == '\r' && body[1] == '\n' then
      Piece(2, "\\n\\\r\n")
    else if body[0] == '\n' then
      Piece(1, "\\n\\\n")
    else if |body| >= 3 && body[0] == '\\' && body[1] == '\r' && body[2] == '\n' then
      Piece(3, body[..3])
    else if |body| >= 2 && body[0] == '\\' then
      Piece(2, body[..2])
    else
      Piece(1, [body[0]])
  }

  /** transformTemplateToNormal (transform.ts:69-101). */
  function TemplateToNormal(body: string, t: StringType): (r: string)
    ensures r == [] <==> body == []
    decreases |body|
  {
    if body == [] then []
    else
      var p := TemplateToNormalStep(body, t);
      p.replacement + TemplateToNormal(body[p.consumed..], t)
  }

  /** One step escapes every quote of the destination kind in its output. */
  lemma TemplateToNormalStepQuotes(body: string, t: StringType)
    requires body != [] && t != Template
    ensures AllEscaped(TemplateToNormalStep(body, t).replacement, QuoteChar(t))
  {
    var rep := TemplateToNormalStep(body, t).replacement;
    var q := QuoteChar(t);
    if |body| >= 2 && body[0] == '\\' && body[1] == '`' {
    } else if |body| >= 4 && body[0] == '\\' && body[1] == '$' && body[2] == '\\' && body[3] == '{' {
    } else if |body| >= 3 && body[0] == '\\' && body[1] == '$' && body[2] == '{' {
    } else if |body| >= 3 && body[0] == '$' && body[1] == '\\' && body[2] == '{' {
    } else if body[0] == '"' || body[0] == '\'' {
      if |rep| == 2 { assert BackslashRun(rep, 0, 1) == 1; }
    } else if |body| >= 2 && body[0] == '\r' && body[1] == '\n' {
    } else if body[0] == '\n' {
    } else if |body| >= 3 && body[0] == '\\' && body[1] == '\r' && body[2] == '\n' {
    } else if |body| >= 2 && body[0] == '\\' {
      assert BackslashRun(rep, 0, 1) == 1;
    } else {
      assert rep == [body[0]] && body[0] != q;
    }
  }

  /** One step ends its output in the same backslash run as what it consumed. */
  lemma TemplateToNormalStepBackslashes(body: string, t: StringType)
    requires body != [] && t != Template
    ensures var p := TemplateToNormalStep(body, t);
      var used := body[..p.consumed];
      && BackslashRun(p.replacement, 0, |p.replacement|) == BackslashRun(used, 0, |used|)
      && (p.consumed < |body| ==> NoDanglingEscape(used))
  {
    var p := TemplateToNormalStep(body, t);
    var rep := p.replacement;
    if |body| >= 2 && body[0] == '\\' && body[1] == '`' {
      assert BackslashRun(body[..2], 0, 2) == 0;
    } else if |body| >= 4 && body[0] == '\\' && body[1] == '$' && body[2] == '\\' && body[3] == '{' {
      assert BackslashRun(body[..4], 0, 4) == 0;
    } else if |body| >= 3 && body[0] == '\\' && body[1] == '$' && body[2] == '{' {
      assert BackslashRun(body[..3], 0, 3) == 0;
    } else if |body| >= 3 && body[0] == '$' && body[1] == '\\' && body[2] == '{' {
      assert BackslashRun(body[..3], 0, 3) == 0;
    } else if body[0] == '"' || body[0] == '\'' {
    } else if |body| >= 2 && body[0] == '\r' && body[1] == '\n' {
      assert BackslashRun(body[..2], 0, 2) == 0;
    } else if body[0] == '\n' {
    } else if |body| >= 3 && body[0] == '\\' && body[1] == '\r' && body[2] == '\n' {
      assert BackslashRun(rep, 0, 3) == 0;
    } else if |body| >= 2 && body[0] == '\\' {
    }
  }

  /** The two line continuations template to normal writes keep their
      line terminators escaped. */
  lemma ContinuationTerminators(rep: string)
    requires rep == "\\n\\\r\n" || rep == "\\n\\\n"
    ensures TerminatorsEscaped(rep)
  {
    assert BackslashRun(rep, 0, 3) == 1;
  }

  /** An escape pair, or an escaped CR LF, keeps its line terminators escaped. */
  lemma EscapeTerminators(rep: string)
    requires (|rep| == 2 && rep[0] == '\\') || rep == "\\\r\n"
    ensures TerminatorsEscaped(rep)
  {
    assert BackslashRun(rep, 0, 1) == 1;
  }

  /** One step keeps every line terminator of its output inside an escape,
      unless the body starts with a stray terminator, which is copied raw. */
  lemma TemplateToNormalStepTerminators(body: string, t: StringType)
    requires body != [] && t != Template
    requires !IsStrayTerminator(body, 0)
    ensures TerminatorsEscaped(TemplateToNormalStep(body, t).replacement)
  {
    var rep := TemplateToNormalStep(body, t).replacement;
    if |body| >= 2 && body[0] == '\\' && body[1] == '`' {
    } else if |body| >= 4 && body[0] == '\\' && body[1] == '$' && body[2] == '\\' && body[3] == '{' {
    } else if |body| >= 3 && body[0] == '\\' && body[1] == '$' && body[2] == '{' {
    } else if |body| >= 3 && body[0] == '$' && body[1] == '\\' && body[2] == '{' {
    } else if body[0] == '"' || body[0] == '\'' {
    } else if |body| >= 2 && body[0] == '\r' && body[1] == '\n' {
      ContinuationTerminators(rep);
    } else if body[0] == '\n' {
      ContinuationTerminators(rep);
    } else if |body| >= 3 && body[0] == '\\' && body[1] == '\r' && body[2] == '\n' {
      assert rep == body[..3];
      EscapeTerminators(rep);
    } else if |body| >= 2 && body[0] == '\\' {
      EscapeTerminators(rep);
    } else {
      assert rep == [body[0]] && !IsLineTerminator(body[0]);
    }
  }

  /** One step followed by the converted rest: the output's escapes are
      joined from the step's and the rest's. */
  lemma TemplateToNormalJoin(body: string, used: string, rest: string, rep: string, tail: string, q: char)
    requires body == used + rest && (rest == [] ==> tail == [])
    requires AllEscaped(rep, q)
    requires BackslashRun(rep, 0, |rep|) == BackslashRun(used, 0, |used|)
    requires rest != [] ==> NoDanglingEscape(used)
    requires AllEscaped(tail, q) && (NoDanglingEscape(tail) <==> NoDanglingEscape(rest))
    ensures AllEscaped(rep + tail, q)
    ensures NoDanglingEscape(rep + tail) <==> NoDanglingEscape(body)
  {
    if rest == [] {
      assert used == body;
      assert rep + tail == rep;
    } else {
      ConcatAllEscaped(rep, tail, q);
      ConcatNoDangling(rep, tail);
      ConcatNoDangling(used, rest);
    }
  }

  /** After template to normal every quote of the destination kind is
      escaped; the output ends in a dangling backslash exactly when the input
      does. */
  lemma {:induction false} TemplateToNormalEscapes(body: string, t: StringType)
    requires t != Template
    ensures var r := TemplateToNormal(body, t);
      && AllEscaped(r, QuoteChar(t))
      && (NoDanglingEscape(r) <==> NoDanglingEscape(body))
    decreases |body|
  {
    if body != [] {
      var p := TemplateToNormalStep(body, t);
      var rest := body[p.consumed..];
      TemplateToNormalEscapes(rest, t);
      TemplateToNormalStepQuotes(body, t);
      TemplateToNormalStepBackslashes(body, t);
      TemplateToNormalJoin(body, body[..p.consumed], rest, p.replacement, TemplateToNormal(rest, t), QuoteChar(t));
    }
  }

  /** One step followed by the converted rest keeps every line terminator
      escaped. */
  lemma TemplateToNormalTerminatorsJoin(body: string, used: string, rest: string, rep: string, tail: string)
    requires body == used + rest && (rest == [] ==> tail == [])
    requires BackslashRun(rep, 0, |rep|) == BackslashRun(used, 0, |used|)
    requires rest != [] ==> NoDanglingEscape(used)
    requires TerminatorsEscaped(rep) && NoStrayTerminators(body)
    requires NoStrayTerminators(rest) ==> TerminatorsEscaped(tail)
    ensures TerminatorsEscaped(rep + tail)
  {
    if rest == [] {
      assert rep + tail == rep;
    } else {
      SuffixNoStrayTerminators(used, rest);
      ConcatTerminatorsEscaped(rep, tail);
    }
  }

  /** When the template body holds no stray terminator, every line
      terminator of the output of template to normal is escaped. */
  lemma {:induction false} TemplateToNormalTerminators(body: string, t: StringType)
    requires t != Template && NoStrayTerminators(body)
    ensures TerminatorsEscaped(TemplateToNormal(body, t))
    decreases |body|
  {
    if body != [] {
      var p := TemplateToNormalStep(body, t);
      var used := body[..p.consumed];
      var rest := body[p.consumed..];
      assert body == used + rest;
      if rest != [] {
        SuffixNoStrayTerminators(used, rest);
        TemplateToNormalTerminators(rest, t);
      }
      TemplateToNormalStepBackslashes(body, t);
      TemplateToNormalStepTerminators(body, t);
      TemplateToNormalTerminatorsJoin(body, used, rest, p.replacement, TemplateToNormal(rest, t));
    }
  }

  // ---------------------------------------------------------------------
  // transform and wrapLiteral (transform.ts:103-145)
  // ---------------------------------------------------------------------

  /** The opening delimiter wrapLiteral writes. */
  function Opening(t: StringType, first: bool): (o: string)
    ensures |o| == 1
  {
    match t
    case SingleQuoted => "'"
    case DoubleQuoted => "\""
    case Template => if first then "`" else "}"
  }

  /** The closing delimiter wrapLiteral writes. */
  function Closing(t: StringType, last: bool): string {
    match t
    case SingleQuoted => "'"
    case DoubleQuoted => "\""
    case Template => if last then "`" else "${"
  }

  /** wrapLiteral (transform.ts:129-145): the result splits into the opening
      delimiter, the body unchanged, and the closing delimiter. */
  function WrapLiteral(body: string, t: StringType, first: bool := true, last: bool := true): (r: string)
    ensures |r| == |Opening(t, first)| + |body| + |Closing(t, last)|
    ensures r[..|Opening(t, first)|] == Opening(t, first)
    ensures r[|Opening(t, first)|..|r| - |Closing(t, last)|] == body
    ensures r[|r| - |Closing(t, last)|..] == Closing(t, last)
  {
    match t
    case SingleQuoted => "'" + body + "'"
    case DoubleQuoted => "\"" + body + "\""
    case Template => (if first then "`" else "}") + body + (if last then "`" else "${")
  }

  /** The body rewrite chosen by the if-chain of transform (transform.ts:110-124). */
  function ConvertBody(body: string, from: StringType, to: StringType): (r: string)
    ensures from == to ==> r == body
  {
    if from == to then body
    else if from == Template then TemplateToNormal(body, to)
    else if to == Template then NormalToTemplate(body)
    else if from == DoubleQuoted then DoubleToSingle(body)
    else SingleToDouble(body)
  }

  /** transform (transform.ts:103-127). With equal kinds the body is untouched
      and only wrapped. */
  function Transform(body: string, from: StringType, to: StringType,
                     first: bool := true, last: bool := true): (r: string)
    ensures from == to ==> r == WrapLiteral(body, to, first, last)
  {
    WrapLiteral(ConvertBody(body, from, to), to, first, last)
  }

  /** The body of a literal of kind t as the parser reads one whole: no bare
      delimiter inside, no unescaped line terminator in a normal literal, no
      `${` in a template, and no backslash left to escape the closing
      delimiter. */
  predicate ValidBody(b: string, t: StringType) {
    && NoDanglingEscape(b)
    && (if t == Template then AllEscaped(b, '`') && DollarBracesEscaped(b)
        else AllEscaped(b, QuoteChar(t)) && TerminatorsEscaped(b))
  }

  /** Converting a valid body gives a valid body of the destination kind. A
      template body must hold no stray terminator (U+2028, U+2029 or a CR
      without LF), which template to normal copies raw. */
  lemma ConvertBodyKeepsValid(body: string, from: StringType, to: StringType)
    requires ValidBody(body, from)
    requires from == Template && to != Template ==> NoStrayTerminators(body)
    ensures ValidBody(ConvertBody(body, from, to), to)
  {
    if from == to {
    } else if from == Template {
      TemplateToNormalEscapes(body, to);
      TemplateToNormalTerminators(body, to);
    } else if to == Template {
      NormalToTemplateEscapes(body);
    }
  }

  /** transform turns a valid body of one kind into a literal of the other
      whose inner text is a valid body of that kind. */
  lemma TransformGivesValidLiteral(body: string, from: StringType, to: StringType, first: bool, last: bool)
    requires ValidBody(body, from)
    requires from == Template && to != Template ==> NoStrayTerminators(body)
    ensures var r := Transform(body, from, to, first, last);
      ValidBody(r[|Opening(to, first)|..|r| - |Closing(to, last)|], to)
  {
    ConvertBodyKeepsValid(body, from, to);
  }
}
