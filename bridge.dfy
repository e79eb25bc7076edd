/**
 * How the scanners of parser.ts and the rewrites of transform.ts fit
 * together: the body the parser reads from a closed literal is a valid body
 * of its kind, and a literal that transform writes from a valid body reads
 * back, through the same scanners, as one whole literal whose body is the
 * rewritten body.
 */
module Bridge {
  import opened Escapes
  import opened Scanner
  import opened EsQuotes
  import opened Transform
  import opened Parser

  /** Escapes in a string copied into s at offset lo read the same in s. */
  lemma OffsetEscaped(s: string, lo: nat, b: string, k: nat)
    requires lo + |b| <= |s| && s[lo..lo + |b|] == b && k <= |b|
    ensures Escaped(s, lo, lo + k) <==> Escaped(b, 0, k)
  {
    RunAtOffset(s, lo, b, k);
  }

  /** The kind of the quoted literal opened by q. */
  function QuotedKind(q: char): (t: StringType)
    requires q == '"' || q == '\''
    ensures t != Template && QuoteChar(t) == q
  {
    if q == '\'' then SingleQuoted else DoubleQuoted
  }

  /** A quote or line terminator in a literal body read from offset lo of s
      is escaped in the body on its own just as in s, where the scanner only
      let it through as part of an escape. */
  lemma QuotedBodyCharEscaped(s: string, q: char, lo: nat, b: string, k: nat)
    requires lo + |b| <= |s| && s[lo..lo + |b|] == b && QuotedBodyAt(s, q, lo, lo + |b|) && k < |b|
    ensures b[k] == q ==> Escaped(b, 0, k)
    ensures IsLineTerminator(b[k]) ==> EscapedTerminator(b, 0, k)
  {
    assert s[lo + k] == b[k];
    assert InQuotedBody(s, q, lo, lo + k);
    OffsetEscaped(s, lo, b, k);
    if 0 < k {
      assert s[lo + k - 1] == b[k - 1];
      OffsetEscaped(s, lo, b, k - 1);
    }
  }

  /** A literal body read from offset lo of s and closed by its quote is
      valid on its own. */
  lemma QuotedBodyValidAt(s: string, q: char, lo: nat, b: string)
    requires lo + |b| < |s| && s[lo..lo + |b|] == b && QuotedBodyAt(s, q, lo, lo + |b|) && s[lo + |b|] == q
    ensures AllEscaped(b, q) && TerminatorsEscaped(b) && NoDanglingEscape(b)
  {
    forall k | 0 <= k < |b| && b[k] == q
      ensures Escaped(b, 0, k)
    {
      QuotedBodyCharEscaped(s, q, lo, b, k);
    }
    forall k | 0 <= k < |b| && IsLineTerminator(b[k])
      ensures EscapedTerminator(b, 0, k)
    {
      QuotedBodyCharEscaped(s, q, lo, b, k);
    }
    assert !InQuotedBody(s, q, lo, lo + |b|);
    OffsetEscaped(s, lo, b, |b|);
  }

  /** The body of a closed quoted literal, as the parser reads it, is a valid
      body of its kind: every copy of its quote and every line terminator in
      it is escaped, and it does not end in a dangling backslash. */
  lemma ScannedQuotedBodyValid(s: string, p: nat)
    requires p < |s| && (s[p] == '"' || s[p] == '\'') && QuotedAt(s, p).closed
    ensures ValidBody(QuotedAt(s, p).body, QuotedKind(s[p]))
  {
    QuotedBodyValidAt(s, s[p], p + 1, QuotedAt(s, p).body);
  }

  /** A backtick or `${` in a fragment body read from offset lo of s is
      escaped in the body on its own just as in s. */
  lemma FragmentBodyCharEscaped(s: string, lo: nat, b: string, k: nat)
    requires lo + |b| <= |s| && s[lo..lo + |b|] == b && TemplateBodyAt(s, lo, lo + |b|) && k < |b|
    ensures b[k] == '`' ==> Escaped(b, 0, k)
    ensures k + 1 < |b| && b[k] == '$' && b[k + 1] == '{' ==> Escaped(b, 0, k)
  {
    assert s[lo + k] == b[k];
    if k + 1 < |b| {
      assert s[lo + k + 1] == b[k + 1];
    }
    OffsetEscaped(s, lo, b, k);
  }

  /** A fragment body read from offset lo of s and ended by a backtick or
      `${` is a valid template body on its own. */
  lemma FragmentBodyValidAt(s: string, lo: nat, b: string)
    requires lo + |b| < |s| && s[lo..lo + |b|] == b && TemplateBodyAt(s, lo, lo + |b|)
    ensures AllEscaped(b, '`') && DollarBracesEscaped(b) && NoDanglingEscape(b)
  {
    forall k | 0 <= k < |b| && b[k] == '`'
      ensures Escaped(b, 0, k)
    {
      FragmentBodyCharEscaped(s, lo, b, k);
    }
    forall k | 0 <= k < |b| - 1 && b[k] == '$' && b[k + 1] == '{'
      ensures Escaped(b, 0, k)
    {
      FragmentBodyCharEscaped(s, lo, b, k);
    }
    OffsetEscaped(s, lo, b, |b|);
  }

  /** The body of a template fragment that a backtick or `${` ends, as the
      parser reads it, is a valid template body. */
  lemma ScannedFragmentBodyValid(s: string, p: nat)
    requires p < |s| && (s[p] == '`' || s[p] == '}') && p + 1 + |TemplateAt(s, p).body| < |s|
    ensures ValidBody(TemplateAt(s, p).body, Template)
  {
    FragmentBodyValidAt(s, p + 1, TemplateAt(s, p).body);
  }

  /** wrapLiteral writes a one-character opening, the body from offset 1,
      and the closing after it. */
  lemma WrapLiteralParts(body: string, t: StringType, first: bool, last: bool)
    ensures var s := WrapLiteral(body, t, first, last); var close := Closing(t, last);
      && |s| == 1 + |body| + |close|
      && [s[0]] == Opening(t, first)
      && s[1..1 + |body|] == body
      && s[1 + |body|..] == close
  {
    var s := WrapLiteral(body, t, first, last);
    assert s[0] == s[..|Opening(t, first)|][0];
  }

  /** A character of a valid normal body placed at offset 1 of s may stand
      inside the body the scanner reads from there. */
  lemma ValidQuotedCharInBody(s: string, body: string, t: StringType, k: nat)
    requires t != Template && ValidBody(body, t)
    requires 1 + |body| <= |s| && s[1..1 + |body|] == body && 1 <= k < 1 + |body|
    ensures InQuotedBody(s, QuoteChar(t), 1, k)
  {
    var j := k - 1;
    assert s[k] == body[j];
    OffsetEscaped(s, 1, body, j);
    if 0 < j {
      assert s[k - 1] == body[j - 1];
      OffsetEscaped(s, 1, body, j - 1);
    }
  }

  /** A valid normal body wrapped in its quotes reads back as one closed
      literal with exactly that body. */
  lemma ValidQuotedRescans(body: string, t: StringType)
    requires t != Template && ValidBody(body, t)
    ensures var s := WrapLiteral(body, t); s[0] == QuoteChar(t) && QuotedAt(s, 0) == Literal(body, true, |s|)
  {
    WrapLiteralParts(body, t, true, true);
    var s := WrapLiteral(body, t);
    var q := QuoteChar(t);
    var e := 1 + |body|;
    assert s[e] == s[e..][0];
    forall k | 1 <= k < e
      ensures InQuotedBody(s, q, 1, k)
    {
      ValidQuotedCharInBody(s, body, t, k);
    }
    OffsetEscaped(s, 1, body, |body|);
    assert QuotedBodyAt(s, q, 1, e);
    var l := QuotedAt(s, 0);
    QuotedBodyAtUnique(s, q, 1, e, 1 + |l.body|);
  }

  /** A character of a valid template body placed at offset 1 of s is
      escaped there if it is a backtick or starts `${`. */
  lemma ValidTemplateCharEscaped(s: string, body: string, k: nat)
    requires ValidBody(body, Template)
    requires 1 + |body| <= |s| && s[1..1 + |body|] == body && 1 <= k < 1 + |body|
    requires s[k] == '`' || (k + 1 < 1 + |body| && DollarBraceAt(s, k))
    ensures Escaped(s, 1, k)
  {
    assert s[k] == body[k - 1];
    if k + 1 < 1 + |body| {
      assert s[k + 1] == body[k];
    }
    OffsetEscaped(s, 1, body, k - 1);
  }

  /** A valid template body at offset 1 of s, followed by a backtick or `${`,
      is exactly what the template regex takes as the fragment body. */
  lemma WrappedTemplateBodyAt(s: string, body: string, close: string)
    requires ValidBody(body, Template) && (close == "`" || close == "${")
    requires |s| == 1 + |body| + |close| && s[1..1 + |body|] == body && s[1 + |body|..] == close
    ensures TemplateBodyAt(s, 1, 1 + |body|)
  {
    var e := 1 + |body|;
    assert s[e] == close[0];
    forall k | 1 <= k < e && s[k] == '`'
      ensures Escaped(s, 1, k)
    {
      ValidTemplateCharEscaped(s, body, k);
    }
    forall k | 1 <= k < e && DollarBraceAt(s, k)
      ensures Escaped(s, 1, k)
    {
      assert k + 1 < e;
      ValidTemplateCharEscaped(s, body, k);
    }
    OffsetEscaped(s, 1, body, |body|);
    if close == "${" {
      assert s[e + 1] == close[1];
      assert DollarBraceAt(s, e);
    }
  }

  /** The template regex run on a valid template body between an opening
      character and a backtick or `${` reads exactly that body and closing. */
  lemma FragmentRescansAt(s: string, body: string, close: string)
    requires ValidBody(body, Template) && (close == "`" || close == "${")
    requires |s| == 1 + |body| + |close| && s[1..1 + |body|] == body && s[1 + |body|..] == close
    requires s[0] == '`' || s[0] == '}'
    ensures var f := TemplateAt(s, 0); f.body == body && f.closing == close && f.end == |s|
  {
    WrappedTemplateBodyAt(s, body, close);
    var f := TemplateAt(s, 0);
    TemplateBodyAtUnique(s, 1, 1 + |body|, 1 + |f.body|);
  }

  /** A valid template body wrapped in fragment delimiters reads back as one
      fragment with exactly that body and closing delimiter. */
  lemma ValidFragmentRescans(body: string, first: bool, last: bool)
    requires ValidBody(body, Template)
    ensures var s := WrapLiteral(body, Template, first, last);
      && (s[0] == '`' || s[0] == '}')
      && var f := TemplateAt(s, 0);
         f.body == body && f.closing == Closing(Template, last) && f.end == |s|
  {
    WrapLiteralParts(body, Template, first, last);
    FragmentRescansAt(WrapLiteral(body, Template, first, last), body, Closing(Template, last));
  }

  /** transform of a valid body writes a literal that the parser's scanners
      read back as one whole literal of the destination kind, whose body is
      the rewritten body. */
  lemma TransformRescans(body: string, from: StringType, to: StringType, first: bool, last: bool)
    requires ValidBody(body, from)
    requires from == Template && to != Template ==> NoStrayTerminators(body)
    ensures var r := Transform.Transform(body, from, to, first, last);
      && (to != Template ==>
            r[0] == QuoteChar(to) && QuotedAt(r, 0) == Literal(ConvertBody(body, from, to), true, |r|))
      && (to == Template ==>
            && (r[0] == '`' || r[0] == '}')
            && TemplateAt(r, 0).body == ConvertBody(body, from, to)
            && TemplateAt(r, 0).closing == Closing(to, last)
            && TemplateAt(r, 0).end == |r|)
  {
    ConvertBodyKeepsValid(body, from, to);
    if to == Template {
      ValidFragmentRescans(ConvertBody(body, from, to), first, last);
    } else {
      ValidQuotedRescans(ConvertBody(body, from, to), to);
    }
  }

  /** The target's range covers its opening, body and closing delimiter:
      the literal was complete in the source. */
  predicate Complete(t: Target)
    requires t.Body?
  {
    t.range.end - t.range.start == |t.opening| + |t.body| + |t.closing|
  }

  /** A complete body target of the parser holds a valid body of the kind
      read from its opening delimiter. */
  lemma ParsedBodyValid(s: string, t: Target)
    requires WellFormed(s, t) && Complete(t)
    ensures ValidBody(t.body, TypeOf(t))
  {
    var p := t.range.start;
    if s[p] == '"' || s[p] == '\'' {
      ScannedQuotedBodyValid(s, p);
    } else {
      ScannedFragmentBodyValid(s, p);
    }
  }

  /** Every complete literal and fragment parse records can be handed to
      transform as a valid body of its kind. */
  lemma ParseGivesValidBodies(source: string)
    ensures var bs := Bodies(ParseSpec(source));
      forall i :: 0 <= i < |bs| && bs[i].Body? && Complete(bs[i]) ==> ValidBody(bs[i].body, TypeOf(bs[i]))
  {
    ParseSpecProperties(source);
    var bs := Bodies(ParseSpec(source));
    forall i | 0 <= i < |bs| && bs[i].Body? && Complete(bs[i])
      ensures ValidBody(bs[i].body, TypeOf(bs[i]))
    {
      ParsedBodyValid(source, bs[i]);
    }
  }
}
