/**
 * Escapes: the notion of "escaped by a backslash" shared by the scanner of
 * parser.ts and the rewrites of transform.ts. A character is escaped when an
 * odd number of backslashes stands right before it. This is the reference
 * meaning: the scanners and rewrites are proved to agree with it.
 */
module Escapes {

  /** The characters JavaScript's `.` does not match. */
  predicate IsLineTerminator(c: char) {
    c == '\n' || c == '\r' || c == '\U{2028}' || c == '\U{2029}'
  }

  /** Number of backslashes immediately before index k, not looking below lo. */
  function BackslashRun(s: string, lo: nat, k: nat): (n: nat)
    requires lo <= k <= |s|
    ensures n <= k - lo
    ensures forall j :: k - n <= j < k ==> s[j] == '\\'
    decreases k
  {
    if k == lo || s[k - 1] != '\\' then 0 else 1 + BackslashRun(s, lo, k - 1)
  }

  /** The run BackslashRun counts is maximal: the character before it, if
      any at or above lo, is not a backslash. */
  lemma {:induction false} BackslashRunStops(s: string, lo: nat, k: nat)
    requires lo <= k <= |s|
    ensures var n := BackslashRun(s, lo, k); lo < k - n ==> s[k - n - 1] != '\\'
    decreases k
  {
    if k > lo && s[k - 1] == '\\' {
      BackslashRunStops(s, lo, k - 1);
    }
  }

  /** The character at k (or the delimiter that would follow at k == |s|) is escaped. */
  predicate Escaped(s: string, lo: nat, k: nat)
    requires lo <= k <= |s|
  {
    BackslashRun(s, lo, k) % 2 == 1
  }

  /** A line terminator at k is part of an escape: escaped itself, or the LF of
      an escaped CR LF pair (a line continuation written with CR LF). */
  predicate EscapedTerminator(s: string, lo: nat, k: nat)
    requires lo <= k < |s|
  {
    Escaped(s, lo, k) || (s[k] == '\n' && lo < k && s[k - 1] == '\r' && Escaped(s, lo, k - 1))
  }

  /** Every occurrence of c in s is escaped. */
  predicate AllEscaped(s: string, c: char) {
    forall k :: 0 <= k < |s| && s[k] == c ==> Escaped(s, 0, k)
  }

  /** s does not end in an unfinished escape, so a delimiter placed after it stays unescaped. */
  predicate NoDanglingEscape(s: string) {
    !Escaped(s, 0, |s|)
  }

  /** Every line terminator of s is part of an escape. */
  predicate TerminatorsEscaped(s: string) {
    forall k :: 0 <= k < |s| && IsLineTerminator(s[k]) ==> EscapedTerminator(s, 0, k)
  }

  lemma {:induction false} RunOfPrefix(a: string, b: string, lo: nat, k: nat)
    requires lo <= k <= |a|
    ensures BackslashRun(a + b, lo, k) == BackslashRun(a, lo, k)
    decreases k
  {
    if k > lo {
      assert (a + b)[k - 1] == a[k - 1];
      if a[k - 1] == '\\' {
        RunOfPrefix(a, b, lo, k - 1);
      }
    }
  }

  lemma {:induction false} RunAfterPrefix(a: string, b: string, k: nat)
    requires k <= |b|
    ensures BackslashRun(a + b, 0, |a| + k) ==
            if BackslashRun(b, 0, k) == k then k + BackslashRun(a, 0, |a|) else BackslashRun(b, 0, k)
    decreases k
  {
    if k == 0 {
      RunOfPrefix(a, b, 0, |a|);
    } else {
      assert (a + b)[|a| + k - 1] == b[k - 1];
      if b[k - 1] == '\\' {
        RunAfterPrefix(a, b, k - 1);
      }
    }
  }

  /** After a prefix that ends in an even run of backslashes, escaping in the
      remainder reads the same as in the remainder alone. */
  lemma EscapedAfterEvenPrefix(a: string, b: string, k: nat)
    requires k <= |b|
    requires NoDanglingEscape(a)
    ensures Escaped(a + b, 0, |a| + k) <==> Escaped(b, 0, k)
  {
    RunAfterPrefix(a, b, k);
  }

  /** A string embedded at offset lo reads its escapes as on its own. */
  lemma {:induction false} RunAtOffset(s: string, lo: nat, b: string, k: nat)
    requires lo + |b| <= |s| && s[lo..lo + |b|] == b
    requires k <= |b|
    ensures BackslashRun(s, lo, lo + k) == BackslashRun(b, 0, k)
    decreases k
  {
    if k > 0 {
      assert s[lo + k - 1] == s[lo..lo + |b|][k - 1];
      RunAtOffset(s, lo, b, k - 1);
    }
  }

  /** Every occurrence of c in s is unescaped. */
  predicate NoneEscaped(s: string, c: char) {
    forall k :: 0 <= k < |s| && s[k] == c ==> !Escaped(s, 0, k)
  }

  /** Every `$` directly followed by `{` is escaped, so s never opens an interpolation. */
  predicate DollarBracesEscaped(s: string) {
    forall k :: 0 <= k < |s| - 1 && s[k] == '$' && s[k + 1] == '{' ==> Escaped(s, 0, k)
  }

  /** Escapes in a + b read as in a up to the end of a, and as in b from
      there on, when a does not end in a dangling backslash. */
  lemma EscapedInConcat(a: string, b: string, k: nat)
    requires k <= |a| + |b| && NoDanglingEscape(a)
    ensures k <= |a| ==> (Escaped(a + b, 0, k) <==> Escaped(a, 0, k))
    ensures k >= |a| ==> (Escaped(a + b, 0, k) <==> Escaped(b, 0, k - |a|))
  {
    if k <= |a| {
      RunOfPrefix(a, b, 0, k);
    } else {
      EscapedAfterEvenPrefix(a, b, k - |a|);
    }
  }

  lemma ConcatAllEscaped(a: string, b: string, c: char)
    requires AllEscaped(a, c) && AllEscaped(b, c) && NoDanglingEscape(a)
    ensures AllEscaped(a + b, c)
  {
    forall k | 0 <= k < |a + b| && (a + b)[k] == c
      ensures Escaped(a + b, 0, k)
    {
      EscapedInConcat(a, b, k);
    }
  }

  lemma ConcatNoneEscaped(a: string, b: string, c: char)
    requires NoneEscaped(a, c) && NoneEscaped(b, c) && NoDanglingEscape(a)
    ensures NoneEscaped(a + b, c)
  {
    forall k | 0 <= k < |a + b| && (a + b)[k] == c
      ensures !Escaped(a + b, 0, k)
    {
      EscapedInConcat(a, b, k);
    }
  }

  lemma ConcatNoDangling(a: string, b: string)
    requires NoDanglingEscape(a)
    ensures NoDanglingEscape(a + b) <==> NoDanglingEscape(b)
  {
    EscapedAfterEvenPrefix(a, b, |b|);
  }

  lemma ConcatTerminatorAt(a: string, b: string, k: nat)
    requires TerminatorsEscaped(a) && TerminatorsEscaped(b) && NoDanglingEscape(a)
    requires k < |a + b| && IsLineTerminator((a + b)[k])
    ensures EscapedTerminator(a + b, 0, k)
  {
    EscapedInConcat(a, b, k);
    if 0 < k { EscapedInConcat(a, b, k - 1); }
    if k >= |a| {
      assert b[k - |a|] == (a + b)[k];
      if k > |a| { assert b[k - |a| - 1] == (a + b)[k - 1]; }
    }
  }

  lemma ConcatTerminatorsEscaped(a: string, b: string)
    requires TerminatorsEscaped(a) && TerminatorsEscaped(b) && NoDanglingEscape(a)
    ensures TerminatorsEscaped(a + b)
  {
    forall k | 0 <= k < |a + b| && IsLineTerminator((a + b)[k])
      ensures EscapedTerminator(a + b, 0, k)
    {
      ConcatTerminatorAt(a, b, k);
    }
  }

  lemma ConcatDollarBraceAt(a: string, b: string, k: nat)
    requires DollarBracesEscaped(a) && DollarBracesEscaped(b) && NoDanglingEscape(a)
    requires |a| > 0 && |b| > 0 && a[|a| - 1] == '$' && b[0] == '{' ==> Escaped(a, 0, |a| - 1)
    requires k < |a + b| - 1 && (a + b)[k] == '$' && (a + b)[k + 1] == '{'
    ensures Escaped(a + b, 0, k)
  {
    EscapedInConcat(a, b, k);
    if k >= |a| {
      assert b[k - |a|] == (a + b)[k] && b[k - |a| + 1] == (a + b)[k + 1];
    } else if k == |a| - 1 {
      assert b[0] == (a + b)[k + 1];
    }
  }

  /** Joining keeps every `${` escaped, unless a ends in a bare `$` and b starts with `{`. */
  lemma ConcatDollarBracesEscaped(a: string, b: string)
    requires DollarBracesEscaped(a) && DollarBracesEscaped(b) && NoDanglingEscape(a)
    requires |a| > 0 && |b| > 0 && a[|a| - 1] == '$' && b[0] == '{' ==> Escaped(a, 0, |a| - 1)
    ensures DollarBracesEscaped(a + b)
  {
    forall k | 0 <= k < |a + b| - 1 && (a + b)[k] == '$' && (a + b)[k + 1] == '{'
      ensures Escaped(a + b, 0, k)
    {
      ConcatDollarBraceAt(a, b, k);
    }
  }

  /** A line terminator that does not end a line on its own terms: U+2028, U+2029,
      or a CR not followed by LF. */
  predicate IsStrayTerminator(s: string, k: nat)
    requires k < |s|
  {
    s[k] == '\U{2028}' || s[k] == '\U{2029}' || (s[k] == '\r' && !(k + 1 < |s| && s[k + 1] == '\n'))
  }

  /** Every stray line terminator of s is escaped. */
  predicate NoStrayTerminators(s: string) {
    forall k :: 0 <= k < |s| && IsStrayTerminator(s, k) ==> Escaped(s, 0, k)
  }

  /** Dropping a prefix without a dangling escape keeps AllEscaped. */
  lemma SuffixAllEscaped(a: string, b: string, c: char)
    requires AllEscaped(a + b, c) && NoDanglingEscape(a)
    ensures AllEscaped(b, c)
  {
    forall k | 0 <= k < |b| && b[k] == c
      ensures Escaped(b, 0, k)
    {
      assert (a + b)[|a| + k] == b[k];
      EscapedAfterEvenPrefix(a, b, k);
    }
  }

  lemma SuffixNoneEscaped(a: string, b: string, c: char)
    requires NoneEscaped(a + b, c) && NoDanglingEscape(a)
    ensures NoneEscaped(b, c)
  {
    forall k | 0 <= k < |b| && b[k] == c
      ensures !Escaped(b, 0, k)
    {
      assert (a + b)[|a| + k] == b[k];
      EscapedAfterEvenPrefix(a, b, k);
    }
  }

  lemma SuffixNoStrayTerminators(a: string, b: string)
    requires NoStrayTerminators(a + b) && NoDanglingEscape(a)
    ensures NoStrayTerminators(b)
  {
    forall k | 0 <= k < |b| && IsStrayTerminator(b, k)
      ensures Escaped(b, 0, k)
    {
      assert (a + b)[|a| + k] == b[k];
      if k + 1 < |b| { assert (a + b)[|a| + k + 1] == b[k + 1]; }
      assert IsStrayTerminator(a + b, |a| + k);
      EscapedAfterEvenPrefix(a, b, k);
    }
  }
}
