/**
 * es-quotes.ts: the three string kinds, and the search of a parse tree for
 * the string target under a selection. Ranges are offset spans and a range
 * contains a selection when it starts no later and ends no earlier.
 */
module EsQuotes {
  import opened Wrappers
  import opened Parser

  /** StringType of es-quotes.ts:16-20. */
  datatype StringType = SingleQuoted | DoubleQuoted | Template

  /** Range.contains for offset spans. */
  predicate Contains(range: Span, selection: Span) {
    range.start <= selection.start && selection.end <= range.end
  }

  /** t is a body target whose range contains the selection. */
  predicate Hits(t: Target, selection: Span) {
    t.Body? && Contains(t.range, selection)
  }

  /** The kind of a body target, read from its opening delimiter. */
  function TypeOf(t: Target): (k: StringType)
    requires t.Body?
    ensures k == SingleQuoted <==> t.opening == "'"
    ensures k == DoubleQuoted <==> t.opening == "\""
  {
    if t.opening == "'" then SingleQuoted
    else if t.opening == "\"" then DoubleQuoted
    else Template
  }

  /** The kind of every body target parse makes agrees with the delimiter
      the scanner met: quoted literals are single or double, template
      fragments (opened by a backtick or by the `}` ending an
      interpolation) are templates. */
  lemma TypeOfWellFormed(s: string, t: Target)
    requires WellFormed(s, t)
    ensures s[t.range.start] == '\'' ==> TypeOf(t) == SingleQuoted
    ensures s[t.range.start] == '"' ==> TypeOf(t) == DoubleQuoted
    ensures s[t.range.start] == '`' || s[t.range.start] == '}' <==> TypeOf(t) == Template
  {
  }

  /** findActiveStringTarget: depth-first, a group's partials before its
      later siblings; the first body target containing the selection. */
  function FindActiveStringTarget(targets: seq<Target>, selection: Span): (r: Option<Target>)
    ensures r.Some? ==> Hits(r.value, selection)
    decreases targets
  {
    if targets == [] then None
    else if targets[0].Group? then
      match FindActiveStringTarget(targets[0].partials, selection)
      case Some(found) => Some(found)
      case None => FindActiveStringTarget(targets[1..], selection)
    else if Contains(targets[0].range, selection) then Some(targets[0])
    else FindActiveStringTarget(targets[1..], selection)
  }

  /** Reference meaning of the search: the first hit in a flat list. */
  function FirstHit(bs: seq<Target>, selection: Span): (r: Option<Target>)
    ensures r.None? <==> forall i :: 0 <= i < |bs| ==> !Hits(bs[i], selection)
    ensures r.Some? ==> exists i :: 0 <= i < |bs| && bs[i] == r.value && Hits(bs[i], selection) &&
                          forall k :: 0 <= k < i ==> !Hits(bs[k], selection)
  {
    if bs == [] then None
    else if Hits(bs[0], selection) then Some(bs[0])
    else
      var r := FirstHit(bs[1..], selection);
      assert forall i :: 1 <= i < |bs| ==> bs[i] == bs[1..][i - 1];
      if r.Some? then
        ghost var i :| 0 <= i < |bs[1..]| && bs[1..][i] == r.value && Hits(bs[1..][i], selection) &&
                         forall k :: 0 <= k < i ==> !Hits(bs[1..][k], selection);
        assert bs[i + 1] == r.value;
        r
      else r
  }

  lemma {:induction false} FirstHitConcat(a: seq<Target>, b: seq<Target>, selection: Span)
    ensures FirstHit(a + b, selection) ==
            if FirstHit(a, selection).Some? then FirstHit(a, selection) else FirstHit(b, selection)
    decreases |a|
  {
    if a == [] {
      assert a + b == b;
    } else {
      assert (a + b)[0] == a[0];
      assert (a + b)[1..] == a[1..] + b;
      FirstHitConcat(a[1..], b, selection);
    }
  }

  /** The tree search finds exactly the first hit among the body targets in
      pre-order. */
  lemma {:induction false} FindIsFirstHit(targets: seq<Target>, selection: Span)
    ensures FindActiveStringTarget(targets, selection) == FirstHit(Bodies(targets), selection)
    decreases targets
  {
    if targets != [] {
      var head := if targets[0].Body? then [targets[0]] else Bodies(targets[0].partials);
      assert Bodies(targets) == head + Bodies(targets[1..]);
      FirstHitConcat(head, Bodies(targets[1..]), selection);
      FindIsFirstHit(targets[1..], selection);
      if targets[0].Group? {
        FindIsFirstHit(targets[0].partials, selection);
      } else {
        assert [targets[0]][1..] == [];
      }
    }
  }

  /** The search returns a body target containing the selection, and no
      earlier body target in pre-order contains it; it returns nothing
      exactly when no body target of the tree contains the selection. */
  lemma FindActiveStringTargetFirst(targets: seq<Target>, selection: Span)
    ensures var r := FindActiveStringTarget(targets, selection); var bs := Bodies(targets);
      && (r.None? <==> forall i :: 0 <= i < |bs| ==> !Hits(bs[i], selection))
      && (r.Some? ==> exists i :: 0 <= i < |bs| && bs[i] == r.value && Hits(bs[i], selection) &&
                        forall k :: 0 <= k < i ==> !Hits(bs[k], selection))
  {
    FindIsFirstHit(targets, selection);
  }

  /** l is the root list or the partials of some group in the tree. */
  ghost predicate ListIn(l: seq<Target>, tree: seq<Target>)
    decreases tree
  {
    l == tree || exists i :: 0 <= i < |tree| && tree[i].Group? && ListIn(l, tree[i].partials)
  }

  /** findActiveStringTargets, with the kind of the hit read from its
      opening: a template fragment brings its whole sibling list (the
      fragments and interpolation groups of its literal), any other hit
      comes alone. The search starts at element i of targets. */
  function FindActiveStringTargetsFrom(targets: seq<Target>, i: nat, selection: Span): (r: Option<seq<Target>>)
    requires i <= |targets|
    ensures r.Some? ==> r.value != []
    decreases targets, |targets| - i
  {
    if i == |targets| then None
    else if targets[i].Group? then
      match FindActiveStringTargetsFrom(targets[i].partials, 0, selection)
      case Some(found) => Some(found)
      case None => FindActiveStringTargetsFrom(targets, i + 1, selection)
    else if Contains(targets[i].range, selection) then
      Some(if TypeOf(targets[i]) == Template then targets else [targets[i]])
    else FindActiveStringTargetsFrom(targets, i + 1, selection)
  }

  function FindActiveStringTargets(targets: seq<Target>, selection: Span): (r: Option<seq<Target>>)
    ensures r.Some? ==> r.value != []
  {
    FindActiveStringTargetsFrom(targets, 0, selection)
  }

  lemma {:induction false} FindActiveStringTargetsFromAgree(targets: seq<Target>, i: nat, selection: Span)
    requires i <= |targets|
    ensures var r := FindActiveStringTargetsFrom(targets, i, selection);
            var h := FindActiveStringTarget(targets[i..], selection);
      && (r.None? <==> h.None?)
      && (r.Some? ==>
            && h.value.Body?
            && (TypeOf(h.value) != Template ==> r.value == [h.value])
            && (TypeOf(h.value) == Template ==> h.value in r.value && ListIn(r.value, targets)))
    decreases targets, |targets| - i
  {
    if i < |targets| {
      assert targets[i..][0] == targets[i];
      assert targets[i..][1..] == targets[i + 1..];
      if targets[i].Group? {
        FindActiveStringTargetsFromAgree(targets[i].partials, 0, selection);
        assert targets[i].partials[0..] == targets[i].partials;
        FindActiveStringTargetsFromAgree(targets, i + 1, selection);
      } else if !Contains(targets[i].range, selection) {
        FindActiveStringTargetsFromAgree(targets, i + 1, selection);
      }
    }
  }

  /** findActiveStringTargets finds something exactly when
      findActiveStringTarget does; the hit comes alone unless it is a
      template fragment, which comes with the list of the tree that
      holds it. */
  lemma FindActiveStringTargetsAgree(targets: seq<Target>, selection: Span)
    ensures var r := FindActiveStringTargets(targets, selection);
            var h := FindActiveStringTarget(targets, selection);
      && (r.None? <==> h.None?)
      && (r.Some? ==>
            && h.value.Body?
            && (TypeOf(h.value) != Template ==> r.value == [h.value])
            && (TypeOf(h.value) == Template ==> h.value in r.value && ListIn(r.value, targets)))
  {
    assert targets[0..] == targets;
    FindActiveStringTargetsFromAgree(targets, 0, selection);
  }

  /** findActiveStringTargets as written: body targets made by parse carry
      no `type`, so the template test never holds and the hit always comes
      alone. */
  function FindActiveStringTargetsAsWritten(targets: seq<Target>, selection: Span): (r: Option<seq<Target>>)
    ensures r.Some? ==> |r.value| == 1
    decreases targets
  {
    if targets == [] then None
    else if targets[0].Group? then
      match FindActiveStringTargetsAsWritten(targets[0].partials, selection)
      case Some(found) => Some(found)
      case None => FindActiveStringTargetsAsWritten(targets[1..], selection)
    else if Contains(targets[0].range, selection) then Some([targets[0]])
    else FindActiveStringTargetsAsWritten(targets[1..], selection)
  }

  /** As written, the result is just the hit of findActiveStringTarget. */
  lemma {:induction false} AsWrittenIsSingleHit(targets: seq<Target>, selection: Span)
    ensures FindActiveStringTargetsAsWritten(targets, selection) ==
            match FindActiveStringTarget(targets, selection)
            case None => None
            case Some(h) => Some([h])
    decreases targets
  {
    if targets != [] {
      AsWrittenIsSingleHit(targets[1..], selection);
      if targets[0].Group? {
        AsWrittenIsSingleHit(targets[0].partials, selection);
      }
    }
  }

  /** The tree parse makes of the template literal with head fragment `a`,
      interpolation `b` and tail fragment `c` (the interpolation's group is
      empty and removed): with the selection inside the head fragment, the
      fragment list is meant to be returned, the head alone is. */
  lemma AsWrittenDropsSiblings()
    ensures var head := Body("`", "${", "a", Span(0, 4));
            var tail := Body("}", "`", "c", Span(5, 8));
            var tree := [Group([head, tail], None)];
      && FindActiveStringTargetsAsWritten(tree, Span(1, 1)) == Some([head])
      && FindActiveStringTargets(tree, Span(1, 1)) == Some([head, tail])
  {
    var head := Body("`", "${", "a", Span(0, 4));
    var tail := Body("}", "`", "c", Span(5, 8));
    var partials := [head, tail];
    var tree := [Group(partials, None)];
    assert FindActiveStringTargetsFrom(partials, 0, Span(1, 1)) == Some(partials);
    assert FindActiveStringTargetsFrom(tree, 0, Span(1, 1)) == Some(partials);
  }
}
