/**
 * parser.ts: one pass over a source text that collects its string literals
 * as a tree of targets.
 *
 * Quoted literals become body targets of their own. A template literal
 * becomes a group holding its fragments (from a backtick or the `}` that
 * closes an interpolation, to a backtick or a `${`), and each interpolation
 * is a nested group. Groups carry a stack of the brackets opened inside
 * them, so that a `}` closing an object literal is not taken for the end of
 * an interpolation. At the end, empty groups are removed and bracket
 * stacks are dropped.
 *
 * The JavaScript code appends to `currentStringTargets`, which aliases the
 * `partials` of the innermost open group. Here the open groups are frames
 * on a stack; popping a frame folds the group it describes into its parent,
 * and Tree rebuilds the object graph the code would hold at any moment.
 */
module Parser {
  import opened Wrappers
  import opened Escapes
  import opened Scanner

  /** A range of the source as offsets: the text s[start..end]. */
  datatype Span = Span(start: nat, end: nat)

  /** StringTarget of parser.ts:4-24: a body target, or a group of partials
      that carries its bracket stack until finalization deletes it. */
  datatype Target =
    | Body(opening: string, closing: string, body: string, range: Span)
    | Group(partials: seq<Target>, bracketStack: Option<seq<char>>)

  /** An open group on nestedStringTargetStack: the partials so far and the
      brackets opened inside it. */
  datatype Frame = Frame(partials: seq<Target>, brackets: seq<char>)

  /** The parser's variables: lastIndex of the parsing regex,
      rootStringTargets and nestedStringTargetStack. currentStringTargets and
      currentBracketStack are those of the top frame, or the root list and
      undefined when the stack is empty. */
  datatype State = State(pos: nat, root: seq<Target>, stack: seq<Frame>)

  function Top(st: State): Frame
    requires st.stack != []
  {
    st.stack[|st.stack| - 1]
  }

  // ---------------------------------------------------------------------
  // The object graph
  // ---------------------------------------------------------------------

  /** The group object of the first open frame, holding those above it as its
      last partial. */
  function Nest(stack: seq<Frame>): Target
    requires stack != []
    decreases |stack|
  {
    Group(stack[0].partials + (if |stack| == 1 then [] else [Nest(stack[1..])]), Some(stack[0].brackets))
  }

  /** rootStringTargets as the code holds it: the open groups are nested as
      the last element of their parents. */
  function Tree(st: State): seq<Target> {
    st.root + (if st.stack == [] then [] else [Nest(st.stack)])
  }

  /** Appends t to the list reached by following the last element d times. */
  function AppendAt(l: seq<Target>, d: nat, t: Target): seq<Target>
    decreases d
  {
    if d == 0 then l + [t]
    else if l == [] || !l[|l| - 1].Group? then l
    else
      var g := l[|l| - 1];
      l[..|l| - 1] + [Group(AppendAt(g.partials, d - 1, t), g.bracketStack)]
  }

  // ---------------------------------------------------------------------
  // State changes (parser.ts:77, 148-173)
  // ---------------------------------------------------------------------

  /** A non-empty sequence is its front followed by its last element. */
  lemma SplitLast<T>(s: seq<T>)
    requires s != []
    ensures s == s[..|s| - 1] + [s[|s| - 1]]
  {
  }

  /** A suffix of front + [x] that starts inside front. */
  lemma SliceOfSnoc<T>(front: seq<T>, x: T, i: nat)
    requires i <= |front|
    ensures (front + [x])[i..] == front[i..] + [x]
  {
  }

  lemma ConcatAssoc<T>(a: seq<T>, b: seq<T>, c: seq<T>)
    ensures a + (b + c) == (a + b) + c
  {
  }

  /** The stack with t appended to the partials of its top frame. */
  function AppendTop(stack: seq<Frame>, t: Target): seq<Frame>
    requires stack != []
  {
    var top := stack[|stack| - 1];
    stack[..|stack| - 1] + [Frame(top.partials + [t], top.brackets)]
  }

  /** currentStringTargets.push(t). */
  function AppendTarget(st: State, t: Target): State {
    if st.stack == [] then st.(root := st.root + [t])
    else st.(stack := AppendTop(st.stack, t))
  }

  /** pushNestedTargetStack: a new, empty group becomes current. */
  function Push(st: State): State {
    st.(stack := st.stack + [Frame([], [])])
  }

  /** popNestedTargetStack: the top group is closed, and its parent (or the
      root list) becomes current. Popping an empty stack changes nothing. */
  function Pop(st: State): State {
    if st.stack == [] then st
    else
      var top := Top(st);
      AppendTarget(st.(stack := st.stack[..|st.stack| - 1]), Group(top.partials, Some(top.brackets)))
  }

  /** currentBracketStack replaced by b. */
  function SetBrackets(st: State, b: seq<char>): State
    requires st.stack != []
  {
    var top := Top(st);
    st.(stack := st.stack[..|st.stack| - 1] + [Frame(top.partials, b)])
  }

  lemma {:induction false} NestAppendTop(stack: seq<Frame>, t: Target)
    requires stack != []
    ensures Nest(AppendTop(stack, t)) ==
            Group(AppendAt(Nest(stack).partials, |stack| - 1, t), Nest(stack).bracketStack)
    decreases |stack|
  {
    if |stack| > 1 {
      var rest := stack[1..];
      assert AppendTop(stack, t)[1..] == AppendTop(rest, t);
      NestAppendTop(rest, t);
      var l := stack[0].partials + [Nest(rest)];
      assert l[..|l| - 1] == stack[0].partials;
    }
  }

  lemma {:induction false} NestPushFrame(stack: seq<Frame>, f: Frame)
    requires stack != []
    ensures Nest(stack + [f]) == Nest(AppendTop(stack, Nest([f])))
    decreases |stack|
  {
    if |stack| > 1 {
      assert (stack + [f])[1..] == stack[1..] + [f];
      assert AppendTop(stack, Nest([f]))[1..] == AppendTop(stack[1..], Nest([f]));
      NestPushFrame(stack[1..], f);
    }
  }

  /** Appending a target puts it at the end of the innermost open group's
      partials, or of the root list. */
  lemma TreeAppendTarget(st: State, t: Target)
    ensures Tree(AppendTarget(st, t)) == AppendAt(Tree(st), |st.stack|, t)
  {
    if st.stack != [] {
      NestAppendTop(st.stack, t);
      var l := Tree(st);
      assert l[..|l| - 1] == st.root;
    }
  }

  /** Push appends a new empty group with an empty bracket stack to the
      current list (parser.ts:148-159). */
  lemma TreePush(st: State)
    ensures Tree(Push(st)) == AppendAt(Tree(st), |st.stack|, Group([], Some([])))
    ensures |Push(st).stack| == |st.stack| + 1
  {
    assert Nest([Frame([], [])]) == Group([], Some([]));
    if st.stack != [] {
      NestPushFrame(st.stack, Frame([], []));
      TreeAppendTarget(st, Group([], Some([])));
    }
  }

  /** Pop leaves the object graph as it is and makes the parent current
      (parser.ts:161-173). */
  lemma TreePop(st: State)
    ensures Tree(Pop(st)) == Tree(st)
    ensures |Pop(st).stack| == if st.stack == [] then 0 else |st.stack| - 1
  {
    if st.stack != [] {
      var top := Top(st);
      assert Nest([top]) == Group(top.partials, Some(top.brackets)) by {
        assert top.partials + [] == top.partials;
      }
      if |st.stack| > 1 {
        var front := st.stack[..|st.stack| - 1];
        assert front + [top] == st.stack;
        NestPushFrame(front, top);
      } else {
        assert st.stack == [top];
      }
    }
  }

  // ---------------------------------------------------------------------
  // Brackets (parser.ts:46-50, 127-141)
  // ---------------------------------------------------------------------

  predicate IsOpener(c: char) {
    c == '(' || c == '[' || c == '{'
  }

  predicate IsCloser(c: char) {
    c == ')' || c == ']' || c == '}'
  }

  /** bracketConsumptionPair: the opener a closer consumes. */
  function Partner(c: char): (o: char)
    requires IsCloser(c)
    ensures IsOpener(o)
  {
    if c == '}' then '{' else if c == ']' then '[' else '('
  }

  /** A bracket met by the parsing regex. Outside any group there is no bracket
      stack and nothing happens. Inside one, an opener is pushed; a closer pops
      the top only when the top is its partner, and is otherwise ignored (the
      code logs a message). */
  function BracketStep(st: State, c: char): State
    requires IsOpener(c) || IsCloser(c)
  {
    if st.stack == [] then st
    else
      var b := Top(st).brackets;
      if IsCloser(c) then
        if |b| > 0 && b[|b| - 1] == Partner(c) then SetBrackets(st, b[..|b| - 1]) else st
      else SetBrackets(st, b + [c])
  }

  /** The bracket stacks of open groups hold openers only. */
  predicate OpenersOnly(st: State) {
    forall i, j :: 0 <= i < |st.stack| && 0 <= j < |st.stack[i].brackets| ==> IsOpener(st.stack[i].brackets[j])
  }

  /** A bracket changes the current bracket stack and nothing else: an opener
      is pushed, a matching closer pops its partner, any other closer and any
      bracket outside a group changes nothing. Bracket stacks keep holding
      openers only. */
  lemma BracketStepEffect(st: State, c: char)
    requires IsOpener(c) || IsCloser(c)
    ensures var r := BracketStep(st, c);
      && r.pos == st.pos && r.root == st.root && |r.stack| == |st.stack|
      && (st.stack == [] ==> r == st)
      && (st.stack != [] ==>
            && r.stack[..|r.stack| - 1] == st.stack[..|st.stack| - 1]
            && Top(r).partials == Top(st).partials
            && var b := Top(st).brackets;
               Top(r).brackets ==
                 if IsOpener(c) then b + [c]
                 else if |b| > 0 && b[|b| - 1] == Partner(c) then b[..|b| - 1]
                 else b)
      && (OpenersOnly(st) ==> OpenersOnly(r))
  {
  }

  /** A closer right after its opener undoes it. */
  lemma BracketOpenClose(st: State, c: char)
    requires IsCloser(c)
    ensures BracketStep(BracketStep(st, Partner(c)), c) == st
  {
    if st.stack != [] {
      var b := Top(st).brackets;
      var mid := BracketStep(st, Partner(c));
      assert Top(mid).brackets == b + [Partner(c)];
      assert (b + [Partner(c)])[..|b|] == b;
      assert st.stack[..|st.stack| - 1] + [Top(st)] == st.stack;
    }
  }

  // ---------------------------------------------------------------------
  // The main loop (parser.ts:63-142)
  // ---------------------------------------------------------------------

  /** The body target of the quoted literal at p (parser.ts:68-82): opening
      and closing are the quote, even when the closing quote is missing, and
      the range covers the whole match. */
  function QuotedTarget(s: string, p: nat): (t: Target)
    requires p < |s| && (s[p] == '"' || s[p] == '\'')
    ensures t.Body? && t.opening == [s[p]] && t.closing == [s[p]]
    ensures t.range == Span(p, QuotedAt(s, p).end) && t.body == QuotedAt(s, p).body
  {
    var l := QuotedAt(s, p);
    Body([s[p]], [s[p]], l.body, Span(p, l.end))
  }

  /** The body target of the template fragment at p (parser.ts:96-119). */
  function FragmentTarget(s: string, p: nat): (t: Target)
    requires p < |s| && (s[p] == '`' || s[p] == '}')
    ensures t.Body? && t.opening == [s[p]] && (t.closing == "`" || t.closing == "${")
    ensures t.range == Span(p, TemplateAt(s, p).end) && t.body == TemplateAt(s, p).body
    ensures t.closing == TemplateAt(s, p).closing
    ensures p + 1 + |t.body| == |s| ==> t.closing == "`"
  {
    var f := TemplateAt(s, p);
    Body(f.opening, f.closing, f.body, Span(p, f.end))
  }

  /** A `}` closes an interpolation when some group is open and the current
      bracket stack holds no `{` (parser.ts:83-89). */
  predicate InterpolationCloses(st: State) {
    st.stack != [] && '{' !in Top(st).brackets
  }

  /** The template hand-off, after the push (backtick) or pop (`}`): the
      fragment is appended to the current list, a fragment ending in `${`
      opens a group for the interpolation and one ending in a backtick closes
      the current group; the main scan resumes after the fragment. */
  function TemplateStep(s: string, st: State, p: nat): (r: State)
    requires p < |s| && (s[p] == '`' || s[p] == '}')
    ensures r.pos == TemplateAt(s, p).end
  {
    var t := FragmentTarget(s, p);
    var appended := AppendTarget(st, t);
    (if t.closing == "${" then Push(appended) else Pop(appended)).(pos := t.range.end)
  }

  /** Appending a target leaves the number of open groups as it is. */
  lemma AppendTargetDepth(st: State, t: Target)
    ensures |AppendTarget(st, t).stack| == |st.stack|
  {
  }

  /** How the hand-off groups a template's fragments (parser.ts:114-125): the
      fragment joins the current list; one ending in `${` then opens an empty
      group after it for the interpolation, one ending in a backtick closes
      the current group and leaves the object graph as it is. */
  lemma TemplateStepTree(s: string, st: State, p: nat)
    requires p < |s| && (s[p] == '`' || s[p] == '}')
    ensures var t := FragmentTarget(s, p);
            var d := |st.stack|;
            var r := TemplateStep(s, st, p);
            (t.closing == "${" ==>
               Tree(r) == AppendAt(AppendAt(Tree(st), d, t), d, Group([], Some([]))) && |r.stack| == d + 1) &&
            (t.closing == "`" ==>
               Tree(r) == AppendAt(Tree(st), d, t) && |r.stack| == if st.stack == [] then 0 else d - 1)
  {
    var t := FragmentTarget(s, p);
    var appended := AppendTarget(st, t);
    TreeAppendTarget(st, t);
    AppendTargetDepth(st, t);
    if t.closing == "${" {
      TreePush(appended);
    } else {
      TreePop(appended);
    }
  }

  /** One iteration of the loop: the parsing regex's exec from lastIndex,
      followed by the branch for what it matched. Where nothing matches, exec
      moves on one character. */
  function Step(s: string, st: State): (r: State)
    requires st.pos < |s|
    ensures st.pos < r.pos <= |s|
  {
    var p := st.pos;
    match MatchAt(s, p)
    case None => st.(pos := p + 1)
    case Some(m) =>
      match m.token
      case Comment => st.(pos := m.end)
      case Quoted(_, _, _) =>
        var current := if st.stack != [] && Top(st).brackets != [] then Push(st) else st;
        AppendTarget(current, QuotedTarget(s, p)).(pos := m.end)
      case Backtick => TemplateStep(s, Push(st), p)
      case CurlyKet =>
        if InterpolationCloses(st) then TemplateStep(s, Pop(st), p)
        else BracketStep(st, '}').(pos := m.end)
      case Bracket(c) => BracketStep(st, c).(pos := m.end)
  }

  /** The loop run to the end of the source. */
  function Run(s: string, st: State): (r: State)
    requires st.pos <= |s|
    ensures r.pos == |s|
    decreases |s| - st.pos
  {
    if st.pos == |s| then st else Run(s, Step(s, st))
  }

  /** The state before the loop. */
  const Initial: State := State(0, [], [])

  /** A comment produces no target and changes nothing but the scan position. */
  lemma StepComment(s: string, st: State)
    requires st.pos < |s| && MatchAt(s, st.pos).Some? && MatchAt(s, st.pos).value.token.Comment?
    ensures Step(s, st) == st.(pos := MatchAt(s, st.pos).value.end)
  {
  }

  /** A `}` is taken for the end of an interpolation exactly when a group is
      open and the current bracket stack holds no `{`; the template scan then
      reads the fragment after it. Otherwise it is an ordinary bracket. */
  lemma StepCurlyKet(s: string, st: State)
    requires st.pos < |s| && s[st.pos] == '}'
    ensures InterpolationCloses(st) ==> Step(s, st) == TemplateStep(s, Pop(st), st.pos)
    ensures !InterpolationCloses(st) ==> Step(s, st) == BracketStep(st, '}').(pos := st.pos + 1)
  {
  }

  // ---------------------------------------------------------------------
  // Body targets and solid groups
  // ---------------------------------------------------------------------

  /** The body targets of l in pre-order: a group's partials come before its
      later siblings. */
  function Bodies(l: seq<Target>): seq<Target>
    decreases l
  {
    if l == [] then []
    else (if l[0].Body? then [l[0]] else Bodies(l[0].partials)) + Bodies(l[1..])
  }

  /** Every group in l, at any depth, is empty or holds a body target. */
  predicate Solid(l: seq<Target>)
    decreases l
  {
    forall i :: 0 <= i < |l| && l[i].Group? ==>
      (l[i].partials == [] || Bodies(l[i].partials) != []) && Solid(l[i].partials)
  }

  lemma {:induction false} BodiesConcat(a: seq<Target>, b: seq<Target>)
    ensures Bodies(a + b) == Bodies(a) + Bodies(b)
    decreases |a|
  {
    if a != [] {
      assert (a + b)[0] == a[0];
      assert (a + b)[1..] == a[1..] + b;
      BodiesConcat(a[1..], b);
    } else {
      assert a + b == b;
    }
  }

  lemma SolidConcat(a: seq<Target>, b: seq<Target>)
    ensures Solid(a + b) <==> Solid(a) && Solid(b)
  {
    if Solid(a) && Solid(b) {
      forall i | 0 <= i < |a + b| && (a + b)[i].Group?
        ensures var g := (a + b)[i]; (g.partials == [] || Bodies(g.partials) != []) && Solid(g.partials)
      {
        if i < |a| { assert (a + b)[i] == a[i]; } else { assert (a + b)[i] == b[i - |a|]; }
      }
    }
    if Solid(a + b) {
      forall i | 0 <= i < |a| && a[i].Group?
        ensures (a[i].partials == [] || Bodies(a[i].partials) != []) && Solid(a[i].partials)
      {
        assert (a + b)[i] == a[i];
      }
      forall i | 0 <= i < |b| && b[i].Group?
        ensures (b[i].partials == [] || Bodies(b[i].partials) != []) && Solid(b[i].partials)
      {
        assert (a + b)[|a| + i] == b[i];
      }
    }
  }

  /** The body targets held by the open frames, bottom to top. */
  function FramesBodies(stack: seq<Frame>): seq<Target>
    decreases |stack|
  {
    if stack == [] then [] else Bodies(stack[0].partials) + FramesBodies(stack[1..])
  }

  lemma {:induction false} FramesBodiesSnoc(stack: seq<Frame>, f: Frame)
    ensures FramesBodies(stack + [f]) == FramesBodies(stack) + Bodies(f.partials)
    decreases |stack|
  {
    if stack == [] {
      assert [f][1..] == [];
    } else {
      assert (stack + [f])[1..] == stack[1..] + [f];
      FramesBodiesSnoc(stack[1..], f);
    }
  }

  lemma {:induction false} BodiesNest(stack: seq<Frame>)
    requires stack != []
    ensures Bodies([Nest(stack)]) == FramesBodies(stack)
    decreases |stack|
  {
    var n := Nest(stack);
    assert Bodies([n]) == Bodies(n.partials) + Bodies([]) by {
      assert [n][1..] == [];
    }
    if |stack| == 1 {
      assert n.partials == stack[0].partials;
      assert stack[1..] == [];
    } else {
      BodiesConcat(stack[0].partials, [Nest(stack[1..])]);
      BodiesNest(stack[1..]);
    }
  }

  /** The body targets of the object graph are those of the root list
      followed by those of the open frames. */
  lemma BodiesTree(st: State)
    ensures Bodies(Tree(st)) == Bodies(st.root) + FramesBodies(st.stack)
  {
    if st.stack != [] {
      BodiesConcat(st.root, [Nest(st.stack)]);
      BodiesNest(st.stack);
    } else {
      assert Tree(st) == st.root;
    }
  }

  /** The body targets of a state, in the order of the object graph. */
  function StateBodies(st: State): seq<Target> {
    Bodies(st.root) + FramesBodies(st.stack)
  }

  lemma BodiesOfBody(t: Target)
    requires t.Body?
    ensures Bodies([t]) == [t]
  {
    assert [t][1..] == [];
  }

  lemma AppendTargetBodies(st: State, t: Target)
    ensures StateBodies(AppendTarget(st, t)) == StateBodies(st) + Bodies([t])
  {
    if st.stack == [] {
      BodiesConcat(st.root, [t]);
    } else {
      FramesBodiesAppendTop(st.stack, 0, t);
      assert st.stack[0..] == st.stack;
      assert AppendTop(st.stack, t)[0..] == AppendTop(st.stack, t);
    }
  }

  lemma PushBodies(st: State)
    ensures StateBodies(Push(st)) == StateBodies(st)
  {
    FramesBodiesSnoc(st.stack, Frame([], []));
  }

  lemma PopBodies(st: State)
    ensures StateBodies(Pop(st)) == StateBodies(st)
  {
    if st.stack != [] {
      var front := st.stack[..|st.stack| - 1];
      var top := Top(st);
      assert st.stack == front + [top];
      FramesBodiesSnoc(front, top);
      AppendTargetBodies(st.(stack := front), Group(top.partials, Some(top.brackets)));
      assert Bodies([Group(top.partials, Some(top.brackets))]) == Bodies(top.partials) by {
        assert [Group(top.partials, Some(top.brackets))][1..] == [];
      }
    }
  }

  lemma BracketStepBodies(st: State, c: char)
    requires IsOpener(c) || IsCloser(c)
    ensures StateBodies(BracketStep(st, c)) == StateBodies(st)
  {
    if st.stack != [] {
      var r := BracketStep(st, c);
      BracketStepEffect(st, c);
      var front := st.stack[..|st.stack| - 1];
      assert st.stack == front + [Top(st)];
      assert r.stack == front + [Top(r)];
      FramesBodiesSnoc(front, Top(st));
      FramesBodiesSnoc(front, Top(r));
    }
  }

  /** Each frame's partials are solid, and each open group is empty or has a
      body target among its partials or in the groups open above it. */
  predicate FramesSolid(stack: seq<Frame>) {
    forall i :: 0 <= i < |stack| ==>
      && Solid(stack[i].partials)
      && (FramesBodies(stack[i..]) != [] || (i == |stack| - 1 && stack[i].partials == []))
  }

  /** The state invariant about groups. */
  predicate StateSolid(st: State) {
    Solid(st.root) && FramesSolid(st.stack)
  }

  /** The frames from i on, after t is appended to the top frame's partials. */
  lemma FramesBodiesSnocAppend(front: seq<Frame>, top: Frame, t: Target, i: nat)
    requires i <= |front|
    ensures FramesBodies((front + [Frame(top.partials + [t], top.brackets)])[i..]) ==
            FramesBodies((front + [top])[i..]) + Bodies([t])
  {
    var top' := Frame(top.partials + [t], top.brackets);
    SliceOfSnoc(front, top, i);
    SliceOfSnoc(front, top', i);
    FramesBodiesSnoc(front[i..], top);
    FramesBodiesSnoc(front[i..], top');
    BodiesConcat(top.partials, [t]);
    ConcatAssoc(FramesBodies(front[i..]), Bodies(top.partials), Bodies([t]));
  }

  lemma FramesBodiesAppendTop(stack: seq<Frame>, i: nat, t: Target)
    requires i < |stack|
    ensures FramesBodies(AppendTop(stack, t)[i..]) == FramesBodies(stack[i..]) + Bodies([t])
  {
    SplitLast(stack);
    FramesBodiesSnocAppend(stack[..|stack| - 1], stack[|stack| - 1], t, i);
  }

  lemma FramesBodiesPush(stack: seq<Frame>, i: nat)
    requires i <= |stack|
    ensures FramesBodies((stack + [Frame([], [])])[i..]) == FramesBodies(stack[i..])
  {
    assert (stack + [Frame([], [])])[i..] == stack[i..] + [Frame([], [])];
    FramesBodiesSnoc(stack[i..], Frame([], []));
  }

  /** Appending a body target leaves every group solid, and the current group
      then holds a body target. */
  lemma AppendBodySolid(st: State, t: Target)
    requires t.Body? && Solid(st.root)
    requires forall i :: 0 <= i < |st.stack| ==> Solid(st.stack[i].partials)
    ensures StateSolid(AppendTarget(st, t))
    ensures st.stack != [] ==> Bodies(Top(AppendTarget(st, t)).partials) != []
  {
    BodiesOfBody(t);
    SolidConcat(st.root, [t]);
    if st.stack != [] { SolidConcat(Top(st).partials, [t]); }
    var r := AppendTarget(st, t);
    forall i | 0 <= i < |r.stack|
      ensures Solid(r.stack[i].partials) && FramesBodies(r.stack[i..]) != []
    {
      FramesBodiesAppendTop(st.stack, i, t);
    }
    if st.stack != [] {
      BodiesConcat(Top(st).partials, [t]);
    }
  }

  /** A group pushed after the current one has received a body target keeps
      every group solid. */
  lemma PushSolid(st: State)
    requires StateSolid(st)
    requires st.stack != [] ==> Bodies(Top(st).partials) != []
    ensures StateSolid(Push(st))
  {
    var r := Push(st);
    var n := |st.stack|;
    forall i | 0 <= i < |r.stack|
      ensures Solid(r.stack[i].partials)
      ensures FramesBodies(r.stack[i..]) != [] || (i == |r.stack| - 1 && r.stack[i].partials == [])
    {
      if i < n {
        FramesBodiesPush(st.stack, i);
        if i == n - 1 {
          assert st.stack[i..] == [Top(st)];
          assert FramesBodies([Top(st)]) == Bodies(Top(st).partials) + FramesBodies([]);
        }
      }
    }
  }

  /** Closing the top group keeps every group solid. */
  lemma PopSolid(st: State)
    requires StateSolid(st)
    ensures StateSolid(Pop(st))
  {
    if st.stack != [] {
      var n := |st.stack|;
      var top := Top(st);
      var front := st.stack[..n - 1];
      var g := Group(top.partials, Some(top.brackets));
      assert st.stack[n - 1..] == [top];
      assert FramesBodies([top]) == Bodies(top.partials) + FramesBodies([]);
      assert Bodies([g]) == Bodies(top.partials) by {
        assert [g][1..] == [];
      }
      assert Solid([g]);
      if front == [] {
        SolidConcat(st.root, [g]);
      } else {
        var r := Pop(st);
        assert r.stack == AppendTop(front, g);
        SolidConcat(front[|front| - 1].partials, [g]);
        forall i | 0 <= i < |r.stack|
          ensures Solid(r.stack[i].partials)
          ensures FramesBodies(r.stack[i..]) != []
        {
          FramesBodiesAppendTop(front, i, g);
          assert st.stack[i..] == front[i..] + [top];
          FramesBodiesSnoc(front[i..], top);
          assert FramesBodies(st.stack[i..]) != [];
        }
      }
    }
  }

  lemma SetBracketsSolid(st: State, b: seq<char>)
    requires st.stack != [] && StateSolid(st)
    ensures StateSolid(SetBrackets(st, b))
  {
    var r := SetBrackets(st, b);
    var n := |st.stack|;
    var front := st.stack[..n - 1];
    SplitLast(st.stack);
    assert r.stack == front + [Top(r)];
    forall i | 0 <= i < n
      ensures r.stack[i].partials == st.stack[i].partials
      ensures FramesBodies(r.stack[i..]) == FramesBodies(st.stack[i..])
    {
      SliceOfSnoc(front, Top(st), i);
      SliceOfSnoc(front, Top(r), i);
      FramesBodiesSnoc(front[i..], Top(st));
      FramesBodiesSnoc(front[i..], Top(r));
    }
  }

  lemma BracketStepSolid(st: State, c: char)
    requires IsOpener(c) || IsCloser(c)
    requires StateSolid(st)
    ensures StateSolid(BracketStep(st, c))
  {
    if st.stack != [] {
      var b := Top(st).brackets;
      if IsCloser(c) {
        if |b| > 0 && b[|b| - 1] == Partner(c) { SetBracketsSolid(st, b[..|b| - 1]); }
      } else {
        SetBracketsSolid(st, b + [c]);
      }
    }
  }

  // ---------------------------------------------------------------------
  // The loop invariant
  // ---------------------------------------------------------------------

  /** t is the body target the scanners make of the literal at its start. */
  predicate WellFormed(s: string, t: Target) {
    && t.Body? && t.range.start < |s|
    && ( ((s[t.range.start] == '"' || s[t.range.start] == '\'') && t == QuotedTarget(s, t.range.start))
      || ((s[t.range.start] == '`' || s[t.range.start] == '}') && t == FragmentTarget(s, t.range.start)))
  }

  /** bs are well-formed body targets of s in source order, none overlapping
      the next and all ending by pos. */
  predicate InOrder(s: string, bs: seq<Target>, pos: nat) {
    && (forall i :: 0 <= i < |bs| ==> WellFormed(s, bs[i]) && bs[i].range.end <= pos)
    && (forall i :: 0 <= i < |bs| - 1 ==> bs[i].range.end <= bs[i + 1].range.start)
  }

  /** What holds after every iteration of the loop. */
  predicate Invariant(s: string, st: State) {
    st.pos <= |s| && InOrder(s, StateBodies(st), st.pos) && StateSolid(st)
  }

  /** The body target a step adds: one for a quoted literal, one for a
      template fragment, none for anything else. */
  function NewBodies(s: string, st: State): seq<Target>
    requires st.pos < |s|
  {
    var p := st.pos;
    if s[p] == '"' || s[p] == '\'' then [QuotedTarget(s, p)]
    else if s[p] == '`' || (s[p] == '}' && InterpolationCloses(st)) then [FragmentTarget(s, p)]
    else []
  }

  lemma TemplateStepBodies(s: string, st: State, p: nat)
    requires p < |s| && (s[p] == '`' || s[p] == '}')
    ensures StateBodies(TemplateStep(s, st, p)) == StateBodies(st) + [FragmentTarget(s, p)]
    ensures Solid(st.root) && (forall i :: 0 <= i < |st.stack| ==> Solid(st.stack[i].partials)) ==>
              StateSolid(TemplateStep(s, st, p))
  {
    var t := FragmentTarget(s, p);
    var appended := AppendTarget(st, t);
    AppendTargetBodies(st, t);
    BodiesOfBody(t);
    PushBodies(appended);
    PopBodies(appended);
    if Solid(st.root) && (forall i :: 0 <= i < |st.stack| ==> Solid(st.stack[i].partials)) {
      AppendBodySolid(st, t);
      if t.closing == "${" { PushSolid(appended); } else { PopSolid(appended); }
    }
  }

  /** Every quoted literal and every template fragment the loop meets yields
      exactly one body target, appended after all earlier ones; nothing else
      adds one. */
  lemma StepBodies(s: string, st: State)
    requires st.pos < |s|
    ensures StateBodies(Step(s, st)) == StateBodies(st) + NewBodies(s, st)
  {
    var p := st.pos;
    var m := MatchAt(s, p);
    if s[p] == '"' || s[p] == '\'' {
      var current := if st.stack != [] && Top(st).brackets != [] then Push(st) else st;
      PushBodies(st);
      AppendTargetBodies(current, QuotedTarget(s, p));
      BodiesOfBody(QuotedTarget(s, p));
    } else if s[p] == '`' {
      PushBodies(st);
      TemplateStepBodies(s, Push(st), p);
    } else if s[p] == '}' && InterpolationCloses(st) {
      PopBodies(st);
      TemplateStepBodies(s, Pop(st), p);
    } else if m.Some? && m.value.token.CurlyKet? {
      BracketStepBodies(st, '}');
    } else if m.Some? && m.value.token.Bracket? {
      BracketStepBodies(st, s[p]);
    }
  }

  lemma InOrderAppend(s: string, bs: seq<Target>, pos: nat, nb: seq<Target>, pos': nat)
    requires InOrder(s, bs, pos) && pos <= pos'
    requires forall i :: 0 <= i < |nb| ==> WellFormed(s, nb[i]) && pos <= nb[i].range.start && nb[i].range.end <= pos'
    requires |nb| <= 1
    ensures InOrder(s, bs + nb, pos')
  {
  }

  lemma QuotedTargetInside(s: string, p: nat)
    requires p < |s| && (s[p] == '"' || s[p] == '\'')
    ensures WellFormed(s, QuotedTarget(s, p)) && p < QuotedTarget(s, p).range.end
  {
  }

  lemma FragmentTargetInside(s: string, p: nat)
    requires p < |s| && (s[p] == '`' || s[p] == '}')
    ensures WellFormed(s, FragmentTarget(s, p)) && p < FragmentTarget(s, p).range.end
  {
  }

  /** The body target a step adds lies between the old and the new scan position. */
  lemma NewBodiesWithin(s: string, st: State)
    requires st.pos < |s|
    ensures forall i :: 0 <= i < |NewBodies(s, st)| ==>
      var t := NewBodies(s, st)[i];
      WellFormed(s, t) && st.pos <= t.range.start && t.range.end <= Step(s, st).pos
  {
    var p := st.pos;
    if s[p] == '"' || s[p] == '\'' {
      QuotedTargetInside(s, p);
    } else if s[p] == '`' {
      FragmentTargetInside(s, p);
    } else if s[p] == '}' && InterpolationCloses(st) {
      FragmentTargetInside(s, p);
      StepCurlyKet(s, st);
    }
  }

  /** A quoted literal opens a fresh group first when the current one is
      inside brackets, then yields its body target. */
  lemma StepQuoted(s: string, st: State)
    requires st.pos < |s| && (s[st.pos] == '"' || s[st.pos] == '\'')
    ensures var current := if st.stack != [] && Top(st).brackets != [] then Push(st) else st;
      Step(s, st) == AppendTarget(current, QuotedTarget(s, st.pos)).(pos := QuotedTarget(s, st.pos).range.end)
  {
  }

  /** A backtick opens a group and reads the template fragment after it. */
  lemma StepBacktick(s: string, st: State)
    requires st.pos < |s| && s[st.pos] == '`'
    ensures Step(s, st) == TemplateStep(s, Push(st), st.pos)
  {
  }

  /** An opening bracket or a `)` or `]` only updates the bracket stack. */
  lemma StepBracket(s: string, st: State)
    requires st.pos < |s| && s[st.pos] in "()[]{"
    ensures IsOpener(s[st.pos]) || IsCloser(s[st.pos])
    ensures Step(s, st) == BracketStep(st, s[st.pos]).(pos := st.pos + 1)
  {
  }

  /** Anything else moves the scan position and nothing more. */
  lemma StepOther(s: string, st: State)
    requires st.pos < |s| && s[st.pos] !in "\"'`()[]{}"
    ensures Step(s, st) == st.(pos := Step(s, st).pos)
  {
  }

  lemma StepQuotedSolid(s: string, st: State)
    requires st.pos < |s| && (s[st.pos] == '"' || s[st.pos] == '\'') && StateSolid(st)
    ensures StateSolid(Step(s, st))
  {
    StepQuoted(s, st);
    if st.stack != [] && Top(st).brackets != [] {
      PushKeepsPartialsSolid(st);
      AppendBodySolid(Push(st), QuotedTarget(s, st.pos));
    } else {
      AppendBodySolid(st, QuotedTarget(s, st.pos));
    }
  }

  lemma StepBacktickSolid(s: string, st: State)
    requires st.pos < |s| && s[st.pos] == '`' && StateSolid(st)
    ensures StateSolid(Step(s, st))
  {
    StepBacktick(s, st);
    PushKeepsPartialsSolid(st);
    TemplateStepBodies(s, Push(st), st.pos);
  }

  lemma StepCurlyKetSolid(s: string, st: State)
    requires st.pos < |s| && s[st.pos] == '}' && StateSolid(st)
    ensures StateSolid(Step(s, st))
  {
    StepCurlyKet(s, st);
    if InterpolationCloses(st) {
      PopSolid(st);
      PopSolidPartials(st);
      TemplateStepBodies(s, Pop(st), st.pos);
    } else {
      BracketStepSolid(st, '}');
    }
  }

  /** One iteration keeps every group solid. */
  lemma StepSolid(s: string, st: State)
    requires st.pos < |s| && StateSolid(st)
    ensures StateSolid(Step(s, st))
  {
    var p := st.pos;
    if s[p] == '"' || s[p] == '\'' {
      StepQuotedSolid(s, st);
    } else if s[p] == '`' {
      StepBacktickSolid(s, st);
    } else if s[p] == '}' {
      StepCurlyKetSolid(s, st);
    } else if s[p] in "()[]{" {
      StepBracket(s, st);
      BracketStepSolid(st, s[p]);
    } else {
      StepOther(s, st);
    }
  }

  /** One iteration keeps the invariant. */
  lemma StepInvariant(s: string, st: State)
    requires st.pos < |s| && Invariant(s, st)
    ensures Invariant(s, Step(s, st))
  {
    StepBodies(s, st);
    StepSolid(s, st);
    NewBodiesWithin(s, st);
    InOrderAppend(s, StateBodies(st), st.pos, NewBodies(s, st), Step(s, st).pos);
  }

  /** A pushed group's frame keeps every frame's partials solid. */
  lemma PushKeepsPartialsSolid(st: State)
    requires StateSolid(st)
    ensures Solid(Push(st).root)
    ensures forall i :: 0 <= i < |Push(st).stack| ==> Solid(Push(st).stack[i].partials)
  {
  }

  /** Closing the top group keeps every remaining frame's partials solid. */
  lemma PopSolidPartials(st: State)
    requires StateSolid(st)
    ensures forall i :: 0 <= i < |Pop(st).stack| ==> Solid(Pop(st).stack[i].partials)
  {
    PopSolid(st);
  }

  /** The loop keeps the invariant to the end of the source. */
  lemma {:induction false} RunInvariant(s: string, st: State)
    requires Invariant(s, st)
    ensures Invariant(s, Run(s, st))
    decreases |s| - st.pos
  {
    if st.pos < |s| {
      StepInvariant(s, st);
      RunInvariant(s, Step(s, st));
    }
  }

  lemma {:induction false} NestSolid(stack: seq<Frame>)
    requires stack != [] && FramesSolid(stack)
    ensures Solid([Nest(stack)])
    decreases |stack|
  {
    var n := Nest(stack);
    var p0 := stack[0].partials;
    assert stack[0..] == stack;
    assert FramesBodies(stack) == Bodies(p0) + FramesBodies(stack[1..]);
    if |stack| == 1 {
      assert n.partials == p0;
      assert stack[1..] == [];
    } else {
      var rest := stack[1..];
      assert forall i :: 0 <= i < |rest| ==> rest[i..] == stack[i + 1..];
      assert FramesSolid(rest);
      NestSolid(rest);
      SolidConcat(p0, [Nest(rest)]);
      BodiesConcat(p0, [Nest(rest)]);
      BodiesNest(rest);
    }
  }

  /** A solid state shows a solid object graph. */
  lemma TreeSolid(st: State)
    requires StateSolid(st)
    ensures Solid(Tree(st))
  {
    if st.stack != [] {
      NestSolid(st.stack);
      SolidConcat(st.root, [Nest(st.stack)]);
    } else {
      assert Tree(st) == st.root;
    }
  }

  // ---------------------------------------------------------------------
  // finalizeTargets
  // ---------------------------------------------------------------------

  /** The list finalizeTargets leaves: bracket stacks dropped, groups that
      were empty removed, the others finalized in turn. A group whose
      partials all get removed is itself kept. */
  function Finalized(l: seq<Target>): (r: seq<Target>)
    ensures |r| <= |l|
    decreases l
  {
    if l == [] then []
    else
      (if l[0].Body? then [l[0]]
       else if l[0].partials == [] then []
       else [Group(Finalized(l[0].partials), None)])
      + Finalized(l[1..])
  }

  /** No group carries a bracket stack, at any depth. */
  predicate NoBracketStacks(l: seq<Target>)
    decreases l
  {
    forall i :: 0 <= i < |l| && l[i].Group? ==> l[i].bracketStack.None? && NoBracketStacks(l[i].partials)
  }

  /** No group is empty, at any depth. */
  predicate NoEmptyGroups(l: seq<Target>)
    decreases l
  {
    forall i :: 0 <= i < |l| && l[i].Group? ==> l[i].partials != [] && NoEmptyGroups(l[i].partials)
  }

  lemma NoBracketStacksCons(t: Target, l: seq<Target>)
    requires t.Body? || (t.bracketStack.None? && NoBracketStacks(t.partials))
    requires NoBracketStacks(l)
    ensures NoBracketStacks([t] + l)
  {
    assert forall i :: 0 < i < |[t] + l| ==> ([t] + l)[i] == l[i - 1];
  }

  lemma NoEmptyGroupsCons(t: Target, l: seq<Target>)
    requires t.Body? || (t.partials != [] && NoEmptyGroups(t.partials))
    requires NoEmptyGroups(l)
    ensures NoEmptyGroups([t] + l)
  {
    assert forall i :: 0 < i < |[t] + l| ==> ([t] + l)[i] == l[i - 1];
  }

  /** Finalizing keeps every body target, in order. */
  lemma {:induction false} FinalizedBodies(l: seq<Target>)
    ensures Bodies(Finalized(l)) == Bodies(l)
    decreases l
  {
    if l != [] {
      var head := if l[0].Body? then [l[0]] else if l[0].partials == [] then [] else [Group(Finalized(l[0].partials), None)];
      BodiesConcat(head, Finalized(l[1..]));
      FinalizedBodies(l[1..]);
      if l[0].Body? {
        BodiesOfBody(l[0]);
      } else if l[0].partials != [] {
        FinalizedBodies(l[0].partials);
        assert [Group(Finalized(l[0].partials), None)][1..] == [];
      }
    }
  }

  /** Finalizing drops every bracket stack. */
  lemma {:induction false} FinalizedNoBracketStacks(l: seq<Target>)
    ensures NoBracketStacks(Finalized(l))
    decreases l
  {
    if l != [] {
      FinalizedNoBracketStacks(l[1..]);
      if l[0].Body? {
        NoBracketStacksCons(l[0], Finalized(l[1..]));
      } else if l[0].partials != [] {
        FinalizedNoBracketStacks(l[0].partials);
        NoBracketStacksCons(Group(Finalized(l[0].partials), None), Finalized(l[1..]));
      } else {
        assert Finalized(l) == Finalized(l[1..]);
      }
    }
  }

  /** Finalizing a solid list leaves no empty group at any depth, although
      finalizeTargets removes only groups that were empty before it looked
      inside them. */
  lemma {:induction false} FinalizedNoEmptyGroups(l: seq<Target>)
    requires Solid(l)
    ensures NoEmptyGroups(Finalized(l))
    decreases l
  {
    if l != [] {
      assert Solid(l[1..]) by {
        assert forall i :: 0 <= i < |l[1..]| ==> l[1..][i] == l[i + 1];
      }
      FinalizedNoEmptyGroups(l[1..]);
      if l[0].Body? {
        NoEmptyGroupsCons(l[0], Finalized(l[1..]));
      } else if l[0].partials != [] {
        var ps := l[0].partials;
        FinalizedNoEmptyGroups(ps);
        FinalizedBodies(ps);
        assert Finalized(ps) != [];
        NoEmptyGroupsCons(Group(Finalized(ps), None), Finalized(l[1..]));
      } else {
        assert Finalized(l) == Finalized(l[1..]);
      }
    }
  }

  lemma FinalizedAt(ts: seq<Target>, i: nat)
    requires i < |ts|
    ensures Finalized(ts[i..]) ==
      (if ts[i].Body? then [ts[i]]
       else if ts[i].partials == [] then []
       else [Group(Finalized(ts[i].partials), None)]) + Finalized(ts[i + 1..])
  {
    assert ts[i..][0] == ts[i];
    assert ts[i..][1..] == ts[i + 1..];
  }

  /** Splicing out an empty group at i keeps what the finished prefix and
      the finalized rest make together. */
  lemma SpliceKeeps(ts: seq<Target>, i: nat, whole: seq<Target>)
    requires i < |ts| && ts[i].Group? && ts[i].partials == []
    requires ts[..i] + Finalized(ts[i..]) == whole
    ensures var ts' := ts[..i] + ts[i + 1..];
      ts'[..i] + Finalized(ts'[i..]) == whole && ts'[i..] == ts[i + 1..]
  {
    FinalizedAt(ts, i);
    var ts' := ts[..i] + ts[i + 1..];
    assert ts'[..i] == ts[..i];
    assert ts'[i..] == ts[i + 1..];
  }

  /** Replacing element i by its finalized form keeps what the finished
      prefix, now one longer, and the finalized rest make together. */
  lemma ReplaceKeeps(ts: seq<Target>, i: nat, t: Target, whole: seq<Target>)
    requires i < |ts| && (ts[i].Body? || ts[i].partials != [])
    requires t == if ts[i].Body? then ts[i] else Group(Finalized(ts[i].partials), None)
    requires ts[..i] + Finalized(ts[i..]) == whole
    ensures var ts' := ts[i := t];
      ts'[..i + 1] + Finalized(ts'[i + 1..]) == whole && ts'[i + 1..] == ts[i + 1..]
  {
    FinalizedAt(ts, i);
    var ts' := ts[i := t];
    assert ts'[..i + 1] == ts[..i] + [t];
    assert ts'[i + 1..] == ts[i + 1..];
    ConcatAssoc(ts[..i], [t], Finalized(ts[i + 1..]));
  }

  /** finalizeTargets: the loop over the list that splices out empty groups
      (stepping back so the next element is not skipped) and recurses into
      the others. */
  method FinalizeTargets(targets: seq<Target>) returns (r: seq<Target>)
    ensures r == Finalized(targets)
    decreases targets
  {
    var ts := targets;
    var i := 0;
    ghost var j := 0;
    assert ts[..0] + Finalized(ts[0..]) == Finalized(targets) by {
      assert ts[0..] == targets;
    }
    while i < |ts|
      invariant 0 <= i <= |ts| && 0 <= j <= |targets|
      invariant ts[i..] == targets[j..]
      invariant ts[..i] + Finalized(ts[i..]) == Finalized(targets)
      decreases |ts| - i
    {
      var target := ts[i];
      assert target == targets[j];
      if target.Group? && |target.partials| == 0 {
        SpliceKeeps(ts, i, Finalized(targets));
        ts := ts[..i] + ts[i + 1..];
      } else {
        var t := target;
        if target.Group? {
          var inner := FinalizeTargets(target.partials);
          t := Group(inner, None);
        }
        ReplaceKeeps(ts, i, t, Finalized(targets));
        ts := ts[i := t];
        i := i + 1;
      }
      j := j + 1;
    }
    assert ts[..i] == ts && ts[i..] == [];
    r := ts;
  }

  // ---------------------------------------------------------------------
  // parse
  // ---------------------------------------------------------------------

  /** What parse returns for source. */
  function ParseSpec(source: string): seq<Target> {
    Finalized(Tree(Run(source, Initial)))
  }

  /** The parse result: its body targets are exactly those the loop
      recorded, each well formed and in source order without overlap; no
      group keeps a bracket stack and none is empty. */
  lemma ParseSpecProperties(source: string)
    ensures var r := ParseSpec(source);
      && Bodies(r) == StateBodies(Run(source, Initial))
      && InOrder(source, Bodies(r), |source|)
      && NoBracketStacks(r) && NoEmptyGroups(r)
  {
    var fin := Run(source, Initial);
    assert Invariant(source, Initial) by {
      assert StateBodies(Initial) == [];
    }
    RunInvariant(source, Initial);
    BodiesTree(fin);
    FinalizedBodies(Tree(fin));
    FinalizedNoBracketStacks(Tree(fin));
    TreeSolid(fin);
    FinalizedNoEmptyGroups(Tree(fin));
  }

  /** parse: the scanning loop, then finalizeTargets on the root list. */
  method Parse(source: string) returns (targets: seq<Target>)
    ensures targets == ParseSpec(source)
    ensures InOrder(source, Bodies(targets), |source|)
    ensures NoBracketStacks(targets) && NoEmptyGroups(targets)
  {
    var st := Initial;
    while st.pos < |source|
      invariant st.pos <= |source|
      invariant Run(source, st) == Run(source, Initial)
      decreases |source| - st.pos
    {
      st := Step(source, st);
    }
    targets := FinalizeTargets(Tree(st));
    ParseSpecProperties(source);
  }
}
