/**
 * The traversal ("accept") methods of the extended-language tree nodes: a node calls the
 * visitor before, between and after its children, lets each child traverse itself, and
 * splices the nodes a child asks to be replaced by into its own list of children.
 *
 * The visitor, and the traversal a child performs on itself, are outside the model: they
 * are the environment `respond`, whose answer to the `n`-th call a node makes (counting
 * from 0) is `respond(n, call)`.
 */
module Visitor {
  import opened Wrappers

  // ---------------------------------------------------------------------------
  // Nodes

  /** An expression; the traversal never looks inside one. */
  datatype Expression = Expression(code: string)

  /** A statement of an executable line; `goto <label>` is the only kind the traversal names. */
  datatype Statement = GoToLabelStatement(target: string) | OtherStatement(code: string)

  /** A top-level line of a program. */
  datatype ExtLine =
    | ExecutableLineNode(lineLabel: string, statements: seq<Statement>)
    | ConstDeclarationNode(name: string, value: Expression)
    | OtherLine(kind: string)

  /** Any node a visitor may hand back as a replacement. */
  datatype Node =
    | LineNode(line: ExtLine)
    | StatementNode(statement: Statement)
    | ExpressionNode(expression: Expression)
    | OtherNode(kind: string)

  /** The type assertions a replacement node must pass to go into a list of lines. */
  function AsExtLine(n: Node): Option<ExtLine>
  {
    if n.LineNode? then Some(n.line) else None
  }

  /** ... into a list of statements. */
  function AsStatement(n: Node): Option<Statement>
  {
    if n.StatementNode? then Some(n.statement) else None
  }

  /** ... into an expression slot. */
  function AsExpression(n: Node): Option<Expression>
  {
    if n.ExpressionNode? then Some(n.expression) else None
  }

  // ---------------------------------------------------------------------------
  // Talking to the visitor

  /** Why a node calls the visitor: before its children, between them (with the index of the next one), after them, or as a leaf. */
  datatype VisitType = PreVisit | PostVisit | SingleVisit | Index(i: nat)

  /** A call a node makes: to the visitor about itself, or to a child's own traversal. */
  datatype Call<T> = Visit(visitType: VisitType) | ChildAccept(child: T)

  /** What a call returns: nothing, a request to replace the node by `nodes`, or any other error. */
  datatype Answer = Nil | Replacement(nodes: seq<Node>) | Error(message: string)

  /** How a traversal ends: it returns an answer to its caller, or the program panics. */
  datatype Outcome = Return(answer: Answer) | Panic

  /** A traversal of a node with children of type `T`: the children afterwards, the calls made, in order, and how it ended. */
  datatype Run<T> = Run(children: seq<T>, trace: seq<Call<T>>, outcome: Outcome)

  // ---------------------------------------------------------------------------
  // Splicing

  /** Every one of `nodes` passes `cast` (the type assertion of the source); if so, the cast values, in order. */
  function CastAll<T>(nodes: seq<Node>, cast: Node -> Option<T>): (r: Option<seq<T>>)
    ensures r.Some? ==> |r.value| == |nodes|
  {
    if forall k :: 0 <= k < |nodes| ==> cast(nodes[k]).Some? then
      Some(seq(|nodes|, k requires 0 <= k < |nodes| && cast(nodes[k]).Some? => cast(nodes[k]).value))
    else None
  }

  /**
   * `xs` with its element at `position` replaced by `nodes`, each of which must pass
   * `cast`; `None` stands for the panic when one does not.
   */
  function Patch<T>(xs: seq<T>, position: nat, nodes: seq<Node>, cast: Node -> Option<T>): (r: Option<seq<T>>)
    requires position < |xs|
    ensures r.Some? <==> CastAll(nodes, cast).Some?
    ensures r.Some? ==> |r.value| == |xs| + |nodes| - 1
    ensures r.Some? ==> r.value[..position] == xs[..position]
    ensures r.Some? ==> r.value[position + |nodes|..] == xs[position + 1..]
  {
    match CastAll(nodes, cast)
    case None => None
    case Some(ys) =>
      var r := xs[..position] + ys + xs[position + 1..];
      assert r[position + |nodes|..] == xs[position + 1..];
      Some(r)
  }

  /**
   * Patching fails exactly when some replacement node does not pass `cast`, and otherwise
   * puts the replacement nodes, in order, where the patched element was.
   */
  lemma PatchPlacesReplacement<T>(xs: seq<T>, position: nat, nodes: seq<Node>, cast: Node -> Option<T>)
    requires position < |xs|
    ensures Patch(xs, position, nodes, cast).Some? <==> forall k :: 0 <= k < |nodes| ==> cast(nodes[k]).Some?
    ensures Patch(xs, position, nodes, cast).Some? ==>
              forall k :: 0 <= k < |nodes| ==> cast(nodes[k]) == Some(Patch(xs, position, nodes, cast).value[position + k])
  {
    if CastAll(nodes, cast).Some? {
      var ys := CastAll(nodes, cast).value;
      var r := Patch(xs, position, nodes, cast).value;
      assert r == xs[..position] + ys + xs[position + 1..];
      assert forall k :: 0 <= k < |nodes| ==> r[position + k] == ys[k];
    }
  }

  // ---------------------------------------------------------------------------
  // The traversal of a node with a list of children, as a function

  /** A node's whole traversal: the pre-visit, then, if that answers `Nil`, the children and the post-visit. */
  function AcceptSpec<T>(orig: seq<T>, respond: (nat, Call<T>) -> Answer, cast: Node -> Option<T>): (r: Run<T>)
    ensures |r.trace| > 0 && r.trace[0] == Visit(PreVisit)
  {
    var answer := respond(0, Visit(PreVisit));
    if answer != Nil then Run(orig, [Visit(PreVisit)], Return(answer))
    else Traverse(orig, 0, [], [Visit(PreVisit)], respond, cast)
  }

  /** A call's answer lets the traversal go on: `Nil`, or from a child a replacement that can be spliced in. */
  predicate GoesOn<T>(call: Call<T>, answer: Answer, cast: Node -> Option<T>)
  {
    match call
    case Visit(_) => answer == Nil
    case ChildAccept(_) => answer.Nil? || (answer.Replacement? && CastAll(answer.nodes, cast).Some?)
  }

  /** How a traversal whose last call was `call`, answered by `answer`, ends. */
  function Ending<T>(call: Call<T>, answer: Answer): Outcome
  {
    if call.ChildAccept? && answer.Replacement? then Panic else Return(answer)
  }

  /** What a call puts into the list of children: a child that answered `Nil` stays, one that asked to be replaced becomes its replacement. */
  function Contribution<T>(call: Call<T>, answer: Answer, cast: Node -> Option<T>): seq<T>
  {
    match call
    case Visit(_) => []
    case ChildAccept(child) =>
      match answer
      case Nil => [child]
      case Replacement(nodes) => (match CastAll(nodes, cast) case Some(xs) => xs case None => [])
      case Error(_) => []
  }

  /**
   * The rest of a traversal once the children before `orig[j]` are done: `done` is what they
   * have become and `trace` the calls made so far. Child `orig[j]` gets its index visit and,
   * if that answers `Nil`, its own traversal; the traversal goes on past it when that answers
   * `Nil` or a replacement that can be spliced in, and otherwise ends with the rest of the
   * children as they were.
   */
  function Traverse<T>(orig: seq<T>, j: nat, done: seq<T>, trace: seq<Call<T>>,
                       respond: (nat, Call<T>) -> Answer, cast: Node -> Option<T>): (r: Run<T>)
    requires j <= |orig|
    ensures |r.trace| > |trace| && (|trace| > 0 ==> r.trace[0] == trace[0])
    decreases |orig| - j
  {
    if j == |orig| then
      Run(done, trace + [Visit(PostVisit)], Return(respond(|trace|, Visit(PostVisit))))
    else
      var visit, child := Visit(Index(|done|)), ChildAccept(orig[j]);
      var answer := respond(|trace|, visit);
      if answer != Nil then Run(done + orig[j..], trace + [visit], Ending(visit, answer))
      else
        var reply := respond(|trace| + 1, child);
        if !GoesOn(child, reply, cast) then Run(done + orig[j..], trace + [visit, child], Ending(child, reply))
        else Traverse(orig, j + 1, done + Contribution(child, reply, cast), trace + [visit, child], respond, cast)
  }

  // ---------------------------------------------------------------------------
  // The same traversal, described call by call

  /** The children that the calls of `trace` (the `p`-th answered by `respond(p, _)`) leave behind, in order. */
  function Results<T>(trace: seq<Call<T>>, respond: (nat, Call<T>) -> Answer, cast: Node -> Option<T>): seq<T>
  {
    if trace == [] then []
    else
      var n := |trace| - 1;
      Results(trace[..n], respond, cast) + Contribution(trace[n], respond(n, trace[n]), cast)
  }

  /** The children whose own traversal `trace` calls, in order. */
  function Traversed<T>(trace: seq<Call<T>>): seq<T>
  {
    if trace == [] then []
    else
      var last := trace[|trace| - 1];
      Traversed(trace[..|trace| - 1]) + if last.ChildAccept? then [last.child] else []
  }

  /**
   * The order of the calls: the pre-visit first and only there; each child's traversal right
   * after an index visit naming the position the child has in the list patched so far; each
   * index visit but a last one followed by a child's traversal; the post-visit only last.
   */
  ghost predicate CallOrder<T>(t: seq<Call<T>>, respond: (nat, Call<T>) -> Answer, cast: Node -> Option<T>)
  {
    && |t| > 0 && t[0] == Visit(PreVisit)
    && forall p :: 0 <= p < |t| ==> InOrderAt(t, p, respond, cast)
  }

  /** Call `p` of `t` is where the order of the calls puts it. */
  ghost predicate InOrderAt<T>(t: seq<Call<T>>, p: nat, respond: (nat, Call<T>) -> Answer, cast: Node -> Option<T>)
    requires p < |t|
  {
    && (p > 0 ==> t[p] != Visit(PreVisit) && t[p] != Visit(SingleVisit))
    && (t[p].ChildAccept? ==> 1 <= p && t[p - 1] == Visit(Index(|Results(t[..p - 1], respond, cast)|)))
    && (p < |t| - 1 && IsIndexVisit(t[p]) ==> t[p + 1].ChildAccept?)
    && (p < |t| - 1 ==> t[p] != Visit(PostVisit))
  }

  predicate IsIndexVisit<T>(call: Call<T>)
  {
    call.Visit? && call.visitType.Index?
  }

  /**
   * Only original children are traversed, each at most once and in their order, and every
   * one of them when the traversal gets to the post-visit.
   */
  ghost predicate VisitsOriginal<T>(orig: seq<T>, t: seq<Call<T>>)
  {
    && |t| > 0
    && |Traversed(t)| <= |orig| && Traversed(t) == orig[..|Traversed(t)|]
    && (t[|t| - 1] == Visit(PostVisit) ==> Traversed(t) == orig)
  }

  /**
   * From call `from` on, every call but the last went on, the last one did not unless it is
   * the post-visit, and its answer decides how the run ended.
   */
  ghost predicate StopsAtFirstRefusal<T>(r: Run<T>, from: nat, respond: (nat, Call<T>) -> Answer, cast: Node -> Option<T>)
  {
    var n := |r.trace| - 1;
    && n >= from
    && (forall p :: from <= p < n ==> GoesOn(r.trace[p], respond(p, r.trace[p]), cast))
    && r.outcome == Ending(r.trace[n], respond(n, r.trace[n]))
    && (r.trace[n] != Visit(PostVisit) ==> !GoesOn(r.trace[n], respond(n, r.trace[n]), cast))
  }

  /**
   * The children a run leaves: what the calls before its last one left behind, then the
   * original children from the first one it did not get past.
   */
  ghost predicate ChildrenAfter<T>(orig: seq<T>, r: Run<T>, respond: (nat, Call<T>) -> Answer, cast: Node -> Option<T>)
  {
    && |r.trace| > 0
    && var front := r.trace[..|r.trace| - 1];
       && |Traversed(front)| <= |orig|
       && r.children == Results(front, respond, cast) + orig[|Traversed(front)|..]
  }

  lemma TraversedSnoc<T>(t: seq<Call<T>>, c: Call<T>)
    ensures Traversed(t + [c]) == Traversed(t) + if c.ChildAccept? then [c.child] else []
  {
    var t', n := t + [c], |t|;
    assert t'[..n] == t;
    assert Traversed(t') == Traversed(t'[..n]) + if t'[n].ChildAccept? then [t'[n].child] else [];
  }

  lemma ResultsSnoc<T>(t: seq<Call<T>>, c: Call<T>, respond: (nat, Call<T>) -> Answer, cast: Node -> Option<T>)
    ensures Results(t + [c], respond, cast) == Results(t, respond, cast) + Contribution(c, respond(|t|, c), cast)
  {
    var t', n := t + [c], |t|;
    assert t'[..n] == t;
    assert Results(t', respond, cast) == Results(t'[..n], respond, cast) + Contribution(t'[n], respond(n, t'[n]), cast);
  }

  /** A visit traverses no child and leaves none behind. */
  lemma VisitAddsNothing<T>(t: seq<Call<T>>, v: VisitType, respond: (nat, Call<T>) -> Answer, cast: Node -> Option<T>)
    ensures Traversed(t + [Visit(v)]) == Traversed(t)
    ensures Results(t + [Visit(v)], respond, cast) == Results(t, respond, cast)
  {
    TraversedSnoc(t, Visit(v));
    ResultsSnoc(t, Visit(v), respond, cast);
    assert Traversed(t) + [] == Traversed(t) && Results(t, respond, cast) + [] == Results(t, respond, cast);
  }

  /** Appending a call that respects the order keeps the order. */
  lemma CallOrderSnoc<T>(t: seq<Call<T>>, c: Call<T>, respond: (nat, Call<T>) -> Answer, cast: Node -> Option<T>)
    requires CallOrder(t, respond, cast)
    requires c != Visit(PreVisit) && c != Visit(SingleVisit) && t[|t| - 1] != Visit(PostVisit)
    requires c.ChildAccept? ==> t[|t| - 1] == Visit(Index(|Results(t[..|t| - 1], respond, cast)|))
    requires IsIndexVisit(t[|t| - 1]) ==> c.ChildAccept?
    ensures CallOrder(t + [c], respond, cast)
  {
    var t' := t + [c];
    forall p | 0 <= p < |t'|
      ensures InOrderAt(t', p, respond, cast)
    {
      if p < |t| {
        assert InOrderAt(t, p, respond, cast);
        assert t'[p] == t[p];
        if 1 <= p {
          assert t'[p - 1] == t[p - 1] && t'[..p - 1] == t[..p - 1];
        }
        if p < |t| - 1 {
          assert t'[p + 1] == t[p + 1];
        }
      } else {
        assert t'[p - 1] == t[|t| - 1] && t'[..p - 1] == t[..|t| - 1];
      }
    }
  }

  /** A traversal only adds calls after the ones already made. */
  lemma {:induction false} TraverseExtends<T>(orig: seq<T>, j: nat, done: seq<T>, trace: seq<Call<T>>,
                                              respond: (nat, Call<T>) -> Answer, cast: Node -> Option<T>)
    requires j <= |orig|
    ensures var t := Traverse(orig, j, done, trace, respond, cast).trace;
            |t| > |trace| && t[..|trace|] == trace
    decreases |orig| - j
  {
    if j < |orig| {
      var visit, child := Visit(Index(|done|)), ChildAccept(orig[j]);
      var reply := respond(|trace| + 1, child);
      TraverseStep(orig, j, done, trace, respond, cast);
      var trace' := trace + [visit] + [child];
      assert trace'[..|trace|] == trace && (trace + [visit])[..|trace|] == trace;
      if respond(|trace|, visit) == Nil && GoesOn(child, reply, cast) {
        TraverseExtends(orig, j + 1, done + Contribution(child, reply, cast), trace', respond, cast);
      }
    }
  }

  /** The rest of a traversal keeps the call order. */
  lemma {:induction false} TraverseKeepsOrder<T>(orig: seq<T>, j: nat, done: seq<T>, trace: seq<Call<T>>,
                                                 respond: (nat, Call<T>) -> Answer, cast: Node -> Option<T>)
    requires j <= |orig| && CallOrder(trace, respond, cast) && Results(trace, respond, cast) == done
    requires !IsIndexVisit(trace[|trace| - 1]) && trace[|trace| - 1] != Visit(PostVisit)
    ensures CallOrder(Traverse(orig, j, done, trace, respond, cast).trace, respond, cast)
    decreases |orig| - j
  {
    if j == |orig| {
      CallOrderSnoc(trace, Visit(PostVisit), respond, cast);
    } else {
      var visit, child := Visit(Index(|done|)), ChildAccept(orig[j]);
      var reply := respond(|trace| + 1, child);
      TraverseStep(orig, j, done, trace, respond, cast);
      StepKeepsOrder(orig[j], trace, respond, cast);
      var t := Traverse(orig, j, done, trace, respond, cast).trace;
      if respond(|trace|, visit) != Nil {
        assert t == trace + [visit];
      } else if !GoesOn(child, reply, cast) {
        assert t == trace + [visit] + [child];
      } else {
        TraverseKeepsOrder(orig, j + 1, done + Contribution(child, reply, cast), trace + [visit] + [child], respond, cast);
      }
    }
  }

  /** The index visit for the next child, and that child's traversal after it, keep the call order. */
  lemma StepKeepsOrder<T>(x: T, trace: seq<Call<T>>, respond: (nat, Call<T>) -> Answer, cast: Node -> Option<T>)
    requires CallOrder(trace, respond, cast)
    requires !IsIndexVisit(trace[|trace| - 1]) && trace[|trace| - 1] != Visit(PostVisit)
    ensures var visit := Visit(Index(|Results(trace, respond, cast)|));
            && CallOrder(trace + [visit], respond, cast)
            && CallOrder(trace + [visit] + [ChildAccept(x)], respond, cast)
            && Results(trace + [visit] + [ChildAccept(x)], respond, cast)
               == Results(trace, respond, cast) + Contribution(ChildAccept(x), respond(|trace| + 1, ChildAccept(x)), cast)
  {
    var visit := Visit(Index(|Results(trace, respond, cast)|));
    var middle := trace + [visit];
    CallOrderSnoc(trace, visit, respond, cast);
    assert middle[..|middle| - 1] == trace;
    CallOrderSnoc(middle, ChildAccept(x), respond, cast);
    VisitAddsNothing(trace, visit.visitType, respond, cast);
    ResultsSnoc(middle, ChildAccept(x), respond, cast);
  }

  /** The rest of a traversal traverses the following original children, in order, and all of them if it post-visits. */
  lemma {:induction false} TraverseVisitsOriginal<T>(orig: seq<T>, j: nat, done: seq<T>, trace: seq<Call<T>>,
                                                     respond: (nat, Call<T>) -> Answer, cast: Node -> Option<T>)
    requires j <= |orig| && Traversed(trace) == orig[..j]
    ensures VisitsOriginal(orig, Traverse(orig, j, done, trace, respond, cast).trace)
    decreases |orig| - j
  {
    var t := Traverse(orig, j, done, trace, respond, cast).trace;
    if j == |orig| {
      VisitAddsNothing(trace, PostVisit, respond, cast);
      VisitsOriginalUpTo(orig, t, j);
    } else {
      var visit, child := Visit(Index(|done|)), ChildAccept(orig[j]);
      var reply := respond(|trace| + 1, child);
      TraverseStep(orig, j, done, trace, respond, cast);
      var middle := trace + [visit];
      VisitAddsNothing(trace, visit.visitType, respond, cast);
      if respond(|trace|, visit) != Nil {
        VisitsOriginalUpTo(orig, t, j);
      } else {
        ChildTraversed(orig, j, middle);
        if !GoesOn(child, reply, cast) {
          VisitsOriginalUpTo(orig, t, j + 1);
        } else {
          TraverseVisitsOriginal(orig, j + 1, done + Contribution(child, reply, cast), middle + [child], respond, cast);
        }
      }
    }
  }

  /** Every call the rest of a traversal makes but its last goes on; the last one decides how it ends. */
  lemma {:induction false} TraverseAnswers<T>(orig: seq<T>, j: nat, done: seq<T>, trace: seq<Call<T>>,
                                              respond: (nat, Call<T>) -> Answer, cast: Node -> Option<T>)
    requires j <= |orig|
    ensures StopsAtFirstRefusal(Traverse(orig, j, done, trace, respond, cast), |trace|, respond, cast)
    decreases |orig| - j
  {
    var r := Traverse(orig, j, done, trace, respond, cast);
    var n := |trace|;
    if j == |orig| {
      assert |r.trace| == n + 1 && r.trace[n] == Visit(PostVisit);
      StopsAtLast(r, n, respond, cast);
    } else {
      var visit, child := Visit(Index(|done|)), ChildAccept(orig[j]);
      var reply := respond(n + 1, child);
      TraverseStep(orig, j, done, trace, respond, cast);
      if respond(n, visit) != Nil {
        assert |r.trace| == n + 1 && r.trace[n] == visit;
        StopsAtLast(r, n, respond, cast);
      } else if !GoesOn(child, reply, cast) {
        assert |r.trace| == n + 2 && r.trace[n] == visit && r.trace[n + 1] == child;
        StopsAtLast(r, n + 1, respond, cast);
        GoesOnBefore(r, n, respond, cast);
      } else {
        var done', trace' := done + Contribution(child, reply, cast), trace + [visit] + [child];
        TraverseAnswers(orig, j + 1, done', trace', respond, cast);
        TraverseExtends(orig, j + 1, done', trace', respond, cast);
        assert r.trace[n] == trace'[n] == visit && r.trace[n + 1] == trace'[n + 1] == child;
        GoesOnBefore(r, n + 1, respond, cast);
        GoesOnBefore(r, n, respond, cast);
      }
    }
  }

  /** A run whose last call is call `from` stops there. */
  lemma StopsAtLast<T>(r: Run<T>, from: nat, respond: (nat, Call<T>) -> Answer, cast: Node -> Option<T>)
    requires |r.trace| == from + 1 && r.outcome == Ending(r.trace[from], respond(from, r.trace[from]))
    requires r.trace[from] != Visit(PostVisit) ==> !GoesOn(r.trace[from], respond(from, r.trace[from]), cast)
    ensures StopsAtFirstRefusal(r, from, respond, cast)
  {
  }

  /** A call that went on, just before the calls from which a run stops at its first refusal, can be counted in. */
  lemma GoesOnBefore<T>(r: Run<T>, from: nat, respond: (nat, Call<T>) -> Answer, cast: Node -> Option<T>)
    requires StopsAtFirstRefusal(r, from + 1, respond, cast)
    requires GoesOn(r.trace[from], respond(from, r.trace[from]), cast)
    ensures StopsAtFirstRefusal(r, from, respond, cast)
  {
  }

  /** Traversing the next original child extends the traversed prefix by one. */
  lemma ChildTraversed<T>(orig: seq<T>, j: nat, t: seq<Call<T>>)
    requires j < |orig| && Traversed(t) == orig[..j]
    ensures Traversed(t + [ChildAccept(orig[j])]) == orig[..j + 1]
  {
    TraversedSnoc(t, ChildAccept(orig[j]));
    assert orig[..j + 1] == orig[..j] + [orig[j]];
  }

  /** A trace that has traversed the first `k` original children, and all of them if it ends with the post-visit. */
  lemma VisitsOriginalUpTo<T>(orig: seq<T>, t: seq<Call<T>>, k: nat)
    requires k <= |orig| && |t| > 0 && Traversed(t) == orig[..k]
    requires t[|t| - 1] == Visit(PostVisit) ==> k == |orig|
    ensures VisitsOriginal(orig, t)
  {
    assert orig[..|orig|] == orig;
  }

  /**
   * The children a traversal leaves: what the calls before its last one left behind, then the
   * original children from the first one it did not get past.
   */
  lemma {:induction false} TraverseChildren<T>(orig: seq<T>, j: nat, done: seq<T>, trace: seq<Call<T>>,
                                               respond: (nat, Call<T>) -> Answer, cast: Node -> Option<T>)
    requires j <= |orig| && Traversed(trace) == orig[..j] && Results(trace, respond, cast) == done
    ensures ChildrenAfter(orig, Traverse(orig, j, done, trace, respond, cast), respond, cast)
    decreases |orig| - j
  {
    var r := Traverse(orig, j, done, trace, respond, cast);
    if j == |orig| {
      ChildrenAfterStop(orig, j, done, trace, Visit(PostVisit), r, respond, cast);
    } else {
      var visit, child := Visit(Index(|done|)), ChildAccept(orig[j]);
      var reply := respond(|trace| + 1, child);
      var middle := trace + [visit];
      VisitAddsNothing(trace, visit.visitType, respond, cast);
      if respond(|trace|, visit) != Nil {
        TraverseRefused(orig, j, done, trace, respond, cast);
        ChildrenAfterStop(orig, j, done, trace, visit, r, respond, cast);
      } else if !GoesOn(child, reply, cast) {
        TraverseStops(orig, j, done, trace, respond, cast);
        ChildrenAfterStop(orig, j, done, middle, child, r, respond, cast);
      } else {
        TraverseGoesOn(orig, j, done, trace, respond, cast);
        ChildTraversed(orig, j, middle);
        ResultsSnoc(middle, child, respond, cast);
        TraverseChildren(orig, j + 1, done + Contribution(child, reply, cast), middle + [child], respond, cast);
      }
    }
  }

  /** A run that ends right after `front` and its call `last` leaves the children `front` left and the rest untouched. */
  lemma ChildrenAfterStop<T>(orig: seq<T>, j: nat, done: seq<T>, front: seq<Call<T>>, last: Call<T>, r: Run<T>,
                             respond: (nat, Call<T>) -> Answer, cast: Node -> Option<T>)
    requires j <= |orig| && Traversed(front) == orig[..j] && Results(front, respond, cast) == done
    requires r.trace == front + [last] && r.children == done + orig[j..]
    ensures ChildrenAfter(orig, r, respond, cast)
  {
    assert r.trace[..|r.trace| - 1] == front;
  }

  /** The order of a node's calls to the visitor and to its children's traversals. */
  lemma AcceptCallOrder<T>(orig: seq<T>, respond: (nat, Call<T>) -> Answer, cast: Node -> Option<T>)
    ensures CallOrder(AcceptSpec(orig, respond, cast).trace, respond, cast)
  {
    if respond(0, Visit(PreVisit)) == Nil {
      TraverseKeepsOrder(orig, 0, [], [Visit(PreVisit)], respond, cast);
    }
  }

  /**
   * Only original children are traversed, each at most once and in order (the replacement
   * nodes spliced in are never visited), and all of them when the node is post-visited.
   */
  lemma AcceptVisitsOriginalChildren<T>(orig: seq<T>, respond: (nat, Call<T>) -> Answer, cast: Node -> Option<T>)
    ensures VisitsOriginal(orig, AcceptSpec(orig, respond, cast).trace)
    ensures Visit(PostVisit) in AcceptSpec(orig, respond, cast).trace ==> Traversed(AcceptSpec(orig, respond, cast).trace) == orig
  {
    var t := AcceptSpec(orig, respond, cast).trace;
    if respond(0, Visit(PreVisit)) == Nil {
      TraversedSnoc<T>([], Visit(PreVisit));
      TraverseVisitsOriginal(orig, 0, [], [Visit(PreVisit)], respond, cast);
      AcceptCallOrder(orig, respond, cast);
      if Visit(PostVisit) in t {
        var p :| 0 <= p < |t| && t[p] == Visit(PostVisit);
        assert InOrderAt(t, p, respond, cast);
      }
    } else {
      TraversedSnoc<T>([], Visit(PreVisit));
    }
  }

  /**
   * A traversal stops at once at the first call that does not go on: every call before the last
   * went on, the node is post-visited only if all of them did, and the traversal returns the last
   * call's answer (or panics when that is a replacement it cannot splice).
   */
  lemma AcceptStopsAtFirstRefusal<T>(orig: seq<T>, respond: (nat, Call<T>) -> Answer, cast: Node -> Option<T>)
    ensures StopsAtFirstRefusal(AcceptSpec(orig, respond, cast), 0, respond, cast)
  {
    var r := AcceptSpec(orig, respond, cast);
    if respond(0, Visit(PreVisit)) == Nil {
      TraverseAnswers(orig, 0, [], [Visit(PreVisit)], respond, cast);
      assert r.trace[0] == Visit(PreVisit);
    }
  }

  /**
   * The children afterwards: what the calls before the last one left behind (each child that
   * went on, or its replacement), followed by the original children from the first one the
   * traversal did not get past.
   */
  lemma AcceptChildren<T>(orig: seq<T>, respond: (nat, Call<T>) -> Answer, cast: Node -> Option<T>)
    ensures ChildrenAfter(orig, AcceptSpec(orig, respond, cast), respond, cast)
  {
    var r := AcceptSpec(orig, respond, cast);
    TraversedSnoc<T>([], Visit(PreVisit));
    ResultsSnoc<T>([], Visit(PreVisit), respond, cast);
    if respond(0, Visit(PreVisit)) == Nil {
      TraverseChildren(orig, 0, [], [Visit(PreVisit)], respond, cast);
    } else {
      assert r.trace[..0] == [];
    }
  }

  // ---------------------------------------------------------------------------
  // The nodes

  /** A whole program: a list of top-level lines. */
  class ExtProgramm {
    var lines: seq<ExtLine>

    constructor (lines: seq<ExtLine>)
      ensures this.lines == lines
    {
      this.lines := lines;
    }

    /** Pre-visit, then for each line its index visit and its own traversal, splicing in replacements, then post-visit. */
    method Accept(respond: (nat, Call<ExtLine>) -> Answer) returns (outcome: Outcome, trace: seq<Call<ExtLine>>)
      modifies this
      ensures var r := AcceptSpec(old(lines), respond, AsExtLine);
              lines == r.children && trace == r.trace && outcome == r.outcome
    {
      ghost var orig := lines;
      var err := respond(0, Visit(PreVisit));
      trace := [Visit(PreVisit)];
      if err != Nil {
        return Return(err), trace;
      }
      ghost var spec := AcceptSpec(orig, respond, AsExtLine);
      var i: int := 0;
      ghost var j: nat, done := 0, [];
      while i < |lines|
        invariant j <= |orig| && i == |done| && lines == done + orig[j..]
        invariant Traverse(orig, j, done, trace, respond, AsExtLine) == spec
        decreases |orig| - j
      {
        ghost var before, patchedFrom, from := trace, lines, i;
        err := respond(|trace|, Visit(Index(i)));
        trace := trace + [Visit(Index(i))];
        if err != Nil {
          TraverseRefused(orig, j, done, before, respond, AsExtLine);
          return Return(err), trace;
        }
        err := respond(|trace|, ChildAccept(lines[i]));
        trace := trace + [ChildAccept(lines[i])];
        ghost var reply := err;
        if err.Replacement? {
          var patched := PatchExtLines(lines, i, err.nodes, AsExtLine);
          if patched.None? {
            assert lines[i] == orig[j];
            TraverseStops(orig, j, done, before, respond, AsExtLine);
            return Panic, trace;
          }
          lines := patched.value;
          i := i + |err.nodes| - 1;
          err := Nil;
        }
        if err != Nil {
          assert lines[i] == orig[j];
          TraverseStops(orig, j, done, before, respond, AsExtLine);
          return Return(err), trace;
        }
        i := i + 1;
        LoopStep(orig, j, done, before, trace, respond, AsExtLine, spec, patchedFrom, lines, from, i);
        done := done + Contribution(ChildAccept(orig[j]), reply, AsExtLine);
        j := j + 1;
      }
      TraverseEnd(orig, done, trace, respond, AsExtLine);
      err := respond(|trace|, Visit(PostVisit));
      trace := trace + [Visit(PostVisit)];
      return Return(err), trace;
    }
  }

  /** A line of statements. */
  class ExecutableLine {
    var statements: seq<Statement>

    constructor (statements: seq<Statement>)
      ensures this.statements == statements
    {
      this.statements := statements;
    }

    /** The same traversal as a program's, over the statements of the line. */
    method Accept(respond: (nat, Call<Statement>) -> Answer) returns (outcome: Outcome, trace: seq<Call<Statement>>)
      modifies this
      ensures var r := AcceptSpec(old(statements), respond, AsStatement);
              statements == r.children && trace == r.trace && outcome == r.outcome
    {
      ghost var orig := statements;
      var err := respond(0, Visit(PreVisit));
      trace := [Visit(PreVisit)];
      if err != Nil {
        return Return(err), trace;
      }
      ghost var spec := AcceptSpec(orig, respond, AsStatement);
      var i: int := 0;
      ghost var j: nat, done := 0, [];
      while i < |statements|
        invariant j <= |orig| && i == |done| && statements == done + orig[j..]
        invariant Traverse(orig, j, done, trace, respond, AsStatement) == spec
        decreases |orig| - j
      {
        ghost var before, patchedFrom, from := trace, statements, i;
        err := respond(|trace|, Visit(Index(i)));
        trace := trace + [Visit(Index(i))];
        if err != Nil {
          TraverseRefused(orig, j, done, before, respond, AsStatement);
          return Return(err), trace;
        }
        err := respond(|trace|, ChildAccept(statements[i]));
        trace := trace + [ChildAccept(statements[i])];
        ghost var reply := err;
        if err.Replacement? {
          var patched := PatchExtLines(statements, i, err.nodes, AsStatement);
          if patched.None? {
            assert statements[i] == orig[j];
            TraverseStops(orig, j, done, before, respond, AsStatement);
            return Panic, trace;
          }
          statements := patched.value;
          i := i + |err.nodes| - 1;
          err := Nil;
        }
        if err != Nil {
          assert statements[i] == orig[j];
          TraverseStops(orig, j, done, before, respond, AsStatement);
          return Return(err), trace;
        }
        i := i + 1;
        LoopStep(orig, j, done, before, trace, respond, AsStatement, spec, patchedFrom, statements, from, i);
        done := done + Contribution(ChildAccept(orig[j]), reply, AsStatement);
        j := j + 1;
      }
      TraverseEnd(orig, done, trace, respond, AsStatement);
      err := respond(|trace|, Visit(PostVisit));
      trace := trace + [Visit(PostVisit)];
      return Return(err), trace;
    }
  }

  /**
   * Builds `xs` with its element at `position` replaced by `nodes`, one node at a time;
   * `None` stands for the panic on the first node that does not pass `cast`.
   */
  method PatchExtLines<T>(xs: seq<T>, position: nat, nodes: seq<Node>, cast: Node -> Option<T>) returns (r: Option<seq<T>>)
    requires position < |xs|
    ensures r == Patch(xs, position, nodes, cast)
  {
    var patched := xs[..position];
    var k := 0;
    while k < |nodes|
      invariant k <= |nodes| && |patched| == position + k
      invariant patched[..position] == xs[..position]
      invariant forall m :: 0 <= m < k ==> cast(nodes[m]) == Some(patched[position + m])
    {
      var elem := cast(nodes[k]);
      if elem.None? {
        PatchRefused(xs, position, nodes, cast, k);
        return None;
      }
      patched := patched + [elem.value];
      k := k + 1;
    }
    patched := patched + xs[position + 1..];
    PatchAccepted(xs, position, nodes, cast, patched);
    return Some(patched);
  }

  /** A node that does not pass the cast makes patching fail. */
  lemma PatchRefused<T>(xs: seq<T>, position: nat, nodes: seq<Node>, cast: Node -> Option<T>, k: nat)
    requires position < |xs| && k < |nodes| && cast(nodes[k]).None?
    ensures Patch(xs, position, nodes, cast).None?
  {
  }

  /** The list built node by node is the patched list. */
  lemma PatchAccepted<T>(xs: seq<T>, position: nat, nodes: seq<Node>, cast: Node -> Option<T>, patched: seq<T>)
    requires position < |xs| && |patched| == |xs| + |nodes| - 1
    requires patched[..position] == xs[..position] && patched[position + |nodes|..] == xs[position + 1..]
    requires forall m :: 0 <= m < |nodes| ==> cast(nodes[m]) == Some(patched[position + m])
    ensures Patch(xs, position, nodes, cast) == Some(patched)
  {
    var ys := CastAll(nodes, cast).value;
    assert patched == xs[..position] + ys + xs[position + 1..];
  }

  /** A child whose index visit is answered with anything but `Nil` ends the traversal with that answer. */
  lemma TraverseRefused<T>(orig: seq<T>, j: nat, done: seq<T>, trace: seq<Call<T>>,
                           respond: (nat, Call<T>) -> Answer, cast: Node -> Option<T>)
    requires j < |orig| && respond(|trace|, Visit(Index(|done|))) != Nil
    ensures Traverse(orig, j, done, trace, respond, cast)
         == Run(done + orig[j..], trace + [Visit(Index(|done|))], Return(respond(|trace|, Visit(Index(|done|)))))
  {
  }

  /** A child whose own traversal does not go on ends the traversal as its answer says. */
  lemma TraverseStops<T>(orig: seq<T>, j: nat, done: seq<T>, trace: seq<Call<T>>,
                         respond: (nat, Call<T>) -> Answer, cast: Node -> Option<T>)
    requires j < |orig| && respond(|trace|, Visit(Index(|done|))) == Nil
    requires !GoesOn(ChildAccept(orig[j]), respond(|trace| + 1, ChildAccept(orig[j])), cast)
    ensures Traverse(orig, j, done, trace, respond, cast)
         == Run(done + orig[j..], trace + [Visit(Index(|done|))] + [ChildAccept(orig[j])],
                Ending(ChildAccept(orig[j]), respond(|trace| + 1, ChildAccept(orig[j]))))
  {
    assert trace + [Visit(Index(|done|))] + [ChildAccept(orig[j])] == trace + [Visit(Index(|done|)), ChildAccept(orig[j])];
  }

  /** A child whose own traversal goes on leaves its contribution behind, and the traversal carries on after it. */
  lemma TraverseGoesOn<T>(orig: seq<T>, j: nat, done: seq<T>, trace: seq<Call<T>>,
                          respond: (nat, Call<T>) -> Answer, cast: Node -> Option<T>)
    requires j < |orig| && respond(|trace|, Visit(Index(|done|))) == Nil
    requires GoesOn(ChildAccept(orig[j]), respond(|trace| + 1, ChildAccept(orig[j])), cast)
    ensures Traverse(orig, j, done, trace, respond, cast)
         == Traverse(orig, j + 1, done + Contribution(ChildAccept(orig[j]), respond(|trace| + 1, ChildAccept(orig[j])), cast),
                     trace + [Visit(Index(|done|))] + [ChildAccept(orig[j])], respond, cast)
  {
    assert trace + [Visit(Index(|done|))] + [ChildAccept(orig[j])] == trace + [Visit(Index(|done|)), ChildAccept(orig[j])];
  }

  /** The three ways one child's step can go, together. */
  lemma TraverseStep<T>(orig: seq<T>, j: nat, done: seq<T>, trace: seq<Call<T>>,
                        respond: (nat, Call<T>) -> Answer, cast: Node -> Option<T>)
    requires j < |orig|
    ensures var visit, child := Visit(Index(|done|)), ChildAccept(orig[j]);
            var answer, reply := respond(|trace|, visit), respond(|trace| + 1, child);
            var r := Traverse(orig, j, done, trace, respond, cast);
            && (answer != Nil ==> r == Run(done + orig[j..], trace + [visit], Return(answer)))
            && (answer == Nil && !GoesOn(child, reply, cast) ==>
                  r == Run(done + orig[j..], trace + [visit] + [child], Ending(child, reply)))
            && (answer == Nil && GoesOn(child, reply, cast) ==>
                  r == Traverse(orig, j + 1, done + Contribution(child, reply, cast), trace + [visit] + [child], respond, cast))
  {
    var child := ChildAccept(orig[j]);
    if respond(|trace|, Visit(Index(|done|))) != Nil {
      TraverseRefused(orig, j, done, trace, respond, cast);
    } else if !GoesOn(child, respond(|trace| + 1, child), cast) {
      TraverseStops(orig, j, done, trace, respond, cast);
    } else {
      TraverseGoesOn(orig, j, done, trace, respond, cast);
    }
  }

  /** After the last child, the traversal post-visits and returns the answer. */
  lemma TraverseEnd<T>(orig: seq<T>, done: seq<T>, trace: seq<Call<T>>,
                       respond: (nat, Call<T>) -> Answer, cast: Node -> Option<T>)
    ensures Traverse(orig, |orig|, done, trace, respond, cast)
         == Run(done, trace + [Visit(PostVisit)], Return(respond(|trace|, Visit(PostVisit))))
  {
  }

  /**
   * One turn of a node's loop over its children, when the child at index `i` went on: the
   * list `xs` of children, patched into `ys` when the child asked to be replaced, holds the
   * done part, what the child left behind and the children after it; the loop index `i'`
   * points just past that; and the rest of the traversal is still the whole one.
   */
  lemma LoopStep<T>(orig: seq<T>, j: nat, done: seq<T>, before: seq<Call<T>>, trace: seq<Call<T>>,
                    respond: (nat, Call<T>) -> Answer, cast: Node -> Option<T>, spec: Run<T>,
                    xs: seq<T>, ys: seq<T>, i: nat, i': int)
    requires j < |orig| && i == |done| && xs == done + orig[j..]
    requires Traverse(orig, j, done, before, respond, cast) == spec
    requires respond(|before|, Visit(Index(i))) == Nil
    requires trace == before + [Visit(Index(i))] + [ChildAccept(xs[i])]
    requires var reply := respond(|before| + 1, ChildAccept(xs[i]));
             && GoesOn(ChildAccept(xs[i]), reply, cast)
             && (reply.Nil? ==> ys == xs && i' == i + 1)
             && (reply.Replacement? ==> Patch(xs, i, reply.nodes, cast) == Some(ys) && i' == i + |reply.nodes|)
    ensures var done' := done + Contribution(ChildAccept(orig[j]), respond(|before| + 1, ChildAccept(orig[j])), cast);
            && i' == |done'| && ys == done' + orig[j + 1..]
            && Traverse(orig, j + 1, done', trace, respond, cast) == spec
  {
    assert xs[i] == orig[j];
    TraverseGoesOn(orig, j, done, before, respond, cast);
    assert xs[..|done|] == done && xs[|done| + 1..] == orig[j + 1..];
    assert orig[j..] == [orig[j]] + orig[j + 1..];
  }

  // ---------------------------------------------------------------------------
  // A constant declaration

  /** A constant declaration's traversal: the value afterwards, the calls made, and how it ended. */
  datatype ConstRun = ConstRun(value: Expression, trace: seq<Call<Expression>>, outcome: Outcome)

  /**
   * Pre-visit, traverse the value, replace it by the first replacement node if it asks to be
   * replaced (a panic when there is none, or it is not an expression), then post-visit.
   */
  function ConstAcceptSpec(value: Expression, respond: (nat, Call<Expression>) -> Answer): ConstRun
  {
    var answer := respond(0, Visit(PreVisit));
    if answer != Nil then ConstRun(value, [Visit(PreVisit)], Return(answer))
    else
      var reply := respond(1, ChildAccept(value));
      var trace := [Visit(PreVisit), ChildAccept(value)];
      match reply
      case Error(_) => ConstRun(value, trace, Return(reply))
      case Nil => ConstRun(value, trace + [Visit(PostVisit)], Return(respond(2, Visit(PostVisit))))
      case Replacement(nodes) =>
        if |nodes| == 0 || AsExpression(nodes[0]).None? then ConstRun(value, trace, Panic)
        else ConstRun(AsExpression(nodes[0]).value, trace + [Visit(PostVisit)], Return(respond(2, Visit(PostVisit))))
  }

  /**
   * Only the first replacement node counts: a replacement by `nodes` has the same effect as one
   * by `nodes[..1]`, and the value becomes that node.
   */
  lemma ConstKeepsFirstReplacement(value: Expression, nodes: seq<Node>, e: Expression,
                                   respond: (nat, Call<Expression>) -> Answer, respond': (nat, Call<Expression>) -> Answer)
    requires respond(0, Visit(PreVisit)) == Nil && respond(1, ChildAccept(value)) == Replacement(nodes)
    requires |nodes| > 0 && nodes[0] == ExpressionNode(e)
    requires forall n, c :: n != 1 ==> respond'(n, c) == respond(n, c)
    requires respond'(1, ChildAccept(value)) == Replacement(nodes[..1])
    ensures ConstAcceptSpec(value, respond).value == e
    ensures ConstAcceptSpec(value, respond) == ConstAcceptSpec(value, respond')
  {
    assert nodes[..1][0] == ExpressionNode(e);
  }

  class ConstDeclaration {
    var name: string
    var value: Expression

    constructor (name: string, value: Expression)
      ensures this.name == name && this.value == value
    {
      this.name := name;
      this.value := value;
    }

    method Accept(respond: (nat, Call<Expression>) -> Answer) returns (outcome: Outcome, trace: seq<Call<Expression>>)
      modifies this
      ensures var r := ConstAcceptSpec(old(value), respond);
              value == r.value && trace == r.trace && outcome == r.outcome
      ensures name == old(name)
    {
      var err := respond(0, Visit(PreVisit));
      trace := [Visit(PreVisit)];
      if err != Nil {
        return Return(err), trace;
      }
      err := respond(1, ChildAccept(value));
      trace := trace + [ChildAccept(value)];
      if err.Replacement? {
        if |err.nodes| == 0 || !err.nodes[0].ExpressionNode? {
          return Panic, trace;
        }
        value := err.nodes[0].expression;
        err := Nil;
      }
      if err != Nil {
        return Return(err), trace;
      }
      err := respond(2, Visit(PostVisit));
      trace := trace + [Visit(PostVisit)];
      return Return(err), trace;
    }
  }

  // ---------------------------------------------------------------------------
  // A goto statement

  /** A `goto <label>` statement is a leaf: its traversal is a single visit, whose answer it returns. */
  method GoToLabelAccept(g: Statement, respond: (nat, Call<Statement>) -> Answer) returns (outcome: Outcome, trace: seq<Call<Statement>>)
    requires g.GoToLabelStatement?
    ensures trace == [Visit(SingleVisit)]
    ensures outcome == Return(respond(0, Visit(SingleVisit)))
  {
    trace := [Visit(SingleVisit)];
    outcome := Return(respond(0, Visit(SingleVisit)));
  }
}
