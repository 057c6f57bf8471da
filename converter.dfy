/**
 * The converter object: the loop and macro-call stacks it keeps while it lowers the
 * extended-language tree, the per-line character budget, and the tail of a conversion
 * (packing the lowered lines, emitting the base-language lines, the 20-line ceiling).
 *
 * The passes a conversion runs before and after the packer are outside the model: their
 * combined results are the parameters `lowered` and `finish` of `Converter.Convert`.
 */
module Converter {
  import opened Wrappers
  import opened Nast
  import Packer
  import Visitor

  // ---------------------------------------------------------------------------
  // The stacks kept while lowering

  /** The node kinds whose visits touch the stacks; every other kind is `OtherNode`. */
  datatype NodeKind =
    | WhileLoop
    | MacroInsertion(macro: string, startLine: nat)
    | Trigger(kind: string)
    | OtherNode(kind: string)

  /** One call of the lowering visitor: the node it is about and why it is called. */
  datatype Event = Event(node: NodeKind, visitType: Visitor.VisitType)

  /**
   * The counter of while-loops met so far, the ids of the loops enclosing the node being
   * lowered (innermost last), and the names of the macro insertions enclosing it.
   */
  datatype Levels = Levels(loopcounter: nat, loopLevel: seq<nat>, macroLevel: seq<string>)

  /** The name under which a macro insertion is stacked: the macro's name, a colon, and the line it starts on. */
  function MacroCallName(macro: string, startLine: nat): (name: string)
    ensures |name| == |macro| + 1 + |Decimal(startLine)|
    ensures name[..|macro| + 1] == macro + ":"
    ensures name[|macro| + 1..] == Decimal(startLine)
  {
    var name := macro + ":" + Decimal(startLine);
    assert name[..|macro| + 1] == macro + ":";
    name
  }

  /** Distinct macro insertions stack distinct names: the name gives back the macro and its line. */
  lemma MacroCallNameIdentifies(macro1: string, line1: nat, macro2: string, line2: nat)
    requires MacroCallName(macro1, line1) == MacroCallName(macro2, line2)
    ensures macro1 == macro2 && line1 == line2
  {
    var name := MacroCallName(macro1, line1);
    LastColon(macro1, line1);
    LastColon(macro2, line2);
    assert |macro1| == |macro2|;
    assert macro1 == name[..|macro1|] == macro2;
    DecimalRoundTrip(line1);
    DecimalRoundTrip(line2);
  }

  /** The colon after the macro's name is the last one in its stacked name. */
  lemma LastColon(macro: string, startLine: nat)
    ensures var name := MacroCallName(macro, startLine);
            name[|macro|] == ':' && forall k :: |macro| < k < |name| ==> name[k] != ':'
  {
    var name := MacroCallName(macro, startLine);
    forall k | |macro| < k < |name|
      ensures name[k] != ':'
    {
      assert name[k] == name[|macro| + 1..][k - |macro| - 1];
    }
  }

  /**
   * What one visit does to the stacks: a while-loop's pre-visit stacks a fresh id and its
   * post-visit unstacks the innermost one; a macro insertion's pre-visit stacks its name and
   * the `macroleft` trigger unstacks it. `None` stands for the panic of unstacking an empty stack.
   */
  function Step(s: Levels, e: Event): Option<Levels>
  {
    match e.node
    case WhileLoop =>
      if e.visitType == Visitor.PreVisit then
        Some(s.(loopcounter := s.loopcounter + 1, loopLevel := s.loopLevel + [s.loopcounter + 1]))
      else if e.visitType == Visitor.PostVisit then
        if |s.loopLevel| == 0 then None else Some(s.(loopLevel := s.loopLevel[..|s.loopLevel| - 1]))
      else Some(s)
    case MacroInsertion(macro, startLine) =>
      if e.visitType == Visitor.PreVisit then Some(s.(macroLevel := s.macroLevel + [MacroCallName(macro, startLine)]))
      else Some(s)
    case Trigger(kind) =>
      if kind == "macroleft" then
        if |s.macroLevel| == 0 then None else Some(s.(macroLevel := s.macroLevel[..|s.macroLevel| - 1]))
      else Some(s)
    case OtherNode(_) => Some(s)
  }

  /** The stacks after a sequence of visits, or `None` if one of them panics. */
  function Replay(s: Levels, events: seq<Event>): Option<Levels>
    decreases |events|
  {
    if events == [] then Some(s)
    else
      match Step(s, events[0])
      case None => None
      case Some(s') => Replay(s', events[1..])
  }

  /** Loop ids are issued from 1 up, and the enclosing loops' ids strictly increase inwards. */
  ghost predicate ValidLevels(s: Levels)
  {
    && (forall k :: 0 <= k < |s.loopLevel| ==> 1 <= s.loopLevel[k] <= s.loopcounter)
    && (forall k, m :: 0 <= k < m < |s.loopLevel| ==> s.loopLevel[k] < s.loopLevel[m])
  }

  /** How a visit changes the depth of the loop stack. */
  function LoopDelta(e: Event): int
  {
    if e.node.WhileLoop? && e.visitType == Visitor.PreVisit then 1
    else if e.node.WhileLoop? && e.visitType == Visitor.PostVisit then -1
    else 0
  }

  /** How a visit changes the depth of the macro stack. */
  function MacroDelta(e: Event): int
  {
    if e.node.MacroInsertion? && e.visitType == Visitor.PreVisit then 1
    else if e.node == Trigger("macroleft") then -1
    else 0
  }

  /** The total change of a depth over a sequence of visits. */
  function Sum(events: seq<Event>, delta: Event -> int): int
    decreases |events|
  {
    if events == [] then 0 else delta(events[0]) + Sum(events[1..], delta)
  }

  /** Starting at `depth`, the depth never goes below zero over the sequence of visits. */
  predicate NeverBelow(events: seq<Event>, delta: Event -> int, depth: int)
    decreases |events|
  {
    events == [] || (depth + delta(events[0]) >= 0 && NeverBelow(events[1..], delta, depth + delta(events[0])))
  }

  /** Every exit from a loop or a macro in the sequence matches an entry earlier in it, and every entry an exit. */
  predicate Balanced(events: seq<Event>)
  {
    && NeverBelow(events, LoopDelta, 0) && Sum(events, LoopDelta) == 0
    && NeverBelow(events, MacroDelta, 0) && Sum(events, MacroDelta) == 0
  }

  /** One visit panics exactly when it unstacks an empty stack; otherwise the stack depths move by its deltas. */
  lemma StepLevels(s: Levels, e: Event)
    ensures Step(s, e).Some? <==> |s.loopLevel| + LoopDelta(e) >= 0 && |s.macroLevel| + MacroDelta(e) >= 0
    ensures Step(s, e).Some? ==>
              && |Step(s, e).value.loopLevel| == |s.loopLevel| + LoopDelta(e)
              && |Step(s, e).value.macroLevel| == |s.macroLevel| + MacroDelta(e)
  {
  }

  /**
   * One visit keeps the loop ids valid and never sets the counter back; a while-loop's
   * pre-visit stacks the new counter value, larger than every id already on the stack.
   */
  lemma StepKeepsValid(s: Levels, e: Event)
    requires ValidLevels(s) && Step(s, e).Some?
    ensures ValidLevels(Step(s, e).value) && Step(s, e).value.loopcounter >= s.loopcounter
    ensures e == Event(WhileLoop, Visitor.PreVisit) ==>
              && Step(s, e).value.loopLevel == s.loopLevel + [Step(s, e).value.loopcounter]
              && forall k :: 0 <= k < |s.loopLevel| ==> s.loopLevel[k] < Step(s, e).value.loopcounter
  {
  }

  /**
   * A sequence of visits panics exactly when it unstacks more loops or macros than are on
   * the stacks at that point; otherwise the stack depths move by the total deltas.
   */
  lemma {:induction false} ReplayDepths(s: Levels, events: seq<Event>)
    ensures Replay(s, events).Some? <==>
              NeverBelow(events, LoopDelta, |s.loopLevel|) && NeverBelow(events, MacroDelta, |s.macroLevel|)
    ensures Replay(s, events).Some? ==>
              && |Replay(s, events).value.loopLevel| == |s.loopLevel| + Sum(events, LoopDelta)
              && |Replay(s, events).value.macroLevel| == |s.macroLevel| + Sum(events, MacroDelta)
    decreases |events|
  {
    if events != [] {
      StepLevels(s, events[0]);
      if Step(s, events[0]).Some? {
        ReplayDepths(Step(s, events[0]).value, events[1..]);
      }
    }
  }

  /** Any sequence of visits that does not panic keeps the loop ids valid and never sets the counter back. */
  lemma {:induction false} ReplayKeepsValid(s: Levels, events: seq<Event>)
    requires ValidLevels(s) && Replay(s, events).Some?
    ensures ValidLevels(Replay(s, events).value) && Replay(s, events).value.loopcounter >= s.loopcounter
    decreases |events|
  {
    if events != [] {
      StepKeepsValid(s, events[0]);
      ReplayKeepsValid(Step(s, events[0]).value, events[1..]);
    }
  }

  /** Visits that never go below `depth` never go below any larger depth either. */
  lemma {:induction false} NeverBelowDeeper(events: seq<Event>, delta: Event -> int, depth: int, deeper: int)
    requires NeverBelow(events, delta, depth) && depth <= deeper
    ensures NeverBelow(events, delta, deeper)
    decreases |events|
  {
    if events != [] {
      NeverBelowDeeper(events[1..], delta, depth + delta(events[0]), deeper + delta(events[0]));
    }
  }

  /**
   * Visits that never unstack below the bottom `k` loop ids and `m` macro names leave
   * those entries as they were.
   */
  lemma {:induction false} ReplayKeepsOuter(s: Levels, events: seq<Event>, k: nat, m: nat)
    requires k <= |s.loopLevel| && m <= |s.macroLevel|
    requires NeverBelow(events, LoopDelta, |s.loopLevel| - k) && NeverBelow(events, MacroDelta, |s.macroLevel| - m)
    requires Replay(s, events).Some?
    ensures var r := Replay(s, events).value;
            && k <= |r.loopLevel| && r.loopLevel[..k] == s.loopLevel[..k]
            && m <= |r.macroLevel| && r.macroLevel[..m] == s.macroLevel[..m]
    decreases |events|
  {
    if events != [] {
      var s' := Step(s, events[0]).value;
      assert s'.loopLevel[..k] == s.loopLevel[..k];
      assert s'.macroLevel[..m] == s.macroLevel[..m];
      ReplayKeepsOuter(s', events[1..], k, m);
    }
  }

  /** Running a sequence of visits in two parts is running it whole. */
  lemma {:induction false} ReplayAppend(s: Levels, a: seq<Event>, b: seq<Event>)
    ensures Replay(s, a + b) == match Replay(s, a) case None => None case Some(t) => Replay(t, b)
    decreases |a|
  {
    if a == [] {
      assert a + b == b;
    } else {
      assert (a + b)[0] == a[0] && (a + b)[1..] == a[1..] + b;
      if Step(s, a[0]).Some? {
        ReplayAppend(Step(s, a[0]).value, a[1..], b);
      }
    }
  }

  /** A balanced sequence of visits never panics and leaves both stacks as they were. */
  lemma BalancedRestores(s: Levels, events: seq<Event>)
    requires Balanced(events)
    ensures Replay(s, events).Some?
    ensures Replay(s, events).value.loopLevel == s.loopLevel
    ensures Replay(s, events).value.macroLevel == s.macroLevel
  {
    NeverBelowDeeper(events, LoopDelta, 0, |s.loopLevel|);
    NeverBelowDeeper(events, MacroDelta, 0, |s.macroLevel|);
    ReplayDepths(s, events);
    ReplayKeepsOuter(s, events, |s.loopLevel|, |s.macroLevel|);
    var r := Replay(s, events).value;
    assert r.loopLevel == r.loopLevel[..|s.loopLevel|] && s.loopLevel == s.loopLevel[..|s.loopLevel|];
    assert r.macroLevel == r.macroLevel[..|s.macroLevel|] && s.macroLevel == s.macroLevel[..|s.macroLevel|];
  }

  /** One visit run as a sequence. */
  lemma ReplayOne(s: Levels, e: Event)
    ensures Replay(s, [e]) == Step(s, e)
  {
    assert [e][1..] == [];
  }

  /**
   * Entering with `enter`, then a balanced body, then leaving with `leave`: the stacks inside
   * are those `enter` made, and the ones after are those `leave` makes from them.
   */
  lemma {:induction false} EnterBodyLeave(s: Levels, enter: Event, body: seq<Event>, leave: Event)
    requires Balanced(body) && Step(s, enter).Some?
    ensures Replay(s, [enter] + body).Some?
    ensures Replay(s, [enter] + body).value.loopLevel == Step(s, enter).value.loopLevel
    ensures Replay(s, [enter] + body).value.macroLevel == Step(s, enter).value.macroLevel
    ensures Replay(s, [enter] + body + [leave]) == Step(Replay(s, [enter] + body).value, leave)
  {
    var s1 := Step(s, enter).value;
    StepLevels(s, enter);
    ReplayOne(s, enter);
    ReplayAppend(s, [enter], body);
    BalancedRestores(s1, body);
    var s2 := Replay(s1, body).value;
    ReplayAppend(s, [enter] + body, [leave]);
    ReplayOne(s2, leave);
  }

  /**
   * While the body of a loop is lowered, the innermost loop id is the one its pre-visit
   * issued (a fresh one, by `StepKeepsValid`); the loop's post-visit restores the stack as it was.
   */
  lemma LoopBodySeesItsOwnId(s: Levels, body: seq<Event>)
    requires Balanced(body)
    ensures var inside := Replay(s, [Event(WhileLoop, Visitor.PreVisit)] + body);
            inside.Some? && inside.value.loopLevel == s.loopLevel + [s.loopcounter + 1]
    ensures var after := Replay(s, [Event(WhileLoop, Visitor.PreVisit)] + body + [Event(WhileLoop, Visitor.PostVisit)]);
            after.Some? && after.value.loopLevel == s.loopLevel
  {
    var pre, post := Event(WhileLoop, Visitor.PreVisit), Event(WhileLoop, Visitor.PostVisit);
    assert Step(s, pre).value.loopLevel == s.loopLevel + [s.loopcounter + 1];
    EnterBodyLeave(s, pre, body, post);
    PopsWhatWasPushed(Replay(s, [pre] + body).value, s.loopLevel, s.loopcounter + 1);
  }

  /** A loop's post-visit unstacks the id on top. */
  lemma PopsWhatWasPushed(inside: Levels, below: seq<nat>, id: nat)
    requires inside.loopLevel == below + [id]
    ensures Step(inside, Event(WhileLoop, Visitor.PostVisit)) == Some(inside.(loopLevel := below))
  {
    assert (below + [id])[..|below|] == below;
  }

  /**
   * While an inserted macro body is lowered, the innermost macro name is that insertion's;
   * the `macroleft` trigger at its end restores the stack as it was.
   */
  lemma MacroBodySeesItsCall(s: Levels, macro: string, startLine: nat, body: seq<Event>)
    requires Balanced(body)
    ensures var inside := Replay(s, [Event(MacroInsertion(macro, startLine), Visitor.PreVisit)] + body);
            inside.Some? && inside.value.macroLevel == s.macroLevel + [MacroCallName(macro, startLine)]
    ensures var after := Replay(s, [Event(MacroInsertion(macro, startLine), Visitor.PreVisit)] + body
                                   + [Event(Trigger("macroleft"), Visitor.SingleVisit)]);
            after.Some? && after.value.macroLevel == s.macroLevel
  {
    var insert, left := Event(MacroInsertion(macro, startLine), Visitor.PreVisit), Event(Trigger("macroleft"), Visitor.SingleVisit);
    assert Step(s, insert).value.macroLevel == s.macroLevel + [MacroCallName(macro, startLine)];
    EnterBodyLeave(s, insert, body, left);
    LeavesWhatWasEntered(Replay(s, [insert] + body).value, s.macroLevel, MacroCallName(macro, startLine));
  }

  /** The `macroleft` trigger unstacks the name on top. */
  lemma LeavesWhatWasEntered(inside: Levels, below: seq<string>, name: string)
    requires inside.macroLevel == below + [name]
    ensures Step(inside, Event(Trigger("macroleft"), Visitor.SingleVisit)) == Some(inside.(macroLevel := below))
  {
    assert (below + [name])[..|below|] == below;
  }

  // ---------------------------------------------------------------------------
  // Conversion results

  /**
   * How a conversion ends: the base-language program, the program together with the error
   * that it is over the line ceiling, another error, or a panic on an element that is not a
   * statement line after the final passes.
   */
  datatype Conversion = Done(program: seq<Line>) | TooLarge(program: seq<Line>) | Failed(error: Error) | Panicked

  /** The base-language lines of statement lines: each keeps its position and statements. */
  function Emitted(lines: seq<StatementLine>): (out: seq<Line>)
    ensures |out| == |lines|
    ensures forall k :: 0 <= k < |lines| ==> out[k] == Line(lines[k].position, lines[k].statements)
  {
    seq(|lines|, k requires 0 <= k < |lines| => Line(lines[k].position, lines[k].statements))
  }

  // ---------------------------------------------------------------------------
  // The converter

  class Converter {
    var usesTimeTracking: bool
    var loopcounter: nat
    var loopLevel: seq<nat>
    var macroLevel: seq<string>

    /** The stacks as a value. */
    function State(): Levels
      reads this
    {
      Levels(loopcounter, loopLevel, macroLevel)
    }

    ghost predicate Valid()
      reads this
    {
      ValidLevels(State())
    }

    constructor ()
      ensures !usesTimeTracking && loopcounter == 0 && loopLevel == [] && macroLevel == []
      ensures Valid()
    {
      usesTimeTracking := false;
      loopcounter := 0;
      loopLevel := [];
      macroLevel := [];
    }

    /**
     * The character budget of one base-language line: 70, less the 4 characters the line
     * counter takes when the program tracks time.
     */
    function MaxLineLength(): (n: nat)
      reads this
      ensures n <= 70
      ensures usesTimeTracking <==> n < 70
      ensures usesTimeTracking ==> 70 - n == 4
    {
      if !usesTimeTracking then 70 else 70 - 4
    }

    /**
     * The lowering visitor, for the node kinds that touch the stacks. `converted` is what the
     * conversion helper of the node answers when the visitor calls one. A while-loop answers
     * its helper only on its post-visit, a macro insertion only on its pre-visit, the `macroleft`
     * trigger removes itself, and the helpers of the other kinds decide alone.
     */
    method Visit(node: NodeKind, visitType: Visitor.VisitType, converted: Visitor.Answer) returns (outcome: Visitor.Outcome)
      requires Valid()
      modifies this
      ensures outcome.Panic? <==> Step(old(State()), Event(node, visitType)).None?
      ensures outcome.Panic? ==> State() == old(State())
      ensures outcome.Return? ==> Some(State()) == Step(old(State()), Event(node, visitType)) && Valid()
      ensures usesTimeTracking == old(usesTimeTracking)
      ensures outcome.Return? && node == Trigger("macroleft") ==> outcome.answer == Visitor.Replacement([])
      ensures outcome.Return? && (node.OtherNode? || (node.WhileLoop? && visitType == Visitor.PostVisit)
                                  || (node.MacroInsertion? && visitType == Visitor.PreVisit)) ==>
                outcome.answer == converted
      ensures outcome.Return? && !(node == Trigger("macroleft") || node.OtherNode? || (node.WhileLoop? && visitType == Visitor.PostVisit)
                                   || (node.MacroInsertion? && visitType == Visitor.PreVisit)) ==>
                outcome.answer == Visitor.Nil
    {
      StepLevels(State(), Event(node, visitType));
      if Step(State(), Event(node, visitType)).Some? {
        StepKeepsValid(State(), Event(node, visitType));
      }
      outcome := Visitor.Return(Visitor.Nil);
      match node
      case WhileLoop =>
        if visitType == Visitor.PreVisit {
          loopcounter := loopcounter + 1;
          loopLevel := loopLevel + [loopcounter];
        }
        if visitType == Visitor.PostVisit {
          var result := converted;
          if |loopLevel| == 0 {
            return Visitor.Panic;
          }
          loopLevel := loopLevel[..|loopLevel| - 1];
          return Visitor.Return(result);
        }
      case MacroInsertion(macro, startLine) =>
        if visitType == Visitor.PreVisit {
          macroLevel := macroLevel + [MacroCallName(macro, startLine)];
          return Visitor.Return(converted);
        }
      case Trigger(kind) =>
        if kind == "macroleft" {
          if |macroLevel| == 0 {
            return Visitor.Panic;
          }
          macroLevel := macroLevel[..|macroLevel| - 1];
          return Visitor.Return(Visitor.Replacement([]));
        }
      case OtherNode(_) =>
        return Visitor.Return(converted);
    }

    /**
     * The tail of a conversion. `lowered` is the result of the passes before the packer
     * (lowering, the final goto, goto chains, unused labels); `finish` those after it (duplicate
     * gotos, jump labels, `line()` calls, expression optimisation, the line counter); `trimFinal`
     * the removal of a final goto from the emitted lines. The packer runs with this converter's
     * budget; the emitted program is returned even when it is over the line ceiling.
     */
    method Convert(timeTracking: bool, lowered: Result<seq<Element>, string>, printer: seq<Statement> -> string,
                   finish: seq<Element> -> Result<seq<Element>, string>, trimFinal: seq<Line> -> seq<Line>)
      returns (r: Conversion, ghost merged: seq<StatementLine>, ghost starts: seq<nat>)
      modifies this
      ensures usesTimeTracking == timeTracking && State() == old(State())
      ensures lowered.Failure? ==> r == Failed(Collaborator(lowered.error))
      // an element that is not a statement line: the first one is reported
      ensures lowered.Success? && !Packer.AllLines(lowered.value) ==>
                && r.Failed? && r.error.UnconvertedElement?
                && exists k :: 0 <= k < |lowered.value| && lowered.value[k] == Unconverted(r.error.kind)
                                && Packer.AllLines(lowered.value[..k])
      // otherwise the packer either stops at an overlong line or packs every line
      ensures lowered.Success? && Packer.AllLines(lowered.value) ==>
                || Packer.StoppedAt(Packer.LinesOf(lowered.value), starts, MaxLineLength(), printer)
                || Packer.Assembled(Packer.LinesOf(lowered.value), starts, |lowered.value|, merged, MaxLineLength(), printer)
      ensures lowered.Success? && Packer.AllLines(lowered.value)
              && Packer.StoppedAt(Packer.LinesOf(lowered.value), starts, MaxLineLength(), printer) ==>
                r == Failed(LineTooLong(Packer.LinesOf(lowered.value)[starts[|starts| - 1]].position))
      // after a complete packing: the final passes' error, the panic on a non-line, or the program
      ensures lowered.Success? && Packer.AllLines(lowered.value)
              && Packer.Assembled(Packer.LinesOf(lowered.value), starts, |lowered.value|, merged, MaxLineLength(), printer) ==>
                var finished := finish(Wrapped(merged));
                && (finished.Failure? ==> r == Failed(Collaborator(finished.error)))
                && (finished.Success? && !Packer.AllLines(finished.value) ==> r == Panicked)
                && (finished.Success? && Packer.AllLines(finished.value) ==>
                      var program := trimFinal(Emitted(Packer.LinesOf(finished.value)));
                      r == if |program| > MaxLines then TooLarge(program) else Done(program))
    {
      usesTimeTracking := timeTracking;
      merged, starts := [], [];
      if lowered.Failure? {
        return Failed(Collaborator(lowered.error)), merged, starts;
      }
      var packed, st := Packer.MergeNololElements(lowered.value, MaxLineLength(), printer);
      starts := st;
      if packed.Failure? {
        if Packer.AllLines(lowered.value) {
          Packer.StopMeansNoPacking(Packer.LinesOf(lowered.value), starts, MaxLineLength(), printer);
        }
        return Failed(packed.error), merged, starts;
      }
      merged := Packer.LinesOf(packed.value);
      assert packed.value == Wrapped(merged);
      Packer.StopMeansNoPacking(Packer.LinesOf(lowered.value), starts, MaxLineLength(), printer);
      var finished := finish(packed.value);
      if finished.Failure? {
        return Failed(Collaborator(finished.error)), merged, starts;
      }
      var elements := finished.value;
      var out: seq<Line> := [];
      var i := 0;
      while i < |elements|
        invariant i <= |elements| && Packer.AllLines(elements[..i])
        invariant out == Emitted(Packer.LinesOf(elements[..i]))
      {
        if !elements[i].StatementLineElement? {
          return Panicked, merged, starts;
        }
        var line := elements[i].line;
        assert elements[..i + 1] == elements[..i] + [elements[i]];
        out := out + [Line(line.position, line.statements)];
        i := i + 1;
      }
      assert elements[..i] == elements;
      out := trimFinal(out);
      if |out| > MaxLines {
        return TooLarge(out), merged, starts;
      }
      return Done(out), merged, starts;
    }
  }

  /** Statement lines as program elements. */
  function Wrapped(lines: seq<StatementLine>): (elements: seq<Element>)
    ensures Packer.AllLines(elements) && Packer.LinesOf(elements) == lines
  {
    var elements := seq(|lines|, k requires 0 <= k < |lines| => StatementLineElement(lines[k]));
    assert Packer.LinesOf(elements) == lines;
    elements
  }
}
