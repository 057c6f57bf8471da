/**
 * The line packer of the converter: a single greedy left-to-right pass that glues each
 * statement line onto the line before it for as long as the per-line character budget,
 * the labels and the begin/end-of-line markers allow.
 *
 * The base-language printer is outside the model: it is the parameter `printer`, the text
 * the printer produces for a line holding the given statements (with the fixed-width
 * placeholders of `PlaceholderText` standing in for jump targets and `line()` calls).
 */
module Packer {
  import opened Wrappers
  import opened Nast

  // ---------------------------------------------------------------------------
  // Measuring a line

  /** The length of a line as printed, not counting a trailing newline. */
  function LengthOfLine(printer: seq<Statement> -> string, statements: seq<Statement>): nat
  {
    var text := printer(statements);
    if |text| > 0 && text[|text| - 1] == '\n' then |text| - 1 else |text|
  }

  lemma LengthOfLineExcludesNewline(printer: seq<Statement> -> string, statements: seq<Statement>, text: string)
    requires printer(statements) == text + "\n" || printer(statements) == text
    requires |text| > 0 ==> text[|text| - 1] != '\n'
    ensures LengthOfLine(printer, statements) == |text|
  {
  }

  /**
   * The nodes the length estimate cannot print yet, because their text depends on final line
   * numbers. The facts about their placeholders are stated here on their own: the parameter
   * `printer` of the packer is not tied to them.
   */
  datatype PendingNode = GoToLabelStatement(jumpLabel: string) | FuncCall(name: string) | OtherNode

  /** The text the estimate prints for a pending node, or `None` to let the printer print it. */
  function PlaceholderText(node: PendingNode, useSpaces: bool): Option<string>
  {
    match node
    case GoToLabelStatement(_) => Some(if useSpaces then "goto XX" else "gotoXX")
    case FuncCall(f) => if f == "line" then Some("00") else None
    case OtherNode => None
  }

  /** The text the node has once its line number `target` is known: a jump to it, or the number. */
  function ResolvedText(node: PendingNode, target: nat, useSpaces: bool): string
  {
    match node
    case GoToLabelStatement(_) => (if useSpaces then "goto " else "goto") + Decimal(target)
    case _ => Decimal(target)
  }

  /**
   * The placeholders never underestimate: in a program of at most `MaxLines` lines every
   * resolved jump or line number prints no longer than its placeholder, whatever the label.
   */
  lemma PlaceholderNotShorter(node: PendingNode, target: nat, useSpaces: bool)
    requires PlaceholderText(node, useSpaces).Some?
    requires 1 <= target <= MaxLines
    ensures |ResolvedText(node, target, useSpaces)| <= |PlaceholderText(node, useSpaces).value|
  {
    if target >= 10 {
      assert Decimal(target) == Decimal(target / 10) + [('0' as int + target % 10) as char];
    }
  }

  // ---------------------------------------------------------------------------
  // What a packing is

  /** All statements of `lines`, in order. */
  function Statements(lines: seq<StatementLine>): seq<Statement>
  {
    if lines == [] then [] else Statements(lines[..|lines| - 1]) + lines[|lines| - 1].statements
  }

  /** The non-empty labels of `lines`, in order. */
  function Labels(lines: seq<StatementLine>): seq<string>
  {
    if lines == [] then []
    else Labels(lines[..|lines| - 1]) + (if lines[|lines| - 1].lineLabel == "" then [] else [lines[|lines| - 1].lineLabel])
  }

  /** A line may be appended to the line before it: it has no label and no `hasBOL` marker. */
  predicate Absorbable(line: StatementLine)
  {
    line.lineLabel == "" && !line.hasBOL
  }

  /** The output line built from `lines[s..e]`: label, position and `hasEOL` of the first, all statements. */
  function Merged(lines: seq<StatementLine>, s: nat, e: nat): StatementLine
    requires s < e <= |lines|
  {
    StatementLine(lines[s].lineLabel, Statements(lines[s..e]), lines[s].position, lines[s].hasEOL, false)
  }

  /** Starting a line at `s` fails: another line follows, `s` may be extended, yet it alone is over budget. */
  predicate TooLongAt(lines: seq<StatementLine>, s: nat, maxlen: nat, printer: seq<Statement> -> string)
    requires s < |lines|
  {
    s + 1 < |lines| && !lines[s].hasEOL && LengthOfLine(printer, lines[s].statements) > maxlen
  }

  /** `lines[s..k]` printed as one line is within `maxlen`. */
  predicate Fits(lines: seq<StatementLine>, s: nat, k: nat, maxlen: nat, printer: seq<Statement> -> string)
    requires s <= k <= |lines|
  {
    LengthOfLine(printer, Statements(lines[s..k])) <= maxlen
  }

  /**
   * `lines[s..e]` is the line the greedy pass builds from `s`: every absorbed line is
   * absorbable, no line but the last has `hasEOL`, every absorption kept the line within
   * `maxlen`, and the pass stopped at `e` for a reason: the end of the input, a `hasEOL`
   * line, a label or `hasBOL` marker, or a line that would push the length over `maxlen`.
   */
  predicate GreedySegment(lines: seq<StatementLine>, s: nat, e: nat, maxlen: nat, printer: seq<Statement> -> string)
  {
    && s < e <= |lines|
    && (forall k :: s < k < e ==> Absorbable(lines[k]))
    && (forall k :: s <= k < e - 1 ==> !lines[k].hasEOL)
    && (forall k :: s + 2 <= k <= e ==> Fits(lines, s, k, maxlen, printer))
    && (e < |lines| ==> lines[e - 1].hasEOL || !Absorbable(lines[e]) || !Fits(lines, s, e + 1, maxlen, printer))
  }

  /** Where the `j`-th output line of a packing of `lines[..n]` ends. */
  function SegmentEnd(starts: seq<nat>, j: nat, n: nat): nat
    requires j < |starts|
  {
    if j + 1 < |starts| then starts[j + 1] else n
  }

  /** The `j`-th output line of the packing `starts` of `lines[..n]` is a greedy one that did not fail. */
  predicate SegmentOk(lines: seq<StatementLine>, starts: seq<nat>, j: nat, n: nat, maxlen: nat, printer: seq<Statement> -> string)
    requires j < |starts|
  {
    GreedySegment(lines, starts[j], SegmentEnd(starts, j, n), maxlen, printer) && !TooLongAt(lines, starts[j], maxlen, printer)
  }

  /** `starts` lists where the greedy pass starts each output line when it packs `lines[..n]`. */
  predicate Packing(lines: seq<StatementLine>, starts: seq<nat>, n: nat, maxlen: nat, printer: seq<Statement> -> string)
  {
    && n <= |lines|
    && (|starts| == 0 <==> n == 0)
    && (|starts| > 0 ==> starts[0] == 0)
    && (forall j :: 0 <= j < |starts| ==> starts[j] < n)
    && (forall j :: 0 <= j < |starts| ==> SegmentOk(lines, starts, j, n, maxlen, printer))
  }

  /** `line` is the `j`-th output line of the packing `starts` of `lines[..n]`. */
  predicate IsOutputLine(line: StatementLine, lines: seq<StatementLine>, starts: seq<nat>, j: nat, n: nat,
                         maxlen: nat, printer: seq<Statement> -> string)
    requires j < |starts|
  {
    SegmentOk(lines, starts, j, n, maxlen, printer) && line == Merged(lines, starts[j], SegmentEnd(starts, j, n))
  }

  /** `merged` holds the output lines of the packing `starts` of `lines[..n]`. */
  predicate Assembled(lines: seq<StatementLine>, starts: seq<nat>, n: nat, merged: seq<StatementLine>,
                      maxlen: nat, printer: seq<Statement> -> string)
  {
    && Packing(lines, starts, n, maxlen, printer)
    && |merged| == |starts|
    && (forall j :: 0 <= j < |starts| ==> IsOutputLine(merged[j], lines, starts, j, n, maxlen, printer))
  }

  /**
   * The pass packed `lines[..s]` as `starts` says, then started a line at `s`, the last
   * entry of `starts`, and stopped there because that line alone is over budget.
   */
  predicate StoppedAt(lines: seq<StatementLine>, starts: seq<nat>, maxlen: nat, printer: seq<Statement> -> string)
  {
    && |starts| > 0
    && starts[|starts| - 1] < |lines|
    && Packing(lines, starts[..|starts| - 1], starts[|starts| - 1], maxlen, printer)
    && TooLongAt(lines, starts[|starts| - 1], maxlen, printer)
  }

  /**
   * The pass failed at the line where `starts` ends: `merged` holds the packing of the lines
   * before it, then that line alone, and so the statements up to and including it.
   */
  predicate FailedAt(lines: seq<StatementLine>, starts: seq<nat>, merged: seq<StatementLine>,
                     maxlen: nat, printer: seq<Statement> -> string)
  {
    && StoppedAt(lines, starts, maxlen, printer)
    && |merged| == |starts|
    && var s := starts[|starts| - 1];
    && Assembled(lines, starts[..|starts| - 1], s, merged[..|merged| - 1], maxlen, printer)
    && merged[|merged| - 1] == Merged(lines, s, s + 1)
    && Statements(merged) == Statements(lines[..s + 1])
  }

  // ---------------------------------------------------------------------------
  // The pass

  /**
   * Merges consecutive statement lines greedily, left to right. On success the
   * output is the packing of all of `lines`; on failure it is the packing up to the
   * offending line followed by that line alone, and the error points at it.
   */
  method MergeStatementElements(lines: seq<StatementLine>, maxlen: nat, printer: seq<Statement> -> string)
    returns (merged: seq<StatementLine>, err: Option<Error>, ghost starts: seq<nat>)
    ensures err.None? ==> Assembled(lines, starts, |lines|, merged, maxlen, printer)
    ensures err.None? ==> Statements(merged) == Statements(lines) && Labels(merged) == Labels(lines)
    ensures err.Some? ==>
              && FailedAt(lines, starts, merged, maxlen, printer)
              && err == Some(LineTooLong(lines[starts[|starts| - 1]].position))
  {
    merged, err, starts := [], None, [];
    var i := 0;
    while i < |lines|
      invariant i <= |lines|
      invariant Assembled(lines, starts, i, merged, maxlen, printer)
      invariant Statements(merged) == Statements(lines[..i])
      invariant Labels(merged) == Labels(lines[..i])
    {
      var current := StatementLine(lines[i].lineLabel, [] + lines[i].statements, lines[i].position, lines[i].hasEOL, false);
      ghost var s, before := i, starts;
      starts := starts + [i];

      var e, tooLong := i + 1, false;
      if current.hasEOL {
        // no line may be appended to a line having EOL
        EndOfLineSegment(lines, s, maxlen, printer);
      } else {
        current, e, tooLong := ExtendLine(lines, i, maxlen, printer);
      }
      if tooLong {
        TooLongStop(lines, before, s, merged, current, maxlen, printer);
        merged := merged + [current];
        err := Some(LineTooLong(current.position));
        return;
      }
      CloseSegment(lines, before, s, e, merged, current, maxlen, printer);
      merged := merged + [current];
      i := e;
    }
    assert lines[..i] == lines;
  }

  /**
   * The inner loop of the pass: starting from the line at `s`, which has no EOL marker,
   * absorbs following lines while they are absorbable and the result stays within
   * `maxlen`. Reports `tooLong` when the line at `s` alone is already over budget and
   * there is a line after it.
   */
  method ExtendLine(lines: seq<StatementLine>, s: nat, maxlen: nat, printer: seq<Statement> -> string)
    returns (current: StatementLine, e: nat, tooLong: bool)
    requires s < |lines| && !lines[s].hasEOL
    ensures s < e <= |lines|
    ensures tooLong ==> e == s + 1 && TooLongAt(lines, s, maxlen, printer) && current == Merged(lines, s, s + 1)
    ensures !tooLong ==> && GreedySegment(lines, s, e, maxlen, printer) && !TooLongAt(lines, s, maxlen, printer)
                         && current == Merged(lines, s, e)
  {
    current := StatementLine(lines[s].lineLabel, [] + lines[s].statements, lines[s].position, lines[s].hasEOL, false);
    StatementsOfOne(lines, s);
    var i := s;
    tooLong := false;
    while i + 1 < |lines|
      invariant Growing(lines, s, i, maxlen, printer) && !lines[i].hasEOL
      invariant current == Merged(lines, s, i + 1)
      invariant i > s ==> LengthOfLine(printer, current.statements) <= maxlen
    {
      var currlen := LengthOfLine(printer, current.statements);
      if currlen > maxlen {
        tooLong := true;
        e := s + 1;
        return;
      }

      var nextline := lines[i + 1];
      if nextline.lineLabel == "" && !nextline.hasBOL {
        var prev := current.statements;
        AbsorbStep(lines, s, i, current, maxlen, printer);
        current := current.(statements := prev + nextline.statements);
        var newlen := LengthOfLine(printer, current.statements);
        if newlen > maxlen {
          // the newly created line is longer than allowed: roll back
          current := current.(statements := prev);
          break;
        }
        GrowStep(lines, s, i, maxlen, printer);
        i := i + 1;
        if nextline.hasEOL {
          break;
        }
      } else {
        break;
      }
    }
    GreedyStop(lines, s, i, maxlen, printer);
    e := i + 1;
  }

  /** A line with EOL is an output line of its own, unchanged but for its BOL marker. */
  lemma EndOfLineSegment(lines: seq<StatementLine>, s: nat, maxlen: nat, printer: seq<Statement> -> string)
    requires s < |lines| && lines[s].hasEOL
    ensures GreedySegment(lines, s, s + 1, maxlen, printer) && !TooLongAt(lines, s, maxlen, printer)
    ensures Merged(lines, s, s + 1).statements == lines[s].statements
  {
    StatementsOfOne(lines, s);
  }

  /**
   * The inner loop has absorbed `lines[s + 1..i + 1]` into the line started at `s`: each of
   * them was absorbable, none but possibly the last had EOL, and every absorption fit.
   */
  predicate Growing(lines: seq<StatementLine>, s: nat, i: nat, maxlen: nat, printer: seq<Statement> -> string)
  {
    && s <= i < |lines|
    && (forall k :: s < k <= i ==> Absorbable(lines[k]))
    && (forall k :: s <= k < i ==> !lines[k].hasEOL)
    && (forall k :: s + 2 <= k <= i + 1 ==> Fits(lines, s, k, maxlen, printer))
    && (i > s ==> LengthOfLine(printer, lines[s].statements) <= maxlen)
  }

  /** Absorbing the line after `i` into the line built from `lines[s..i + 1]`, and whether the result fits. */
  lemma AbsorbStep(lines: seq<StatementLine>, s: nat, i: nat, current: StatementLine, maxlen: nat,
                   printer: seq<Statement> -> string)
    requires s <= i && i + 1 < |lines|
    requires current == Merged(lines, s, i + 1)
    ensures current.(statements := current.statements + lines[i + 1].statements) == Merged(lines, s, i + 2)
    ensures Fits(lines, s, i + 2, maxlen, printer)
        <==> LengthOfLine(printer, current.statements + lines[i + 1].statements) <= maxlen
  {
    StatementsSnoc(lines, s, i + 1);
  }

  /** A successful absorption of the line after `i` keeps the inner loop's invariant. */
  lemma GrowStep(lines: seq<StatementLine>, s: nat, i: nat, maxlen: nat, printer: seq<Statement> -> string)
    requires Growing(lines, s, i, maxlen, printer) && !lines[i].hasEOL && i + 1 < |lines|
    requires Absorbable(lines[i + 1]) && Fits(lines, s, i + 2, maxlen, printer)
    requires LengthOfLine(printer, Merged(lines, s, i + 1).statements) <= maxlen
    ensures Growing(lines, s, i + 1, maxlen, printer)
  {
    StatementsOfOne(lines, s);
  }

  /** Why the inner loop may stop at `i`, and that stopping there closes a greedy line. */
  lemma GreedyStop(lines: seq<StatementLine>, s: nat, i: nat, maxlen: nat, printer: seq<Statement> -> string)
    requires Growing(lines, s, i, maxlen, printer)
    requires i == s && s + 1 < |lines| ==> LengthOfLine(printer, Merged(lines, s, s + 1).statements) <= maxlen
    requires i + 1 == |lines| || lines[i].hasEOL || !Absorbable(lines[i + 1]) || !Fits(lines, s, i + 2, maxlen, printer)
    ensures GreedySegment(lines, s, i + 1, maxlen, printer) && !TooLongAt(lines, s, maxlen, printer)
  {
    StatementsOfOne(lines, s);
  }

  /**
   * Type-wrapper around `MergeStatementElements`: every element must be a statement line,
   * otherwise the first one that is not is reported; the merged lines are wrapped back.
   */
  method MergeNololElements(elements: seq<Element>, maxlen: nat, printer: seq<Statement> -> string)
    returns (r: Result<seq<Element>, Error>, ghost starts: seq<nat>)
    ensures r.Failure? && r.error.UnconvertedElement? <==> !AllLines(elements)
    ensures r.Failure? && r.error.UnconvertedElement? ==>
              exists k :: 0 <= k < |elements| && elements[k] == Unconverted(r.error.kind) && AllLines(elements[..k])
    ensures r.Success? ==>
              AllLines(elements) && AllLines(r.value) &&
              Assembled(LinesOf(elements), starts, |elements|, LinesOf(r.value), maxlen, printer)
    ensures r.Failure? && !r.error.UnconvertedElement? ==>
              AllLines(elements) && StoppedAt(LinesOf(elements), starts, maxlen, printer) &&
              r.error == LineTooLong(elements[starts[|starts| - 1]].line.position)
  {
    var inp: seq<StatementLine> := [];
    var k := 0;
    while k < |elements|
      invariant k <= |elements| && |inp| == k
      invariant AllLines(elements[..k]) && inp == LinesOf(elements[..k])
    {
      if !elements[k].StatementLineElement? {
        assert !AllLines(elements);
        return Failure(UnconvertedElement(elements[k].kind)), [];
      }
      assert elements[..k + 1] == elements[..k] + [elements[k]];
      inp := inp + [elements[k].line];
      k := k + 1;
    }
    assert elements[..k] == elements;
    var merged, err, st := MergeStatementElements(inp, maxlen, printer);
    starts := st;
    if err.Some? {
      return Failure(err.value), starts;
    }
    var outp := seq(|merged|, j requires 0 <= j < |merged| => StatementLineElement(merged[j]));
    assert LinesOf(outp) == merged;
    r := Success(outp);
  }

  /** Every element is a statement line. */
  predicate AllLines(elements: seq<Element>)
  {
    forall k :: 0 <= k < |elements| ==> elements[k].StatementLineElement?
  }

  /** The statement lines of `elements`, all of which are statement lines. */
  function LinesOf(elements: seq<Element>): (lines: seq<StatementLine>)
    requires AllLines(elements)
    ensures |lines| == |elements|
    ensures forall k :: 0 <= k < |elements| ==> elements[k] == StatementLineElement(lines[k])
  {
    seq(|elements|, k requires 0 <= k < |elements| => elements[k].line)
  }

  // ---------------------------------------------------------------------------
  // Properties of packings

  /** Concatenating the output lines' statements gives back the input's statements, in order. */
  lemma {:induction false} PackingKeepsStatements(lines: seq<StatementLine>, starts: seq<nat>, merged: seq<StatementLine>,
                                                  maxlen: nat, printer: seq<Statement> -> string)
    requires Assembled(lines, starts, |lines|, merged, maxlen, printer)
    ensures Statements(merged) == Statements(lines)
  {
    AssembledPrefix(lines, starts, |lines|, merged, |starts|, maxlen, printer);
    assert merged[..|starts|] == merged && lines[..|lines|] == lines;
  }

  /** Every label of the input survives exactly once, in order, on the output line it starts. */
  lemma {:induction false} PackingKeepsLabels(lines: seq<StatementLine>, starts: seq<nat>, merged: seq<StatementLine>,
                                              maxlen: nat, printer: seq<Statement> -> string)
    requires Assembled(lines, starts, |lines|, merged, maxlen, printer)
    ensures Labels(merged) == Labels(lines)
  {
    AssembledPrefix(lines, starts, |lines|, merged, |starts|, maxlen, printer);
    assert merged[..|starts|] == merged && lines[..|lines|] == lines;
  }

  /**
   * Boundaries are respected: a labelled or `hasBOL` line always starts an output line,
   * and so does every line that follows a `hasEOL` line.
   */
  lemma PackingRespectsBoundaries(lines: seq<StatementLine>, starts: seq<nat>, maxlen: nat, printer: seq<Statement> -> string)
    requires Packing(lines, starts, |lines|, maxlen, printer)
    ensures forall k :: 0 <= k < |lines| && !Absorbable(lines[k]) ==> k in starts
    ensures forall k :: 0 <= k < |lines| - 1 && lines[k].hasEOL ==> k + 1 in starts
  {
    forall k | 0 <= k < |lines| && !Absorbable(lines[k])
      ensures k in starts
    {
      var j := FindSegment(lines, starts, |lines|, k, 1, maxlen, printer);
      assert SegmentOk(lines, starts, j, |lines|, maxlen, printer);
    }
    forall k | 0 <= k < |lines| - 1 && lines[k].hasEOL
      ensures k + 1 in starts
    {
      var j := FindSegment(lines, starts, |lines|, k, 1, maxlen, printer);
      assert SegmentOk(lines, starts, j, |lines|, maxlen, printer);
      assert SegmentEnd(starts, j, |lines|) == k + 1;
    }
  }

  /** Every output line that absorbed at least one following line fits the budget. */
  lemma PackingFitsBudget(lines: seq<StatementLine>, starts: seq<nat>, merged: seq<StatementLine>,
                          maxlen: nat, printer: seq<Statement> -> string)
    requires Assembled(lines, starts, |lines|, merged, maxlen, printer)
    ensures forall j :: 0 <= j < |starts| && SegmentEnd(starts, j, |lines|) > starts[j] + 1 ==>
              LengthOfLine(printer, merged[j].statements) <= maxlen
  {
    forall j | 0 <= j < |starts| && SegmentEnd(starts, j, |lines|) > starts[j] + 1
      ensures LengthOfLine(printer, merged[j].statements) <= maxlen
    {
      assert IsOutputLine(merged[j], lines, starts, j, |lines|, maxlen, printer);
      assert Fits(lines, starts[j], SegmentEnd(starts, j, |lines|), maxlen, printer);
    }
  }

  /** The greedy pass is deterministic: a packing of `lines[..n]` is unique. */
  lemma PackingIsUnique(lines: seq<StatementLine>, a: seq<nat>, b: seq<nat>, n: nat,
                        maxlen: nat, printer: seq<Statement> -> string)
    requires Packing(lines, a, n, maxlen, printer) && Packing(lines, b, n, maxlen, printer)
    ensures a == b
  {
    if n > 0 {
      PackingsAgreeFrom(lines, a, b, n, 0, maxlen, printer);
    }
  }

  /**
   * A pass that stops at an overlong line has no packing of the whole input: the greedy
   * pass is deterministic, so the error and a successful packing exclude each other.
   */
  lemma StopMeansNoPacking(lines: seq<StatementLine>, starts: seq<nat>, maxlen: nat, printer: seq<Statement> -> string)
    ensures StoppedAt(lines, starts, maxlen, printer) ==> forall a :: !Packing(lines, a, |lines|, maxlen, printer)
  {
    forall a | StoppedAt(lines, starts, maxlen, printer) && Packing(lines, a, |lines|, maxlen, printer)
      ensures false
    {
      var s := starts[|starts| - 1];
      var before := starts[..|starts| - 1];
      if s > 0 {
        assert SegmentOk(lines, before, 0, s, maxlen, printer);
        PackingExtendsPrefix(lines, a, |lines|, before, s, 0, maxlen, printer);
      }
      StartFits(lines, a, |lines|, if s > 0 then |before| else 0, maxlen, printer);
    }
  }

  // ---------------------------------------------------------------------------
  // Helper lemmas

  /**
   * A packing of a prefix `lines[..m]` that agrees with a packing of `lines[..n]` at its
   * `j`-th start agrees from there on, and where it ends the longer packing starts a line.
   */
  lemma {:induction false} PackingExtendsPrefix(lines: seq<StatementLine>, a: seq<nat>, n: nat, b: seq<nat>, m: nat, j: nat,
                                                maxlen: nat, printer: seq<Statement> -> string)
    requires Packing(lines, a, n, maxlen, printer) && Packing(lines, b, m, maxlen, printer) && m <= n
    requires j < |a| && j < |b| && a[j] == b[j]
    ensures |b| <= |a| && forall i :: j <= i < |b| ==> a[i] == b[i]
    ensures m < n ==> |b| < |a| && a[|b|] == m
    decreases |b| - j
  {
    assert SegmentOk(lines, a, j, n, maxlen, printer) && SegmentOk(lines, b, j, m, maxlen, printer);
    SegmentIsUnique(lines, a[j], SegmentEnd(a, j, n), SegmentEnd(b, j, m), maxlen, printer);
    LastSegmentEndsInput(lines, a, n, j, maxlen, printer);
    LastSegmentEndsInput(lines, b, m, j, maxlen, printer);
    if j + 1 < |b| {
      PackingExtendsPrefix(lines, a, n, b, m, j + 1, maxlen, printer);
    }
  }

  lemma {:induction false} PackingsAgreeFrom(lines: seq<StatementLine>, a: seq<nat>, b: seq<nat>, n: nat, j: nat,
                                             maxlen: nat, printer: seq<Statement> -> string)
    requires Packing(lines, a, n, maxlen, printer) && Packing(lines, b, n, maxlen, printer)
    requires j < |a| && j < |b| && a[j] == b[j]
    ensures a[j..] == b[j..]
    decreases |a| - j
  {
    assert SegmentOk(lines, a, j, n, maxlen, printer) && SegmentOk(lines, b, j, n, maxlen, printer);
    SegmentIsUnique(lines, a[j], SegmentEnd(a, j, n), SegmentEnd(b, j, n), maxlen, printer);
    LastSegmentEndsInput(lines, a, n, j, maxlen, printer);
    LastSegmentEndsInput(lines, b, n, j, maxlen, printer);
    if j + 1 < |a| {
      PackingsAgreeFrom(lines, a, b, n, j + 1, maxlen, printer);
      assert a[j..] == [a[j]] + a[j + 1..] && b[j..] == [b[j]] + b[j + 1..];
    }
  }

  /** Every output line of a packing starts with a line that is not over budget. */
  lemma StartFits(lines: seq<StatementLine>, starts: seq<nat>, n: nat, j: nat, maxlen: nat, printer: seq<Statement> -> string)
    requires Packing(lines, starts, n, maxlen, printer) && j < |starts|
    ensures starts[j] < |lines| && !TooLongAt(lines, starts[j], maxlen, printer)
  {
    assert SegmentOk(lines, starts, j, n, maxlen, printer);
  }

  /** Only the last output line of a packing of `lines[..n]` ends at `n`. */
  lemma LastSegmentEndsInput(lines: seq<StatementLine>, starts: seq<nat>, n: nat, j: nat,
                             maxlen: nat, printer: seq<Statement> -> string)
    requires Packing(lines, starts, n, maxlen, printer) && j < |starts|
    ensures j + 1 < |starts| <==> SegmentEnd(starts, j, n) < n
  {
    if j + 1 < |starts| {
      assert SegmentOk(lines, starts, j + 1, n, maxlen, printer);
    }
  }

  lemma SegmentIsUnique(lines: seq<StatementLine>, s: nat, e1: nat, e2: nat, maxlen: nat, printer: seq<Statement> -> string)
    requires GreedySegment(lines, s, e1, maxlen, printer) && GreedySegment(lines, s, e2, maxlen, printer)
    ensures e1 == e2
  {
  }

  /** The output line of a packing that covers input line `k`, searched from the `m`-th. */
  lemma FindSegment(lines: seq<StatementLine>, starts: seq<nat>, n: nat, k: nat, m: nat,
                    maxlen: nat, printer: seq<Statement> -> string) returns (j: nat)
    requires Packing(lines, starts, n, maxlen, printer) && k < n
    requires 0 < m <= |starts| && starts[m - 1] <= k
    ensures j < |starts| && starts[j] <= k < SegmentEnd(starts, j, n)
    decreases |starts| - m
  {
    if m == |starts| || k < starts[m] {
      j := m - 1;
    } else {
      j := FindSegment(lines, starts, n, k, m + 1, maxlen, printer);
    }
  }

  /** After the first `m` output lines of an assembled packing, the statements and labels agree. */
  lemma {:induction false} AssembledPrefix(lines: seq<StatementLine>, starts: seq<nat>, n: nat, merged: seq<StatementLine>,
                                           m: nat, maxlen: nat, printer: seq<Statement> -> string)
    requires Assembled(lines, starts, n, merged, maxlen, printer)
    requires m <= |starts|
    ensures var upto := if m < |starts| then starts[m] else n;
            Statements(merged[..m]) == Statements(lines[..upto]) && Labels(merged[..m]) == Labels(lines[..upto])
  {
    if m == 0 {
      if |starts| > 0 {
        assert starts[0] == 0;
      }
    } else {
      AssembledPrefix(lines, starts, n, merged, m - 1, maxlen, printer);
      assert IsOutputLine(merged[m - 1], lines, starts, m - 1, n, maxlen, printer);
      assert merged[..m] == merged[..m - 1] + [merged[m - 1]];
      CloseSegmentContents(lines, starts[m - 1], SegmentEnd(starts, m - 1, n), merged[..m - 1], merged[m - 1]);
    }
  }

  /** Closing the output line `lines[s..e]` extends an assembled packing of `lines[..s]` to one of `lines[..e]`. */
  lemma CloseSegment(lines: seq<StatementLine>, starts: seq<nat>, s: nat, e: nat, merged: seq<StatementLine>,
                     current: StatementLine, maxlen: nat, printer: seq<Statement> -> string)
    requires Assembled(lines, starts, s, merged, maxlen, printer)
    requires Statements(merged) == Statements(lines[..s]) && Labels(merged) == Labels(lines[..s])
    requires GreedySegment(lines, s, e, maxlen, printer) && !TooLongAt(lines, s, maxlen, printer)
    requires current == Merged(lines, s, e)
    ensures Assembled(lines, starts + [s], e, merged + [current], maxlen, printer)
    ensures Statements(merged + [current]) == Statements(lines[..e])
    ensures Labels(merged + [current]) == Labels(lines[..e])
  {
    var starts', merged' := starts + [s], merged + [current];
    forall j | 0 <= j < |starts'|
      ensures IsOutputLine(merged'[j], lines, starts', j, e, maxlen, printer)
    {
      if j < |starts| {
        assert IsOutputLine(merged[j], lines, starts, j, s, maxlen, printer);
        assert SegmentEnd(starts', j, e) == SegmentEnd(starts, j, s);
      }
    }
    forall j | 0 <= j < |starts'|
      ensures SegmentOk(lines, starts', j, e, maxlen, printer)
    {
      assert IsOutputLine(merged'[j], lines, starts', j, e, maxlen, printer);
    }
    CloseSegmentContents(lines, s, e, merged, current);
  }

  /** Stopping at an overlong first line `s` leaves the packing of `lines[..s]` and that line alone. */
  lemma TooLongStop(lines: seq<StatementLine>, starts: seq<nat>, s: nat, merged: seq<StatementLine>,
                    current: StatementLine, maxlen: nat, printer: seq<Statement> -> string)
    requires s < |lines|
    requires Assembled(lines, starts, s, merged, maxlen, printer)
    requires Statements(merged) == Statements(lines[..s])
    requires TooLongAt(lines, s, maxlen, printer)
    requires current == Merged(lines, s, s + 1)
    ensures FailedAt(lines, starts + [s], merged + [current], maxlen, printer)
  {
    assert (starts + [s])[..|starts|] == starts;
    assert (merged + [current])[..|merged|] == merged;
    StatementsOfOne(lines, s);
    StatementsAppend(merged, [current]);
    assert lines[..s + 1] == lines[..s] + [lines[s]];
    StatementsAppend(lines[..s], [lines[s]]);
    assert [lines[s]][..0] == [] && [current][..0] == [];
  }

  /** Appending the line built from `lines[s..e]` to lines that hold `lines[..s]` gives `lines[..e]`. */
  lemma CloseSegmentContents(lines: seq<StatementLine>, s: nat, e: nat, merged: seq<StatementLine>,
                             current: StatementLine)
    requires s < e <= |lines| && forall k :: s < k < e ==> Absorbable(lines[k])
    requires Statements(merged) == Statements(lines[..s]) && Labels(merged) == Labels(lines[..s])
    requires current == Merged(lines, s, e)
    ensures Statements(merged + [current]) == Statements(lines[..e])
    ensures Labels(merged + [current]) == Labels(lines[..e])
  {
    StatementsAppend(merged, [current]);
    LabelsAppend(merged, [current]);
    StatementsOfSegment(lines, s, e);
    assert lines[..e] == lines[..s] + lines[s..e];
    StatementsAppend(lines[..s], lines[s..e]);
    LabelsAppend(lines[..s], lines[s..e]);
    LabelsOfSegment(lines, s, e);
  }

  lemma {:induction false} StatementsAppend(a: seq<StatementLine>, b: seq<StatementLine>)
    ensures Statements(a + b) == Statements(a) + Statements(b)
    decreases |b|
  {
    if b == [] {
      assert a + b == a;
    } else {
      var b' := b[..|b| - 1];
      assert (a + b)[..|a + b| - 1] == a + b';
      StatementsAppend(a, b');
    }
  }

  lemma {:induction false} LabelsAppend(a: seq<StatementLine>, b: seq<StatementLine>)
    ensures Labels(a + b) == Labels(a) + Labels(b)
    decreases |b|
  {
    if b == [] {
      assert a + b == a;
    } else {
      var b' := b[..|b| - 1];
      assert (a + b)[..|a + b| - 1] == a + b';
      LabelsAppend(a, b');
    }
  }

  lemma StatementsOfOne(lines: seq<StatementLine>, s: nat)
    requires s < |lines|
    ensures Statements(lines[s..s + 1]) == lines[s].statements
    ensures Merged(lines, s, s + 1).statements == lines[s].statements
  {
    assert lines[s..s + 1][..0] == [];
  }

  lemma StatementsSnoc(lines: seq<StatementLine>, s: nat, e: nat)
    requires s < e < |lines|
    ensures Statements(lines[s..e + 1]) == Statements(lines[s..e]) + lines[e].statements
  {
    assert lines[s..e + 1][..e - s] == lines[s..e];
  }

  lemma StatementsOfSegment(lines: seq<StatementLine>, s: nat, e: nat)
    requires s < e <= |lines|
    ensures Statements([Merged(lines, s, e)]) == Statements(lines[s..e])
  {
    assert [Merged(lines, s, e)][..0] == [];
  }

  /** The labels of a segment whose later lines are all unlabelled are those of its first line. */
  lemma {:induction false} LabelsOfSegment(lines: seq<StatementLine>, s: nat, e: nat)
    requires s < e <= |lines|
    requires forall k :: s < k < e ==> Absorbable(lines[k])
    ensures Labels(lines[s..e]) == Labels([Merged(lines, s, e)])
    decreases e - s
  {
    assert [Merged(lines, s, e)][..0] == [];
    if e == s + 1 {
      assert lines[s..e][..0] == [];
    } else {
      LabelsOfSegment(lines, s, e - 1);
      assert lines[s..e][..e - 1 - s] == lines[s..e - 1];
      assert Merged(lines, s, e).lineLabel == Merged(lines, s, e - 1).lineLabel;
    }
  }
}
