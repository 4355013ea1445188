/**
 `fixup_c` of the code formatter.  It moves indented preprocessor directives so that an `#if`
 in front of `} else ` or `case ` lines up with that line, and every directive that belongs
 to the `#if` follows it.

 `Directives` is the stack machine, on what matters of each line; `CodeFormat` is the program
 on the lines themselves.
 */
module Directives {

  /** What the regular expression makes of a line: a directive after at least one space, or not. */
  datatype Kind = Open | Middle | Close | Plain

  /** All that the program looks at in a line: its leading spaces, its kind, and whether it is
      an indented `} else ` or `case ` line. */
  datatype Shape = Shape(indent: nat, kind: Kind, elseOrCase: bool)

  predicate Associated(s: Shape) {
    s.kind == Middle || s.kind == Close
  }

  /** Line `k` opens a directive and is indented four deeper than an `} else ` or `case ` line after it. */
  predicate MustDedent(shapes: seq<Shape>, k: nat)
    requires k < |shapes|
  {
    && shapes[k].kind == Open && k + 1 < |shapes|
    && shapes[k].indent == shapes[k + 1].indent + 4 && shapes[k + 1].elseOrCase
  }

  /** Why a pass stops early: the two list index errors and the two assertions. */
  datatype Failure = NoNextLine | NoOpenDirective | OutdentedDirective | Unbalanced

  /** One round of the loop: the column the line is written at and the new stack, or the reason it stops. */
  datatype Round = Emit(column: nat, stack: seq<int>) | Stop(why: Failure)

  /** The round for line `k`, with the given stack of columns (-1 for "leave alone"). */
  function RoundFor(shapes: seq<Shape>, k: nat, stack: seq<int>): (r: Round)
    requires k < |shapes|
    ensures r.Emit? ==> r.column <= shapes[k].indent
  {
    var s := shapes[k];
    match s.kind
    case Plain => Emit(s.indent, stack)
    case Open =>
      if k + 1 == |shapes| then Stop(NoNextLine)
      else if MustDedent(shapes, k) then Emit(s.indent - 4, stack + [s.indent - 4])
      else Emit(s.indent, stack + [-1])
    case Middle => FollowTop(s, stack, stack)
    case Close => FollowTop(s, stack, if stack == [] then [] else stack[..|stack| - 1])
  }

  /** An associated directive goes to the column on top of the stack; `rest` is the stack afterwards. */
  function FollowTop(s: Shape, stack: seq<int>, rest: seq<int>): (r: Round)
    ensures r.Emit? ==> r.column <= s.indent
  {
    if stack == [] then Stop(NoOpenDirective)
    else
      var column := stack[|stack| - 1];
      if column < 0 then Emit(s.indent, rest)
      else if s.indent < column then Stop(OutdentedDirective)
      else Emit(column, rest)
  }

  /** A pass over the rest of a file: the columns of the lines it wrote, and why it stopped if it did. */
  datatype Outcome = Done(columns: seq<nat>) | Failed(columns: seq<nat>, why: Failure)

  function After(columns: seq<nat>, o: Outcome): Outcome {
    match o
    case Done(more) => Done(columns + more)
    case Failed(more, why) => Failed(columns + more, why)
  }

  /** What the loop does from line `k` on. */
  function Pass(shapes: seq<Shape>, k: nat, stack: seq<int>): (o: Outcome)
    requires k <= |shapes|
    ensures |o.columns| <= |shapes| - k
    ensures o.Done? ==> |o.columns| == |shapes| - k
    ensures forall d :: 0 <= d < |o.columns| ==> o.columns[d] <= shapes[k + d].indent
    decreases |shapes| - k
  {
    if k == |shapes| then
      if stack == [] then Done([]) else Failed([], Unbalanced)
    else
      match RoundFor(shapes, k, stack)
      case Emit(column, stack') => After([column], Pass(shapes, k + 1, stack'))
      case Stop(why) => Failed([], why)
  }

  /** The loop has written the given columns and has `stack`; the rest of the pass is still to come. */
  ghost predicate Halfway(shapes: seq<Shape>, columns: seq<nat>, stack: seq<int>) {
    && |columns| <= |shapes|
    && Pass(shapes, 0, []) == After(columns, Pass(shapes, |columns|, stack))
  }

  lemma HalfwayStarts(shapes: seq<Shape>)
    ensures Halfway(shapes, [], [])
  {
    var o := Pass(shapes, 0, []);
    assert [] + o.columns == o.columns;
  }

  lemma HalfwayNext(shapes: seq<Shape>, columns: seq<nat>, stack: seq<int>, column: nat, stack': seq<int>)
    requires Halfway(shapes, columns, stack) && |columns| < |shapes|
    requires RoundFor(shapes, |columns|, stack) == Emit(column, stack')
    ensures Halfway(shapes, columns + [column], stack')
  {
    var rest := Pass(shapes, |columns| + 1, stack');
    assert columns + ([column] + rest.columns) == (columns + [column]) + rest.columns;
  }

  lemma HalfwayStops(shapes: seq<Shape>, columns: seq<nat>, stack: seq<int>, why: Failure)
    requires Halfway(shapes, columns, stack) && |columns| < |shapes|
    requires RoundFor(shapes, |columns|, stack) == Stop(why)
    ensures Pass(shapes, 0, []) == Failed(columns, why)
  {
    assert columns + [] == columns;
  }

  lemma HalfwayEnds(shapes: seq<Shape>, columns: seq<nat>, stack: seq<int>)
    requires Halfway(shapes, columns, stack) && |columns| == |shapes|
    ensures Pass(shapes, 0, []) == if stack == [] then Done(columns) else Failed(columns, Unbalanced)
  {
    assert columns + [] == columns;
  }

  // ---------- what a pass means, without a stack ----------

  /** How many directives are open before line `k`. */
  function Depth(shapes: seq<Shape>, k: nat): int
    requires k <= |shapes|
  {
    if k == 0 then 0
    else
      Depth(shapes, k - 1) +
      match shapes[k - 1].kind
      case Open => 1
      case Close => -1
      case _ => 0
  }

  /** Line `j` belongs to the opening directive `i`: `i` is the innermost one still open at `j`. */
  ghost predicate Belongs(shapes: seq<Shape>, i: nat, j: nat)
    requires j < |shapes|
  {
    && i < j && shapes[i].kind == Open && Associated(shapes[j])
    && Depth(shapes, i + 1) == Depth(shapes, j)
    && forall m :: i < m <= j ==> Depth(shapes, m) >= Depth(shapes, i + 1)
  }

  /** Line `j` has to follow the dedented `#if` in line `i`. */
  ghost predicate Follows(shapes: seq<Shape>, i: nat, j: nat)
    requires j < |shapes|
  {
    Belongs(shapes, i, j) && MustDedent(shapes, i)
  }

  /** Every line from `k` on that needs an open directive has one, and none is left open. */
  ghost predicate Balanced(shapes: seq<Shape>, k: nat)
    requires k <= |shapes|
  {
    && Depth(shapes, |shapes|) == 0
    && forall j :: k <= j < |shapes| && Associated(shapes[j]) ==> Depth(shapes, j) >= 1
  }

  /** If line `j` follows a dedented `#if`, it does not start to the left of that `#if`'s new column. */
  ghost predicate NotOutdented(shapes: seq<Shape>, j: nat)
    requires j < |shapes|
  {
    forall i :: 0 <= i < j && Follows(shapes, i, j) ==> shapes[j].indent >= shapes[i].indent - 4
  }

  ghost predicate NoneOutdented(shapes: seq<Shape>, k: nat) {
    forall j :: k <= j < |shapes| ==> NotOutdented(shapes, j)
  }

  /** Where line `j` has to go: four to the left if it is a dedented `#if`, into the column of that
      `#if` if it belongs to one, and nowhere otherwise. */
  ghost predicate RightColumn(shapes: seq<Shape>, j: nat, column: nat)
    requires j < |shapes|
  {
    && (MustDedent(shapes, j) ==> column == shapes[j].indent - 4)
    && (forall i :: 0 <= i < j && Follows(shapes, i, j) ==> column == shapes[i].indent - 4)
    && (!MustDedent(shapes, j) && (forall i :: 0 <= i < j ==> !Follows(shapes, i, j)) ==> column == shapes[j].indent)
  }

  ghost predicate Aligned(shapes: seq<Shape>, k: nat, columns: seq<nat>)
    requires k <= |shapes|
  {
    |columns| == |shapes| - k && forall d :: 0 <= d < |columns| ==> RightColumn(shapes, k + d, columns[d])
  }

  // ---------- the stack mirrors the open directives ----------

  /** `opens` lists the directives open before line `k`, outermost first. */
  ghost predicate OpenAt(shapes: seq<Shape>, k: nat, opens: seq<nat>)
    requires k <= |shapes|
  {
    && |opens| == Depth(shapes, k)
    && forall d :: 0 <= d < |opens| ==> OpenedAt(shapes, k, d, opens[d])
  }

  ghost predicate OpenedAt(shapes: seq<Shape>, k: nat, d: nat, o: nat)
    requires k <= |shapes|
  {
    && o < k && shapes[o].kind == Open && Depth(shapes, o) == d
    && forall m :: o < m <= k ==> Depth(shapes, m) > d
  }

  function Column(shapes: seq<Shape>, o: nat): int
    requires o < |shapes|
  {
    if MustDedent(shapes, o) then shapes[o].indent - 4 else -1
  }

  ghost predicate Mirrors(shapes: seq<Shape>, opens: seq<nat>, stack: seq<int>) {
    && |stack| == |opens|
    && forall d :: 0 <= d < |opens| ==> opens[d] < |shapes| && stack[d] == Column(shapes, opens[d])
  }

  /** The directives open after line `k`. */
  function OpensAfter(shapes: seq<Shape>, k: nat, opens: seq<nat>): (opens': seq<nat>)
    requires k < |shapes|
  {
    match shapes[k].kind
    case Open => opens + [k]
    case Close => if opens == [] then [] else opens[..|opens| - 1]
    case _ => opens
  }

  /** The innermost open directive is the one a line belongs to, and the only one. */
  lemma InnermostBelongs(shapes: seq<Shape>, k: nat, opens: seq<nat>, i: nat)
    requires k < |shapes| && OpenAt(shapes, k, opens) && opens != [] && Associated(shapes[k])
    ensures Belongs(shapes, i, k) <==> i == opens[|opens| - 1]
  {
    var d := |opens| - 1;
    var o := opens[d];
    assert OpenedAt(shapes, k, d, o);
    assert Depth(shapes, o + 1) == d + 1;
    if Belongs(shapes, i, k) {
      assert Depth(shapes, i + 1) == Depth(shapes, i) + 1;
    }
  }

  lemma OpenedStays(shapes: seq<Shape>, k: nat, d: nat, o: nat)
    requires k < |shapes| && OpenedAt(shapes, k, d, o) && Depth(shapes, k + 1) > d
    ensures OpenedAt(shapes, k + 1, d, o)
  {
  }

  lemma OpenNext(shapes: seq<Shape>, k: nat, opens: seq<nat>)
    requires k < |shapes| && OpenAt(shapes, k, opens)
    requires Associated(shapes[k]) ==> opens != []
    ensures OpenAt(shapes, k + 1, OpensAfter(shapes, k, opens))
  {
    var opens' := OpensAfter(shapes, k, opens);
    assert Depth(shapes, k + 1) == |opens'|;
    forall d | 0 <= d < |opens'|
      ensures OpenedAt(shapes, k + 1, d, opens'[d])
    {
      if d < |opens| {
        assert opens'[d] == opens[d];
        OpenedStays(shapes, k, d, opens[d]);
      } else {
        assert opens'[d] == k && d == |opens|;
      }
    }
  }

  /** When the round for line `k` goes through. */
  ghost predicate RoundPasses(shapes: seq<Shape>, k: nat)
    requires k < |shapes|
  {
    && (Associated(shapes[k]) ==> Depth(shapes, k) >= 1)
    && (shapes[k].kind == Open ==> k + 1 < |shapes|)
    && NotOutdented(shapes, k)
  }

  /** One round, told without the stack. */
  lemma RoundMeans(shapes: seq<Shape>, k: nat, opens: seq<nat>, stack: seq<int>)
    requires k < |shapes| && OpenAt(shapes, k, opens) && Mirrors(shapes, opens, stack)
    ensures var r := RoundFor(shapes, k, stack);
            && (r.Emit? <==> RoundPasses(shapes, k))
            && (r.Emit? ==> && RightColumn(shapes, k, r.column)
                            && Mirrors(shapes, OpensAfter(shapes, k, opens), r.stack))
  {
    if Associated(shapes[k]) && opens != [] {
      forall i | 0 <= i < k
        ensures Follows(shapes, i, k) <==> i == opens[|opens| - 1] && MustDedent(shapes, i)
      {
        InnermostBelongs(shapes, k, opens, i);
      }
      assert OpenedAt(shapes, k, |opens| - 1, opens[|opens| - 1]);
    }
  }

  /** A pass finishes exactly on balanced files without outdented followers, and then it has put every
      line in its right column: from line `k` on. */
  lemma {:induction false} PassFrom(shapes: seq<Shape>, k: nat, opens: seq<nat>, stack: seq<int>)
    requires k <= |shapes| && OpenAt(shapes, k, opens) && Mirrors(shapes, opens, stack)
    ensures PassIsRight(shapes, k, Pass(shapes, k, stack))
    decreases |shapes| - k
  {
    if k < |shapes| {
      RoundMeans(shapes, k, opens, stack);
      var r := RoundFor(shapes, k, stack);
      if r.Emit? {
        OpenNext(shapes, k, opens);
        PassFrom(shapes, k + 1, OpensAfter(shapes, k, opens), r.stack);
      }
      PassStep(shapes, k, stack);
    }
  }

  ghost predicate PassIsRight(shapes: seq<Shape>, k: nat, o: Outcome)
    requires k <= |shapes|
  {
    && (o.Done? <==> Balanced(shapes, k) && NoneOutdented(shapes, k))
    && (o.Done? ==> Aligned(shapes, k, o.columns))
  }

  lemma PassStep(shapes: seq<Shape>, k: nat, stack: seq<int>)
    requires k < |shapes| && Depth(shapes, k) >= 0
    requires var r := RoundFor(shapes, k, stack);
             && (r.Emit? <==> RoundPasses(shapes, k))
             && (r.Emit? ==> RightColumn(shapes, k, r.column) && PassIsRight(shapes, k + 1, Pass(shapes, k + 1, r.stack)))
    ensures PassIsRight(shapes, k, Pass(shapes, k, stack))
  {
    SuffixConditions(shapes, k);
    var r := RoundFor(shapes, k, stack);
    if r.Emit? {
      var rest := Pass(shapes, k + 1, r.stack);
      if rest.Done? {
        AlignedCons(shapes, k, r.column, rest.columns);
      }
    }
  }

  lemma AlignedCons(shapes: seq<Shape>, k: nat, column: nat, rest: seq<nat>)
    requires k < |shapes| && RightColumn(shapes, k, column) && Aligned(shapes, k + 1, rest)
    ensures Aligned(shapes, k, [column] + rest)
  {
    forall d | 0 <= d < |[column] + rest|
      ensures RightColumn(shapes, k + d, ([column] + rest)[d])
    {
      if d > 0 {
        assert RightColumn(shapes, k + 1 + (d - 1), rest[d - 1]);
      }
    }
  }

  lemma SuffixConditions(shapes: seq<Shape>, k: nat)
    requires k < |shapes| && Depth(shapes, k) >= 0
    ensures Balanced(shapes, k) && NoneOutdented(shapes, k) <==>
            RoundPasses(shapes, k) && Balanced(shapes, k + 1) && NoneOutdented(shapes, k + 1)
  {
    if shapes[k].kind == Open && k + 1 == |shapes| {
      assert Depth(shapes, |shapes|) == Depth(shapes, k) + 1;
    }
  }

  /** The pass succeeds exactly when the directives are balanced and nothing that belongs to a dedented
      `#if` starts left of its new column; it then moves every dedented `#if` and all that belongs to it
      into one column, at any nesting depth, and moves nothing else. */
  lemma PassMeans(shapes: seq<Shape>)
    ensures var o := Pass(shapes, 0, []);
            && (o.Done? <==> Balanced(shapes, 0) && NoneOutdented(shapes, 0))
            && (o.Done? ==> Aligned(shapes, 0, o.columns))
  {
    PassFrom(shapes, 0, [], []);
  }

  // ---------- a second pass ----------

  /** The file after its lines were moved to the given columns. */
  function Moved(shapes: seq<Shape>, columns: seq<nat>): (shapes': seq<Shape>)
    requires |columns| == |shapes|
    ensures |shapes'| == |shapes|
  {
    seq(|shapes|, j requires 0 <= j < |shapes| => shapes[j].(indent := columns[j]))
  }

  /** What the shapes of real lines satisfy. */
  predicate FromText(s: Shape) {
    (s.elseOrCase ==> s.kind == Plain) && (s.elseOrCase || s.kind != Plain ==> s.indent > 0)
  }

  /** Only directives move, and only to the left; they keep a leading space. */
  lemma MovesAreSmall(shapes: seq<Shape>, columns: seq<nat>, j: nat)
    requires (forall s :: s in shapes ==> FromText(s)) && Aligned(shapes, 0, columns) && j < |shapes|
    requires NotOutdented(shapes, j)
    ensures columns[j] <= shapes[j].indent && (columns[j] == 0 ==> shapes[j].indent == 0)
    ensures columns[j] != shapes[j].indent ==> MustDedent(shapes, j) || Associated(shapes[j])
  {
    assert RightColumn(shapes, 0 + j, columns[j]);
    if MustDedent(shapes, j) {
      assert shapes[j + 1] in shapes;
    } else if i :| 0 <= i < j && Follows(shapes, i, j) {
      assert shapes[i + 1] in shapes;
    }
  }

  lemma {:induction false} SameDepth(shapes: seq<Shape>, columns: seq<nat>, k: nat)
    requires |columns| == |shapes| && k <= |shapes|
    ensures Depth(Moved(shapes, columns), k) == Depth(shapes, k)
  {
    if k > 0 {
      SameDepth(shapes, columns, k - 1);
    }
  }

  lemma NothingLeftToDedent(shapes: seq<Shape>, columns: seq<nat>, k: nat)
    requires (forall s :: s in shapes ==> FromText(s)) && Aligned(shapes, 0, columns) && k < |shapes|
    requires NoneOutdented(shapes, 0)
    ensures !MustDedent(Moved(shapes, columns), k)
  {
    MovesAreSmall(shapes, columns, k);
    assert RightColumn(shapes, 0 + k, columns[k]);
    if k + 1 < |shapes| {
      assert shapes[k + 1] in shapes;
      MovesAreSmall(shapes, columns, k + 1);
    }
  }

  /** A second pass over what the first one wrote succeeds and moves nothing. */
  lemma PassIdempotent(shapes: seq<Shape>)
    requires (forall s :: s in shapes ==> FromText(s)) && Pass(shapes, 0, []).Done?
    ensures var columns := Pass(shapes, 0, []).columns;
            Pass(Moved(shapes, columns), 0, []) == Done(columns)
  {
    var columns := Pass(shapes, 0, []).columns;
    var shapes' := Moved(shapes, columns);
    PassMeans(shapes);
    PassMeans(shapes');
    forall k | 0 <= k < |shapes|
      ensures !MustDedent(shapes', k)
    {
      NothingLeftToDedent(shapes, columns, k);
    }
    forall k | 0 <= k <= |shapes|
      ensures Depth(shapes', k) == Depth(shapes, k)
    {
      SameDepth(shapes, columns, k);
    }
    assert Balanced(shapes', 0) && NoneOutdented(shapes', 0);
    var again := Pass(shapes', 0, []).columns;
    forall j | 0 <= j < |again|
      ensures again[j] == columns[j]
    {
      assert RightColumn(shapes', 0 + j, again[j]);
    }
  }
}

module CodeFormat {
  import opened Common
  import opened Directives

  /** The number of leading spaces. */
  function Spaces(l: string): (n: nat)
    ensures n <= |l| && (forall k :: 0 <= k < n ==> l[k] == ' ') && (n < |l| ==> l[n] != ' ')
  {
    if l == "" || l[0] != ' ' then 0 else 1 + Spaces(l[1..])
  }

  function Text(l: string): string {
    l[Spaces(l)..]
  }

  function KindOfText(t: string): Kind {
    if "#if " <= t || "#ifdef " <= t || "#ifndef " <= t then Open
    else if "#elif " <= t || "#else" <= t then Middle
    else if "#endif" <= t then Close
    else Plain
  }

  function KindOf(l: string): Kind {
    if Spaces(l) == 0 then Plain else KindOfText(Text(l))
  }

  predicate ElseOrCase(l: string) {
    Spaces(l) > 0 && ("} else " <= Text(l) || "case " <= Text(l))
  }

  function ShapeOf(l: string): (s: Shape)
    ensures FromText(s) && s.indent == Spaces(l)
  {
    ElseIsNoDirective(l);
    Shape(Spaces(l), KindOf(l), ElseOrCase(l))
  }

  lemma ElseIsNoDirective(l: string)
    ensures ElseOrCase(l) ==> KindOf(l) == Plain
  {
    if ElseOrCase(l) {
      assert Text(l)[0] != '#';
    }
  }

  function Shapes(lines: seq<string>): (shapes: seq<Shape>)
    ensures |shapes| == |lines| && forall s :: s in shapes ==> FromText(s)
    ensures forall j :: 0 <= j < |lines| ==> shapes[j] == ShapeOf(lines[j])
  {
    seq(|lines|, j requires 0 <= j < |lines| => ShapeOf(lines[j]))
  }

  /** `l` moved left so that its text starts at `column`. */
  function AtColumn(l: string, column: nat): string
    requires column <= Spaces(l)
  {
    l[Spaces(l) - column..]
  }

  /** The columns are those of the first lines of a file, none to the right of where the line starts. */
  ghost predicate Leftward(lines: seq<string>, columns: seq<nat>) {
    |columns| <= |lines| && forall j :: 0 <= j < |columns| ==> columns[j] <= Spaces(lines[j])
  }

  function Write(lines: seq<string>, columns: seq<nat>): (written: seq<string>)
    requires Leftward(lines, columns)
    ensures |written| == |columns|
    ensures forall j :: 0 <= j < |columns| ==> written[j] == AtColumn(lines[j], columns[j])
  {
    seq(|columns|, j requires 0 <= j < |columns| <= |lines| && columns[j] <= Spaces(lines[j]) =>
          AtColumn(lines[j], columns[j]))
  }

  lemma WriteNext(lines: seq<string>, columns: seq<nat>, column: nat)
    requires Leftward(lines, columns) && |columns| < |lines| && column <= Spaces(lines[|columns|])
    ensures Leftward(lines, columns + [column])
    ensures Write(lines, columns + [column]) == Write(lines, columns) + [AtColumn(lines[|columns|], column)]
  {
  }

  /** One round of the loop of `fixup_c`, for line `k`: the rewritten line and the new stack. */
  method FixupLine(ghost input: seq<string>, ghost k: nat, line: string, lines: seq<string>, stack: seq<int>)
    returns (nl: string, dedentStack: seq<int>, failure: Option<Failure>)
    requires k < |input| && line == input[k] && lines == input[k + 1..]
    ensures var round := RoundFor(Shapes(input), k, stack);
            && (failure.Some? ==> round == Stop(failure.value))
            && (failure.None? ==> round.Emit? && dedentStack == round.stack && nl == AtColumn(line, round.column))
  {
    nl, dedentStack, failure := line, stack, None;
    var kind := KindOf(nl);
    if kind == Plain {
      return;
    }
    var indent := Spaces(nl);
    if kind == Open {
      if |lines| == 0 {
        return nl, stack, Some(NoNextLine);
      }
      var next := lines[0];
      assert next == input[k + 1];
      var indentNext := Spaces(next);
      if indent == indentNext + 4 && ElseOrCase(next) {
        nl := nl[4..];
        dedentStack := stack + [indent - 4];
      } else {
        dedentStack := stack + [-1];
      }
    } else {
      if |stack| == 0 {
        return nl, stack, Some(NoOpenDirective);
      }
      var column := stack[|stack| - 1];
      if column >= 0 {
        if indent < column {
          return nl, stack, Some(OutdentedDirective);
        }
        nl := nl[indent - column..];
      }
      if kind == Close {
        dedentStack := stack[..|stack| - 1];
      }
    }
  }

  /** The loop has written the lines for the given columns and has `stack`. */
  ghost predicate HasWritten(input: seq<string>, columns: seq<nat>, stack: seq<int>, written: seq<string>) {
    Leftward(input, columns) && written == Write(input, columns) && Halfway(Shapes(input), columns, stack)
  }

  lemma WritesNext(input: seq<string>, columns: seq<nat>, stack: seq<int>, written: seq<string>,
                   column: nat, stack': seq<int>)
    requires HasWritten(input, columns, stack, written) && |columns| < |input|
    requires RoundFor(Shapes(input), |columns|, stack) == Emit(column, stack')
    ensures column <= Spaces(input[|columns|])
    ensures HasWritten(input, columns + [column], stack', written + [AtColumn(input[|columns|], column)])
  {
    HalfwayNext(Shapes(input), columns, stack, column, stack');
    WriteNext(input, columns, column);
  }

  /** What the loop leaves behind: the lines of the specified pass, and its failure if there is one. */
  ghost predicate Explains(input: seq<string>, written: seq<string>, failure: Option<Failure>) {
    var o := Pass(Shapes(input), 0, []);
    && Leftward(input, o.columns) && written == Write(input, o.columns)
    && failure == if o.Done? then None else Some(o.why)
  }

  lemma WritesStop(input: seq<string>, columns: seq<nat>, stack: seq<int>, written: seq<string>, why: Failure)
    requires HasWritten(input, columns, stack, written) && |columns| < |input|
    requires RoundFor(Shapes(input), |columns|, stack) == Stop(why)
    ensures Explains(input, written, Some(why))
  {
    HalfwayStops(Shapes(input), columns, stack, why);
  }

  lemma WritesEnd(input: seq<string>, columns: seq<nat>, stack: seq<int>, written: seq<string>)
    requires HasWritten(input, columns, stack, written) && |columns| == |input|
    ensures Explains(input, written, if stack == [] then None else Some(Unbalanced))
  {
    HalfwayEnds(Shapes(input), columns, stack);
  }

  /** `fixup_c`, between reading the lines of the file and closing it: what it writes, and the failure
      it raises if it does. */
  method FixupC(input: seq<string>) returns (written: seq<string>, failure: Option<Failure>)
    ensures Explains(input, written, failure)
  {
    var lines := input;
    var dedentStack: seq<int> := [];
    ghost var columns: seq<nat> := [];
    written := [];
    HalfwayStarts(Shapes(input));
    while |lines| > 0
      invariant HasWritten(input, columns, dedentStack, written) && lines == input[|columns|..]
      decreases |lines|
    {
      ghost var stack := dedentStack;
      var nl := lines[0];
      lines := lines[1..];
      nl, dedentStack, failure := FixupLine(input, |columns|, nl, lines, dedentStack);
      if failure.Some? {
        WritesStop(input, columns, stack, written, failure.value);
        return;
      }
      ghost var column := RoundFor(Shapes(input), |columns|, stack).column;
      WritesNext(input, columns, stack, written, column, dedentStack);
      columns := columns + [column];
      written := written + [nl];
    }
    WritesEnd(input, columns, dedentStack, written);
    failure := if |dedentStack| > 0 then Some(Unbalanced) else None;
  }

  /** The lines `fixup_c` leaves behind, if it finishes. */
  function Fixup(lines: seq<string>): Option<seq<string>> {
    var o := Pass(Shapes(lines), 0, []);
    if o.Done? then
      assert forall d :: 0 <= d < |o.columns| ==> o.columns[d] <= Shapes(lines)[0 + d].indent;
      Some(Write(lines, o.columns))
    else None
  }

  lemma {:induction false} SpacesOfShift(l: string, cut: nat)
    requires cut <= Spaces(l)
    ensures Spaces(l[cut..]) == Spaces(l) - cut && Text(l[cut..]) == Text(l)
  {
    if cut > 0 {
      SpacesOfShift(l[1..], cut - 1);
      assert l[1..][cut - 1..] == l[cut..];
      assert l[1..][Spaces(l[1..])..] == l[Spaces(l)..];
    }
  }

  /** Moving a line keeps its text, and keeps what kind of line it is unless it loses its last space. */
  lemma ShapeOfMove(l: string, column: nat)
    requires column <= Spaces(l)
    ensures Text(AtColumn(l, column)) == Text(l) && Spaces(AtColumn(l, column)) == column
    ensures column > 0 || Spaces(l) == 0 ==> ShapeOf(AtColumn(l, column)) == ShapeOf(l).(indent := column)
    ensures column == Spaces(l) ==> AtColumn(l, column) == l
  {
    SpacesOfShift(l, Spaces(l) - column);
  }

  /** `l'` is `l` moved to the given column, and not moved at all unless it is a directive. */
  ghost predicate MovedTo(l: string, l': string, column: nat) {
    && Text(l') == Text(l) && Spaces(l') == column <= Spaces(l) && l' == AtColumn(l, column)
    && (KindOf(l) == Plain ==> l' == l)
  }

  lemma MoveLine(l: string, column: nat)
    requires column <= Spaces(l) && (KindOf(l) == Plain ==> column == Spaces(l))
    ensures MovedTo(l, AtColumn(l, column), column)
  {
    MoveText(l, column, KindOf(l) == Plain);
  }

  lemma MoveText(l: string, column: nat, fixed: bool)
    requires column <= Spaces(l) && (fixed ==> column == Spaces(l))
    ensures Text(AtColumn(l, column)) == Text(l) && Spaces(AtColumn(l, column)) == column
    ensures fixed ==> AtColumn(l, column) == l
  {
    SpacesOfShift(l, Spaces(l) - column);
  }

  lemma EachLineMoves(lines: seq<string>, columns: seq<nat>, j: nat)
    requires Leftward(lines, columns) && Aligned(Shapes(lines), 0, columns) && NoneOutdented(Shapes(lines), 0)
    requires j < |columns|
    ensures MovedTo(lines[j], Write(lines, columns)[j], columns[j])
    ensures RightColumn(Shapes(lines), j, columns[j])
  {
    var shapes := Shapes(lines);
    assert RightColumn(shapes, 0 + j, columns[j]);
    MovesAreSmall(shapes, columns, j);
    assert shapes[j].kind == KindOf(lines[j]);
    MoveLine(lines[j], columns[j]);
  }

  /** `l'` is line `j` in its right column, with its text unchanged. */
  ghost predicate Fixed(lines: seq<string>, j: nat, l': string)
    requires j < |lines|
  {
    RightColumn(Shapes(lines), j, Spaces(l')) && MovedTo(lines[j], l', Spaces(l'))
  }

  /** `fixup_c` finishes exactly on balanced files in which nothing that belongs to a dedented `#if`
      starts left of its new column. */
  lemma FixupFinishes(lines: seq<string>)
    ensures Fixup(lines).Some? <==> Balanced(Shapes(lines), 0) && NoneOutdented(Shapes(lines), 0)
  {
    PassMeans(Shapes(lines));
  }

  /** What `fixup_c` does to each line when it finishes: the text stays, the line is put in its right
      column, and lines that are no directives stay as they are. */
  lemma FixupMeans(lines: seq<string>, j: nat)
    requires Fixup(lines).Some? && j < |lines|
    ensures |Fixup(lines).value| == |lines| && Fixed(lines, j, Fixup(lines).value[j])
  {
    PassMeans(Shapes(lines));
    var columns := Pass(Shapes(lines), 0, []).columns;
    EachLineMoves(lines, columns, j);
  }

  /** A directive has text. */
  lemma DirectivesHaveText(l: string)
    requires KindOf(l) != Plain
    ensures Spaces(l) < |l|
  {
    assert Text(l) != "";
  }

  lemma ShapesOfWritten(lines: seq<string>, columns: seq<nat>)
    requires Pass(Shapes(lines), 0, []) == Done(columns) && Leftward(lines, columns)
    ensures Shapes(Write(lines, columns)) == Moved(Shapes(lines), columns)
  {
    var shapes := Shapes(lines);
    PassMeans(shapes);
    forall j | 0 <= j < |lines|
      ensures ShapeOf(AtColumn(lines[j], columns[j])) == shapes[j].(indent := columns[j])
    {
      MovesAreSmall(shapes, columns, j);
      ShapeOfMove(lines[j], columns[j]);
    }
  }

  /** A second run of `fixup_c` finishes and changes no line. */
  lemma FixupIdempotent(lines: seq<string>)
    requires Fixup(lines).Some?
    ensures Fixup(Fixup(lines).value) == Fixup(lines)
  {
    var shapes := Shapes(lines);
    var columns := Pass(shapes, 0, []).columns;
    var out := Write(lines, columns);
    PassIdempotent(shapes);
    ShapesOfWritten(lines, columns);
    forall j | 0 <= j < |out|
      ensures Spaces(out[j]) == columns[j] && AtColumn(out[j], columns[j]) == out[j]
    {
      ShapeOfMove(lines[j], columns[j]);
      ShapeOfMove(out[j], columns[j]);
    }
    assert Write(out, columns) == out;
  }
}

/** The file around the lines: `readlines` in text mode, and writing without newline translation. */
module CodeFormatFile {
  import opened Common
  import opened CodeFormat
  import opened Directives

  /** Text mode turns every end of line into a line feed. */
  function Universal(t: string): (u: string)
    ensures '\r' !in u
    ensures '\r' !in t ==> u == t
    decreases |t|
  {
    if t == "" then ""
    else if t[0] != '\r' then [t[0]] + Universal(t[1..])
    else if |t| > 1 && t[1] == '\n' then "\n" + Universal(t[2..])
    else "\n" + Universal(t[1..])
  }

  /** The lines of a text, each with the line feed that ends it. */
  function SplitLines(t: string): (lines: seq<string>)
    ensures t != "" ==> lines != []
  {
    if t == "" then []
    else if t[0] == '\n' || |t| == 1 then [t[..1]] + SplitLines(t[1..])
    else
      var rest := SplitLines(t[1..]);
      [[t[0]] + rest[0]] + rest[1..]
  }

  function Join(lines: seq<string>): string {
    if lines == [] then "" else lines[0] + Join(lines[1..])
  }

  /** `l` has a line feed at its end, or nowhere. */
  predicate OneLine(l: string, last: bool) {
    l != "" && (forall k :: 0 <= k < |l| - 1 ==> l[k] != '\n') && (last || l[|l| - 1] == '\n')
  }

  predicate AreLines(lines: seq<string>) {
    forall j :: 0 <= j < |lines| ==> OneLine(lines[j], j == |lines| - 1)
  }

  function FixupFile(content: string): Option<string> {
    var r := Fixup(SplitLines(Universal(content)));
    if r.Some? then Some(Join(r.value)) else None
  }

  lemma {:induction false} SplitIsLines(t: string)
    ensures AreLines(SplitLines(t)) && Join(SplitLines(t)) == t
  {
    if t != "" {
      var rest := SplitLines(t[1..]);
      SplitIsLines(t[1..]);
      if t[0] == '\n' || |t| == 1 {
        assert ([t[..1]] + rest)[1..] == rest;
      } else {
        assert t == [t[0]] + (rest[0] + Join(rest[1..])) == ([t[0]] + rest[0]) + Join(rest[1..]);
      }
    }
  }

  lemma {:induction false} SplitOfJoin(lines: seq<string>)
    requires AreLines(lines)
    ensures SplitLines(Join(lines)) == lines
    decreases |Join(lines)|
  {
    if lines != [] {
      var t := Join(lines);
      var l, rest := lines[0], lines[1..];
      assert OneLine(l, |lines| == 1);
      forall j | 0 <= j < |rest|
        ensures OneLine(rest[j], j == |rest| - 1)
      {
        assert OneLine(lines[j + 1], j + 1 == |lines| - 1);
      }
      if |l| == 1 {
        assert t[1..] == Join(rest);
        SplitOfJoin(rest);
      } else {
        var shorter := [l[1..]] + rest;
        assert OneLine(l[1..], |lines| == 1);
        assert shorter[1..] == rest && l != "" && [l[0]] + l[1..] == l;
        assert t[0] != '\n' && t[1..] == Join(shorter);
        SplitOfJoin(shorter);
      }
    }
  }

  /** A moved line is still one line. */
  lemma MovedIsOneLine(l: string, l': string, column: nat, last: bool)
    requires OneLine(l, last) && MovedTo(l, l', column)
    ensures OneLine(l', last)
    ensures '\r' !in l ==> '\r' !in l'
  {
    if KindOf(l) != Plain {
      DirectivesHaveText(l);
      SuffixIsOneLine(l, Spaces(l) - column, last);
    }
  }

  lemma SuffixIsOneLine(l: string, cut: nat, last: bool)
    requires OneLine(l, last) && cut < |l|
    ensures OneLine(l[cut..], last)
    ensures '\r' !in l ==> '\r' !in l[cut..]
  {
  }

  /** A pass cannot merge or split lines. */
  lemma FixupKeepsLines(lines: seq<string>)
    requires AreLines(lines) && Fixup(lines).Some?
    ensures AreLines(Fixup(lines).value)
    ensures (forall l :: l in lines ==> '\r' !in l) ==> forall l :: l in Fixup(lines).value ==> '\r' !in l
  {
    var out := Fixup(lines).value;
    forall j | 0 <= j < |out|
      ensures OneLine(out[j], j == |out| - 1)
      ensures '\r' !in lines[j] ==> '\r' !in out[j]
    {
      FixupMeans(lines, j);
      assert OneLine(lines[j], j == |lines| - 1);
      MovedIsOneLine(lines[j], out[j], Spaces(out[j]), j == |out| - 1);
    }
  }

  lemma {:induction false} JoinHasNoCarriageReturn(lines: seq<string>)
    requires forall l :: l in lines ==> '\r' !in l
    ensures '\r' !in Join(lines)
  {
    if lines != [] {
      JoinHasNoCarriageReturn(lines[1..]);
    }
  }

  lemma {:induction false} SplitHasNoCarriageReturn(t: string)
    requires '\r' !in t
    ensures forall l :: l in SplitLines(t) ==> '\r' !in l
  {
    if t != "" {
      SplitHasNoCarriageReturn(t[1..]);
    }
  }

  /** Running the formatter's fix-up on a file twice leaves the file as the first run left it, whatever
      line ends the file had. */
  lemma FixupFileIdempotent(content: string)
    requires FixupFile(content).Some?
    ensures FixupFile(FixupFile(content).value) == FixupFile(content)
  {
    var t := Universal(content);
    var lines := SplitLines(t);
    var out := Fixup(lines).value;
    SplitIsLines(t);
    FixupKeepsLines(lines);
    SplitOfJoin(out);
    SplitHasNoCarriageReturn(t);
    JoinHasNoCarriageReturn(out);
    FixupIdempotent(lines);
  }
}
