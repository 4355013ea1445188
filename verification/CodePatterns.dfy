/**
 Which lines the regular expressions of `fixup_c` match, told by how the lines begin, and what that means for
 whole files.
 */
module CodePatterns {
  import opened Common
  import opened Directives
  import opened CodeFormat

  /** `n` spaces. */
  function Blank(n: nat): (b: string)
    ensures |b| == n && forall k :: 0 <= k < n ==> b[k] == ' '
  {
    if n == 0 then "" else " " + Blank(n - 1)
  }

  /** The line begins with `n` spaces, followed by one of the words. */
  ghost predicate Begins(l: string, n: nat, words: seq<string>) {
    exists i :: 0 <= i < |words| && Blank(n) + words[i] <= l
  }

  /** A word that the expressions look for: it is not empty and does not begin with a space. */
  predicate Word(w: string) {
    w != "" && w[0] != ' '
  }

  lemma {:induction false} SpacesOfBlank(n: nat, t: string)
    requires t == "" || t[0] != ' '
    ensures Spaces(Blank(n) + t) == n && Text(Blank(n) + t) == t
  {
    if n == 0 {
      assert Blank(0) + t == t;
    } else {
      assert (Blank(n) + t)[1..] == Blank(n - 1) + t;
      SpacesOfBlank(n - 1, t);
    }
  }

  lemma BlankAndText(l: string)
    ensures l == Blank(Spaces(l)) + Text(l)
  {
    assert l[..Spaces(l)] == Blank(Spaces(l));
    assert l == l[..Spaces(l)] + l[Spaces(l)..];
  }

  lemma OneWord(l: string, n: nat, w: string)
    requires Word(w)
    ensures Blank(n) + w <= l <==> n == Spaces(l) && w <= Text(l)
  {
    if Blank(n) + w <= l {
      var rest := l[|Blank(n) + w|..];
      assert l == Blank(n) + (w + rest);
      SpacesOfBlank(n, w + rest);
    }
    if n == Spaces(l) && w <= Text(l) {
      BlankAndText(l);
      assert (Blank(n) + Text(l))[..n + |w|] == Blank(n) + w;
    }
  }

  /** Some word of the list stands at the start of the text. */
  predicate Leads(words: seq<string>, t: string) {
    exists i :: 0 <= i < |words| && words[i] <= t
  }

  lemma BeginsIff(l: string, n: nat, words: seq<string>)
    requires forall i :: 0 <= i < |words| ==> Word(words[i])
    ensures Begins(l, n, words) <==> n == Spaces(l) && Leads(words, Text(l))
  {
    forall i | 0 <= i < |words|
      ensures Blank(n) + words[i] <= l <==> n == Spaces(l) && words[i] <= Text(l)
    {
      OneWord(l, n, words[i]);
    }
  }

  /** The line begins with at least one space, followed by one of the words. */
  ghost predicate Indented(l: string, words: seq<string>) {
    exists n: nat :: n > 0 && Begins(l, n, words)
  }

  lemma IndentedIff(l: string, words: seq<string>)
    requires forall i :: 0 <= i < |words| ==> Word(words[i])
    ensures Indented(l, words) <==> Spaces(l) > 0 && Leads(words, Text(l))
  {
    if Indented(l, words) {
      var n: nat :| n > 0 && Begins(l, n, words);
      BeginsIff(l, n, words);
    }
    BeginsIff(l, Spaces(l), words);
  }

  lemma Leads3(a: string, b: string, c: string, t: string)
    ensures Leads([a, b, c], t) <==> a <= t || b <= t || c <= t
  {
    assert [a, b, c][0] == a && [a, b, c][1] == b && [a, b, c][2] == c;
  }

  lemma Leads2(a: string, b: string, t: string)
    ensures Leads([a, b], t) <==> a <= t || b <= t
  {
    assert [a, b][0] == a && [a, b][1] == b;
  }

  lemma Leads1(a: string, t: string)
    ensures Leads([a], t) <==> a <= t
  {
    assert [a][0] == a;
  }

  lemma NoTwoKinds(t: string)
    ensures "#elif " <= t || "#else" <= t || "#endif" <= t ==> !("#if " <= t || "#ifdef " <= t || "#ifndef " <= t)
    ensures "#elif " <= t || "#else" <= t ==> !("#endif" <= t)
  {
    if |t| > 2 {
      assert "#if " <= t || "#ifdef " <= t || "#ifndef " <= t ==> t[1] == 'i';
      assert "#elif " <= t || "#else" <= t ==> t[1] == 'e' && t[2] == 'l';
      assert "#endif" <= t ==> t[1] == 'e' && t[2] == 'n';
    }
  }

  /** The lines that open a directive. */
  lemma OpensIff(l: string)
    ensures KindOf(l) == Open <==> Indented(l, ["#if ", "#ifdef ", "#ifndef "])
  {
    Leads3("#if ", "#ifdef ", "#ifndef ", Text(l));
    IndentedIff(l, ["#if ", "#ifdef ", "#ifndef "]);
  }

  /** The lines in the middle of one. */
  lemma MiddleIff(l: string)
    ensures KindOf(l) == Middle <==> Indented(l, ["#elif ", "#else"])
  {
    Leads2("#elif ", "#else", Text(l));
    NoTwoKinds(Text(l));
    IndentedIff(l, ["#elif ", "#else"]);
  }

  /** The lines that close one. */
  lemma ClosesIff(l: string)
    ensures KindOf(l) == Close <==> Indented(l, ["#endif"])
  {
    Leads1("#endif", Text(l));
    NoTwoKinds(Text(l));
    IndentedIff(l, ["#endif"]);
  }

  /** All others are plain. */
  lemma PlainIff(l: string)
    ensures KindOf(l) == Plain <==>
            && !Indented(l, ["#if ", "#ifdef ", "#ifndef "]) && !Indented(l, ["#elif ", "#else"])
            && !Indented(l, ["#endif"])
  {
    OpensIff(l);
    MiddleIff(l);
    ClosesIff(l);
  }

  /** The lines an `#if` lines up with. */
  lemma ElseOrCaseIff(l: string)
    ensures ElseOrCase(l) <==> Indented(l, ["} else ", "case "])
  {
    Leads2("} else ", "case ", Text(l));
    IndentedIff(l, ["} else ", "case "]);
  }

  /** An opening line stands four to the right of a `} else ` or `case ` line at column `n`. */
  ghost predicate LinesUp(l: string, next: string, n: nat) {
    n > 0 && Begins(l, n + 4, ["#if ", "#ifdef ", "#ifndef "]) && Begins(next, n, ["} else ", "case "])
  }

  lemma LinesUpIff(l: string, next: string, n: nat)
    ensures LinesUp(l, next, n) <==>
            KindOf(l) == Open && ElseOrCase(next) && Spaces(l) == n + 4 && Spaces(next) == n
  {
    BeginsIff(l, n + 4, ["#if ", "#ifdef ", "#ifndef "]);
    BeginsIff(next, n, ["} else ", "case "]);
    Leads3("#if ", "#ifdef ", "#ifndef ", Text(l));
    Leads2("} else ", "case ", Text(next));
  }

  ghost predicate LinesUpAt(lines: seq<string>, k: nat, n: nat)
    requires k + 1 < |lines|
  {
    LinesUp(lines[k], lines[k + 1], n)
  }

  /** When an `#if` is moved: exactly if the line after it is such a line. */
  lemma MustDedentIff(lines: seq<string>, k: nat)
    requires k < |lines|
    ensures MustDedent(Shapes(lines), k) <==> k + 1 < |lines| && exists n: nat :: LinesUpAt(lines, k, n)
  {
    if k + 1 < |lines| {
      LinesUpIff(lines[k], lines[k + 1], Spaces(lines[k + 1]));
      assert LinesUpAt(lines, k, Spaces(lines[k + 1])) <==> LinesUp(lines[k], lines[k + 1], Spaces(lines[k + 1]));
      if n: nat :| LinesUpAt(lines, k, n) {
        LinesUpIff(lines[k], lines[k + 1], n);
      }
    }
  }

  // ---------- a whole file ----------

  /** The smallest file in which something moves, at any depth and with any text: an `#if` in front of a `} else ` or
      `case ` line, and its `#endif`. */
  lemma CaseIsLinedUp(lines: seq<string>, n: nat)
    requires |lines| == 3 && LinesUp(lines[0], lines[1], n) && Begins(lines[2], n + 4, ["#endif"])
    ensures n + 4 <= |lines[0]| && n + 4 <= |lines[2]|
    ensures Fixup(lines) == Some([lines[0][4..], lines[1], lines[2][4..]])
  {
    ShapeOfOpen(lines[0], n + 4);
    ShapeOfElseOrCase(lines[1], n);
    ShapeOfClose(lines[2], n + 4);
    assert Shapes(lines) == [Shape(n + 4, Open, false), Shape(n, Plain, true), Shape(n + 4, Close, false)];
    CaseColumns(Shapes(lines), n);
    FixupWrites(lines, [n, n, n]);
    CaseWritten(lines, n);
  }

  lemma CaseWritten(lines: seq<string>, n: nat)
    requires |lines| == 3 && Spaces(lines[0]) == Spaces(lines[2]) == n + 4 && Spaces(lines[1]) == n
    ensures Write(lines, [n, n, n]) == [lines[0][4..], lines[1], lines[2][4..]]
  {
    WriteThree(lines, [n, n, n]);
    assert AtColumn(lines[1], n) == lines[1];
  }

  lemma FixupWrites(lines: seq<string>, columns: seq<nat>)
    requires Pass(Shapes(lines), 0, []) == Done(columns) && Leftward(lines, columns)
    ensures Fixup(lines) == Some(Write(lines, columns))
  {
  }

  lemma WriteThree(lines: seq<string>, columns: seq<nat>)
    requires |lines| == |columns| == 3 && Leftward(lines, columns)
    ensures Write(lines, columns)
         == [AtColumn(lines[0], columns[0]), AtColumn(lines[1], columns[1]), AtColumn(lines[2], columns[2])]
  {
  }

  lemma ShapeOfOpen(l: string, n: nat)
    requires n > 0 && Begins(l, n, ["#if ", "#ifdef ", "#ifndef "])
    ensures ShapeOf(l) == Shape(n, Open, false) && n == Spaces(l)
  {
    BeginsIff(l, n, ["#if ", "#ifdef ", "#ifndef "]);
    Leads3("#if ", "#ifdef ", "#ifndef ", Text(l));
    ElseIsNoDirective(l);
  }

  lemma ShapeOfClose(l: string, n: nat)
    requires n > 0 && Begins(l, n, ["#endif"])
    ensures ShapeOf(l) == Shape(n, Close, false) && n == Spaces(l)
  {
    BeginsIff(l, n, ["#endif"]);
    Leads1("#endif", Text(l));
    NoTwoKinds(Text(l));
    ElseIsNoDirective(l);
  }

  lemma ShapeOfElseOrCase(l: string, n: nat)
    requires n > 0 && Begins(l, n, ["} else ", "case "])
    ensures ShapeOf(l) == Shape(n, Plain, true) && n == Spaces(l)
  {
    BeginsIff(l, n, ["} else ", "case "]);
    Leads2("} else ", "case ", Text(l));
    ElseIsNoDirective(l);
  }

  lemma CaseColumns(shapes: seq<Shape>, n: nat)
    requires n > 0 && shapes == [Shape(n + 4, Open, false), Shape(n, Plain, true), Shape(n + 4, Close, false)]
    ensures Pass(shapes, 0, []) == Done([n, n, n])
  {
    assert RoundFor(shapes, 0, []) == Emit(n, [n as int]);
    assert RoundFor(shapes, 1, [n as int]) == Emit(n, [n as int]);
    assert RoundFor(shapes, 2, [n as int]) == Emit(n, []);
    assert Pass(shapes, 3, []) == Done([]);
    assert Pass(shapes, 2, [n as int]) == Done([n]);
    assert Pass(shapes, 1, [n as int]) == Done([n, n]);
  }

  /** For instance. */
  lemma CaseExample()
    ensures Fixup(["        #if X\n", "    case 1:\n", "        #endif\n"]) == Some(["    #if X\n", "    case 1:\n", "    #endif\n"])
  {
    var lines := ["        #if X\n", "    case 1:\n", "        #endif\n"];
    ExampleBegins(lines[0], "        #if ", 8, ["#if ", "#ifdef ", "#ifndef "], 0);
    ExampleBegins(lines[1], "    case ", 4, ["} else ", "case "], 1);
    ExampleBegins(lines[2], "        #endif", 8, ["#endif"], 0);
    CaseIsLinedUp(lines, 4);
    assert lines[0][4..] == "    #if X\n" && lines[2][4..] == "    #endif\n";
  }

  lemma ExampleBegins(l: string, start: string, n: nat, words: seq<string>, i: nat)
    requires i < |words| && start <= l && |start| == n + |words[i]| && start[n..] == words[i]
    requires forall k :: 0 <= k < n ==> start[k] == ' '
    ensures Begins(l, n, words)
  {
    assert start == start[..n] + start[n..];
    assert start[..n] == Blank(n);
    assert Blank(n) + words[i] <= l;
  }
}

/** What reading a file in text mode makes of the ends of its lines. */
module LineEnds {
  import opened CodeFormatFile

  datatype Ending = Lf | Cr | CrLf

  /** A line without its end, and the end it has in the file. */
  datatype Line = Line(body: string, ending: Ending)

  function EndingText(e: Ending): string {
    match e
    case Lf => "\n"
    case Cr => "\r"
    case CrLf => "\r\n"
  }

  /** A file with those lines, and a last one that is not ended. */
  function FileText(lines: seq<Line>, last: string): string {
    if lines == [] then last else lines[0].body + (EndingText(lines[0].ending) + FileText(lines[1..], last))
  }

  /** The same lines, each ended by a line feed. */
  function FeedText(lines: seq<Line>, last: string): string {
    if lines == [] then last else lines[0].body + ("\n" + FeedText(lines[1..], last))
  }

  predicate NoEnd(s: string) {
    '\r' !in s && '\n' !in s
  }

  /** Bodies hold no ends, and an empty line ended by a line feed does not follow one ended by a carriage return: in
      the file those two ends would be one. */
  predicate Readable(lines: seq<Line>, last: string) {
    && NoEnd(last) && (forall k :: 0 <= k < |lines| ==> NoEnd(lines[k].body))
    && forall k :: 1 <= k < |lines| && lines[k] == Line("", Lf) ==> lines[k - 1].ending != Cr
  }

  lemma {:induction false} UniversalPrefix(a: string, t: string)
    requires '\r' !in a
    ensures Universal(a + t) == a + Universal(t)
  {
    if a == "" {
      assert a + t == t;
    } else {
      assert (a + t)[1..] == a[1..] + t;
      UniversalPrefix(a[1..], t);
      SplitHead(a, Universal(t));
    }
  }

  lemma SplitHead(a: string, t: string)
    requires a != ""
    ensures [a[0]] + (a[1..] + t) == a + t
  {
  }

  lemma UniversalEnding(e: Ending, t: string)
    requires e == Cr ==> t == "" || t[0] != '\n'
    ensures Universal(EndingText(e) + t) == "\n" + Universal(t)
  {
    var s := EndingText(e) + t;
    match e
    case Lf => assert s[0] == '\n' && s[1..] == t;
    case Cr => assert s[0] == '\r' && s[1..] == t;
    case CrLf => assert s[0] == '\r' && s[1] == '\n' && s[2..] == t;
  }

  /** A file begins with a line feed only if its first line is empty and ended by one. */
  lemma FirstOfFile(lines: seq<Line>, last: string)
    requires Readable(lines, last)
    ensures var t := FileText(lines, last);
            t == "" || t[0] != '\n' || (lines != [] && lines[0] == Line("", Lf))
  {
    if lines == [] && last != "" {
      assert last[0] in last;
    }
    if lines != [] && lines[0].body != "" {
      assert FileText(lines, last)[0] == lines[0].body[0];
      assert lines[0].body[0] in lines[0].body;
    }
  }

  /** Whatever ends the lines of a file have, mixed in any way, it is read as the same lines ended by line feeds. */
  lemma {:induction false} EveryEndIsALineFeed(lines: seq<Line>, last: string)
    requires Readable(lines, last)
    ensures Universal(FileText(lines, last)) == FeedText(lines, last)
  {
    if lines != [] {
      var rest, e := lines[1..], lines[0].ending;
      var t := FileText(rest, last);
      RestIsReadable(lines, last);
      EveryEndIsALineFeed(rest, last);
      FirstOfFile(rest, last);
      assert rest != [] ==> rest[0] == lines[1];
      UniversalEnding(e, t);
      UniversalPrefix(lines[0].body, EndingText(e) + t);
    }
  }

  lemma RestIsReadable(lines: seq<Line>, last: string)
    requires lines != [] && Readable(lines, last)
    ensures Readable(lines[1..], last)
  {
    var rest := lines[1..];
    forall k | 1 <= k < |rest| && rest[k] == Line("", Lf)
      ensures rest[k - 1].ending != Cr
    {
      assert lines[k + 1] == rest[k];
    }
  }
}
