/** The corpus partition of conformance/src/corpus_partition.rs: classifying the vendored statements, writing the
    supported ones to a file and reading them back. */
module Partition {
  import opened Wrappers

  // ----- Lines -----

  function LineEnd(text: string): (i: nat)
    ensures i <= |text| && '\n' !in text[..i] && (i < |text| ==> text[i] == '\n')
  {
    if text == "" || text[0] == '\n' then 0 else 1 + LineEnd(text[1..])
  }

  function StripCr(line: string): string {
    if line != "" && line[|line| - 1] == '\r' then line[..|line| - 1] else line
  }

  /** `str::lines`: a line ends at a newline, and loses a carriage return before it; what is left after the last
      newline is a line if it is not empty. */
  function Lines(text: string): seq<string>
    decreases |text|
  {
    if text == "" then []
    else
      var i := LineEnd(text);
      if i == |text| then [text] else [StripCr(text[..i])] + Lines(text[i + 1..])
  }

  /** The Unicode property White_Space. */
  predicate IsSpace(c: char) {
    var u := c as int;
    0x09 <= u <= 0x0d || u == 0x20 || u == 0x85 || u == 0xa0 || u == 0x1680 || 0x2000 <= u <= 0x200a
    || u == 0x2028 || u == 0x2029 || u == 0x202f || u == 0x205f || u == 0x3000
  }

  function TrimStart(line: string): string {
    if line != "" && IsSpace(line[0]) then TrimStart(line[1..]) else line
  }

  predicate IsComment(line: string) { "--" <= TrimStart(line) }

  predicate IsBlank(line: string) { TrimStart(line) == "" }

  function Kept(lines: seq<string>): seq<string> {
    if lines == [] then []
    else Keep(lines[0]) + Kept(lines[1..])
  }

  /** Reading the file back skips its banner's comment and blank lines. */
  function CommittedSupported(text: string): seq<string> { Kept(Lines(text)) }

  // ----- Writing -----

  /** The statements, each on a line of its own. */
  function Body(statements: seq<string>): string {
    if statements == [] then ""
    else Body(statements[..|statements| - 1]) + (statements[|statements| - 1] + "\n")
  }

  method RewriteSupported(banner: string, statements: seq<string>) returns (out: string)
    ensures out == banner + Body(statements)
  {
    out := banner;
    for i := 0 to |statements|
      invariant out == banner + Body(statements[..i])
    {
      assert statements[..i + 1][..i] == statements[..i];
      out := out + statements[i];
      out := out + "\n";
    }
    assert statements[..|statements|] == statements;
  }

  // ----- Reading back what was written -----

  predicate EndsLine(text: string) { text != "" ==> text[|text| - 1] == '\n' }

  lemma {:induction false} LineEndWithin(a: string, b: string)
    ensures LineEnd(a) < |a| ==> LineEnd(a + b) == LineEnd(a)
    ensures LineEnd(a) == |a| ==> LineEnd(a + b) == |a| + LineEnd(b)
  {
    if a == "" {
      assert a + b == b;
    } else {
      LineEndWithin(a[1..], b);
      assert (a + b)[1..] == a[1..] + b;
    }
  }

  lemma FirstLine(text: string, i: nat)
    requires i == LineEnd(text) < |text|
    ensures Lines(text) == [StripCr(text[..i])] + Lines(text[i + 1..])
  {}

  lemma CutWithin(a: string, b: string, i: nat)
    requires i < |a|
    ensures (a + b)[..i] == a[..i] && (a + b)[i + 1..] == a[i + 1..] + b
  {}

  lemma FindsNewline(a: string)
    requires a != "" && EndsLine(a)
    ensures LineEnd(a) < |a|
  {
    assert a[..|a|][|a| - 1] == '\n';
  }

  lemma TailEndsLine(a: string, i: nat)
    requires EndsLine(a) && i < |a|
    ensures EndsLine(a[i + 1..])
  {}

  lemma NoLines(b: string)
    ensures Lines("" + b) == Lines("") + Lines(b)
  {
    assert "" + b == b && [] + Lines(b) == Lines(b);
  }

  lemma AppendStep(a: string, b: string, i: nat)
    requires i == LineEnd(a) < |a|
    requires Lines(a[i + 1..] + b) == Lines(a[i + 1..]) + Lines(b)
    ensures Lines(a + b) == Lines(a) + Lines(b)
  {
    LineEndWithin(a, b);
    CutWithin(a, b, i);
    FirstLine(a, i);
    FirstLine(a + b, i);
    Associates([StripCr(a[..i])], Lines(a[i + 1..]), Lines(b));
  }

  /** Whole lines read the same whatever follows. */
  lemma {:induction false} LinesAppend(a: string, b: string)
    requires EndsLine(a)
    ensures Lines(a + b) == Lines(a) + Lines(b)
    decreases |a|
  {
    if a == "" {
      NoLines(b);
    } else {
      var i := LineEnd(a);
      FindsNewline(a);
      TailEndsLine(a, i);
      LinesAppend(a[i + 1..], b);
      AppendStep(a, b, i);
    }
  }

  function Keep(line: string): seq<string> { if IsComment(line) || IsBlank(line) then [] else [line] }

  lemma {:induction false} KeptAppend(a: seq<string>, b: seq<string>)
    ensures Kept(a + b) == Kept(a) + Kept(b)
  {
    if a == [] {
      assert a + b == b;
    } else {
      KeptAppend(a[1..], b);
      assert (a + b)[1..] == a[1..] + b && (a + b)[0] == a[0];
      Associates(Keep(a[0]), Kept(a[1..]), Kept(b));
    }
  }

  lemma KeptOne(line: string)
    ensures Kept([line]) == Keep(line)
  {
    var none: seq<string> := [];
    assert [line][1..] == none;
  }

  /** What is read back of one statement, */
  function ReadBack(statement: string): seq<string> { CommittedSupported(statement + "\n") }

  /** and of all of them. */
  function AllReadBack(statements: seq<string>): seq<string> {
    if statements == [] then []
    else AllReadBack(statements[..|statements| - 1]) + ReadBack(statements[|statements| - 1])
  }

  lemma {:induction false} BodyReadsBack(statements: seq<string>)
    ensures EndsLine(Body(statements)) && CommittedSupported(Body(statements)) == AllReadBack(statements)
  {
    if statements != [] {
      var init, last := statements[..|statements| - 1], statements[|statements| - 1];
      BodyReadsBack(init);
      LinesAppend(Body(init), last + "\n");
      KeptAppend(Lines(Body(init)), Lines(last + "\n"));
    }
  }

  /** A statement that a line can hold: one line, no carriage return at its end, neither blank nor a comment. */
  predicate Clean(statement: string) {
    '\n' !in statement && !EndsInCr(statement) && !IsBlank(statement) && !IsComment(statement)
  }

  predicate EndsInCr(line: string) { line != "" && line[|line| - 1] == '\r' }

  lemma OneLine(statement: string)
    requires '\n' !in statement
    ensures Lines(statement + "\n") == [StripCr(statement)]
  {
    LineEndWithin(statement, "\n");
    assert LineEnd(statement) == |statement|;
    assert (statement + "\n")[..|statement|] == statement && (statement + "\n")[|statement| + 1..] == "";
  }

  lemma OneLineReadsBack(statement: string)
    requires '\n' !in statement
    ensures ReadBack(statement) == Keep(StripCr(statement))
  {
    OneLine(statement);
    KeptOne(StripCr(statement));
  }

  function Weight(lines: seq<string>): nat { if lines == [] then 0 else Weight(lines[..|lines| - 1]) + |lines[|lines| - 1]| + 1 }

  lemma {:induction false} WeightAppends(a: seq<string>, b: seq<string>)
    ensures Weight(a + b) == Weight(a) + Weight(b)
  {
    if b == [] {
      assert a + b == a;
    } else {
      WeightAppends(a, b[..|b| - 1]);
      assert (a + b)[..|a + b| - 1] == a + b[..|b| - 1];
    }
  }

  ghost predicate AllClean(statements: seq<string>) { forall i :: 0 <= i < |statements| ==> Clean(statements[i]) }

  /** One-line statements come back no heavier than they went, and as heavy only if each is clean. */
  lemma {:induction false} ReadsBackLighter(statements: seq<string>)
    requires forall i :: 0 <= i < |statements| ==> '\n' !in statements[i]
    ensures Weight(AllReadBack(statements)) <= Weight(statements)
    ensures Weight(AllReadBack(statements)) == Weight(statements) ==> AllClean(statements)
  {
    if statements != [] {
      var init, last := statements[..|statements| - 1], statements[|statements| - 1];
      ReadsBackLighter(init);
      WeightAppends(AllReadBack(init), ReadBack(last));
      OneReadsBackLighter(last);
      if AllClean(init) && Clean(last) { LastClean(statements); }
    }
  }

  lemma LastClean(statements: seq<string>)
    requires statements != [] && AllClean(statements[..|statements| - 1]) && Clean(statements[|statements| - 1])
    ensures AllClean(statements)
  {
    forall i | 0 <= i < |statements| - 1 ensures Clean(statements[i]) {
      assert statements[..|statements| - 1][i] == statements[i];
    }
  }

  lemma OneReadsBackLighter(s: string)
    requires '\n' !in s
    ensures Weight(ReadBack(s)) <= |s| + 1 && (Weight(ReadBack(s)) == |s| + 1 ==> Clean(s))
  {
    OneLineReadsBack(s);
    var none: seq<string> := [];
    assert [StripCr(s)][..0] == none;
  }

  lemma {:induction false} LinesHoldNoNewline(text: string)
    ensures forall line :: line in Lines(text) ==> '\n' !in line
    decreases |text|
  {
    if text != "" && LineEnd(text) < |text| { LinesHoldNoNewline(text[LineEnd(text) + 1..]); }
  }

  lemma {:induction false} KeptAreLines(lines: seq<string>)
    ensures forall line :: line in Kept(lines) ==> line in lines
  {
    if lines != [] { KeptAreLines(lines[1..]); }
  }

  lemma {:induction false} AllCleanReadBack(statements: seq<string>)
    requires AllClean(statements)
    ensures AllReadBack(statements) == statements
  {
    if statements != [] {
      var init, last := statements[..|statements| - 1], statements[|statements| - 1];
      CleanParts(statements);
      AllCleanReadBack(init);
      CleanReadsBack(last);
      LastReadsBack(statements);
    }
  }

  lemma {:induction false} LastReadsBack(statements: seq<string>)
    requires statements != [] && AllReadBack(statements[..|statements| - 1]) == statements[..|statements| - 1]
    requires ReadBack(statements[|statements| - 1]) == [statements[|statements| - 1]]
    ensures AllReadBack(statements) == statements
  {
    assert statements == statements[..|statements| - 1] + [statements[|statements| - 1]];
  }

  lemma CleanParts(statements: seq<string>)
    requires AllClean(statements) && statements != []
    ensures AllClean(statements[..|statements| - 1]) && Clean(statements[|statements| - 1])
  {
    assert forall i :: 0 <= i < |statements| - 1 ==> statements[..|statements| - 1][i] == statements[i];
  }

  lemma CleanReadsBack(statement: string)
    requires Clean(statement)
    ensures ReadBack(statement) == [statement]
  {
    OneLineReadsBack(statement);
  }

  lemma WrittenReadsBack(banner: string, statements: seq<string>)
    requires EndsLine(banner) && CommittedSupported(banner) == []
    ensures CommittedSupported(banner + Body(statements)) == AllReadBack(statements)
  {
    LinesAppend(banner, Body(statements));
    KeptAppend(Lines(banner), Lines(Body(statements)));
    BodyReadsBack(statements);
  }

  lemma ReadBackIsLines(text: string)
    ensures forall s :: s in CommittedSupported(text) ==> '\n' !in s
  {
    LinesHoldNoNewline(text);
    KeptAreLines(Lines(text));
  }

  /** The file gives back the statements written to it, in order, exactly when each is clean. */
  lemma RewriteReadsBack(banner: string, statements: seq<string>)
    requires EndsLine(banner) && CommittedSupported(banner) == []
    ensures CommittedSupported(banner + Body(statements)) == statements <==> forall s :: s in statements ==> Clean(s)
  {
    WrittenReadsBack(banner, statements);
    if AllReadBack(statements) == statements {
      ReadBackIsLines(banner + Body(statements));
      ReadsBackLighter(statements);
      assert AllClean(statements);
    } else if forall s :: s in statements ==> Clean(s) {
      AllCleanReadBack(statements);
    }
  }

  // ----- Classifying -----

  datatype Class = AnsiSupported | PostgresSupported | RoundtripDefect | Unparsed

  function OfClass(lines: seq<string>, classify: string -> Class, c: Class): seq<string> {
    if lines == [] then []
    else
      var init, last := lines[..|lines| - 1], lines[|lines| - 1];
      OfClass(init, classify, c) + if classify(last) == c then [last] else []
  }

  method Classify(lines: seq<string>, classify: string -> Class)
    returns (ansi: seq<string>, postgres: seq<string>, defects: seq<string>, unparsed: nat)
    ensures ansi == OfClass(lines, classify, AnsiSupported)
    ensures postgres == OfClass(lines, classify, PostgresSupported)
    ensures defects == OfClass(lines, classify, RoundtripDefect)
    ensures unparsed == |OfClass(lines, classify, Unparsed)|
  {
    ansi, postgres, defects, unparsed := [], [], [], 0;
    for i := 0 to |lines|
      invariant ansi == OfClass(lines[..i], classify, AnsiSupported)
      invariant postgres == OfClass(lines[..i], classify, PostgresSupported)
      invariant defects == OfClass(lines[..i], classify, RoundtripDefect)
      invariant unparsed == |OfClass(lines[..i], classify, Unparsed)|
    {
      assert lines[..i + 1][..i] == lines[..i];
      match classify(lines[i])
      case AnsiSupported => ansi := ansi + [lines[i]];
      case PostgresSupported => postgres := postgres + [lines[i]];
      case RoundtripDefect => defects := defects + [lines[i]];
      case Unparsed => unparsed := unparsed + 1;
    }
    assert lines[..|lines|] == lines;
  }

  /** Every line lands in exactly one class, as often as it occurs. */
  lemma {:induction false} ClassHolds(lines: seq<string>, classify: string -> Class, c: Class, s: string)
    ensures multiset(OfClass(lines, classify, c))[s] == if classify(s) == c then multiset(lines)[s] else 0
  {
    if lines != [] {
      var init, last := lines[..|lines| - 1], lines[|lines| - 1];
      ClassHolds(init, classify, c, s);
      assert lines == init + [last];
    }
  }

  lemma {:induction false} ClassCounts(lines: seq<string>, classify: string -> Class)
    ensures |OfClass(lines, classify, AnsiSupported)| + |OfClass(lines, classify, PostgresSupported)|
      + |OfClass(lines, classify, RoundtripDefect)| + |OfClass(lines, classify, Unparsed)| == |lines|
  {
    if lines != [] { ClassCounts(lines[..|lines| - 1], classify); }
  }

  lemma {:induction false} ClassIsLines(lines: seq<string>, classify: string -> Class, c: Class)
    ensures forall s :: s in OfClass(lines, classify, c) ==> s in lines
  {
    if lines != [] { ClassIsLines(lines[..|lines| - 1], classify, c); }
  }

  /** Rewriting makes the staleness check pass exactly when no supported line of the fixture is blank, a comment or
      ends in a carriage return: being lines, they hold no newline. */
  lemma RewriteThenCheck(raw: string, banner: string, classify: string -> Class)
    requires EndsLine(banner) && CommittedSupported(banner) == []
    ensures var ansi := OfClass(Lines(raw), classify, AnsiSupported);
      CommittedSupported(banner + Body(ansi)) == ansi
      <==> forall s :: s in ansi ==> !EndsInCr(s) && !IsBlank(s) && !IsComment(s)
  {
    var ansi := OfClass(Lines(raw), classify, AnsiSupported);
    ClassIsLines(Lines(raw), classify, AnsiSupported);
    LinesHoldNoNewline(raw);
    assert forall s :: s in ansi ==> (Clean(s) <==> !EndsInCr(s) && !IsBlank(s) && !IsComment(s));
    RewriteReadsBack(banner, ansi);
  }

  // ----- Comments -----

  /** The 25 characters of Unicode's `White_Space` property. */
  const WHITE_SPACE: set<int> := {
    0x09, 0x0a, 0x0b, 0x0c, 0x0d, 0x20, 0x85, 0xa0, 0x1680,
    0x2000, 0x2001, 0x2002, 0x2003, 0x2004, 0x2005, 0x2006, 0x2007, 0x2008, 0x2009, 0x200a,
    0x2028, 0x2029, 0x202f, 0x205f, 0x3000}

  lemma SpacesAre(c: char)
    ensures IsSpace(c) <==> c as int in WHITE_SPACE
  {}

  lemma {:induction false} SkipsBlanks(blanks: string, rest: string)
    requires (forall i :: 0 <= i < |blanks| ==> IsSpace(blanks[i])) && rest != "" && !IsSpace(rest[0])
    ensures TrimStart(blanks + rest) == rest
  {
    if blanks == "" {
      assert blanks + rest == rest;
    } else {
      SkipsBlanks(blanks[1..], rest);
      assert (blanks + rest)[1..] == blanks[1..] + rest;
    }
  }

  /** Two hyphens stand at k, after nothing but white space. */
  ghost predicate HyphensAt(line: string, k: nat) {
    k + 2 <= |line| && line[k] == line[k + 1] == '-' && forall i :: 0 <= i < k ==> IsSpace(line[i])
  }

  /** A line is a comment exactly when two hyphens follow its leading white space, */
  lemma {:induction false} CommentsAre(line: string)
    ensures IsComment(line) <==> exists k :: HyphensAt(line, k)
    decreases |line|
  {
    if line != "" && IsSpace(line[0]) {
      CommentsAre(line[1..]);
      if k :| HyphensAt(line[1..], k) { HyphensLater(line, k); }
      if k :| HyphensAt(line, k) { HyphensSooner(line, k); }
    } else {
      HyphensFirst(line);
    }
  }

  lemma HyphensFirst(line: string)
    requires line == "" || !IsSpace(line[0])
    ensures "--" <= line <==> exists k :: HyphensAt(line, k)
  {
    if "--" <= line { assert HyphensAt(line, 0); }
    forall k | HyphensAt(line, k) ensures "--" <= line { assert line[..2] == "--"; }
  }

  lemma HyphensLater(line: string, k: nat)
    requires line != "" && IsSpace(line[0]) && HyphensAt(line[1..], k)
    ensures HyphensAt(line, k + 1)
  {
    forall i | 0 < i < k + 1 ensures IsSpace(line[i]) { assert IsSpace(line[1..][i - 1]); }
  }

  lemma HyphensSooner(line: string, k: nat)
    requires line != "" && IsSpace(line[0]) && HyphensAt(line, k)
    ensures k > 0 && HyphensAt(line[1..], k - 1)
  {}

  /** blank when there is nothing else, */
  lemma {:induction false} BlanksAre(line: string)
    ensures IsBlank(line) <==> forall i :: 0 <= i < |line| ==> IsSpace(line[i])
  {
    if line != "" && IsSpace(line[0]) {
      BlanksAre(line[1..]);
      assert forall i :: 0 < i < |line| ==> line[i] == line[1..][i - 1];
    }
  }

  /** and either is passed over when the file is read. */
  lemma {:induction false} CommentsAreSkipped(line: string, more: string)
    requires '\n' !in line && (IsComment(line) || IsBlank(line))
    ensures CommittedSupported(line + "\n" + more) == CommittedSupported(more)
  {
    LinesAppend(line + "\n", more);
    KeptAppend(Lines(line + "\n"), Lines(more));
    OneLine(line);
    KeptOne(StripCr(line));
    CrIsSpace(line);
  }

  /** Losing a carriage return leaves a comment a comment, and a blank line blank. */
  lemma {:induction false} CrIsSpace(line: string)
    requires IsComment(line) || IsBlank(line)
    ensures IsComment(StripCr(line)) || IsBlank(StripCr(line))
  {
    var stripped := StripCr(line);
    CommentsAre(line);
    CommentsAre(stripped);
    BlanksAre(line);
    BlanksAre(stripped);
    if k :| HyphensAt(line, k) { assert HyphensAt(stripped, k); }
  }
}
