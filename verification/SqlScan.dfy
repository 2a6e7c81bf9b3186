/** The depth-0 word scanner and the statement classifier of conformance/src/corpus_duckdb_verdicts.rs. */
module SqlScan {
  import opened Partition
  import opened Wrappers

  // ----- Words outside parentheses and quotes -----

  predicate IsWordChar(c: char) { '0' <= c <= '9' || 'A' <= c <= 'Z' || 'a' <= c <= 'z' || c == '_' }

  function UpperChar(c: char): char { if 'a' <= c <= 'z' then (c as int - 32) as char else c }

  function Upper(s: string): (r: string)
    ensures |r| == |s| && forall i :: 0 <= i < |s| ==> r[i] == UpperChar(s[i])
  {
    seq(|s|, i requires 0 <= i < |s| => UpperChar(s[i]))
  }

  const I32_MIN: int := -0x8000_0000

  datatype Quote = Outside | Single | Double

  datatype Scan = Scan(tokens: seq<string>, current: string, depth: int, quote: Quote)

  const START: Scan := Scan([], "", 0, Outside)

  function Flush(s: Scan): Scan { if s.current == "" then s else s.(tokens := s.tokens + [s.current], current := "") }

  /** One character. A quote does not end a word, and the depth saturates far below zero. */
  function Step(s: Scan, c: char): Scan {
    match s.quote
    case Single => if c == '\'' then s.(quote := Outside) else s
    case Double => if c == '"' then s.(quote := Outside) else s
    case Outside =>
      if c == '\'' then s.(quote := Single)
      else if c == '"' then s.(quote := Double)
      else if c == '(' then Flush(s).(depth := s.depth + 1)
      else if c == ')' then Flush(s).(depth := if s.depth > I32_MIN then s.depth - 1 else s.depth)
      else if s.depth == 0 && IsWordChar(c) then s.(current := s.current + [UpperChar(c)])
      else Flush(s)
  }

  function Run(s: Scan, text: string): Scan { if text == "" then s else Step(Run(s, text[..|text| - 1]), text[|text| - 1]) }

  function Words(sql: string): seq<string> { Flush(Run(START, sql)).tokens }

  method Depth0WordTokens(sql: string) returns (tokens: seq<string>)
    ensures tokens == Words(sql)
  {
    tokens := [];
    var current, depth, inSingle, inDouble := "", 0, false, false;
    for i := 0 to |sql|
      invariant !(inSingle && inDouble)
      invariant Run(START, sql[..i]) == Scan(tokens, current, depth, if inSingle then Single else if inDouble then Double else Outside)
    {
      var c := sql[i];
      assert sql[..i + 1][..i] == sql[..i];
      if inSingle {
        inSingle := c != '\'';
        continue;
      }
      if inDouble {
        inDouble := c != '"';
        continue;
      }
      if c == '\'' {
        inSingle := true;
      } else if c == '"' {
        inDouble := true;
      } else if c == '(' {
        if current != "" {
          tokens, current := tokens + [current], "";
        }
        depth := depth + 1;
      } else if c == ')' {
        if current != "" {
          tokens, current := tokens + [current], "";
        }
        depth := if depth > I32_MIN then depth - 1 else depth;
      } else if depth == 0 && IsWordChar(c) {
        current := current + [UpperChar(c)];
      } else if current != "" {
        tokens, current := tokens + [current], "";
      }
    }
    assert sql[..|sql|] == sql;
    if current != "" {
      tokens := tokens + [current];
    }
  }

  lemma {:induction false} RunAppend(s: Scan, a: string, b: string)
    ensures Run(s, a + b) == Run(Run(s, a), b)
  {
    if b == "" {
      assert a + b == a;
    } else {
      RunAppend(s, a, b[..|b| - 1]);
      assert (a + b)[..|a + b| - 1] == a + b[..|b| - 1];
    }
  }

  // ----- Groups -----

  /** Where the parentheses of a text stand, counted outside its quotes: the level it ends at and the quote it is
      left in, or nothing if it closes a parenthesis it did not open. */
  datatype Level = Level(open: nat, quote: Quote)

  function Nesting(text: string): Option<Level> {
    if text == "" then Some(Level(0, Outside))
    else
      match Nesting(text[..|text| - 1])
      case None => None
      case Some(l) =>
        var c := text[|text| - 1];
        if l.quote == Single then Some(if c == '\'' then l.(quote := Outside) else l)
        else if l.quote == Double then Some(if c == '"' then l.(quote := Outside) else l)
        else if c == '\'' then Some(l.(quote := Single))
        else if c == '"' then Some(l.(quote := Double))
        else if c == '(' then Some(l.(open := l.open + 1))
        else if c == ')' then if l.open == 0 then None else Some(l.(open := l.open - 1))
        else Some(l)
  }

  /** Its parentheses match and its quotes are closed. */
  predicate Balanced(text: string) { Nesting(text) == Some(Level(0, Outside)) }

  /** A word character outside the quotes of a text, under `level` of its parentheses. */
  ghost predicate WordCharAt(text: string, i: nat, level: int)
    requires i < |text|
  {
    IsWordChar(text[i]) && level >= 0 && Nesting(text[..i]) == Some(Level(level, Outside))
  }

  ghost predicate HasWordAt(text: string, level: int) { exists i :: 0 <= i < |text| && WordCharAt(text, i, level) }

  lemma HasWordGrows(text: string, level: int)
    requires text != ""
    ensures HasWordAt(text, level) <==> HasWordAt(text[..|text| - 1], level) || WordCharAt(text, |text| - 1, level)
  {
    var init := text[..|text| - 1];
    forall i | 0 <= i < |init| ensures WordCharAt(text, i, level) <==> WordCharAt(init, i, level) {
      assert text[..i] == init[..i];
    }
  }

  /** A text moves the depth and the quote as it nests, and leaves no word exactly when it has none at the level that
      stands at depth zero. */
  lemma {:induction false} InsideGroup(s: Scan, text: string)
    requires s.depth >= I32_MIN && s.quote == Outside && s.current == "" && Nesting(text).Some?
    ensures var r := Run(s, text);
      && r.depth == s.depth + Nesting(text).value.open && r.quote == Nesting(text).value.quote && s.tokens <= r.tokens
      && (r.tokens == s.tokens && r.current == "" <==> !HasWordAt(text, -s.depth))
  {
    if text != "" {
      InsideGroup(s, text[..|text| - 1]);
      HasWordGrows(text, -s.depth);
    }
  }

  /** A group over a balanced body ends the word before it, and does no more exactly when the body has no word at the
      level that stands at depth zero. */
  lemma {:induction false} GroupAdds(s: Scan, body: string)
    requires s.depth >= I32_MIN && s.quote == Outside && Balanced(body)
    ensures var r := Run(s, "(" + body + ")");
      && r == Flush(s).(tokens := r.tokens) && Flush(s).tokens <= r.tokens
      && (r == Flush(s) <==> !HasWordAt(body, -s.depth - 1))
  {
    var inside := Flush(s).(depth := s.depth + 1);
    OneStep(s, '(');
    RunAppend(s, "(", body);
    InsideGroup(inside, body);
    var r := Run(inside, body);
    OneStep(r, ')');
    RunAppend(s, "(" + body, ")");
    GroupCloses(s, r);
    assert Run(s, "(" + body + ")") == Step(r, ')');
  }

  lemma GroupCloses(s: Scan, r: Scan)
    requires s.depth >= I32_MIN && r.quote == s.quote == Outside && r.depth == s.depth + 1 && Flush(s).tokens <= r.tokens
    ensures var closed := Step(r, ')');
      && closed == Flush(s).(tokens := closed.tokens) && Flush(s).tokens <= closed.tokens
      && (closed == Flush(s) <==> r.tokens == Flush(s).tokens && r.current == "")
  {}

  /** From depth zero up a group is never more than the end of a word. */
  lemma GroupFlushes(s: Scan, body: string)
    requires s.depth >= 0 && s.quote == Outside && Balanced(body)
    ensures Run(s, "(" + body + ")") == Flush(s)
  {
    GroupAdds(s, body);
  }

  lemma {:induction false} DepthHolds(text: string)
    ensures Run(START, text).depth >= I32_MIN
  {
    if text != "" { DepthHolds(text[..|text| - 1]); }
  }

  lemma OneStep(s: Scan, c: char)
    ensures Run(s, [c]) == Step(s, c)
  {
    assert [c][..0] == "";
  }

  /** A scan that has read more tokens ends with more. */
  lemma ExtraTokens(s: Scan, r: Scan, after: string)
    requires r == s.(tokens := r.tokens) && s.tokens <= r.tokens
    ensures Flush(Run(r, after)).tokens == Flush(Run(s, after)).tokens <==> r == s
  {
    var bare := s.(tokens := []);
    assert s.tokens + [] == s.tokens && r.tokens + [] == r.tokens;
    RunWithTokens(bare, s.tokens, after);
    RunWithTokens(bare, r.tokens, after);
    FlushWithTokens(Run(bare, after), s.tokens);
    FlushWithTokens(Run(bare, after), r.tokens);
    assert |r.tokens| == |s.tokens| ==> r.tokens == s.tokens;
  }

  /** Emptying a balanced group after any text outside quotes keeps the words exactly when no more parentheses have
      been closed than opened, or the body has no word at the level that then stands at depth zero. */
  lemma {:induction false} GroupsAreOpaque(before: string, body: string, after: string)
    requires Run(START, before).quote == Outside && Balanced(body)
    ensures Words(before + ("(" + body + ")") + after) == Words(before + "()" + after)
      <==> Run(START, before).depth >= 0 || !HasWordAt(body, -Run(START, before).depth - 1)
  {
    var s := Run(START, before);
    DepthHolds(before);
    WordsInThree(before, "(" + body + ")", after);
    WordsInThree(before, "()", after);
    GroupAdds(s, body);
    EmptyGroup(s);
    ExtraTokens(Flush(s), Run(s, "(" + body + ")"), after);
  }

  lemma WordsInThree(a: string, b: string, c: string)
    ensures Words(a + b + c) == Flush(Run(Run(Run(START, a), b), c)).tokens
  {
    RunAppend(START, a, b);
    RunAppend(START, a + b, c);
  }

  lemma EmptyGroup(s: Scan)
    requires s.depth >= I32_MIN && s.quote == Outside
    ensures Run(s, "()") == Flush(s)
  {
    GroupAdds(s, "");
    assert "(" + "" + ")" == "()";
  }

  lemma {:induction false} StepsOn(s: Scan, text: string, c: char)
    ensures Run(s, text + [c]) == Step(Run(s, text), c)
  {
    assert (text + [c])[..|text|] == text;
  }

  lemma {:induction false} TwoSteps(s: Scan, c: char, d: char)
    ensures Run(s, [c, d]) == Step(Step(s, c), d)
  {
    OneStep(s, c);
    StepsOn(s, [c], d);
    assert [c] + [d] == [c, d];
  }

  lemma {:induction false} FourSteps(s: Scan, c: char, d: char, e: char, f: char)
    ensures Run(s, [c, d, e]) == Step(Step(Step(s, c), d), e)
    ensures Run(s, [c, d, e, f]) == Step(Step(Step(Step(s, c), d), e), f)
  {
    TwoSteps(s, c, d);
    StepsOn(s, [c, d], e);
    StepsOn(s, [c, d, e], f);
    assert [c, d] + [e] == [c, d, e] && [c, d, e] + [f] == [c, d, e, f];
  }

  /** After an unmatched closing parenthesis a group opens onto depth zero, and shows the words in it. */
  lemma {:induction false} UnmatchedClosesShow()
    ensures Balanced("A") && Run(START, ")").depth == -1
    ensures Words(")(A)") == ["A"] != Words(")()")
  {
    var below := START.(depth := -1);
    OneStep(START, ')');
    FourSteps(START, ')', '(', 'A', ')');
    FourSteps(START, ')', '(', ')', ')');
    assert Step(START, ')') == below && Step(below, '(') == START && Step(START, 'A') == START.(current := "A");
    assert "A"[..0] == "" && Nesting("") == Some(Level(0, Outside));
  }

  // ----- Words and quoted spans -----

  function Spaced(words: seq<string>): string {
    if words == [] then "" else Spaced(words[..|words| - 1]) + (words[|words| - 1] + " ")
  }

  function AllUpper(words: seq<string>): (r: seq<string>)
    ensures |r| == |words| && forall i :: 0 <= i < |words| ==> r[i] == Upper(words[i])
  {
    seq(|words|, i requires 0 <= i < |words| => Upper(words[i]))
  }

  /** Words with blanks after them are the tokens, in upper case. */
  lemma {:induction false} ReadsWords(words: seq<string>)
    requires forall i :: 0 <= i < |words| ==> IsWord(words[i])
    ensures Run(START, Spaced(words)) == START.(tokens := AllUpper(words)) && Words(Spaced(words)) == AllUpper(words)
  {
    if words != [] {
      var init, last := words[..|words| - 1], words[|words| - 1];
      ReadsWords(init);
      ReadsNextWord(init, last);
      AllUpperGrows(words);
    }
  }

  lemma {:induction false} AllUpperGrows(words: seq<string>)
    requires words != []
    ensures AllUpper(words) == AllUpper(words[..|words| - 1]) + [Upper(words[|words| - 1])]
  {}

  lemma {:induction false} ReadsNextWord(init: seq<string>, last: string)
    requires Run(START, Spaced(init)) == START.(tokens := AllUpper(init)) && IsWord(last)
    ensures Run(START, Spaced(init) + (last + " ")) == START.(tokens := AllUpper(init) + [Upper(last)])
  {
    RunAppend(START, Spaced(init), last + " ");
    ReadsToken(START.(tokens := AllUpper(init)), last);
  }

  lemma {:induction false} InsideQuotes(s: Scan, q: char, text: string)
    requires (s.quote == Single && q == '\'') || (s.quote == Double && q == '"')
    requires q !in text
    ensures Run(s, text) == s
  {
    if text != "" {
      assert text[|text| - 1] in text && forall c :: c in text[..|text| - 1] ==> c in text;
      InsideQuotes(s, q, text[..|text| - 1]);
    }
  }

  /** A quoted span leaves no trace: not even the end of a word. */
  lemma QuotedSpanVanishes(before: string, q: char, text: string, after: string)
    requires q == '\'' || q == '"'
    requires Run(START, before).quote == Outside && q !in text
    ensures Words(before + ([q] + text + [q]) + after) == Words(before + after)
  {
    var s := Run(START, before);
    var within := s.(quote := if q == '\'' then Single else Double);
    assert Run(s, [q]) == within by { OneStep(s, q); }
    assert Run(s, [q] + text) == within by {
      RunAppend(s, [q], text);
      InsideQuotes(within, q, text);
    }
    assert Run(within, [q]) == s by { OneStep(within, q); }
    RunAppend(s, [q] + text, [q]);
    RunAppend(START, before, [q] + text + [q]);
    RunAppend(START, before + ([q] + text + [q]), after);
    RunAppend(START, before, after);
  }

  /** So two words with nothing but a quoted span between them are one token. */
  lemma QuotesJoinWords(a: string, q: char, text: string, b: string)
    requires IsWord(a) && IsWord(b) && (q == '\'' || q == '"') && q !in text
    ensures Words(a + ([q] + text + [q]) + (b + " ")) == [Upper(a) + Upper(b)]
  {
    assert Run(START, a).quote == Outside by { ReadsWord(START, a); }
    QuotedSpanVanishes(a, q, text, b + " ");
    assert IsWord(a + b) && Upper(a + b) == Upper(a) + Upper(b);
    ReadsToken(START, a + b);
    assert a + (b + " ") == a + b + " ";
  }

  // ----- Maximal runs -----

  /** The scan before character n. */
  function At(sql: string, n: nat): Scan
    requires n <= |sql|
  {
    Run(START, sql[..n])
  }

  /** A word character outside parentheses and quotes. */
  predicate InWord(sql: string, k: nat)
    requires k < |sql|
  {
    IsWordChar(sql[k]) && At(sql, k).depth == 0 && At(sql, k).quote == Outside
  }

  /** A character of a quoted span, its quotes included. */
  predicate Quoted(sql: string, k: nat)
    requires k < |sql|
  {
    At(sql, k).quote != Outside || sql[k] == '\'' || sql[k] == '"'
  }

  /** Where the run of word characters that ends at n starts. */
  function RunStart(sql: string, n: nat): (lo: nat)
    requires n <= |sql|
    ensures lo <= n && (forall k :: lo <= k < n ==> InWord(sql, k)) && (lo > 0 ==> !InWord(sql, lo - 1))
  {
    if n > 0 && InWord(sql, n - 1) then RunStart(sql, n - 1) else n
  }

  /** The maximal runs of word characters among the first n characters, in upper case. */
  function Runs(sql: string, n: nat): seq<string>
    requires n <= |sql|
  {
    if n == 0 then []
    else if InWord(sql, n - 1) then Runs(sql, RunStart(sql, n)) + [Upper(sql[RunStart(sql, n)..n])]
    else Runs(sql, n - 1)
  }

  function MaximalRuns(sql: string): seq<string> { Runs(sql, |sql|) }

  /** A word character before n with nothing but quoted spans since. */
  ghost predicate Pending(sql: string, n: nat)
    requires n <= |sql|
  {
    exists i :: 0 <= i < n && InWord(sql, i) && forall k :: i < k < n ==> Quoted(sql, k)
  }

  /** Two word characters with nothing but quoted spans between them. */
  ghost predicate Joined(sql: string) {
    exists i, j :: 0 <= i < j - 1 && j < |sql| && InWord(sql, i) && InWord(sql, j) && forall k :: i < k < j ==> Quoted(sql, k)
  }

  /** A run that starts with a word still pending. */
  ghost predicate Joins(sql: string, n: nat)
    requires n < |sql|
  {
    InWord(sql, n) && n > 0 && !InWord(sql, n - 1) && Pending(sql, n)
  }

  ghost function JoinCount(sql: string, n: nat): nat
    requires n <= |sql|
  {
    if n == 0 then 0 else JoinCount(sql, n - 1) + if Joins(sql, n - 1) then 1 else 0
  }

  lemma {:induction false} NoJoins(sql: string, n: nat)
    requires n <= |sql|
    ensures JoinCount(sql, n) == 0 <==> forall j :: 0 <= j < n ==> !Joins(sql, j)
  {
    if n > 0 { NoJoins(sql, n - 1); }
  }

  lemma {:induction false} JoinedIsJoins(sql: string)
    ensures Joined(sql) <==> exists j :: 0 <= j < |sql| && Joins(sql, j)
  {
    if Joined(sql) {
      var i, j :| 0 <= i < j - 1 && j < |sql| && InWord(sql, i) && InWord(sql, j) && forall k :: i < k < j ==> Quoted(sql, k);
      JoinsAt(sql, i, j);
    }
    if j :| 0 <= j < |sql| && Joins(sql, j) { JoinedAt(sql, j); }
  }

  lemma {:induction false} JoinsAt(sql: string, i: nat, j: nat)
    requires i < j - 1 && j < |sql| && InWord(sql, i) && InWord(sql, j) && forall k :: i < k < j ==> Quoted(sql, k)
    ensures Joins(sql, j)
  {
    assert Quoted(sql, j - 1);
  }

  lemma {:induction false} JoinedAt(sql: string, j: nat)
    requires j < |sql| && Joins(sql, j)
    ensures Joined(sql)
  {
    var i :| 0 <= i < j && InWord(sql, i) && forall k :: i < k < j ==> Quoted(sql, k);
    assert i != j - 1;
  }

  lemma NextAt(sql: string, n: nat)
    requires n < |sql|
    ensures At(sql, n + 1) == Step(At(sql, n), sql[n])
  {
    assert sql[..n + 1][..n] == sql[..n];
  }

  /** The word being read is not empty exactly when one is pending. */
  lemma {:induction false} CurrentIsPending(sql: string, n: nat)
    requires n <= |sql|
    ensures At(sql, n).current != "" <==> Pending(sql, n)
  {
    if n > 0 {
      CurrentIsPending(sql, n - 1);
      NextAt(sql, n - 1);
      NextPending(sql, n - 1);
    }
  }

  lemma NextPending(sql: string, n: nat)
    requires n < |sql|
    ensures Pending(sql, n + 1) <==> InWord(sql, n) || (Quoted(sql, n) && Pending(sql, n))
  {
    if Quoted(sql, n) { QuotedKeepsPending(sql, n); }
  }

  lemma QuotedKeepsPending(sql: string, n: nat)
    requires n < |sql| && Quoted(sql, n)
    ensures Pending(sql, n + 1) <==> Pending(sql, n)
  {
    if Pending(sql, n) {
      var i :| 0 <= i < n && InWord(sql, i) && forall k :: i < k < n ==> Quoted(sql, k);
      assert forall k :: i < k < n + 1 ==> Quoted(sql, k);
    }
  }

  /** What the scan has read after n characters: one token fewer than there are runs for every join. */
  ghost predicate Counted(sql: string, n: nat)
    requires n <= |sql|
  {
    var tokens := Flush(At(sql, n)).tokens;
    |tokens| + JoinCount(sql, n) == |Runs(sql, n)| && (JoinCount(sql, n) == 0 ==> tokens == Runs(sql, n))
  }

  lemma CountsLonger(sql: string, n: nat)
    requires 0 < n < |sql| && InWord(sql, n) && InWord(sql, n - 1) && Counted(sql, n)
    ensures Counted(sql, n + 1)
  {
    NextAt(sql, n);
    CurrentIsPending(sql, n);
    RunLengthens(sql, n);
    assert Pending(sql, n);
  }

  lemma CountsNew(sql: string, n: nat)
    requires n < |sql| && InWord(sql, n) && (n > 0 ==> !InWord(sql, n - 1)) && Counted(sql, n)
    ensures Counted(sql, n + 1)
  {
    NextAt(sql, n);
    CurrentIsPending(sql, n);
    RunBegins(sql, n);
  }

  lemma CountsNone(sql: string, n: nat)
    requires n < |sql| && !InWord(sql, n) && Counted(sql, n)
    ensures Counted(sql, n + 1)
  {
    NextAt(sql, n);
  }

  lemma RunBegins(sql: string, n: nat)
    requires n < |sql| && InWord(sql, n) && (n > 0 ==> !InWord(sql, n - 1))
    ensures Runs(sql, n + 1) == Runs(sql, n) + ["" + [UpperChar(sql[n])]]
  {
    assert RunStart(sql, n) == n && RunStart(sql, n + 1) == n;
    assert Upper(sql[n..n + 1]) == "" + [UpperChar(sql[n])];
  }

  lemma RunLengthens(sql: string, n: nat)
    requires 0 < n < |sql| && InWord(sql, n) && InWord(sql, n - 1)
    ensures var runs := Runs(sql, n); var last := |runs| - 1;
      last >= 0 && Runs(sql, n + 1) == runs[..last] + [runs[last] + [UpperChar(sql[n])]]
  {
    var lo := RunStart(sql, n);
    assert RunStart(sql, n + 1) == lo;
    assert Upper(sql[lo..n + 1]) == Upper(sql[lo..n]) + [UpperChar(sql[n])];
    assert (Runs(sql, lo) + [Upper(sql[lo..n])])[..|Runs(sql, lo)|] == Runs(sql, lo);
  }

  lemma {:induction false} CountsOn(sql: string, n: nat)
    requires n <= |sql|
    ensures Counted(sql, n)
  {
    if n > 0 {
      CountsOn(sql, n - 1);
      if !InWord(sql, n - 1) {
        CountsNone(sql, n - 1);
      } else if n > 1 && InWord(sql, n - 2) {
        CountsLonger(sql, n - 1);
      } else {
        CountsNew(sql, n - 1);
      }
    }
  }

  /** The tokens are the maximal runs of word characters exactly when no two of those have only quoted spans
      between them. */
  lemma WordsAreMaximalRuns(sql: string)
    ensures Words(sql) == MaximalRuns(sql) <==> !Joined(sql)
  {
    assert sql[..|sql|] == sql;
    CountsOn(sql, |sql|);
    NoJoins(sql, |sql|);
    JoinedIsJoins(sql);
  }

  // ----- Statement productions -----

  const VERBS: seq<string> := [
    "SELECT", "FROM", "VALUES", "VALUE", "TABLE", "PIVOT", "PIVOT_WIDER", "UNPIVOT", "PIVOT_LONGER",
    "INSERT", "UPDATE", "DELETE", "TRUNCATE", "MERGE"]

  const QUALIFIERS: seq<string> := [
    "OR", "REPLACE", "TEMP", "TEMPORARY", "PERSISTENT", "LOCAL", "GLOBAL", "TRANSIENT", "UNLOGGED", "RECURSIVE"]

  function Get(tokens: seq<string>, i: nat): Option<string> { if i < |tokens| then Some(tokens[i]) else None }

  /** The first verb among the tokens. */
  function VerbIndex(tokens: seq<string>): (i: Option<nat>)
    ensures i.Some? ==> i.value < |tokens| && tokens[i.value] in VERBS
  {
    if tokens == [] then None
    else if tokens[0] in VERBS then Some(0)
    else
      match VerbIndex(tokens[1..])
      case None => None
      case Some(i) => Some(i + 1)
  }

  function SkipQualifiers(tokens: seq<string>, i: nat): (r: nat)
    ensures r >= i
    decreases |tokens| - i
  {
    if i < |tokens| && tokens[i] in QUALIFIERS then SkipQualifiers(tokens, i + 1) else i
  }

  function CreatedObject(tokens: seq<string>, what: Option<string>): Option<string> {
    if what.None? then None
    else if what.value == "TABLE" then Some(if "AS" in tokens then "CreateAsStmt" else "CreateStmt")
    else if what.value == "VIEW" then Some("ViewStmt")
    else if what.value == "SEQUENCE" then Some("CreateSeqStmt")
    else if what.value == "TYPE" then Some("CreateTypeStmt")
    else if what.value == "SCHEMA" then Some("CreateSchemaStmt")
    else if what.value == "SECRET" then Some("CreateSecretStmt")
    else if what.value == "MACRO" || what.value == "FUNCTION" then Some("CreateFunctionStmt")
    else if what.value == "INDEX" then Some("IndexStmt")
    else None
  }

  function CreateProduction(tokens: seq<string>): Option<string> {
    var i := SkipQualifiers(tokens, 1);
    CreatedObject(tokens, Get(tokens, if Get(tokens, i) == Some("UNIQUE") then i + 1 else i))
  }

  method DuckdbCreateProduction(tokens: seq<string>) returns (production: Option<string>)
    ensures production == CreateProduction(tokens)
  {
    var idx := 1;
    while idx < |tokens| && tokens[idx] in QUALIFIERS
      invariant SkipQualifiers(tokens, idx) == SkipQualifiers(tokens, 1)
    {
      idx := idx + 1;
    }
    if Get(tokens, idx) == Some("UNIQUE") {
      idx := idx + 1;
    }
    production := CreatedObject(tokens, Get(tokens, idx));
  }

  function AlterProduction(tokens: seq<string>): Option<string> {
    if Get(tokens, 1) == Some("DATABASE") then Some("AlterDatabaseStmt")
    else if "RENAME" in tokens then Some("RenameStmt")
    else if exists i :: 0 <= i < |tokens| - 1 && tokens[i] == "SET" && tokens[i + 1] == "SCHEMA" then Some("AlterObjectSchemaStmt")
    else if Get(tokens, 1) == Some("SEQUENCE") then Some("AlterSeqStmt")
    else Some("AlterTableStmt")
  }

  /** The production a verb and the token after it select. */
  function VerbProduction(tokens: seq<string>, verb: string, next: Option<string>): Option<string> {
    if verb in VERBS then DmlProduction(verb, next)
    else if verb == "CREATE" then CreateProduction(tokens)
    else if verb == "ALTER" then AlterProduction(tokens)
    else if verb == "DROP" then Some(if next == Some("SECRET") then "DropSecretStmt" else "DropStmt")
    else if verb == "FORCE" then
      if next == Some("CHECKPOINT") then Some("CheckPointStmt") else if next == Some("INSTALL") then Some("LoadStmt") else None
    else KeywordProduction(verb)
  }

  function DmlProduction(verb: string, next: Option<string>): Option<string> {
    if verb == "INSERT" then Some("InsertStmt")
    else if verb == "UPDATE" then Some(if next == Some("EXTENSIONS") then "UpdateExtensionsStmt" else "UpdateStmt")
    else if verb == "DELETE" || verb == "TRUNCATE" then Some("DeleteStmt")
    else if verb == "MERGE" then Some("MergeIntoStmt")
    else Some("SelectStmt")
  }

  function KeywordProduction(verb: string): Option<string> {
    if verb == "COPY" then Some("CopyStmt")
    else if verb == "ATTACH" then Some("AttachStmt")
    else if verb == "DETACH" then Some("DetachStmt")
    else if verb == "CALL" then Some("CallStmt")
    else if verb == "CHECKPOINT" then Some("CheckPointStmt")
    else if verb == "COMMENT" then Some("CommentOnStmt")
    else if verb == "ANALYZE" then Some("AnalyzeStmt")
    else if verb == "VACUUM" then Some("VacuumStmt")
    else if verb == "LOAD" || verb == "INSTALL" then Some("LoadStmt")
    else if verb == "PRAGMA" then Some("PragmaStmt")
    else if verb == "PREPARE" then Some("PrepareStmt")
    else if verb == "EXECUTE" then Some("ExecuteStmt")
    else if verb == "DEALLOCATE" then Some("DeallocateStmt")
    else if verb == "EXPLAIN" then Some("ExplainStmt")
    else if verb == "EXPORT" then Some("ExportStmt")
    else if verb == "IMPORT" then Some("ImportStmt")
    else if verb == "SET" then Some("VariableSetStmt")
    else if verb == "RESET" then Some("VariableResetStmt")
    else if verb == "SHOW" || verb == "DESCRIBE" || verb == "DESC" || verb == "SUMMARIZE" then Some("VariableShowStmt")
    else if verb == "USE" then Some("UseStmt")
    else if verb in TRANSACTION_VERBS then Some("TransactionStmt")
    else None
  }

  const TRANSACTION_VERBS: seq<string> := ["BEGIN", "START", "COMMIT", "END", "ROLLBACK", "ABORT"]

  function TokensProduction(tokens: seq<string>): Option<string> {
    if tokens == [] then None
    else
      var at := if tokens[0] == "WITH" then VerbIndex(tokens) else Some(0);
      match at
      case None => None
      case Some(i) => VerbProduction(tokens, tokens[i], Get(tokens, i + 1))
  }

  predicate OpensParen(sql: string) { "(" <= TrimStart(sql) }

  function StmtProduction(sql: string): Option<string> {
    if OpensParen(sql) then Some("SelectStmt") else TokensProduction(Words(sql))
  }

  // ----- What the classifier does not look at -----

  lemma {:induction false} OpensSame(before: string, a: string, b: string)
    requires a != "" && b != "" && a[0] == b[0] && !IsSpace(a[0])
    ensures OpensParen(before + a) <==> OpensParen(before + b)
  {
    if before == "" {
      assert before + a == a && before + b == b;
    } else if IsSpace(before[0]) {
      OpensSame(before[1..], a, b);
      assert (before + a)[1..] == before[1..] + a && (before + b)[1..] == before[1..] + b;
    }
  }

  /** Emptying a balanced group keeps the production wherever it keeps the words. */
  lemma ProductionIgnoresGroups(before: string, body: string, after: string)
    requires Run(START, before).quote == Outside && Balanced(body)
    requires Run(START, before).depth >= 0 || !HasWordAt(body, -Run(START, before).depth - 1)
    ensures StmtProduction(before + ("(" + body + ")") + after) == StmtProduction(before + "()" + after)
  {
    GroupsAreOpaque(before, body, after);
    OpensAlike(before, "(" + body + ")", "()", after);
    SameProduction(before + ("(" + body + ")") + after, before + "()" + after);
  }

  lemma OpensAlike(before: string, a: string, b: string, after: string)
    requires a != "" && b != "" && a[0] == b[0] && !IsSpace(a[0])
    ensures OpensParen(before + a + after) <==> OpensParen(before + b + after)
  {
    OpensSame(before, a + after, b + after);
    assert before + a + after == before + (a + after);
    assert before + b + after == before + (b + after);
  }

  lemma SameProduction(a: string, b: string)
    requires Words(a) == Words(b) && (OpensParen(a) <==> OpensParen(b))
    ensures StmtProduction(a) == StmtProduction(b)
  {}

  lemma {:induction false} QualifiersSkipped(quals: seq<string>, rest: seq<string>, tokens: seq<string>, i: nat)
    requires tokens == ["CREATE"] + quals + rest && 1 <= i <= 1 + |quals| && forall q :: q in quals ==> q in QUALIFIERS
    ensures SkipQualifiers(tokens, i) == SkipQualifiers(tokens, 1 + |quals|)
    decreases |quals| - i
  {
    if i < 1 + |quals| {
      assert tokens[i] == quals[i - 1];
      QualifiersSkipped(quals, rest, tokens, i + 1);
    }
  }

  lemma {:induction false} SkipShifts(a: seq<string>, b: seq<string>, i: nat, j: nat)
    requires i <= |a| && j <= |b| && a[i..] == b[j..]
    ensures SkipQualifiers(a, i) - i == SkipQualifiers(b, j) - j
    decreases |a| - i
  {
    assert i < |a| <==> j < |b|;
    if i < |a| {
      assert a[i] == a[i..][0] && b[j] == b[j..][0];
      assert a[i + 1..] == a[i..][1..] && b[j + 1..] == b[j..][1..];
      if a[i] in QUALIFIERS { SkipShifts(a, b, i + 1, j + 1); }
    }
  }

  lemma GetShifts(a: seq<string>, b: seq<string>, i: nat, j: nat, k: nat)
    requires i <= |a| && j <= |b| && a[i..] == b[j..]
    ensures Get(a, i + k) == Get(b, j + k)
  {
    assert |a| - i == |b| - j;
    if i + k < |a| { assert a[i..][k] == b[j..][k]; }
  }

  lemma CreatesSame(a: seq<string>, b: seq<string>, i: nat, j: nat)
    requires SkipQualifiers(a, 1) == i && SkipQualifiers(b, 1) == j
    requires Get(a, i) == Get(b, j) && Get(a, i + 1) == Get(b, j + 1) && ("AS" in a <==> "AS" in b)
    ensures CreateProduction(a) == CreateProduction(b)
  {}

  /** What may stand between `CREATE` and the kind of what is created. */
  predicate IsQualifier(w: string) {
    || w == "OR" || w == "REPLACE" || w == "RECURSIVE" || w == "TEMP" || w == "TEMPORARY"
    || w == "LOCAL" || w == "GLOBAL" || w == "PERSISTENT" || w == "TRANSIENT" || w == "UNLOGGED"
  }

  lemma QualifiersAre(w: string)
    ensures IsQualifier(w) <==> w in QUALIFIERS
  {}

  /** Qualifiers after `CREATE` do not matter. */
  lemma QualifiersDoNotMatter(quals: seq<string>, rest: seq<string>)
    requires forall q :: q in quals ==> IsQualifier(q)
    ensures CreateProduction(["CREATE"] + quals + rest) == CreateProduction(["CREATE"] + rest)
  {
    forall q | q in quals ensures q in QUALIFIERS { QualifiersAre(q); }
    var a, b := ["CREATE"] + quals + rest, ["CREATE"] + rest;
    var n, j := 1 + |quals|, SkipQualifiers(b, 1);
    QualifiersSkipped(quals, rest, a, 1);
    assert a[n..] == rest == b[1..];
    SkipShifts(a, b, n, 1);
    GetShifts(a, b, n, 1, j - 1);
    GetShifts(a, b, n, 1, j);
    NoQualifierIsAs();
    HoldsSame(quals, rest, "AS");
    CreatesSame(a, b, n + j - 1, j);
  }

  lemma NoQualifierIsAs()
    ensures "AS" !in QUALIFIERS
  {}

  lemma HoldsSame(quals: seq<string>, rest: seq<string>, w: string)
    requires w !in quals
    ensures w in ["CREATE"] + quals + rest <==> w in ["CREATE"] + rest
  {}

  // ----- Unmatched parentheses -----

  function Closes(n: nat): string { if n == 0 then "" else Closes(n - 1) + ")" }

  /** Each unmatched `)` takes the depth one lower, down to the least 32-bit integer. */
  lemma {:induction false} ClosesLower(n: nat)
    ensures Run(START, Closes(n)) == START.(depth := -(if n < 0x8000_0000 then n else 0x8000_0000))
  {
    if n > 0 {
      ClosesLower(n - 1);
      RunCloses(Closes(n - 1));
    }
  }

  lemma {:induction false} RunCloses(text: string)
    requires Run(START, text).quote == Outside && Run(START, text).current == ""
    ensures var s := Run(START, text);
      Run(START, text + ")") == s.(depth := if s.depth > -0x8000_0000 then s.depth - 1 else s.depth)
  {
    assert (text + ")")[..|text + ")"| - 1] == text;
  }

  // ----- Letter case -----

  predicate IsLower(c: char) { 'a' <= c <= 'z' }

  /** b is a, or its ASCII letter in the other case. */
  predicate SameLetter(a: char, b: char) {
    || a == b
    || ('A' <= a <= 'Z' && b as int == a as int + ('a' as int - 'A' as int))
    || ('A' <= b <= 'Z' && a as int == b as int + ('a' as int - 'A' as int))
  }

  /** Texts that differ in the case of ASCII letters only. */
  ghost predicate SameButCase(a: string, b: string) {
    |a| == |b| && forall i :: 0 <= i < |a| ==> SameLetter(a[i], b[i])
  }

  lemma {:induction false} UpperIsUpper(s: string)
    ensures SameButCase(s, Upper(s)) && forall i :: 0 <= i < |s| ==> !IsLower(Upper(s)[i])
  {}

  ghost predicate NoLower(text: string) { forall c :: c in text ==> !IsLower(c) }

  ghost predicate NoneLower(tokens: seq<string>) { forall i :: 0 <= i < |tokens| ==> NoLower(tokens[i]) }

  lemma {:induction false} StepIsUpper(s: Scan, c: char)
    requires NoneLower(s.tokens) && NoLower(s.current)
    ensures NoneLower(Step(s, c).tokens) && NoLower(Step(s, c).current)
    ensures NoneLower(Flush(s).tokens)
  {}

  lemma {:induction false} RunIsUpper(text: string)
    ensures NoneLower(Run(START, text).tokens) && NoLower(Run(START, text).current)
  {
    if text != "" {
      RunIsUpper(text[..|text| - 1]);
      StepIsUpper(Run(START, text[..|text| - 1]), text[|text| - 1]);
    }
  }

  /** No token holds a small letter. */
  lemma {:induction false} WordsAreUpper(sql: string)
    ensures NoneLower(Words(sql))
  {
    RunIsUpper(sql);
    StepIsUpper(Run(START, sql), ' ');
  }

  lemma {:induction false} RunIgnoresCase(s: Scan, a: string, b: string)
    requires SameButCase(a, b)
    ensures Run(s, a) == Run(s, b)
    decreases |a|
  {
    if a != "" {
      RunIgnoresCase(s, a[..|a| - 1], b[..|b| - 1]);
      StepIgnoresCase(Run(s, a[..|a| - 1]), a[|a| - 1], b[|b| - 1]);
    }
  }

  lemma {:induction false} StepIgnoresCase(s: Scan, a: char, b: char)
    requires SameLetter(a, b)
    ensures Step(s, a) == Step(s, b)
  {}

  lemma {:induction false} OpensAnyCase(a: string, b: string)
    requires SameButCase(a, b)
    ensures OpensParen(a) <==> OpensParen(b)
    decreases |a|
  {
    if a != "" && IsSpace(a[0]) { OpensAnyCase(a[1..], b[1..]); }
  }

  /** Texts that differ only in the case of ASCII letters have the same tokens and the same production. */
  lemma {:induction false} CaseDoesNotMatter(a: string, b: string)
    requires SameButCase(a, b)
    ensures Words(a) == Words(b) && StmtProduction(a) == StmtProduction(b)
  {
    RunIgnoresCase(START, a, b);
    OpensAnyCase(a, b);
  }

  /** The characters of a word by their ASCII codes: digits, letters and the underscore. */
  lemma {:induction false} WordCharsAre(c: char)
    ensures IsWordChar(c) <==>
      var u := c as int; 48 <= u <= 57 || 65 <= u <= 90 || u == 95 || 97 <= u <= 122
  {
    assert '0' as int == 48 && '9' as int == 57 && '_' as int == 95;
    assert 'A' as int == 65 && 'Z' as int == 90 && 'a' as int == 97 && 'z' as int == 122;
  }

  /** A statement that opens with a parenthesis after white space is a query. */
  lemma {:induction false} ParenIsSelect(blanks: string, more: string)
    requires forall i :: 0 <= i < |blanks| ==> IsSpace(blanks[i])
    ensures StmtProduction(blanks + ("(" + more)) == Some("SelectStmt")
  {
    SkipsBlanks(blanks, "(" + more);
  }

  // ----- Leading WITH clauses -----

  lemma {:induction false} VerbAfter(clause: seq<string>, tokens: seq<string>)
    requires (forall w :: w in clause ==> w !in VERBS) && tokens != [] && tokens[0] in VERBS
    ensures VerbIndex(clause + tokens) == Some(|clause|)
  {
    if clause == [] {
      assert clause + tokens == tokens;
    } else {
      VerbAfter(clause[1..], tokens);
      assert (clause + tokens)[1..] == clause[1..] + tokens;
      assert (clause + tokens)[0] == clause[0];
    }
  }

  /** Tokens of a clause that begins with `WITH` and holds no verb are skipped. */
  lemma ClauseIsSkipped(clause: seq<string>, tokens: seq<string>)
    requires clause != [] && clause[0] == "WITH" && forall w :: w in clause ==> w !in VERBS
    requires tokens != [] && tokens[0] in VERBS
    ensures TokensProduction(clause + tokens) == TokensProduction(tokens)
  {
    VerbAfter(clause, tokens);
    var all := clause + tokens;
    assert all[|clause|] == tokens[0] && Get(all, |clause| + 1) == Get(tokens, 1);
    assert tokens[0] != "WITH";
  }

  predicate IsWord(s: string) { s != "" && forall c :: c in s ==> IsWordChar(c) }

  lemma {:induction false} ReadsWord(s: Scan, word: string)
    requires s.depth == 0 && s.quote == Outside && forall c :: c in word ==> IsWordChar(c)
    ensures Run(s, word) == s.(current := s.current + Upper(word))
  {
    if word != "" {
      var init, last := word[..|word| - 1], word[|word| - 1];
      assert IsWordChar(last) && forall c :: c in init ==> c in word;
      ReadsWord(s, init);
      UpperGrows(s.current, word);
    }
  }

  lemma UpperGrows(current: string, word: string)
    requires word != ""
    ensures current + Upper(word[..|word| - 1]) + [UpperChar(word[|word| - 1])] == current + Upper(word)
  {
    var init := word[..|word| - 1];
    assert Upper(word) == Upper(init) + [UpperChar(word[|word| - 1])];
    Associates(current, Upper(init), [UpperChar(word[|word| - 1])]);
  }

  /** A word and the blank after it are one more token. */
  lemma {:induction false} ReadsToken(s: Scan, word: string)
    requires s.depth == 0 && s.quote == Outside && s.current == "" && IsWord(word)
    ensures Run(s, word + " ") == s.(tokens := s.tokens + [Upper(word)])
  {
    ReadsWord(s, word);
    assert "" + Upper(word) == Upper(word);
    RunAppend(s, word, " ");
    BlankEnds(s, Upper(word));
  }

  lemma BlankEnds(s: Scan, word: string)
    requires s.depth == 0 && s.quote == Outside && s.current == "" && word != ""
    ensures Run(s.(current := word), " ") == s.(tokens := s.tokens + [word])
  {
    OneStep(s.(current := word), ' ');
  }

  /** One common table expression: its name, and its body in parentheses. */
  datatype Cte = Cte(name: string, body: string) {
    predicate Valid() { IsWord(name) && Balanced(body) }
    function Text(): string { name + " " + ("AS " + ("(" + body + ")")) }
  }

  lemma ReadsCte(s: Scan, cte: Cte)
    requires s.depth == 0 && s.quote == Outside && s.current == "" && cte.Valid()
    ensures Run(s, cte.Text()) == s.(tokens := s.tokens + [Upper(cte.name), "AS"])
  {
    var named := s.(tokens := s.tokens + [Upper(cte.name)]);
    var keyed := s.(tokens := s.tokens + [Upper(cte.name), "AS"]);
    assert Run(s, cte.name + " ") == named by { ReadsToken(s, cte.name); }
    assert Run(named, "AS ") == keyed by {
      UpperWords();
      ReadsToken(named, "AS");
      assert "AS" + " " == "AS " && named.tokens + ["AS"] == keyed.tokens;
    }
    assert Run(keyed, "(" + cte.body + ")") == keyed by { GroupFlushes(keyed, cte.body); }
    RunAppend(named, "AS ", "(" + cte.body + ")");
    RunAppend(s, cte.name + " ", "AS " + ("(" + cte.body + ")"));
  }

  lemma UpperWords()
    ensures Upper("AS") == "AS" && IsWord("AS")
    ensures Upper("WITH") == "WITH" && IsWord("WITH")
  {}

  /** `WITH a AS (..), b AS (..), ` and so on, up to the blank before the statement. */
  function WithClause(ctes: seq<Cte>): string {
    if ctes == [] then "WITH "
    else
      var init, last := ctes[..|ctes| - 1], ctes[|ctes| - 1];
      WithClause(init) + ((if init == [] then "" else ", ") + last.Text())
  }

  function WithTokens(ctes: seq<Cte>): seq<string> {
    if ctes == [] then ["WITH"] else WithTokens(ctes[..|ctes| - 1]) + [Upper(ctes[|ctes| - 1].name), "AS"]
  }

  lemma ReadsSeparator(s: Scan, first: bool)
    requires s.depth == 0 && s.quote == Outside && s.current == ""
    ensures Run(s, if first then "" else ", ") == s
  {
    OneStep(s, ',');
    OneStep(s, ' ');
    RunAppend(s, ",", " ");
    assert ", " == "," + " ";
  }

  lemma ReadsWith()
    ensures Run(START, "WITH ") == START.(tokens := ["WITH"])
  {
    UpperWords();
    ReadsToken(START, "WITH");
    assert "WITH" + " " == "WITH " && START.tokens + ["WITH"] == ["WITH"];
  }

  lemma {:induction false} ReadsClause(ctes: seq<Cte>)
    requires forall cte :: cte in ctes ==> cte.Valid()
    ensures Run(START, WithClause(ctes)) == START.(tokens := WithTokens(ctes))
    decreases |ctes|
  {
    if ctes == [] {
      ReadsWith();
    } else {
      var init, last := ctes[..|ctes| - 1], ctes[|ctes| - 1];
      assert last in ctes && forall cte :: cte in init ==> cte in ctes;
      ReadsClause(init);
      ReadsNext(START.(tokens := WithTokens(init)), init == [], last);
      RunAppend(START, WithClause(init), (if init == [] then "" else ", ") + last.Text());
    }
  }

  lemma ReadsNext(s: Scan, first: bool, cte: Cte)
    requires s.depth == 0 && s.quote == Outside && s.current == "" && cte.Valid()
    ensures Run(s, (if first then "" else ", ") + cte.Text()) == s.(tokens := s.tokens + [Upper(cte.name), "AS"])
  {
    ReadsSeparator(s, first);
    ReadsCte(s, cte);
    RunAppend(s, if first then "" else ", ", cte.Text());
  }

  lemma {:induction false} ClauseHoldsNo(ctes: seq<Cte>, verbs: seq<string>)
    requires "WITH" !in verbs && "AS" !in verbs && forall cte :: cte in ctes ==> Upper(cte.name) !in verbs
    ensures WithTokens(ctes) != [] && WithTokens(ctes)[0] == "WITH" && forall w :: w in WithTokens(ctes) ==> w !in verbs
    decreases |ctes|
  {
    if ctes != [] {
      var init, last := ctes[..|ctes| - 1], ctes[|ctes| - 1];
      assert last in ctes && forall cte :: cte in init ==> cte in ctes;
      ClauseHoldsNo(init, verbs);
    }
  }

  lemma NotVerbs()
    ensures "WITH" !in VERBS && "AS" !in VERBS
  {}

  /** Tokens already read only stand before those still to come. */
  lemma {:induction false} RunWithTokens(s: Scan, before: seq<string>, text: string)
    ensures Run(s.(tokens := before + s.tokens), text) == Run(s, text).(tokens := before + Run(s, text).tokens)
  {
    if text != "" {
      RunWithTokens(s, before, text[..|text| - 1]);
      StepWithTokens(Run(s, text[..|text| - 1]), before, text[|text| - 1]);
    }
  }

  lemma StepWithTokens(s: Scan, before: seq<string>, c: char)
    ensures Step(s.(tokens := before + s.tokens), c) == Step(s, c).(tokens := before + Step(s, c).tokens)
  {
    FlushWithTokens(s, before);
  }

  lemma FlushWithTokens(s: Scan, before: seq<string>)
    ensures Flush(s.(tokens := before + s.tokens)) == Flush(s).(tokens := before + Flush(s).tokens)
  {
    if s.current != "" { assert (before + s.tokens) + [s.current] == before + (s.tokens + [s.current]); }
  }

  /** The tokens of a statement after a clause are the clause's and its own. */
  lemma ReadsStatement(ctes: seq<Cte>, sql: string)
    requires forall cte :: cte in ctes ==> cte.Valid()
    ensures Words(WithClause(ctes) + (" " + sql)) == WithTokens(ctes) + Words(sql)
  {
    var clause := WithTokens(ctes);
    var s := START.(tokens := clause);
    ReadsClause(ctes);
    RunAppend(START, WithClause(ctes), " " + sql);
    assert Run(s, " ") == s by { OneStep(s, ' '); }
    RunAppend(s, " ", sql);
    assert clause + START.tokens == clause;
    RunWithTokens(START, clause, sql);
    FlushWithTokens(Run(START, sql), clause);
  }

  lemma {:induction false} ClauseOpens(ctes: seq<Cte>, more: string)
    ensures WithClause(ctes) != "" && WithClause(ctes)[0] == 'W' && !OpensParen(WithClause(ctes) + more)
    decreases |ctes|
  {
    if ctes != [] { ClauseOpens(ctes[..|ctes| - 1], more); }
    assert (WithClause(ctes) + more)[0] == 'W';
  }

  /** A statement's leading `WITH` clause keeps its production: any number of common table expressions, whatever their
      bodies hold, before a statement that opens with one of the verbs. */
  lemma WithKeepsProduction(ctes: seq<Cte>, sql: string)
    requires forall cte :: cte in ctes ==> cte.Valid() && Upper(cte.name) !in VERBS
    requires !OpensParen(sql) && Words(sql) != [] && Words(sql)[0] in VERBS
    ensures StmtProduction(WithClause(ctes) + (" " + sql)) == StmtProduction(sql)
  {
    ReadsStatement(ctes, sql);
    NotVerbs();
    ClauseHoldsNo(ctes, VERBS);
    ClauseIsSkipped(WithTokens(ctes), Words(sql));
    ClauseOpens(ctes, " " + sql);
  }

  // ----- The canonical statements -----

  /** What leads a statement that does not begin with `WITH` selects its production. */
  lemma {:induction false} Leads(verb: string, rest: seq<string>)
    requires verb != "WITH"
    ensures TokensProduction([verb] + rest) == VerbProduction([verb] + rest, verb, Get([verb] + rest, 1))
  {}

  /** Whatever follows it, a keyword with a production of its own selects it: of those that change rows, */
  lemma {:induction false} RowForms(rest: seq<string>)
    ensures TokensProduction(["INSERT"] + rest) == Some("InsertStmt")
    ensures TokensProduction(["DELETE"] + rest) == Some("DeleteStmt")
    ensures TokensProduction(["MERGE"] + rest) == Some("MergeIntoStmt")
  {
    Leads("INSERT", rest);
    Leads("DELETE", rest);
    Leads("MERGE", rest);
  }

  /** that look after the database, */
  lemma {:induction false} UpkeepForms(rest: seq<string>)
    ensures TokensProduction(["ANALYZE"] + rest) == Some("AnalyzeStmt")
    ensures TokensProduction(["VACUUM"] + rest) == Some("VacuumStmt")
    ensures TokensProduction(["CHECKPOINT"] + rest) == Some("CheckPointStmt")
  {
    Leads("ANALYZE", rest);
    Leads("VACUUM", rest);
    Leads("CHECKPOINT", rest);
  }

  /** that add to it, */
  lemma {:induction false} NoteForms(rest: seq<string>)
    ensures TokensProduction(["COMMENT"] + rest) == Some("CommentOnStmt")
    ensures TokensProduction(["LOAD"] + rest) == Some("LoadStmt")
    ensures TokensProduction(["IMPORT"] + rest) == Some("ImportStmt")
  {
    Leads("COMMENT", rest);
    Leads("LOAD", rest);
    Leads("IMPORT", rest);
  }

  /** that attach another, */
  lemma {:induction false} AttachForms(rest: seq<string>)
    ensures TokensProduction(["ATTACH"] + rest) == Some("AttachStmt")
    ensures TokensProduction(["DETACH"] + rest) == Some("DetachStmt")
    ensures TokensProduction(["USE"] + rest) == Some("UseStmt")
  {
    Leads("ATTACH", rest);
    Leads("DETACH", rest);
    Leads("USE", rest);
  }

  /** that write data out, */
  lemma {:induction false} TransferForms(rest: seq<string>)
    ensures TokensProduction(["COPY"] + rest) == Some("CopyStmt")
    ensures TokensProduction(["EXPORT"] + rest) == Some("ExportStmt")
  {
    Leads("COPY", rest);
    Leads("EXPORT", rest);
  }

  /** that keep a plan, */
  lemma {:induction false} PreparedForms(rest: seq<string>)
    ensures TokensProduction(["PREPARE"] + rest) == Some("PrepareStmt")
    ensures TokensProduction(["EXECUTE"] + rest) == Some("ExecuteStmt")
    ensures TokensProduction(["DEALLOCATE"] + rest) == Some("DeallocateStmt")
  {
    Leads("PREPARE", rest);
    Leads("EXECUTE", rest);
    Leads("DEALLOCATE", rest);
  }

  /** that run or show one, */
  lemma {:induction false} PlanForms(rest: seq<string>)
    ensures TokensProduction(["CALL"] + rest) == Some("CallStmt")
    ensures TokensProduction(["EXPLAIN"] + rest) == Some("ExplainStmt")
  {
    Leads("CALL", rest);
    Leads("EXPLAIN", rest);
  }

  /** and that set something. */
  lemma {:induction false} SettingForms(rest: seq<string>)
    ensures TokensProduction(["SET"] + rest) == Some("VariableSetStmt")
    ensures TokensProduction(["RESET"] + rest) == Some("VariableResetStmt")
    ensures TokensProduction(["PRAGMA"] + rest) == Some("PragmaStmt")
  {
    Leads("SET", rest);
    Leads("RESET", rest);
    Leads("PRAGMA", rest);
  }

  /** Some productions have several keywords: a query, */
  lemma {:induction false} QueryForms(verb: string, rest: seq<string>)
    requires verb in ["SELECT", "FROM", "VALUES", "VALUE", "TABLE", "PIVOT", "PIVOT_WIDER", "UNPIVOT", "PIVOT_LONGER"]
    ensures TokensProduction([verb] + rest) == Some("SelectStmt")
  {
    Leads(verb, rest);
  }

  /** what shows a setting or a table, */
  lemma {:induction false} ShowForms(verb: string, rest: seq<string>)
    requires verb in ["SHOW", "DESCRIBE", "DESC", "SUMMARIZE"]
    ensures TokensProduction([verb] + rest) == Some("VariableShowStmt")
  {
    Leads(verb, rest);
  }

  /** what begins or ends a transaction, */
  lemma {:induction false} TransactionForms(verb: string, rest: seq<string>)
    requires verb in ["BEGIN", "START", "COMMIT", "END", "ROLLBACK", "ABORT"]
    ensures TokensProduction([verb] + rest) == Some("TransactionStmt")
  {
    Leads(verb, rest);
  }

  /** a deletion, a load and what may be forced. */
  lemma {:induction false} OtherForms(rest: seq<string>)
    ensures TokensProduction(["TRUNCATE"] + rest) == Some("DeleteStmt")
    ensures TokensProduction(["INSTALL"] + rest) == Some("LoadStmt")
    ensures TokensProduction(["FORCE", "INSTALL"] + rest) == Some("LoadStmt")
    ensures TokensProduction(["FORCE", "CHECKPOINT"] + rest) == Some("CheckPointStmt")
  {
    Leads("TRUNCATE", rest);
    Leads("INSTALL", rest);
    Leads("FORCE", ["INSTALL"] + rest);
    assert ["FORCE"] + (["INSTALL"] + rest) == ["FORCE", "INSTALL"] + rest;
    Leads("FORCE", ["CHECKPOINT"] + rest);
    assert ["FORCE"] + (["CHECKPOINT"] + rest) == ["FORCE", "CHECKPOINT"] + rest;
  }

  /** An update and a removal are told by the next token, */
  lemma {:induction false} UpdateForms(next: string, rest: seq<string>)
    ensures TokensProduction(["UPDATE", "EXTENSIONS"] + rest) == Some("UpdateExtensionsStmt")
    ensures next != "EXTENSIONS" ==> TokensProduction(["UPDATE", next] + rest) == Some("UpdateStmt")
  {
    Leads("UPDATE", ["EXTENSIONS"] + rest);
    assert ["UPDATE"] + (["EXTENSIONS"] + rest) == ["UPDATE", "EXTENSIONS"] + rest;
    Leads("UPDATE", [next] + rest);
    assert ["UPDATE"] + ([next] + rest) == ["UPDATE", next] + rest;
  }

  lemma {:induction false} DropForms(next: string, rest: seq<string>)
    ensures TokensProduction(["DROP", "SECRET"] + rest) == Some("DropSecretStmt")
    ensures next != "SECRET" ==> TokensProduction(["DROP", next] + rest) == Some("DropStmt")
  {
    Leads("DROP", ["SECRET"] + rest);
    assert ["DROP"] + (["SECRET"] + rest) == ["DROP", "SECRET"] + rest;
    Leads("DROP", [next] + rest);
    assert ["DROP"] + ([next] + rest) == ["DROP", next] + rest;
  }

  /** what is created by its kind, */
  lemma {:induction false} CreateForms(rest: seq<string>)
    ensures TokensProduction(["CREATE", "SCHEMA"] + rest) == Some("CreateSchemaStmt")
    ensures TokensProduction(["CREATE", "SECRET"] + rest) == Some("CreateSecretStmt")
    ensures TokensProduction(["CREATE", "SEQUENCE"] + rest) == Some("CreateSeqStmt")
  {
    Leads("CREATE", ["SCHEMA"] + rest);
    assert ["CREATE"] + (["SCHEMA"] + rest) == ["CREATE", "SCHEMA"] + rest;
    Leads("CREATE", ["SECRET"] + rest);
    assert ["CREATE"] + (["SECRET"] + rest) == ["CREATE", "SECRET"] + rest;
    Leads("CREATE", ["SEQUENCE"] + rest);
    assert ["CREATE"] + (["SEQUENCE"] + rest) == ["CREATE", "SEQUENCE"] + rest;
  }

  lemma {:induction false} MoreCreateForms(rest: seq<string>)
    ensures TokensProduction(["CREATE", "MACRO"] + rest) == Some("CreateFunctionStmt")
    ensures TokensProduction(["CREATE", "TYPE"] + rest) == Some("CreateTypeStmt")
    ensures TokensProduction(["CREATE", "INDEX"] + rest) == Some("IndexStmt")
  {
    Leads("CREATE", ["MACRO"] + rest);
    assert ["CREATE"] + (["MACRO"] + rest) == ["CREATE", "MACRO"] + rest;
    Leads("CREATE", ["TYPE"] + rest);
    assert ["CREATE"] + (["TYPE"] + rest) == ["CREATE", "TYPE"] + rest;
    Leads("CREATE", ["INDEX"] + rest);
    assert ["CREATE"] + (["INDEX"] + rest) == ["CREATE", "INDEX"] + rest;
  }

  lemma {:induction false} ViewForms(rest: seq<string>)
    ensures TokensProduction(["CREATE", "VIEW"] + rest) == Some("ViewStmt")
    ensures TokensProduction(["CREATE", "UNIQUE", "INDEX"] + rest) == Some("IndexStmt")
  {
    Leads("CREATE", ["VIEW"] + rest);
    assert ["CREATE"] + (["VIEW"] + rest) == ["CREATE", "VIEW"] + rest;
    Leads("CREATE", ["UNIQUE", "INDEX"] + rest);
    assert ["CREATE"] + (["UNIQUE", "INDEX"] + rest) == ["CREATE", "UNIQUE", "INDEX"] + rest;
  }

  /** a table by an `AS` outside parentheses, */
  lemma {:induction false} TableForms(rest: seq<string>)
    ensures TokensProduction(["CREATE", "TABLE"] + rest) == Some(if "AS" in rest then "CreateAsStmt" else "CreateStmt")
  {
    Leads("CREATE", ["TABLE"] + rest);
    assert ["CREATE"] + (["TABLE"] + rest) == ["CREATE", "TABLE"] + rest;
    assert "AS" in ["CREATE", "TABLE"] + rest <==> "AS" in rest;
  }

  lemma {:induction false} Alters(kind: string, rest: seq<string>)
    ensures TokensProduction(["ALTER", kind] + rest) == AlterProduction(["ALTER", kind] + rest)
  {
    Leads("ALTER", [kind] + rest);
    assert ["ALTER"] + ([kind] + rest) == ["ALTER", kind] + rest;
  }

  /** and an `ALTER` by its object and what is done to it: a database, a name, */
  lemma {:induction false} AlterForms(kind: string, rest: seq<string>)
    ensures TokensProduction(["ALTER", "DATABASE"] + rest) == Some("AlterDatabaseStmt")
    ensures kind != "DATABASE" && "RENAME" in rest ==> TokensProduction(["ALTER", kind] + rest) == Some("RenameStmt")
  {
    Alters("DATABASE", rest);
    Alters(kind, rest);
  }

  /** the schema it is in, */
  lemma {:induction false} MoveForms(kind: string, name: seq<string>, rest: seq<string>)
    requires kind != "DATABASE" && kind != "RENAME" && "RENAME" !in name && "RENAME" !in rest
    ensures TokensProduction(["ALTER", kind] + (name + ["SET", "SCHEMA"] + rest)) == Some("AlterObjectSchemaStmt")
  {
    var more := name + ["SET", "SCHEMA"] + rest;
    Alters(kind, more);
    var i := 2 + |name|;
    assert (["ALTER", kind] + more)[i] == "SET" && (["ALTER", kind] + more)[i + 1] == "SCHEMA";
    assert "RENAME" !in ["ALTER", kind] + more;
  }

  /** or anything else. */
  lemma {:induction false} OtherAlterForms(rest: seq<string>)
    requires "RENAME" !in rest && forall i :: 0 <= i < |rest| - 1 && rest[i] == "SET" ==> rest[i + 1] != "SCHEMA"
    ensures TokensProduction(["ALTER", "SEQUENCE"] + rest) == Some("AlterSeqStmt")
    ensures TokensProduction(["ALTER", "TABLE"] + rest) == Some("AlterTableStmt")
  {
    Alters("SEQUENCE", rest);
    Alters("TABLE", rest);
    Unmoved("SEQUENCE", rest);
    Unmoved("TABLE", rest);
  }

  lemma {:induction false} Unmoved(kind: string, rest: seq<string>)
    requires kind != "SET" && kind != "RENAME" && "RENAME" !in rest
    requires forall i :: 0 <= i < |rest| - 1 && rest[i] == "SET" ==> rest[i + 1] != "SCHEMA"
    ensures "RENAME" !in ["ALTER", kind] + rest
    ensures var tokens := ["ALTER", kind] + rest;
      forall i :: 0 <= i < |tokens| - 1 && tokens[i] == "SET" ==> tokens[i + 1] != "SCHEMA"
  {
    var tokens := ["ALTER", kind] + rest;
    assert "RENAME" != "ALTER" && "SET" != "ALTER";
    forall i | 0 <= i < |tokens| - 1 && tokens[i] == "SET" ensures tokens[i + 1] != "SCHEMA" {
      assert i >= 2 && tokens[i] == rest[i - 2] && tokens[i + 1] == rest[i - 1];
    }
  }

  /** What leads no statement, or is forced and cannot be, has no production. */
  lemma {:induction false} NoForms(next: string, rest: seq<string>)
    ensures next !in ["CHECKPOINT", "INSTALL"] ==> TokensProduction(["FORCE", next] + rest) == None
    ensures TokensProduction(["FORCE"]) == None && TokensProduction(["EXCEPT"] + rest) == None
  {
    Leads("FORCE", [next] + rest);
    assert ["FORCE"] + ([next] + rest) == ["FORCE", next] + rest;
    Leads("FORCE", []);
    assert ["FORCE"] + [] == ["FORCE"];
    Leads("EXCEPT", rest);
  }

  lemma {:induction false} SpacedBegins(words: seq<string>)
    requires words != [] && forall i :: 0 <= i < |words| ==> IsWord(words[i])
    ensures Spaced(words) != "" && IsWordChar(Spaced(words)[0])
  {
    if |words| > 1 { SpacedBegins(words[..|words| - 1]); } else { assert words[..0] == []; }
  }

  /** A statement written in words, in either case, has the production of its words in upper case. */
  lemma {:induction false} WordsGiveProduction(words: seq<string>)
    requires forall i :: 0 <= i < |words| ==> IsWord(words[i])
    ensures StmtProduction(Spaced(words)) == TokensProduction(AllUpper(words))
  {
    ReadsWords(words);
    if words != [] { SpacedBegins(words); }
  }
}
