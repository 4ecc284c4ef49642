/**
  The presence test of one monitoring tick: the output of the filtered
  process listing is read line by line, the first two lines are skipped, and
  every later line that is not blank and does not say "No tasks" counts as a
  match and is kept, followed by a newline, in the process information.
 */
module MatchDetector {
  import opened JavaStrings

  /** The text of the listing's message for an empty result. */
  const NO_TASKS: string := "No tasks"

  /** The lines after the two header lines. */
  function Body(lines: seq<string>): seq<string> {
    if |lines| <= 2 then [] else lines[2..]
  }

  /** A line that reports a matching process. */
  predicate IsMatchLine(line: string) {
    Trim(line) != [] && !Contains(line, NO_TASKS)
  }

  /** The lines of ls that satisfy keep, in order. */
  function Filter(keep: string -> bool, ls: seq<string>): seq<string> {
    if ls == [] then []
    else Filter(keep, ls[..|ls| - 1]) + (if keep(ls[|ls| - 1]) then [ls[|ls| - 1]] else [])
  }

  /** The match lines of ls, in order. */
  function MatchedLines(ls: seq<string>): seq<string> {
    Filter(IsMatchLine, ls)
  }

  /** Every line followed by a newline, one after the other. */
  function JoinLines(xs: seq<string>): (s: string)
    ensures s == [] <==> xs == []
  {
    if xs == [] then [] else xs[0] + "\n" + JoinLines(xs[1..])
  }

  /** The listing shows the process: some line after the header is a match line. */
  ghost predicate ProcessFound(lines: seq<string>) {
    exists k :: 2 <= k < |lines| && IsMatchLine(lines[k])
  }

  /** The process information a tick collects. */
  function MatchDetail(lines: seq<string>): string {
    JoinLines(MatchedLines(Body(lines)))
  }

  /**
    The kept lines are exactly the lines that satisfy keep, in their order;
    none is kept exactly when no line satisfies it.
   */
  lemma {:induction false} FilterSpec(keep: string -> bool, ls: seq<string>)
    ensures forall x :: x in Filter(keep, ls) ==> x in ls && keep(x)
    ensures forall k :: 0 <= k < |ls| && keep(ls[k]) ==> ls[k] in Filter(keep, ls)
    ensures Filter(keep, ls) == [] <==> forall k :: 0 <= k < |ls| ==> !keep(ls[k])
  {
    if ls != [] {
      var init := ls[..|ls| - 1];
      FilterSpec(keep, init);
      assert forall k :: 0 <= k < |init| ==> init[k] == ls[k];
      assert forall x :: x in init ==> x in ls;
    }
  }

  lemma FilterSnoc(keep: string -> bool, ls: seq<string>, x: string)
    ensures Filter(keep, ls + [x]) == Filter(keep, ls) + (if keep(x) then [x] else [])
  {
    assert (ls + [x])[..|ls|] == ls;
  }

  lemma {:induction false} JoinLinesSnoc(xs: seq<string>, x: string)
    ensures JoinLines(xs + [x]) == JoinLines(xs) + x + "\n"
  {
    if xs != [] {
      assert (xs + [x])[1..] == xs[1..] + [x];
      JoinLinesSnoc(xs[1..], x);
    }
  }

  /** One more line adds itself and a newline to the information exactly when it is a match line. */
  lemma DetailSnoc(ls: seq<string>, x: string)
    ensures JoinLines(MatchedLines(ls + [x])) ==
      JoinLines(MatchedLines(ls)) + (if IsMatchLine(x) then x + "\n" else [])
  {
    FilterSnoc(IsMatchLine, ls, x);
    if IsMatchLine(x) {
      assert MatchedLines(ls + [x]) == MatchedLines(ls) + [x];
      JoinLinesSnoc(MatchedLines(ls), x);
    } else {
      assert MatchedLines(ls + [x]) == MatchedLines(ls) + [];
      assert MatchedLines(ls) + [] == MatchedLines(ls);
    }
  }

  /** Cuts s at every newline; the text after the last newline, if any, is a last line. */
  function SplitLines(s: string): seq<string>
    decreases |s|
  {
    if s == [] then []
    else
      var line := FirstField(s, '\n');
      if |line| == |s| then [s] else [line] + SplitLines(s[|line| + 1..])
  }

  /** Lines read by a line reader hold no newline, so the information splits back into them. */
  lemma {:induction false} SplitJoinLines(xs: seq<string>)
    requires forall x :: x in xs ==> '\n' !in x
    ensures SplitLines(JoinLines(xs)) == xs
  {
    if xs != [] {
      var rest := JoinLines(xs[1..]);
      assert JoinLines(xs) == xs[0] + ['\n'] + rest;
      FirstFieldOfJoin(xs[0], '\n', rest);
      assert (xs[0] + ['\n'] + rest)[|xs[0]| + 1..] == rest;
      SplitJoinLines(xs[1..]);
    }
  }

  lemma FoundIffMatched(lines: seq<string>)
    ensures ProcessFound(lines) <==> MatchedLines(Body(lines)) != []
  {
    var body := Body(lines);
    FilterSpec(IsMatchLine, body);
    assert forall k :: 0 <= k < |body| ==> body[k] == lines[k + 2];
    if ProcessFound(lines) {
      var k :| 2 <= k < |lines| && IsMatchLine(lines[k]);
      assert body[k - 2] == lines[k];
    }
  }

  /**
    The process is found exactly when the information is not empty, and the
    information splits back into the match lines.
   */
  lemma DetailSpec(lines: seq<string>)
    requires forall line :: line in lines ==> '\n' !in line
    ensures ProcessFound(lines) <==> MatchDetail(lines) != []
    ensures SplitLines(MatchDetail(lines)) == MatchedLines(Body(lines))
  {
    var body := Body(lines);
    FoundIffMatched(lines);
    FilterSpec(IsMatchLine, body);
    assert forall x :: x in body ==> x in lines;
    SplitJoinLines(MatchedLines(body));
  }

  /**
    The inner loop of monitorProcess: skip two lines, then set found and
    append the line and a newline for every match line.
   */
  method DetectMatch(lines: seq<string>) returns (found: bool, detail: string)
    ensures found <==> ProcessFound(lines)
    ensures detail == MatchDetail(lines)
    ensures found <==> detail != []
  {
    var body := Body(lines);
    found := false;
    detail := [];
    var i := 0;
    while i < |body|
      invariant 0 <= i <= |body|
      invariant detail == JoinLines(MatchedLines(body[..i]))
      invariant found <==> detail != []
    {
      var line := body[i];
      assert body[..i + 1] == body[..i] + [line];
      DetailSnoc(body[..i], line);
      if Trim(line) != [] && !Contains(line, NO_TASKS) {
        found := true;
        detail := detail + line + "\n";
      }
      i := i + 1;
    }
    assert body[..i] == body;
    FoundIffMatched(lines);
  }
}
