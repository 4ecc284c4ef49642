/**
  The process list: the CSV listing of running processes is read line by
  line, the header is skipped, and the first field of every other line goes
  into a TreeSet ordered by String.CASE_INSENSITIVE_ORDER. The TreeSet is a
  sequence kept strictly ascending in that order.
 */
module ProcessList {
  import opened Wrappers
  import opened JavaStrings
  import opened CaseInsensitiveOrder

  /**
    What the listing command produced: the lines read, and the message of the
    exception that ended the reading early, if one did.
   */
  datatype Listing = Listing(lines: seq<string>, failure: Option<string>)

  /** The lines after the header line. */
  function DataLines(lines: seq<string>): seq<string> {
    if lines == [] then [] else lines[1..]
  }

  /**
    The process name one CSV line contributes: the first comma-separated
    field, every double quote removed, trimmed. An empty line contributes
    nothing, and neither does a line for which split finds no field.
   */
  function ExtractName(line: string): Option<string> {
    if |line| == 0 then None
    else
      var parts := Split(line, ',');
      if |parts| > 0 then Some(Trim(RemoveAll(parts[0], '"'))) else None
  }

  /**
    Exactly the lines made only of commas (the empty line among them) yield no
    name; any other line yields the text before its first comma, without
    quotes and trimmed.
   */
  lemma ExtractNameSpec(line: string)
    ensures ExtractName(line).None? <==> OnlyOf(line, ',')
    ensures ExtractName(line).Some? ==>
      ExtractName(line).value == Trim(RemoveAll(FirstField(line, ','), '"'))
    ensures ExtractName(line).Some? ==>
      '"' !in ExtractName(line).value && Trimmed(ExtractName(line).value)
  {
    SplitHead(line, ',');
  }

  /** The names f gives the lines ls, in order; lines without one are passed over. */
  function Collect(f: string -> Option<string>, ls: seq<string>): seq<string> {
    if ls == [] then []
    else
      Collect(f, ls[..|ls| - 1]) +
      (if f(ls[|ls| - 1]).Some? then [f(ls[|ls| - 1]).value] else [])
  }

  /** The names of the lines ls, in order. */
  function ExtractedNames(ls: seq<string>): seq<string> {
    Collect(ExtractName, ls)
  }

  lemma {:induction false} CollectSpec(f: string -> Option<string>, ls: seq<string>)
    ensures forall y :: y in Collect(f, ls) <==> exists k :: 0 <= k < |ls| && f(ls[k]) == Some(y)
  {
    if ls != [] {
      var init := ls[..|ls| - 1];
      CollectSpec(f, init);
      assert forall k :: 0 <= k < |init| ==> init[k] == ls[k];
    }
  }

  lemma ExtractedNamesSpec(ls: seq<string>)
    ensures forall y :: y in ExtractedNames(ls) <==> exists k :: 0 <= k < |ls| && ExtractName(ls[k]) == Some(y)
  {
    CollectSpec(ExtractName, ls);
  }

  lemma ExtractedNamesSnoc(ls: seq<string>, line: string)
    ensures ExtractedNames(ls + [line]) ==
      ExtractedNames(ls) + (if ExtractName(line).Some? then [ExtractName(line).value] else [])
  {
    assert (ls + [line])[..|ls|] == ls;
  }

  /** Strictly ascending in the case-insensitive order: sorted, and no two equal ignoring case. */
  predicate StrictlySorted(s: seq<string>) {
    forall i, j :: 0 <= i < j < |s| ==> Below(s[i], s[j])
  }

  /** Some element of s equals x ignoring case. */
  predicate HasSame(s: seq<string>, x: string) {
    exists y :: y in s && SameIgnoringCase(y, x)
  }

  /**
    TreeSet.add: x goes to its place in the order, unless an element that
    compares equal to it is already present, in which case nothing changes.
   */
  function Insert(s: seq<string>, x: string): seq<string> {
    if s == [] then [x]
    else
      var d := CompareIgnoreCase(x, s[0]);
      if d < 0 then [x] + s
      else if d == 0 then s
      else [s[0]] + Insert(s[1..], x)
  }

  /** An element below the first one goes in front, and nothing in the set matches it. */
  lemma InsertFront(s: seq<string>, x: string)
    requires StrictlySorted(s) && s != [] && Below(x, s[0])
    ensures StrictlySorted([x] + s)
    ensures !HasSame(s, x)
  {
    forall k | 0 <= k < |s| ensures Below(x, s[k]) {
      if k > 0 {
        BelowTransitive(x, s[0], s[k]);
      }
    }
    forall y | y in s ensures !SameIgnoringCase(y, x) {
      var k :| 0 <= k < |s| && s[k] == y;
      CompareAntisymmetric(y, x);
    }
    var r := [x] + s;
    forall i, j | 0 <= i < j < |r| ensures Below(r[i], r[j]) {
      assert r[j] == s[j - 1];
      if i > 0 {
        assert r[i] == s[i - 1];
      }
    }
  }

  /** Putting an element below every element of a strictly ascending sequence in front of it keeps it strictly ascending. */
  lemma ConsSorted(y: string, rest: seq<string>)
    requires StrictlySorted(rest)
    requires forall z :: z in rest ==> Below(y, z)
    ensures StrictlySorted([y] + rest)
  {
    var r := [y] + rest;
    forall i, j | 0 <= i < j < |r| ensures Below(r[i], r[j]) {
      assert r[j] == rest[j - 1] && r[j] in rest;
      if i > 0 {
        assert r[i] == rest[i - 1];
      }
    }
  }

  lemma {:induction false} InsertSpec(s: seq<string>, x: string)
    requires StrictlySorted(s)
    ensures StrictlySorted(Insert(s, x))
    ensures forall y :: y in Insert(s, x) <==> y in s || (y == x && !HasSame(s, x))
  {
    if s == [] {
      return;
    }
    var d := CompareIgnoreCase(x, s[0]);
    if d < 0 {
      InsertFront(s, x);
    } else if d == 0 {
      SameSymmetric(x, s[0]);
      assert s[0] in s;
    } else {
      var tail := s[1..];
      InsertSpec(tail, x);
      CompareAntisymmetric(s[0], x);
      assert HasSame(s, x) <==> HasSame(tail, x) by {
        assert forall y :: y in s ==> y in tail || y == s[0];
      }
      forall y | y in tail ensures Below(s[0], y) {
        var k :| 0 <= k < |tail| && tail[k] == y;
        assert s[k + 1] == y;
      }
      ConsSorted(s[0], Insert(tail, x));
    }
  }

  /** The TreeSet after adding names one after the other to an empty one. */
  function BuildSet(names: seq<string>): seq<string> {
    if names == [] then []
    else Insert(BuildSet(names[..|names| - 1]), names[|names| - 1])
  }

  lemma BuildSetSnoc(names: seq<string>, x: string)
    ensures BuildSet(names + [x]) == Insert(BuildSet(names), x)
  {
    assert (names + [x])[..|names|] == names;
  }

  /** One more line adds its name, if it yields one, to the set built so far. */
  lemma RunningProcessesSnoc(ls: seq<string>, line: string)
    ensures BuildSet(ExtractedNames(ls + [line])) ==
      if ExtractName(line).Some? then Insert(BuildSet(ExtractedNames(ls)), ExtractName(line).value)
      else BuildSet(ExtractedNames(ls))
  {
    ExtractedNamesSnoc(ls, line);
    if ExtractName(line).Some? {
      BuildSetSnoc(ExtractedNames(ls), ExtractName(line).value);
    } else {
      assert ExtractedNames(ls + [line]) == ExtractedNames(ls) + [];
      assert ExtractedNames(ls) + [] == ExtractedNames(ls);
    }
  }

  /** No earlier name equals names[k] ignoring case. */
  predicate FirstSpelling(names: seq<string>, k: int) {
    0 <= k < |names| && forall j :: 0 <= j < k ==> !SameIgnoringCase(names[j], names[k])
  }

  /** y is the first spelling, among names, of its case-insensitive class. */
  ghost predicate IsFirstSpelling(names: seq<string>, y: string) {
    exists k :: FirstSpelling(names, k) && names[k] == y
  }

  /** The first spellings of names are those of its prefix, and possibly its last name. */
  lemma FirstSpellingsExtend(names: seq<string>)
    requires names != []
    ensures forall y :: IsFirstSpelling(names, y) <==>
      IsFirstSpelling(names[..|names| - 1], y) ||
      (y == names[|names| - 1] && FirstSpelling(names, |names| - 1))
  {
    var p := names[..|names| - 1];
    forall k | 0 <= k < |p| ensures FirstSpelling(p, k) == FirstSpelling(names, k) {
      assert forall j :: 0 <= j <= k ==> p[j] == names[j];
    }
    forall y | IsFirstSpelling(names, y)
      ensures IsFirstSpelling(p, y) || (y == names[|names| - 1] && FirstSpelling(names, |names| - 1))
    {
      var k :| FirstSpelling(names, k) && names[k] == y;
      if k < |p| {
        assert FirstSpelling(p, k) && p[k] == y;
      }
    }
    forall y | IsFirstSpelling(p, y) ensures IsFirstSpelling(names, y) {
      var k :| FirstSpelling(p, k) && p[k] == y;
      assert FirstSpelling(names, k) && names[k] == y;
    }
  }

  /**
    The TreeSet built from names is strictly ascending ignoring case; every
    name has an element equal to it ignoring case; and its elements are exactly
    the first spellings, so on a collision the first inserted spelling is kept.
   */
  lemma {:induction false} BuildSetSpec(names: seq<string>)
    ensures StrictlySorted(BuildSet(names))
    ensures forall x :: x in names ==> HasSame(BuildSet(names), x)
    ensures forall y :: y in BuildSet(names) <==> IsFirstSpelling(names, y)
  {
    if names == [] {
      return;
    }
    var n := |names| - 1;
    var p := names[..n];
    var x := names[n];
    assert names == p + [x];
    var set0 := BuildSet(p);
    BuildSetSpec(p);
    InsertSpec(set0, x);
    FirstSpellingsExtend(names);
    assert HasSame(set0, x) <==> !FirstSpelling(names, n) by {
      if HasSame(set0, x) {
        var y :| y in set0 && SameIgnoringCase(y, x);
        var k :| FirstSpelling(p, k) && p[k] == y;
        assert names[k] == y;
      }
      if !FirstSpelling(names, n) {
        var j :| 0 <= j < n && SameIgnoringCase(names[j], x);
        assert p[j] in p;
        var y :| y in set0 && SameIgnoringCase(y, p[j]);
        SameTransitive(y, p[j], x);
      }
    }
    forall z | z in names ensures HasSame(BuildSet(names), z) {
      if z in p {
        var y :| y in set0 && SameIgnoringCase(y, z);
        assert y in BuildSet(names);
      } else if HasSame(set0, x) {
        var y :| y in set0 && SameIgnoringCase(y, x);
        assert y in BuildSet(names);
      } else {
        CompareReflexive(x);
        assert x in BuildSet(names);
      }
    }
  }

  /** Of two spellings equal ignoring case, the one added first stays and the other is dropped. */
  lemma CollisionKeepsFirst(first: string, second: string)
    requires SameIgnoringCase(first, second)
    ensures BuildSet([first, second]) == [first]
  {
    assert [first, second][..1] == [first];
    assert [first][..0] == [];
    assert BuildSet([first]) == Insert([], first) == [first];
    CompareAntisymmetric(first, second);
    assert Insert([first], second) == [first];
  }

  /** The list getRunningProcesses returns for the given listing lines. */
  function RunningProcesses(lines: seq<string>): seq<string> {
    BuildSet(ExtractedNames(DataLines(lines)))
  }

  /**
    The returned list is strictly ascending ignoring case; every name of a
    data line has an entry equal to it ignoring case; every entry is the name of
    some data line (never of the header); and the entries are exactly the first
    spellings among the extracted names.
   */
  lemma RunningProcessesSpec(lines: seq<string>)
    ensures StrictlySorted(RunningProcesses(lines))
    ensures forall k :: 1 <= k < |lines| && ExtractName(lines[k]).Some? ==>
      HasSame(RunningProcesses(lines), ExtractName(lines[k]).value)
    ensures forall y :: y in RunningProcesses(lines) ==>
      exists k :: 1 <= k < |lines| && ExtractName(lines[k]) == Some(y)
    ensures forall y :: y in RunningProcesses(lines) <==>
      IsFirstSpelling(ExtractedNames(DataLines(lines)), y)
  {
    var data := DataLines(lines);
    var names := ExtractedNames(data);
    BuildSetSpec(names);
    ExtractedNamesSpec(data);
    forall k | 1 <= k < |lines| && ExtractName(lines[k]).Some?
      ensures HasSame(RunningProcesses(lines), ExtractName(lines[k]).value)
    {
      assert data[k - 1] == lines[k];
      assert ExtractName(lines[k]).value in names;
    }
    forall y | y in RunningProcesses(lines)
      ensures exists k :: 1 <= k < |lines| && ExtractName(lines[k]) == Some(y)
    {
      var k :| FirstSpelling(names, k) && names[k] == y;
      assert y in names;
      var i :| 0 <= i < |data| && ExtractName(data[i]) == Some(y);
      assert lines[i + 1] == data[i];
    }
  }

  /**
    getRunningProcesses: skip the header, then add the name of every
    non-empty line that split leaves a field in. An exception ends the reading
    and is reported; the names collected until then are returned.
   */
  method GetRunningProcesses(listing: Listing) returns (processes: seq<string>, error: Option<string>)
    ensures processes == RunningProcesses(listing.lines)
    ensures error == listing.failure
  {
    processes := [];
    var data := DataLines(listing.lines);
    var i := 0;
    while i < |data|
      invariant 0 <= i <= |data|
      invariant processes == BuildSet(ExtractedNames(data[..i]))
    {
      var line := data[i];
      assert data[..i + 1] == data[..i] + [line];
      RunningProcessesSnoc(data[..i], line);
      if |line| > 0 {
        var parts := Split(line, ',');
        if |parts| > 0 {
          var processName := Trim(RemoveAll(parts[0], '"'));
          assert ExtractName(line) == Some(processName);
          processes := Insert(processes, processName);
        } else {
          assert ExtractName(line) == None;
        }
      } else {
        assert ExtractName(line) == None;
      }
      i := i + 1;
    }
    assert data[..i] == data;
    error := listing.failure;
  }
}
