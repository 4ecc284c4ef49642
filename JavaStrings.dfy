/**
  The operations of java.lang.String that the monitor's text handling uses:
  trim, replaceAll of one literal character, split on one literal character
  (limit 0), and contains. A string is a sequence of Unicode scalar values,
  whereas a Java String is a sequence of UTF-16 code units; the two agree on
  every char up to U+FFFF.
 */
module JavaStrings {

  /** Every char of s is trimmable. */
  predicate AllTrimmable(s: string) {
    forall k :: 0 <= k < |s| ==> IsTrimmable(s[k])
  }

  /** String.trim removes every leading and trailing char whose code is at most U+0020. */
  predicate IsTrimmable(c: char) {
    c <= ' '
  }

  /** A string with no trimmable char at either end. */
  predicate Trimmed(s: string) {
    s == [] || (!IsTrimmable(s[0]) && !IsTrimmable(s[|s| - 1]))
  }

  /** s without its leading trimmable chars: a suffix of s. */
  function TrimStart(s: string): (r: string)
    ensures |r| <= |s| && r == s[|s| - |r|..]
    ensures r == [] || !IsTrimmable(r[0])
    ensures forall k :: 0 <= k < |s| - |r| ==> IsTrimmable(s[k])
    ensures forall c :: c in r ==> c in s
  {
    if s != [] && IsTrimmable(s[0]) then TrimStart(s[1..]) else s
  }

  /** s without its trailing trimmable chars: a prefix of s. */
  function TrimEnd(s: string): (r: string)
    ensures |r| <= |s| && r == s[..|r|]
    ensures r == [] || !IsTrimmable(r[|r| - 1])
    ensures forall k :: |r| <= k < |s| ==> IsTrimmable(s[k])
    ensures forall c :: c in r ==> c in s
  {
    if s != [] && IsTrimmable(s[|s| - 1]) then TrimEnd(s[..|s| - 1]) else s
  }

  /** String.trim. */
  function Trim(s: string): (r: string)
    ensures Trimmed(r)
    ensures forall c :: c in r ==> c in s
    ensures r == [] <==> AllTrimmable(s)
    ensures Trimmed(s) ==> r == s
  {
    TrimEmpty(s);
    TrimEnd(TrimStart(s))
  }

  lemma TrimEmpty(s: string)
    ensures TrimEnd(TrimStart(s)) == [] <==> AllTrimmable(s)
  {
    var t := TrimStart(s);
    if TrimEnd(t) == [] {
      assert t == [];
    }
    if t != [] {
      assert t[0] == s[|s| - |t|];
    }
  }

  /** r is s[i..j], and every char of s outside it is trimmable. */
  predicate Stretch(s: string, r: string, i: int, j: int) {
    0 <= i <= j <= |s| && r == s[i..j] && AllTrimmable(s[..i]) && AllTrimmable(s[j..])
  }

  /** String.trim keeps the stretch of s between a head and a tail of trimmable chars. */
  lemma TrimStretch(s: string)
    ensures exists i, j :: Stretch(s, Trim(s), i, j)
  {
    var t := TrimStart(s);
    var i := |s| - |t|;
    var u := TrimEnd(t);
    var j := i + |u|;
    assert u == s[i..j] by {
      assert t == s[i..] && u == t[..|u|];
    }
    forall k | 0 <= k < i ensures IsTrimmable(s[..i][k]) {
      assert s[..i][k] == s[k];
    }
    forall k | 0 <= k < |s| - j ensures IsTrimmable(s[j..][k]) {
      assert s[j..][k] == t[|u| + k];
    }
    assert Stretch(s, u, i, j);
    assert Trim(s) == u;
  }

  lemma TrimIdempotent(s: string)
    ensures Trim(Trim(s)) == Trim(s)
  {
  }

  /** s.replaceAll(c, "") for a char c that is not a regular-expression metacharacter. */
  function RemoveAll(s: string, c: char): (r: string)
    ensures c !in r
    ensures forall d :: d in r <==> d in s && d != c
    ensures c !in s ==> r == s
  {
    if s == [] then []
    else if s[0] == c then RemoveAll(s[1..], c)
    else [s[0]] + RemoveAll(s[1..], c)
  }

  /** Removing a char from a concatenation removes it from each part, keeping the rest in order. */
  lemma {:induction false} RemoveAllAppend(a: string, b: string, c: char)
    ensures RemoveAll(a + b, c) == RemoveAll(a, c) + RemoveAll(b, c)
  {
    if a != [] {
      assert (a + b)[0] == a[0];
      assert (a + b)[1..] == a[1..] + b;
      RemoveAllAppend(a[1..], b, c);
    } else {
      assert a + b == b;
    }
  }

  /** A single char other than c is kept; c itself is dropped. */
  lemma RemoveAllSingle(d: char, c: char)
    ensures RemoveAll([d], c) == if d == c then [] else [d]
  {
    assert [d][1..] == [];
  }

  /** The text before the first sep, or all of s when s has none. */
  function FirstField(s: string, sep: char): (r: string)
    ensures |r| <= |s| && r == s[..|r|]
    ensures sep !in r
    ensures |r| < |s| ==> s[|r|] == sep
    ensures sep !in s ==> r == s
  {
    if s == [] || s[0] == sep then [] else [s[0]] + FirstField(s[1..], sep)
  }

  lemma {:induction false} FirstFieldOfJoin(x: string, sep: char, rest: string)
    requires sep !in x
    ensures FirstField(x + [sep] + rest, sep) == x
  {
    if x != [] {
      assert (x + [sep] + rest)[1..] == x[1..] + [sep] + rest;
      FirstFieldOfJoin(x[1..], sep, rest);
    }
  }

  /** Every piece between separators, empty ones included: one more piece than separators. */
  function Fields(s: string, sep: char): (parts: seq<string>)
    ensures |parts| >= 1 && parts[0] == FirstField(s, sep)
    decreases |s|
  {
    var f := FirstField(s, sep);
    if |f| == |s| then [s] else [f] + Fields(s[|f| + 1..], sep)
  }

  /** The pieces put back together with sep between them. */
  function JoinFields(parts: seq<string>, sep: char): string
  {
    if parts == [] then []
    else if |parts| == 1 then parts[0]
    else parts[0] + [sep] + JoinFields(parts[1..], sep)
  }

  lemma {:induction false} FieldsRoundTrip(s: string, sep: char)
    ensures JoinFields(Fields(s, sep), sep) == s
    decreases |s|
  {
    var f := FirstField(s, sep);
    if |f| < |s| {
      var rest := s[|f| + 1..];
      var parts := Fields(rest, sep);
      FieldsRoundTrip(rest, sep);
      assert ([f] + parts)[1..] == parts;
      assert JoinFields([f] + parts, sep) == f + [sep] + JoinFields(parts, sep);
      assert s == f + [sep] + rest;
    }
  }

  lemma {:induction false} FieldsHaveNoSeparator(s: string, sep: char)
    ensures forall p :: p in Fields(s, sep) ==> sep !in p
    decreases |s|
  {
    var f := FirstField(s, sep);
    if |f| < |s| {
      FieldsHaveNoSeparator(s[|f| + 1..], sep);
    }
  }

  /** Every string of parts is empty. */
  predicate AllEmpty(parts: seq<string>) {
    forall k :: 0 <= k < |parts| ==> parts[k] == []
  }

  /** s is made only of sep. */
  predicate OnlyOf(s: string, sep: char) {
    forall k :: 0 <= k < |s| ==> s[k] == sep
  }

  lemma AllEmptyCons(p: string, parts: seq<string>)
    ensures AllEmpty([p] + parts) <==> p == [] && AllEmpty(parts)
  {
    var all := [p] + parts;
    assert all[0] == p;
    assert forall k :: 0 <= k < |parts| ==> all[k + 1] == parts[k];
    if p == [] && AllEmpty(parts) {
      forall k | 0 <= k < |all| ensures all[k] == [] {
        if k > 0 { assert all[k] == parts[k - 1]; }
      }
    }
  }

  lemma OnlyOfCons(c: char, s: string, sep: char)
    ensures OnlyOf([c] + s, sep) <==> c == sep && OnlyOf(s, sep)
  {
    var all := [c] + s;
    assert all[0] == c;
    assert forall k :: 0 <= k < |s| ==> all[k + 1] == s[k];
    if c == sep && OnlyOf(s, sep) {
      forall k | 0 <= k < |all| ensures all[k] == sep {
        if k > 0 { assert all[k] == s[k - 1]; }
      }
    }
  }

  /** Every piece of Fields(s, sep) is empty exactly when s is made only of separators. */
  lemma {:induction false} FieldsAllEmpty(s: string, sep: char)
    ensures AllEmpty(Fields(s, sep)) <==> OnlyOf(s, sep)
    decreases |s|
  {
    var f := FirstField(s, sep);
    if |f| == |s| {
      if s != [] {
        assert s[0] in f;
      }
    } else {
      var rest := s[|f| + 1..];
      FieldsAllEmpty(rest, sep);
      AllEmptyCons(f, Fields(rest, sep));
      if f != [] {
        assert s[0] == f[0] && f[0] in f;
      } else {
        assert s == [sep] + rest;
        OnlyOfCons(sep, rest, sep);
      }
    }
  }

  /** Removes the empty strings at the end, as split with limit 0 does. */
  function DropTrailingEmpty(parts: seq<string>): (r: seq<string>)
    ensures |r| <= |parts| && r == parts[..|r|]
    ensures r == [] || r[|r| - 1] != []
    ensures forall k :: |r| <= k < |parts| ==> parts[k] == []
  {
    if parts != [] && parts[|parts| - 1] == [] then DropTrailingEmpty(parts[..|parts| - 1]) else parts
  }

  /**
    s.split(String.valueOf(sep)) for a sep that is not a regular-expression
    metacharacter: s itself when sep does not occur, otherwise the fields
    with the trailing empty ones removed.
   */
  function Split(s: string, sep: char): seq<string>
  {
    if sep !in s then [s] else DropTrailingEmpty(Fields(s, sep))
  }

  /**
    Split yields no part exactly for a non-empty string made only of
    separators; otherwise its first part is the text before the first separator.
   */
  lemma SplitHead(s: string, sep: char)
    ensures |Split(s, sep)| == 0 <==> s != [] && OnlyOf(s, sep)
    ensures |Split(s, sep)| > 0 ==> Split(s, sep)[0] == FirstField(s, sep)
  {
    if sep in s {
      FieldsAllEmpty(s, sep);
      var parts := Fields(s, sep);
      var r := DropTrailingEmpty(parts);
      if r == [] {
        assert forall k :: 0 <= k < |parts| ==> parts[k] == [];
      } else {
        assert r[0] == parts[0];
        assert parts[|r| - 1] != [];
      }
    } else if s != [] {
      assert s[0] in s;
    }
  }

  /** pat occurs in s starting at index i. */
  predicate OccursAt(s: string, pat: string, i: nat) {
    i + |pat| <= |s| && s[i..i + |pat|] == pat
  }

  /** String.contains. */
  predicate Contains(s: string, pat: string)
    decreases |s|
  {
    if |s| < |pat| then false
    else s[..|pat|] == pat || Contains(s[1..], pat)
  }

  lemma {:induction false} ContainsOccurs(s: string, pat: string)
    ensures Contains(s, pat) <==> exists i: nat :: OccursAt(s, pat, i)
    decreases |s|
  {
    if |s| >= |pat| {
      if s[..|pat|] == pat {
        assert OccursAt(s, pat, 0);
        return;
      }
      ContainsOccurs(s[1..], pat);
      if Contains(s[1..], pat) {
        var i: nat :| OccursAt(s[1..], pat, i);
        assert s[i + 1..i + 1 + |pat|] == s[1..][i..i + |pat|];
        assert OccursAt(s, pat, i + 1);
      } else {
        forall i: nat | OccursAt(s, pat, i) ensures false {
          if i > 0 {
            assert s[1..][i - 1..i - 1 + |pat|] == s[i..i + |pat|];
            assert OccursAt(s[1..], pat, i - 1);
          }
        }
      }
    }
  }
}
