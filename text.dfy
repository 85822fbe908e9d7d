/** The three text primitives the commit-message cleaner is built from,
    each stated for the only shapes of argument the cleaner gives them:
    - `re.sub(LITERAL + r'\n*', '', s)`: delete every occurrence of a literal
      together with the run of newlines right after it (RemoveAll);
    - `re.sub(r'\n\n+', '\n\n', s)`: squeeze every run of two or more
      newlines down to two (CollapseNewlines);
    - `s.strip()`: trim white space at both ends (Strip). */
module Text {

  /** The characters for which Python 3's `str.isspace()` holds, which are
      the ones `str.strip()` with no argument trims. */
  const WhitespaceChars: set<char> := {
    '\t', '\n', '\U{0B}', '\U{0C}', '\r',              // tab, line feed, vertical tab, form feed, carriage return
    '\U{1C}', '\U{1D}', '\U{1E}', '\U{1F}',            // file, group, record and unit separators
    ' ', '\U{85}', '\U{A0}', '\U{1680}',                // space, next line, no-break space, ogham space mark
    '\U{2000}', '\U{2001}', '\U{2002}', '\U{2003}', '\U{2004}', '\U{2005}',   // en quad .. hair space
    '\U{2006}', '\U{2007}', '\U{2008}', '\U{2009}', '\U{200A}',
    '\U{2028}', '\U{2029}',                             // line and paragraph separators
    '\U{202F}', '\U{205F}', '\U{3000}'}                 // narrow, mathematical and ideographic spaces

  /** A character that `str.strip()` trims. */
  predicate IsWhitespace(c: char) {
    c in WhitespaceChars
  }

  /** No visible ASCII character is white space. */
  lemma VisibleAscii(c: char)
    requires '!' <= c <= '~'
    ensures !IsWhitespace(c)
  {
  }

  predicate AllWhitespace(s: string) {
    forall k :: 0 <= k < |s| ==> IsWhitespace(s[k])
  }

  predicate StartsWith(s: string, p: string) {
    |p| <= |s| && s[..|p|] == p
  }

  /** The literal p occurs in s starting at index i. */
  predicate OccursAt(s: string, p: string, i: int) {
    0 <= i && i + |p| <= |s| && s[i..i + |p|] == p
  }

  /** Three newlines in a row start at index k of s. */
  predicate TripleNewlineAt(s: string, k: int) {
    0 <= k && k + 2 < |s| && s[k] == '\n' && s[k + 1] == '\n' && s[k + 2] == '\n'
  }

  /** No three newlines in a row anywhere in s. */
  predicate NoTripleNewline(s: string) {
    forall k | 0 <= k < |s| :: !TripleNewlineAt(s, k)
  }

  /** A run of n newlines. */
  function Newlines(n: nat): (r: string)
    ensures |r| == n && forall k :: 0 <= k < n ==> r[k] == '\n'
  {
    seq(n, _ => '\n')
  }

  /** s with every newline taken out: the text a newline rewrite must keep. */
  function WithoutNewlines(s: string): (r: string)
    ensures '\n' !in r
    ensures |r| <= |s|
  {
    if s == [] then []
    else if s[0] == '\n' then WithoutNewlines(s[1..])
    else [s[0]] + WithoutNewlines(s[1..])
  }

  lemma OccursAtStart(s: string, p: string)
    ensures OccursAt(s, p, 0) <==> StartsWith(s, p)
  {}

  lemma OccursAtShift(s: string, p: string, j: nat)
    requires s != []
    ensures OccursAt(s[1..], p, j) <==> OccursAt(s, p, j + 1)
  {
    if j + |p| <= |s[1..]| {
      assert s[1..][j..j + |p|] == s[j + 1..j + 1 + |p|];
    }
  }

  lemma SuffixMultiset(s: string, k: nat)
    requires k <= |s|
    ensures multiset(s[k..]) <= multiset(s)
    ensures multiset(s) == multiset(s[..k]) + multiset(s[k..])
  {
    assert s == s[..k] + s[k..];
  }

  // ---------------------------------------------------------------------
  // The `\n*` tail of a deletion pattern

  /** The length of the run of newlines at the front of s: how much a greedy
      `\n*` consumes. The run is maximal: what follows it is not a newline. */
  function NewlineRun(s: string): (n: nat)
    ensures n <= |s|
    ensures forall k :: 0 <= k < n ==> s[k] == '\n'
    ensures n == |s| || s[n] != '\n'
  {
    if s != [] && s[0] == '\n' then 1 + NewlineRun(s[1..]) else 0
  }

  /** What is left of s once its leading newlines are consumed. */
  function DropNewlines(s: string): string {
    s[NewlineRun(s)..]
  }

  /** The maximal run is the only run the properties of NewlineRun admit. */
  lemma NewlineRunUnique(s: string, n: nat)
    requires n <= |s|
    requires forall k :: 0 <= k < n ==> s[k] == '\n'
    requires n == |s| || s[n] != '\n'
    ensures NewlineRun(s) == n
  {
    var m := NewlineRun(s);
    if m < n { assert false; }
    if m > n { assert false; }
  }

  lemma DropNewlinesAfterRun(n: nat, y: string)
    requires y == [] || y[0] != '\n'
    ensures DropNewlines(Newlines(n) + y) == y
  {
    var s := Newlines(n) + y;
    assert n < |s| ==> s[n] == y[0];
    NewlineRunUnique(s, n);
    assert s[n..] == y;
  }

  /** A run that ends inside a stops inside a. */
  lemma DropNewlinesConcat(a: string, b: string)
    requires a != [] && a[|a| - 1] != '\n'
    ensures DropNewlines(a + b) == DropNewlines(a) + b
  {
    var n := NewlineRun(a);
    assert n < |a|;
    NewlineRunUnique(a + b, n);
    assert (a + b)[n..] == a[n..] + b;
  }

  // ---------------------------------------------------------------------
  // re.sub(LITERAL + r'\n*', '', s)

  /** Deletes, scanning left to right without overlap, every occurrence of
      the literal p together with the maximal run of newlines after it;
      the scan resumes right after what was deleted. Only deletes. */
  function RemoveAll(s: string, p: string): (r: string)
    requires p != []
    ensures |r| <= |s|
    decreases |s|
  {
    if s == [] then []
    else if StartsWith(s, p) then RemoveAll(DropNewlines(s[|p|..]), p)
    else [s[0]] + RemoveAll(s[1..], p)
  }

  /** RemoveAll only deletes: every character it keeps comes from s. */
  lemma {:induction false} RemoveAllOnlyDeletes(s: string, p: string)
    requires p != []
    ensures multiset(RemoveAll(s, p)) <= multiset(s)
    decreases |s|
  {
    if s == [] {
    } else if StartsWith(s, p) {
      var n := NewlineRun(s[|p|..]);
      assert DropNewlines(s[|p|..]) == s[|p| + n..];
      SuffixMultiset(s, |p| + n);
      RemoveAllOnlyDeletes(DropNewlines(s[|p|..]), p);
    } else {
      SuffixMultiset(s, 1);
      assert s[..1] == [s[0]];
      RemoveAllOnlyDeletes(s[1..], p);
      assert RemoveAll(s, p) == [s[0]] + RemoveAll(s[1..], p);
    }
  }

  /** Where p does not occur, nothing is deleted. */
  lemma {:induction false} RemoveAllAbsent(s: string, p: string)
    requires p != []
    requires forall i :: 0 <= i <= |s| ==> !OccursAt(s, p, i)
    ensures RemoveAll(s, p) == s
  {
    if s != [] {
      OccursAtStart(s, p);
      forall i | 0 <= i <= |s[1..]|
        ensures !OccursAt(s[1..], p, i)
      {
        OccursAtShift(s, p, i);
      }
      RemoveAllAbsent(s[1..], p);
      assert RemoveAll(s, p) == [s[0]] + s[1..];
      assert [s[0]] + s[1..] == s;
    }
  }

  /** The leftmost occurrence of p is the one deleted: for a text u + p + w
      in which p does not start anywhere inside u, u is kept, p and the
      newlines at the front of w go, and the scan goes on after them. */
  lemma {:induction false} RemoveAllLeftmost(u: string, p: string, w: string)
    requires p != []
    requires forall j :: 0 <= j < |u| ==> !OccursAt(u + p + w, p, j)
    ensures RemoveAll(u + p + w, p) == u + RemoveAll(DropNewlines(w), p)
  {
    var s := u + p + w;
    OccursAtStart(s, p);
    if u == [] {
      assert s == p + w && s[..|p|] == p && s[|p|..] == w;
      assert RemoveAll(s, p) == RemoveAll(DropNewlines(w), p);
      assert u + RemoveAll(DropNewlines(w), p) == RemoveAll(DropNewlines(w), p);
    } else {
      assert forall x: string :: u + x == [u[0]] + (u[1..] + x);
      assert !StartsWith(s, p) && s[0] == u[0];
      assert s[1..] == u[1..] + p + w;
      forall j | 0 <= j < |u[1..]|
        ensures !OccursAt(u[1..] + p + w, p, j)
      {
        OccursAtShift(s, p, j);
      }
      RemoveAllLeftmost(u[1..], p, w);
      var rest := RemoveAll(DropNewlines(w), p);
      assert RemoveAll(s, p) == [s[0]] + RemoveAll(s[1..], p);
      assert RemoveAll(s, p) == [u[0]] + (u[1..] + rest);
    }
  }

  /** A prefix that does not contain p's first character passes through. */
  lemma {:induction false} RemoveAllSkip(x: string, y: string, p: string)
    requires p != []
    requires p[0] !in x
    ensures RemoveAll(x + y, p) == x + RemoveAll(y, p)
  {
    if x != [] {
      assert forall z: string :: x + z == [x[0]] + (x[1..] + z);
      assert (x + y)[0] == x[0];
      assert !StartsWith(x + y, p);
      assert (x + y)[1..] == x[1..] + y;
      RemoveAllSkip(x[1..], y, p);
      assert RemoveAll(x + y, p) == [x[0]] + (x[1..] + RemoveAll(y, p));
    } else {
      assert x + y == y;
    }
  }

  /** A text without p's first character is left as it is. */
  lemma RemoveAllWithoutHead(s: string, p: string)
    requires p != []
    requires p[0] !in s
    ensures RemoveAll(s, p) == s
  {
    RemoveAllSkip(s, [], p);
    assert s + [] == s;
  }

  /** Deleting an occurrence shortens the text. */
  lemma {:induction false} RemoveAllShrinks(s: string, p: string, i: nat)
    requires p != []
    requires OccursAt(s, p, i)
    ensures |RemoveAll(s, p)| < |s|
    decreases |s|
  {
    OccursAtStart(s, p);
    if !StartsWith(s, p) {
      assert i > 0;
      OccursAtShift(s, p, i - 1);
      RemoveAllShrinks(s[1..], p, i - 1);
    }
  }

  /** RemoveAll leaves a text as it is exactly when p does not occur in it. */
  lemma RemoveAllFixedPoint(s: string, p: string)
    requires p != []
    ensures RemoveAll(s, p) == s <==> forall i :: 0 <= i <= |s| ==> !OccursAt(s, p, i)
  {
    if forall i :: 0 <= i <= |s| ==> !OccursAt(s, p, i) {
      RemoveAllAbsent(s, p);
    } else {
      var i :| 0 <= i <= |s| && OccursAt(s, p, i);
      RemoveAllShrinks(s, p, i);
    }
  }

  /** An occurrence at the very front goes, with the newlines after it. */
  lemma RemoveLeading(p: string, n: nat, w: string)
    requires p != []
    requires w == [] || w[0] != '\n'
    ensures RemoveAll(p + Newlines(n) + w, p) == RemoveAll(w, p)
  {
    var s := p + Newlines(n) + w;
    assert s == [] + p + (Newlines(n) + w);
    RemoveAllLeftmost([], p, Newlines(n) + w);
    DropNewlinesAfterRun(n, w);
  }

  /** A text shorter than p cannot contain it. */
  lemma RemoveAllShort(s: string, p: string)
    requires p != [] && |s| < |p|
    ensures RemoveAll(s, p) == s
  {
    RemoveAllAbsent(s, p);
  }

  /** The leftmost occurrence goes and a tail too short to hold another is
      kept: for u + p + w where p does not start inside u and w neither
      starts with a newline nor is as long as p, the result is u + w. */
  lemma RemoveInner(u: string, p: string, w: string)
    requires p != [] && |w| < |p| && (w == [] || w[0] != '\n')
    requires forall j :: 0 <= j < |u| ==> !OccursAt(u + p + w, p, j)
    ensures RemoveAll(u + p + w, p) == u + w
  {
    RemoveAllLeftmost(u, p, w);
    DropNewlinesAfterRun(0, w);
    assert Newlines(0) + w == w;
    RemoveAllShort(w, p);
  }

  /** An occurrence that makes up the whole text leaves nothing. */
  lemma RemoveWhole(p: string, n: nat)
    requires p != []
    ensures RemoveAll(p + Newlines(n), p) == []
  {
    RemoveLeading(p, n, []);
    assert p + Newlines(n) + [] == p + Newlines(n);
  }

  // ---------------------------------------------------------------------
  // re.sub(r'\n\n+', '\n\n', s)

  /** Replaces, scanning left to right, every maximal run of two or more
      newlines by exactly two; everything else is copied. It never
      lengthens a text and keeps its first character. */
  function CollapseNewlines(s: string): (r: string)
    ensures |r| <= |s|
    ensures r == [] <==> s == []
    ensures s != [] ==> r[0] == s[0]
    decreases |s|
  {
    if |s| >= 2 && s[0] == '\n' && s[1] == '\n' then
      "\n\n" + CollapseNewlines(DropNewlines(s))
    else if s == [] then []
    else [s[0]] + CollapseNewlines(s[1..])
  }

  /** A run that starts with two newlines is at least two long. */
  lemma NewlineRunPastTwo(s: string)
    requires |s| >= 2 && s[0] == '\n' && s[1] == '\n'
    ensures NewlineRun(s) >= 2
  {
    var n := NewlineRun(s);
    if n < 2 { assert false; }
  }

  /** Two texts without a triple newline join into one, unless newlines
      meet at the seam. */
  lemma NoTripleConcat(a: string, b: string)
    requires NoTripleNewline(a) && NoTripleNewline(b)
    requires a == [] || b == [] || a[|a| - 1] != '\n' || b[0] != '\n'
    ensures NoTripleNewline(a + b)
  {
    var s := a + b;
    forall k | 0 <= k < |s|
      ensures !TripleNewlineAt(s, k)
    {
      if k + 2 >= |s| {
      } else if k + 2 < |a| {
        assert s[k] == a[k] && s[k + 1] == a[k + 1] && s[k + 2] == a[k + 2];
        assert !TripleNewlineAt(a, k);
      } else if k >= |a| {
        assert s[k] == b[k - |a|] && s[k + 1] == b[k + 1 - |a|] && s[k + 2] == b[k + 2 - |a|];
        assert !TripleNewlineAt(b, k - |a|);
      } else {
        assert s[|a| - 1] == a[|a| - 1] && s[|a|] == b[0];
      }
    }
  }

  /** Any piece of a text without a triple newline has none either. */
  lemma NoTripleSlice(s: string, i: int, j: int)
    requires 0 <= i <= j <= |s|
    requires NoTripleNewline(s)
    ensures NoTripleNewline(s[i..j])
  {
    var t := s[i..j];
    forall k | 0 <= k < |t|
      ensures !TripleNewlineAt(t, k)
    {
      if k + 2 < |t| {
        assert t[k] == s[i + k] && t[k + 1] == s[i + k + 1] && t[k + 2] == s[i + k + 2];
        assert !TripleNewlineAt(s, i + k);
      }
    }
  }

  /** After collapsing, no three newlines stand in a row. */
  lemma {:induction false} CollapseNoTriple(s: string)
    ensures NoTripleNewline(CollapseNewlines(s))
    decreases |s|
  {
    if |s| >= 2 && s[0] == '\n' && s[1] == '\n' {
      var t := DropNewlines(s);
      CollapseNoTriple(t);
      assert t != [] ==> t[0] == s[NewlineRun(s)];
      assert NoTripleNewline("\n\n");
      NoTripleConcat("\n\n", CollapseNewlines(t));
    } else if s != [] {
      CollapseNoTriple(s[1..]);
      assert NoTripleNewline([s[0]]);
      assert |s| >= 2 ==> s[1..][0] == s[1];
      NoTripleConcat([s[0]], CollapseNewlines(s[1..]));
    }
  }

  /** Two lines without newlines joined by one newline hold no three
      newlines in a row. */
  lemma NoTripleJoin(x: string, y: string)
    requires '\n' !in x && '\n' !in y
    ensures NoTripleNewline(x + "\n" + y)
  {
    forall k | 0 <= k < |x + "\n" + y|
      ensures !TripleNewlineAt(x + "\n" + y, k)
    {
      var s := x + "\n" + y;
      if k < |x| {
        assert s[k] == x[k];
      } else if k == |x| {
        assert k + 1 < |s| ==> s[k + 1] == y[0];
      } else {
        assert s[k] == y[k - |x| - 1];
      }
    }
  }

  lemma TwoNewlinesMultiset(s: string)
    requires |s| >= 2 && s[0] == '\n' && s[1] == '\n'
    ensures multiset("\n\n") <= multiset(s)
  {
    SuffixMultiset(s, 2);
    assert s[..2] == "\n\n";
  }

  /** Collapsing only deletes characters (newlines from runs of three or
      more). */
  lemma {:induction false} CollapseMultiset(s: string)
    ensures multiset(CollapseNewlines(s)) <= multiset(s)
    decreases |s|
  {
    if |s| >= 2 && s[0] == '\n' && s[1] == '\n' {
      var n := NewlineRun(s);
      NewlineRunPastTwo(s);
      var t := DropNewlines(s);
      CollapseMultiset(t);
      SuffixMultiset(s, n);
      TwoNewlinesMultiset(s[..n]);
      assert CollapseNewlines(s) == "\n\n" + CollapseNewlines(t);
      assert multiset(CollapseNewlines(s)) == multiset("\n\n") + multiset(CollapseNewlines(t));
    } else if s != [] {
      CollapseMultiset(s[1..]);
      SuffixMultiset(s, 1);
      assert s[..1] == [s[0]];
      assert CollapseNewlines(s) == [s[0]] + CollapseNewlines(s[1..]);
      assert multiset(CollapseNewlines(s)) == multiset([s[0]]) + multiset(CollapseNewlines(s[1..]));
    }
  }

  /** Collapsing a text that ends in something other than a newline and
      collapsing what follows it are independent. */
  lemma {:induction false} CollapseSplit(a: string, b: string)
    requires a == [] || a[|a| - 1] != '\n'
    ensures CollapseNewlines(a + b) == CollapseNewlines(a) + CollapseNewlines(b)
    decreases |a|, 1
  {
    if a == [] {
      assert a + b == b;
    } else if |a| >= 2 && a[0] == '\n' && a[1] == '\n' {
      CollapseSplitRun(a, b);
    } else {
      CollapseSplitChar(a, b);
    }
  }

  /** CollapseSplit when a starts with a run of newlines. */
  lemma {:induction false} CollapseSplitRun(a: string, b: string)
    requires |a| >= 2 && a[0] == '\n' && a[1] == '\n' && a[|a| - 1] != '\n'
    ensures CollapseNewlines(a + b) == CollapseNewlines(a) + CollapseNewlines(b)
    decreases |a|, 0
  {
    var t := DropNewlines(a);
    CollapseSquashes(a);
    assert CollapseNewlines(a + b) == "\n\n" + CollapseNewlines(t + b) by {
      DropNewlinesConcat(a, b);
      assert (a + b)[0] == '\n' && (a + b)[1] == '\n';
      CollapseSquashes(a + b);
    }
    assert t != [] && t[|t| - 1] == a[|a| - 1];
    CollapseSplit(t, b);
    ConcatAssoc("\n\n", CollapseNewlines(t), CollapseNewlines(b));
  }

  /** CollapseSplit when the first character of a is copied. */
  lemma {:induction false} CollapseSplitChar(a: string, b: string)
    requires a != [] && a[|a| - 1] != '\n'
    requires !(|a| >= 2 && a[0] == '\n' && a[1] == '\n')
    ensures CollapseNewlines(a + b) == CollapseNewlines(a) + CollapseNewlines(b)
    decreases |a|, 0
  {
    CollapseCopies(a);
    CollapseCopiesConcat(a, b);
    CollapseSplit(a[1..], b);
    ConcatAssoc([a[0]], CollapseNewlines(a[1..]), CollapseNewlines(b));
  }

  lemma ConcatAssoc(x: string, y: string, z: string)
    ensures x + (y + z) == (x + y) + z
  {
  }

  /** The first character of a is copied in front of the rest of a + b. */
  lemma CollapseCopiesConcat(a: string, b: string)
    requires a != [] && a[|a| - 1] != '\n'
    requires !(|a| >= 2 && a[0] == '\n' && a[1] == '\n')
    ensures CollapseNewlines(a + b) == [a[0]] + CollapseNewlines(a[1..] + b)
  {
    assert (a + b)[0] == a[0] && (a + b)[1..] == a[1..] + b;
    assert |a + b| >= 2 ==> (a + b)[1] != '\n' || a[0] != '\n';
    CollapseCopies(a + b);
  }

  /** A run of two or more newlines at the front becomes exactly two. */
  lemma CollapseSquashes(s: string)
    requires |s| >= 2 && s[0] == '\n' && s[1] == '\n'
    ensures CollapseNewlines(s) == "\n\n" + CollapseNewlines(DropNewlines(s))
  {
  }

  /** A first character that does not open a run of two newlines is
      copied. */
  lemma CollapseCopies(s: string)
    requires s != [] && !(|s| >= 2 && s[0] == '\n' && s[1] == '\n')
    ensures CollapseNewlines(s) == [s[0]] + CollapseNewlines(s[1..])
  {
  }

  /** A run of n newlines before something else becomes a run of
      min(n, 2): one newline stays one, two or more become two. */
  lemma CollapseRun(n: nat, y: string)
    requires y == [] || y[0] != '\n'
    ensures CollapseNewlines(Newlines(n) + y) == Newlines(if n < 2 then n else 2) + CollapseNewlines(y)
  {
    var s := Newlines(n) + y;
    if n >= 2 {
      assert s[0] == '\n' && s[1] == '\n';
      DropNewlinesAfterRun(n, y);
      assert Newlines(2) == "\n\n";
      assert CollapseNewlines(s) == "\n\n" + CollapseNewlines(y);
    } else if n == 1 {
      assert s[0] == '\n' && s[1..] == y;
      assert |s| >= 2 ==> s[1] == y[0];
      assert CollapseNewlines(s) == "\n" + CollapseNewlines(y);
      assert Newlines(1) == "\n";
    } else {
      assert s == y && Newlines(0) + CollapseNewlines(y) == CollapseNewlines(y);
    }
  }

  lemma {:induction false} CollapseKeeps(s: string)
    requires NoTripleNewline(s)
    ensures CollapseNewlines(s) == s
    decreases |s|
  {
    if |s| >= 2 && s[0] == '\n' && s[1] == '\n' {
      assert !TripleNewlineAt(s, 0);
      NewlineRunUnique(s, 2);
      var t := DropNewlines(s);
      assert t == s[2..] && s[2..] == s[2..|s|];
      NoTripleSlice(s, 2, |s|);
      CollapseKeeps(t);
      assert CollapseNewlines(s) == "\n\n" + s[2..];
      assert s[..2] == "\n\n";
      assert s[..2] + s[2..] == s;
    } else if s != [] {
      NoTripleSlice(s, 1, |s|);
      assert s[1..] == s[1..|s|];
      CollapseKeeps(s[1..]);
      assert CollapseNewlines(s) == [s[0]] + s[1..];
      assert [s[0]] + s[1..] == s;
    }
  }

  /** Collapsing changes a text exactly when it holds three newlines in a
      row: runs of one or two newlines are left as they are. */
  lemma CollapseFixedPoint(s: string)
    ensures CollapseNewlines(s) == s <==> NoTripleNewline(s)
  {
    if NoTripleNewline(s) {
      CollapseKeeps(s);
    } else {
      CollapseNoTriple(s);
    }
  }

  /** A text without newlines is not touched. */
  lemma CollapseWithoutNewlines(s: string)
    requires '\n' !in s
    ensures CollapseNewlines(s) == s
  {
    assert NoTripleNewline(s) by {
      forall k | 0 <= k < |s| ensures !TripleNewlineAt(s, k) {
        assert s[k] in s;
      }
    }
    CollapseKeeps(s);
  }

  lemma {:induction false} WithoutNewlinesConcat(a: string, b: string)
    ensures WithoutNewlines(a + b) == WithoutNewlines(a) + WithoutNewlines(b)
  {
    if a == [] {
      assert a + b == b;
    } else {
      assert (a + b)[0] == a[0] && (a + b)[1..] == a[1..] + b;
      WithoutNewlinesConcat(a[1..], b);
      if a[0] != '\n' {
        assert WithoutNewlines(a + b) == [a[0]] + (WithoutNewlines(a[1..]) + WithoutNewlines(b));
      }
    }
  }

  lemma {:induction false} WithoutNewlinesOfRun(s: string)
    requires forall k :: 0 <= k < |s| ==> s[k] == '\n'
    ensures WithoutNewlines(s) == []
  {
    if s != [] {
      WithoutNewlinesOfRun(s[1..]);
    }
  }

  /** Collapsing only ever touches newlines: every other character is kept,
      in order. */
  lemma {:induction false} CollapseKeepsText(s: string)
    ensures WithoutNewlines(CollapseNewlines(s)) == WithoutNewlines(s)
    decreases |s|
  {
    if |s| >= 2 && s[0] == '\n' && s[1] == '\n' {
      var n := NewlineRun(s);
      var t := DropNewlines(s);
      assert s[..n] + t == s;
      WithoutNewlinesConcat(s[..n], t);
      WithoutNewlinesOfRun(s[..n]);
      WithoutNewlinesConcat("\n\n", CollapseNewlines(t));
      WithoutNewlinesOfRun("\n\n");
      CollapseKeepsText(t);
      assert CollapseNewlines(s) == "\n\n" + CollapseNewlines(t);
    } else if s != [] {
      WithoutNewlinesConcat([s[0]], s[1..]);
      WithoutNewlinesConcat([s[0]], CollapseNewlines(s[1..]));
      assert [s[0]] + s[1..] == s;
      CollapseKeepsText(s[1..]);
      assert CollapseNewlines(s) == [s[0]] + CollapseNewlines(s[1..]);
    }
  }

  // ---------------------------------------------------------------------
  // s.strip()

  /** How many white-space characters s starts with; what follows them is
      not white space. */
  function LeadingWhitespace(s: string): (n: nat)
    ensures n <= |s|
    ensures forall k :: 0 <= k < n ==> IsWhitespace(s[k])
    ensures n == |s| || !IsWhitespace(s[n])
  {
    if s != [] && IsWhitespace(s[0]) then 1 + LeadingWhitespace(s[1..]) else 0
  }

  /** How many white-space characters s ends with; what precedes them is
      not white space. */
  function TrailingWhitespace(s: string): (n: nat)
    ensures n <= |s|
    ensures forall k :: |s| - n <= k < |s| ==> IsWhitespace(s[k])
    ensures n == |s| || !IsWhitespace(s[|s| - 1 - n])
  {
    if s != [] && IsWhitespace(s[|s| - 1]) then
      var n := TrailingWhitespace(s[..|s| - 1]);
      assert forall k :: |s| - 1 - n <= k < |s| - 1 ==> s[k] == s[..|s| - 1][k];
      1 + n
    else 0
  }

  lemma TrailingWhitespaceSuffix(s: string)
    ensures AllWhitespace(s[|s| - TrailingWhitespace(s)..])
  {
    var n := TrailingWhitespace(s);
    var w := s[|s| - n..];
    forall k | 0 <= k < |w| ensures IsWhitespace(w[k]) {
      assert w[k] == s[|s| - n + k];
    }
  }

  lemma LeadingWhitespaceUnique(s: string, n: nat)
    requires n <= |s|
    requires forall k :: 0 <= k < n ==> IsWhitespace(s[k])
    requires n == |s| || !IsWhitespace(s[n])
    ensures LeadingWhitespace(s) == n
  {
    var m := LeadingWhitespace(s);
    if m < n { assert false; }
    if m > n { assert false; }
  }

  lemma TrailingWhitespaceUnique(s: string, n: nat)
    requires n <= |s|
    requires forall k :: |s| - n <= k < |s| ==> IsWhitespace(s[k])
    requires n == |s| || !IsWhitespace(s[|s| - 1 - n])
    ensures TrailingWhitespace(s) == n
  {
    var m := TrailingWhitespace(s);
    if m < n { assert false; }
    if m > n { assert false; }
  }

  /** `s.strip()`: the piece of s left between its leading and its trailing
      white space; it begins and ends with something other than white
      space. */
  function Strip(s: string): (r: string)
    ensures LeadingWhitespace(s) + |r| <= |s|
    ensures r == s[LeadingWhitespace(s)..LeadingWhitespace(s) + |r|]
    ensures AllWhitespace(s[LeadingWhitespace(s) + |r|..])
    ensures r == [] || (!IsWhitespace(r[0]) && !IsWhitespace(r[|r| - 1]))
  {
    var i := LeadingWhitespace(s);
    var t := s[i..];
    var r := t[..|t| - TrailingWhitespace(t)];
    assert r == s[i..i + |r|];
    TrailingWhitespaceSuffix(t);
    assert s[i + |r|..] == t[|r|..];
    assert r != [] ==> r[0] == t[0] && r[|r| - 1] == t[|t| - 1 - TrailingWhitespace(t)];
    r
  }

  /** Stripping leaves nothing exactly when s is all white space. */
  lemma StripEmpty(s: string)
    ensures Strip(s) == [] <==> AllWhitespace(s)
  {
    var r := Strip(s);
    var i := LeadingWhitespace(s);
    if r != [] {
      assert r[0] == s[i];
    }
  }

  /** Strip is determined by its shape: whenever s is white space, then r,
      then white space, and r is empty or has no white space at its ends,
      stripping s gives r. */
  lemma StripUnique(w1: string, r: string, w2: string)
    requires AllWhitespace(w1) && AllWhitespace(w2)
    requires r == [] || (!IsWhitespace(r[0]) && !IsWhitespace(r[|r| - 1]))
    ensures Strip(w1 + r + w2) == r
  {
    var s := w1 + r + w2;
    if r == [] {
      forall k | 0 <= k < |s| ensures IsWhitespace(s[k]) {
        if k < |w1| { assert s[k] == w1[k]; } else { assert s[k] == w2[k - |w1|]; }
      }
      LeadingWhitespaceUnique(s, |s|);
      assert s[|s|..] == [];
    } else {
      assert s[|w1|] == r[0];
      LeadingWhitespaceUnique(s, |w1|);
      var t := s[|w1|..];
      assert t == r + w2;
      assert t[|t| - 1 - |w2|] == r[|r| - 1];
      assert forall k :: |t| - |w2| <= k < |t| ==> t[k] == w2[k - |r|];
      TrailingWhitespaceUnique(t, |w2|);
      assert t[..|r|] == r;
    }
  }

  /** Stripping leaves s as it is exactly when s is empty or has no white
      space at either end. */
  lemma StripFixedPoint(s: string)
    ensures Strip(s) == s <==> (s == [] || (!IsWhitespace(s[0]) && !IsWhitespace(s[|s| - 1])))
  {
    if s == [] || (!IsWhitespace(s[0]) && !IsWhitespace(s[|s| - 1])) {
      StripUnique([], s, []);
      assert [] + s + [] == s;
    }
  }
  lemma SubMultisetWhitespace(a: string, b: string)
    requires multiset(a) <= multiset(b)
    requires AllWhitespace(b)
    ensures AllWhitespace(a)
  {
    forall k | 0 <= k < |a| ensures IsWhitespace(a[k]) {
      assert a[k] in multiset(a);
      assert a[k] in b;
      var j :| 0 <= j < |b| && b[j] == a[k];
    }
  }

  lemma {:induction false} WithoutNewlinesMember(s: string, c: char)
    requires c != '\n' && c in s
    ensures c in WithoutNewlines(s)
  {
    if s[0] != c {
      assert c in s[1..] by {
        var j :| 0 <= j < |s| && s[j] == c;
        assert s[1..][j - 1] == c;
      }
      WithoutNewlinesMember(s[1..], c);
    }
  }

  lemma {:induction false} WithoutNewlinesSubset(s: string, c: char)
    requires c in WithoutNewlines(s)
    ensures c in s
  {
    if s[0] != c {
      assert c in WithoutNewlines(s[1..]);
      WithoutNewlinesSubset(s[1..], c);
      var j :| 0 <= j < |s[1..]| && s[1..][j] == c;
      assert s[j + 1] == c;
    }
  }

  /** Collapsing leaves a text all white space exactly when it was. */
  lemma CollapseWhitespace(s: string)
    ensures AllWhitespace(CollapseNewlines(s)) <==> AllWhitespace(s)
  {
    if AllWhitespace(s) {
      CollapseMultiset(s);
      SubMultisetWhitespace(CollapseNewlines(s), s);
    } else {
      var k :| 0 <= k < |s| && !IsWhitespace(s[k]);
      WithoutNewlinesMember(s, s[k]);
      CollapseKeepsText(s);
      WithoutNewlinesSubset(CollapseNewlines(s), s[k]);
      var c := CollapseNewlines(s);
      var j :| 0 <= j < |c| && c[j] == s[k];
    }
  }

  /** Stripping only trims: it keeps a piece of its argument. */
  lemma StripMultiset(s: string)
    ensures multiset(Strip(s)) <= multiset(s)
    ensures |Strip(s)| <= |s|
  {
    var r := Strip(s);
    var i := LeadingWhitespace(s);
    var t := s[i..];
    assert r == t[..|r|];
    SuffixMultiset(s, i);
    SuffixMultiset(t, |r|);
  }

  /** A stripped text without a triple newline came from one without. */
  lemma StripNoTriple(s: string)
    requires NoTripleNewline(s)
    ensures NoTripleNewline(Strip(s))
  {
    var i := LeadingWhitespace(s);
    NoTripleSlice(s, i, i + |Strip(s)|);
  }

  /** Stripping keeps the whole text only when there was nothing to trim. */
  lemma StripWhole(s: string)
    requires |Strip(s)| == |s|
    ensures Strip(s) == s
  {
    assert LeadingWhitespace(s) == 0 && s[0..|s|] == s;
  }
}
