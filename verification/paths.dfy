/** The parts of Python's `os.path` the program uses, for POSIX paths. */
module Paths {
  import opened Text

  /** `os.path.basename`: the text after the last `/`. */
  function Basename(p: string): (r: string)
    ensures '/' !in r && EndsWith(p, r)
    ensures '/' !in p ==> r == p
  {
    p[AfterLast(p, '/')..]
  }

  /** Appending text without `/` extends the base name by that text. */
  lemma BasenameAppend(p: string, q: string)
    requires '/' !in q
    ensures Basename(p + q) == Basename(p) + q
  {
    AfterLastAppend(p, q, '/');
  }

  lemma {:induction false} AfterLastAppend(p: string, q: string, c: char)
    requires c !in q
    ensures AfterLast(p + q, c) == AfterLast(p, c)
    decreases |q|
  {
    if |q| > 0 {
      var init := q[..|q| - 1];
      assert (p + q)[..|p + q| - 1] == p + init;
      AfterLastAppend(p, init, c);
    } else {
      assert p + q == p;
    }
  }

  /** Some character of `s[a..b]` is not a dot. */
  predicate HasNonDot(s: string, a: nat, b: nat)
    requires a <= b <= |s|
  {
    exists i :: a <= i < b && s[i] != '.'
  }

  /** Where the extension starts: at the last dot of the base name when some
      character before it in the base name is not a dot, else at the end. */
  function ExtStart(p: string): (k: nat)
    ensures k <= |p|
  {
    var sep, dot := AfterLast(p, '/'), AfterLast(p, '.');
    if dot > sep && HasNonDot(p, sep, dot - 1) then dot - 1 else |p|
  }

  lemma ExtShape(p: string)
    ensures var k := ExtStart(p);
      k == |p| || (p[k] == '.' && '.' !in p[k + 1..] && '/' !in p[k..])
  {
    var sep, dot := AfterLast(p, '/'), AfterLast(p, '.');
    if dot > sep && HasNonDot(p, sep, dot - 1) {
      assert forall i :: dot - 1 <= i < |p| ==> p[i] == p[sep..][i - sep];
    }
  }

  /** `os.path.splitext`: the extension is the last `.` of the base name and
      what follows, unless the base name has only dots before it (a leading dot
      starts a hidden file's name, not an extension). */
  function SplitExt(p: string): (r: (string, string))
    ensures r.0 + r.1 == p
    ensures r.1 == "" || (r.1[0] == '.' && '.' !in r.1[1..] && '/' !in r.1)
  {
    var k := ExtStart(p);
    ExtShape(p);
    assert k < |p| ==> p[k..][1..] == p[k + 1..];
    (p[..k], p[k..])
  }

  /** A base name with a non-dot character followed by `.ext` splits there. */
  lemma SplitExtOf(stem: string, e: string)
    requires '.' !in e && '/' !in e && HasNonDot(stem, AfterLast(stem, '/'), |stem|)
    ensures SplitExt(stem + "." + e) == (stem, "." + e)
  {
    Regroup(stem, e);
    var p := stem + ("." + e);
    ExtStartOf(stem, e);
    SplitExtAt(p, |stem|);
    SplitAt(stem, "." + e, p);
  }

  lemma ExtStartOf(stem: string, e: string)
    requires '.' !in e && '/' !in e && HasNonDot(stem, AfterLast(stem, '/'), |stem|)
    ensures ExtStart(stem + ("." + e)) == |stem|
  {
    var p := stem + ("." + e);
    ExtensionMarks(stem, e);
    SplitAt(stem, "." + e, p);
    NonDotKept(stem, p, AfterLast(stem, '/'));
    ExtStartAt(p, AfterLast(stem, '/'), |stem| + 1);
  }

  lemma SplitExtAt(p: string, k: nat)
    requires ExtStart(p) == k
    ensures SplitExt(p) == (p[..k], p[k..])
  {
  }

  lemma ExtStartAt(p: string, sep: nat, dot: nat)
    requires AfterLast(p, '/') == sep && AfterLast(p, '.') == dot
    requires sep < dot <= |p| && HasNonDot(p, sep, dot - 1)
    ensures ExtStart(p) == dot - 1
  {
  }

  lemma SplitAt(a: string, b: string, p: string)
    requires p == a + b
    ensures p[..|a|] == a && p[|a|..] == b
  {
  }

  /** In `stem.e` the base name starts where the stem's does and the last dot is
      the one before `e`. */
  lemma ExtensionMarks(stem: string, e: string)
    requires '.' !in e && '/' !in e
    ensures AfterLast(stem + ("." + e), '/') == AfterLast(stem, '/')
    ensures AfterLast(stem + ("." + e), '.') == |stem| + 1
  {
    Regroup(stem, e);
    AfterLastAppend(stem, "." + e, '/');
    DotBefore(stem, e);
    LastIsDot(stem);
  }

  lemma Regroup(stem: string, e: string)
    ensures stem + "." + e == stem + ("." + e)
  {
  }

  lemma DotBefore(stem: string, e: string)
    requires '.' !in e
    ensures AfterLast(stem + "." + e, '.') == AfterLast(stem + ".", '.')
  {
    AfterLastAppend(stem + ".", e, '.');
  }

  lemma LastIsDot(stem: string)
    ensures AfterLast(stem + ".", '.') == |stem| + 1
  {
  }

  lemma NonDotKept(stem: string, p: string, a: nat)
    requires a <= |stem| <= |p| && p[..|stem|] == stem && HasNonDot(stem, a, |stem|)
    ensures HasNonDot(p, a, |stem|)
  {
    var i :| a <= i < |stem| && stem[i] != '.';
    assert p[i] == stem[i];
  }

  /** A base name made of dots and one extension has no extension. */
  lemma SplitExtHidden(e: string)
    requires '.' !in e && '/' !in e
    ensures SplitExt("." + e) == ("." + e, "")
  {
    var p := "." + e;
    assert "" + p == p;
    AfterLastAppend("", p, '/');
    LastIsDot("");
    assert "" + "." == ".";
    AfterLastAppend(".", e, '.');
    assert !HasNonDot(p, 0, 0);
    assert ExtStart(p) == |p|;
    assert p[..|p|] == p && p[|p|..] == "";
  }
}
