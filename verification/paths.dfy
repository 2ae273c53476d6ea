/** The two string operations the core applies to paths: `os.path.join` and `str.replace`. */
module Paths {
  import opened Strings

  /** `os.path.join(a, b)` on POSIX: an absolute `b` replaces `a`; otherwise one `/` separates them. */
  function Join(a: string, b: string): (r: string)
    ensures EndsWith(r, b)
    ensures |b| > 0 && b[0] == '/' ==> r == b
    ensures !(|b| > 0 && b[0] == '/') ==> |a| <= |r| && r[..|a|] == a
  {
    if |b| > 0 && b[0] == '/' then b
    else if |a| == 0 || a[|a| - 1] == '/' then a + b
    else a + "/" + b
  }

  /** `os.path.basename(p)`: the text after the last `/`. */
  function Basename(p: string): (r: string)
    ensures '/' !in r && EndsWith(p, r)
  {
    if |p| == 0 || p[|p| - 1] == '/' then ""
    else
      var r := Basename(p[..|p| - 1]) + [p[|p| - 1]];
      assert p == p[..|p| - 1] + [p[|p| - 1]];
      r
  }

  lemma {:induction false} BasenameAfterSeparator(a: string, b: string)
    requires |a| == 0 || a[|a| - 1] == '/'
    requires '/' !in b
    ensures Basename(a + b) == b
    decreases |b|
  {
    if |b| == 0 {
      assert a + b == a;
    } else {
      var b' := b[..|b| - 1];
      assert b == b' + [b[|b| - 1]];
      assert '/' !in b';
      StepBasename(a + b', b[|b| - 1]);
      assert a + b == (a + b') + [b[|b| - 1]];
      BasenameAfterSeparator(a, b');
    }
  }

  lemma StepBasename(p: string, c: char)
    requires c != '/'
    ensures Basename(p + [c]) == Basename(p) + [c]
  {
    assert (p + [c])[..|p|] == p;
  }

  /** A plain file name joined to a directory is the joined path's last component. */
  lemma JoinBasename(dir: string, name: string)
    requires '/' !in name
    ensures Basename(Join(dir, name)) == name
  {
    if |dir| == 0 || dir[|dir| - 1] == '/' {
      BasenameAfterSeparator(dir, name);
    } else {
      assert Join(dir, name) == (dir + "/") + name;
      BasenameAfterSeparator(dir + "/", name);
    }
  }

  /** `pat` occurs in `s` starting at index `i`. */
  predicate OccursAt(s: string, pat: string, i: int)
  {
    0 <= i && i + |pat| <= |s| && s[i..i + |pat|] == pat
  }

  /**
   * `s.replace(pat, repl)`: scanning left to right, every occurrence of `pat`
   * that does not overlap an earlier replaced one is replaced by `repl`.
   */
  function ReplaceAll(s: string, pat: string, repl: string): string
    requires |pat| > 0
    decreases |s|
  {
    if |s| < |pat| then s
    else if s[..|pat|] == pat then repl + ReplaceAll(s[|pat|..], pat, repl)
    else [s[0]] + ReplaceAll(s[1..], pat, repl)
  }

  lemma OccursInTail(s: string, pat: string, i: nat)
    requires |s| > 0 && OccursAt(s[1..], pat, i)
    ensures OccursAt(s, pat, i + 1)
  {
    assert s[i + 1..i + 1 + |pat|] == s[1..][i..i + |pat|];
  }

  /** A prefix in which no occurrence starts is copied unchanged. */
  lemma {:induction false} ReplaceAllSkipsPrefix(a: string, rest: string, pat: string, repl: string)
    requires |pat| > 0
    requires forall i :: 0 <= i < |a| ==> !OccursAt(a + rest, pat, i)
    ensures ReplaceAll(a + rest, pat, repl) == a + ReplaceAll(rest, pat, repl)
    decreases |a|
  {
    var s := a + rest;
    if |a| == 0 {
      assert s == rest;
    } else {
      assert !OccursAt(s, pat, 0);
      assert ReplaceAll(s, pat, repl) == [s[0]] + ReplaceAll(s[1..], pat, repl) by {
        if |s| >= |pat| {
          assert s[0..|pat|] == s[..|pat|];
        }
      }
      assert s[1..] == a[1..] + rest;
      forall i | 0 <= i < |a[1..]|
        ensures !OccursAt(a[1..] + rest, pat, i)
      {
        if OccursAt(a[1..] + rest, pat, i) {
          OccursInTail(s, pat, i);
        }
      }
      ReplaceAllSkipsPrefix(a[1..], rest, pat, repl);
      assert a == [a[0]] + a[1..];
    }
  }

  /** A string with no occurrence of `pat` is returned unchanged. */
  lemma ReplaceAllWithoutOccurrence(s: string, pat: string, repl: string)
    requires |pat| > 0
    requires forall i :: 0 <= i <= |s| ==> !OccursAt(s, pat, i)
    ensures ReplaceAll(s, pat, repl) == s
  {
    assert s + "" == s;
    ReplaceAllSkipsPrefix(s, "", pat, repl);
    assert ReplaceAll("", pat, repl) == "";
  }
}
