/** Relative path texts and the component lists they name (std::path, on Unix). */
module Paths {
  import opened Text
  import opened Sorting
  import opened FileTree

  /** The components a relative path text names: empty and `.` pieces do not count. */
  function Components(s: string): Path {
    Filter(Split(s, '/'), IsComponent)
  }

  predicate IsAbsolute(s: string) {
    s != "" && s[0] == '/'
  }

  /** A component list as text. */
  function Spelled(p: Path): string {
    Join(p, '/')
  }

  /** The text that spells its own components: no empty or `.` piece, no trailing slash. */
  ghost predicate Normal(s: string) {
    exists p: Path | p != [] && ProperPath(p) :: s == Spelled(p)
  }

  lemma ComponentsProper(s: string)
    requires !MentionsParent(s)
    ensures ProperPath(Components(s))
  {
  }

  lemma ComponentsOfSpelled(p: Path)
    requires p != [] && ProperPath(p)
    ensures Components(Spelled(p)) == p && !MentionsParent(Spelled(p))
  {
    SplitJoin(p, '/');
    FilterAll(p, IsComponent);
  }

  lemma {:induction false} FilterAll<T>(s: seq<T>, p: T -> bool)
    requires forall x | x in s :: p(x)
    ensures Filter(s, p) == s
  {
    if s != [] {
      assert s[0] in s;
      FilterAll(s[1..], p);
    }
  }

  /** Normal texts that name the same components are the same text. */
  lemma NormalInjective(s: string, t: string)
    requires Normal(s) && Normal(t) && Components(s) == Components(t)
    ensures s == t
  {
    var p: Path :| p != [] && ProperPath(p) && s == Spelled(p);
    var q: Path :| q != [] && ProperPath(q) && t == Spelled(q);
    ComponentsOfSpelled(p);
    ComponentsOfSpelled(q);
  }

  lemma NormalPrepend(name: string, s: string)
    requires Proper(name) && Normal(s)
    ensures Normal(name + "/" + s)
  {
    var p: Path :| p != [] && ProperPath(p) && s == Spelled(p);
    var q: Path := [name] + p;
    assert q[1..] == p;
    assert name + ['/'] + Spelled(p) == name + "/" + s;
    assert Spelled(q) == name + "/" + s;
  }

  lemma NormalName(name: string)
    requires Proper(name)
    ensures Normal(name)
  {
    var p: Path := [name];
    assert Spelled(p) == name;
  }

  /** A suffix on the last component is a suffix on the text. */
  lemma {:induction false} SpelledSuffix(p: Path, suffix: string)
    requires p != []
    ensures Spelled(p[..|p| - 1] + [p[|p| - 1] + suffix]) == Spelled(p) + suffix
  {
    if |p| > 1 {
      var q := p[..|p| - 1] + [p[|p| - 1] + suffix];
      SpelledSuffix(p[1..], suffix);
      assert q[1..] == p[1..][..|p| - 2] + [p[|p| - 1] + suffix];
      assert Spelled(q) == p[0] + ['/'] + (Spelled(p[1..]) + suffix);
    }
  }

  lemma NormalSuffix(s: string, suffix: string)
    requires Normal(s) && '/' !in suffix && |suffix| > 2
    ensures Normal(s + suffix)
  {
    var p: Path :| p != [] && ProperPath(p) && s == Spelled(p);
    SpelledSuffix(p, suffix);
    var q := p[..|p| - 1] + [p[|p| - 1] + suffix];
    var last := p[|p| - 1];
    assert last in p && Proper(last);
    assert '/' !in last + suffix;
    assert Proper(last + suffix) && forall name | name in p[..|p| - 1] :: name in p;
    assert ProperPath(q) && Spelled(q) == s + suffix;
  }
}
