/** The path helpers the run relies on: the last element of a
    '/'-separated path, as filepath.Base computes it on Unix, and the
    hidden-name test `strings.HasPrefix(name, ".")`. */
module Paths {

  /** The path without its trailing separators. */
  function TrimTrailingSlashes(p: string): string {
    if p != [] && p[|p| - 1] == '/' then TrimTrailingSlashes(p[..|p| - 1]) else p
  }

  /** The longest suffix of the path that holds no separator. */
  function LastElement(p: string): string {
    if p == [] || p[|p| - 1] == '/' then []
    else LastElement(p[..|p| - 1]) + [p[|p| - 1]]
  }

  /** filepath.Base: "." for the empty path, "/" for a path of separators
      only, otherwise the last element once trailing separators are gone. */
  function Base(p: string): string {
    if p == [] then "."
    else
      var t := TrimTrailingSlashes(p);
      if t == [] then "/" else LastElement(t)
  }

  /** Trimming keeps a prefix and drops only separators, and leaves none at the end. */
  lemma {:induction false} TrimTrailingSlashesSpec(p: string)
    ensures var r := TrimTrailingSlashes(p);
      && |r| <= |p| && r == p[..|r|]
      && (r == [] || r[|r| - 1] != '/')
      && (forall i | |r| <= i < |p| :: p[i] == '/')
    decreases |p|
  {
    if p != [] && p[|p| - 1] == '/' {
      var q := p[..|p| - 1];
      TrimTrailingSlashesSpec(q);
      var r := TrimTrailingSlashes(q);
      assert p[..|r|] == q[..|r|];
    }
  }

  /** The last element is a separator-free suffix, preceded by a separator
      unless it is the whole path. */
  lemma {:induction false} LastElementSpec(p: string)
    ensures var r := LastElement(p);
      && |r| <= |p| && r == p[|p| - |r|..]
      && '/' !in r
      && (|r| < |p| ==> p[|p| - |r| - 1] == '/')
    decreases |p|
  {
    if p != [] && p[|p| - 1] != '/' {
      var q := p[..|p| - 1];
      LastElementSpec(q);
      var r := LastElement(q);
      assert p[|p| - |r| - 1..] == q[|q| - |r|..] + [p[|p| - 1]];
    }
  }

  /** The base name is never empty, and is "/" or free of separators. */
  lemma BaseSpec(p: string)
    ensures Base(p) != []
    ensures Base(p) == "/" || '/' !in Base(p)
  {
    if p != [] && TrimTrailingSlashes(p) != [] {
      LastElementSpec(TrimTrailingSlashes(p));
      TrimTrailingSlashesSpec(p);
    }
  }

  /** The base name is hidden when it starts with a dot. */
  predicate IsHidden(name: string) {
    |name| > 0 && name[0] == '.'
  }

  /** With the ignore-dotfiles switch on, a path whose base name is hidden
      is left alone: the walk passes it over, and the download and delete
      loops return nil when they reach it. */
  predicate IgnoredPath(ignoreDots: bool, p: string) {
    ignoreDots && IsHidden(Base(p))
  }

  /** A separator-free name is its own last element. */
  lemma {:induction false} LastElementOfName(dir: string, name: string)
    requires '/' !in name
    ensures LastElement(dir + "/" + name) == name
    decreases |name|
  {
    var p := dir + "/" + name;
    if name == [] {
      assert p[|p| - 1] == '/';
    } else {
      var init := name[..|name| - 1];
      assert p[..|p| - 1] == dir + "/" + init;
      assert '/' !in init by {
        forall i | 0 <= i < |init| ensures init[i] != '/' {
          assert init[i] == name[i];
        }
      }
      LastElementOfName(dir, init);
      assert init + [name[|name| - 1]] == name;
    }
  }

  /** The base name of a file inside a directory is the file's own name,
      whatever the directory's name is: a file under a hidden directory
      keeps a visible base name. */
  lemma BaseOfChild(dir: string, name: string)
    requires name != [] && '/' !in name
    ensures Base(dir + "/" + name) == name
  {
    var p := dir + "/" + name;
    assert p[|p| - 1] == name[|name| - 1] != '/';
    assert TrimTrailingSlashes(p) == p;
    LastElementOfName(dir, name);
  }
}
