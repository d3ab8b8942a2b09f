/** Paths as the platform path library produces them. A path is the sequence of
    its segments below the filesystem root, so `join(p, name)` is `p + [name]`
    and `dirname` drops the last segment; the root `[]` is the fixed point of
    `dirname`. `expandPath` (src/utils/config.ts) is modelled on top of a
    POSIX `path.resolve` / `path.join` normalisation. */
module Paths {
  import opened Text

  type Name = string
  type Path = seq<Name>

  /** A name a directory can list: not empty, not "." or "..", without a
      separator and without a NUL character. */
  predicate ValidName(n: Name) {
    n != "" && n != "." && n != ".." && '/' !in n && '\0' !in n
  }

  predicate ValidPath(p: Path) {
    forall i :: 0 <= i < |p| ==> ValidName(p[i])
  }

  /** What `path.resolve` and `path.join` return: no empty, "." or ".."
      segment and no separator inside a segment. */
  predicate Normal(p: Path) {
    forall i :: 0 <= i < |p| ==> p[i] != "" && p[i] != "." && p[i] != ".." && '/' !in p[i]
  }

  function Dirname(p: Path): Path {
    if p == [] then [] else p[..|p| - 1]
  }

  function Last(p: Path): Name
    requires p != []
  {
    p[|p| - 1]
  }

  /** The string form of an absolute path: "/" for the root, "/a/b" otherwise. */
  function Render(p: Path): string {
    "/" + Join(p, '/')
  }

  function NormalizeSegment(base: Path, seg: string): Path {
    if seg == "" || seg == "." then base
    else if seg == ".." then Dirname(base)
    else base + [seg]
  }

  /** Applies the segments of a path string to `base` one by one, as path
      normalisation does: empty and "." segments vanish, ".." climbs (never
      above the root). */
  function Normalize(base: Path, segs: seq<string>): Path
    decreases |segs|
  {
    if segs == [] then base else Normalize(NormalizeSegment(base, segs[0]), segs[1..])
  }

  /** `expandPath`: "~/rest" is joined onto the home directory; anything else
      is resolved, against the root when absolute and against the working
      directory otherwise. */
  function ExpandPath(s: string, home: Path, cwd: Path): Path {
    if StartsWith(s, "~/") then Normalize(home, Split(s[2..], '/'))
    else if StartsWith(s, "/") then Normalize([], Split(s, '/'))
    else Normalize(cwd, Split(s, '/'))
  }

  lemma {:induction false} SplitLacksSeparator(s: string, sep: char)
    ensures NoneContains(Split(s, sep), sep)
  {
    if |s| > 0 {
      SplitLacksSeparator(s[1..], sep);
      var rest := Split(s[1..], sep);
      if s[0] != sep {
        assert sep !in [s[0]] + rest[0];
      }
    }
  }

  lemma {:induction false} NormalizeKeepsNormal(base: Path, segs: seq<string>)
    requires Normal(base) && NoneContains(segs, '/')
    ensures Normal(Normalize(base, segs))
    decreases |segs|
  {
    if segs != [] {
      NormalizeKeepsNormal(NormalizeSegment(base, segs[0]), segs[1..]);
    }
  }

  lemma {:induction false} NormalizeConcat(base: Path, a: seq<string>, b: seq<string>)
    ensures Normalize(base, a + b) == Normalize(Normalize(base, a), b)
    decreases |a|
  {
    if a != [] {
      assert (a + b)[0] == a[0] && (a + b)[1..] == a[1..] + b;
      NormalizeConcat(NormalizeSegment(base, a[0]), a[1..], b);
    } else {
      assert a + b == b;
    }
  }

  lemma {:induction false} NormalizeOfNormal(base: Path, p: Path)
    requires Normal(p)
    ensures Normalize(base, p) == base + p
    decreases |p|
  {
    if p != [] {
      NormalizeOfNormal(base + [p[0]], p[1..]);
      assert base + [p[0]] + p[1..] == base + p;
    }
  }

  /** The segments of a rendered path: a leading empty one for the "/", then
      the path's own segments ("/" alone gives two empty segments). */
  lemma SplitRender(p: Path)
    requires Normal(p)
    ensures Split(Render(p), '/') == [""] + (if p == [] then [""] else p)
  {
    SplitAround("", '/', Join(p, '/'));
    assert Render(p) == "" + ['/'] + Join(p, '/');
    if p != [] {
      SplitJoin(p, '/');
    }
  }

  /** The result of `expandPath` is normalised whenever the home and working
      directories are. */
  lemma ExpandPathIsNormal(s: string, home: Path, cwd: Path)
    requires Normal(home) && Normal(cwd)
    ensures Normal(ExpandPath(s, home, cwd))
  {
    if StartsWith(s, "~/") {
      SplitLacksSeparator(s[2..], '/');
      NormalizeKeepsNormal(home, Split(s[2..], '/'));
    } else {
      SplitLacksSeparator(s, '/');
      NormalizeKeepsNormal([], Split(s, '/'));
      NormalizeKeepsNormal(cwd, Split(s, '/'));
    }
  }

  /** Expanding the string form of a normalised path gives the path back. */
  lemma ExpandRendered(p: Path, home: Path, cwd: Path)
    requires Normal(p)
    ensures ExpandPath(Render(p), home, cwd) == p
  {
    SplitRender(p);
    var r := Render(p);
    assert r[0] == '/';
    assert !StartsWith(r, "~/");
    assert StartsWith(r, "/");
    if p == [] {
      assert Normalize([], ["", ""]) == [];
    } else {
      assert Split(r, '/') == [""] + p;
      NormalizeConcat([], [""], p);
      NormalizeOfNormal([], p);
    }
  }

  /** Two valid paths with the same string form are the same path. */
  lemma RenderInjective(p: Path, q: Path)
    requires Normal(p) && Normal(q) && Render(p) == Render(q)
    ensures p == q
  {
    ExpandRendered(p, [], []);
    ExpandRendered(q, [], []);
  }

  /** "~/rest" expands exactly as the home directory written out in full,
      followed by "/rest", would. */
  lemma TildeIsHome(rest: string, home: Path, cwd: Path)
    requires Normal(home)
    ensures ExpandPath("~/" + rest, home, cwd) == ExpandPath(Render(home) + "/" + rest, home, cwd)
  {
    var s := "~/" + rest;
    assert StartsWith(s, "~/") && s[2..] == rest;
    var t := Render(home) + "/" + rest;
    assert t[0] == '/';
    assert !StartsWith(t, "~/") && StartsWith(t, "/");
    SplitAround(Render(home), '/', rest);
    assert t == Render(home) + ['/'] + rest;
    SplitRender(home);
    var h := if home == [] then [""] else home;
    assert Split(t, '/') == [""] + h + Split(rest, '/');
    NormalizeConcat([], [""] + h, Split(rest, '/'));
    assert Normalize([], [""]) == [] by {
      assert NormalizeSegment([], "") == [];
      assert [""][1..] == [];
    }
    if home == [] {
      assert NormalizeSegment([], "") == [];
      assert Normalize([], [""]) == Normalize([], []);
      assert [""] + h == [""] + [""];
      NormalizeConcat([], [""], [""]);
    } else {
      NormalizeConcat([], [""], h);
      NormalizeOfNormal([], home);
      assert Normalize([], [""] + h) == home;
    }
    assert ExpandPath(t, home, cwd) == Normalize([], Split(t, '/'));
    assert ExpandPath(s, home, cwd) == Normalize(home, Split(rest, '/'));
  }

  /** A bare "~" is not expanded: it names an entry of the working directory. */
  lemma BareTildeIsRelative(home: Path, cwd: Path)
    ensures ExpandPath("~", home, cwd) == cwd + ["~"]
  {
    assert "~"[..1] == "~";
    assert !StartsWith("~", "~/") && !StartsWith("~", "/");
    SplitPlain("~", '/');
    assert "~" != "" && "~" != "." && "~" != "..";
    assert NormalizeSegment(cwd, "~") == cwd + ["~"];
    assert ["~"][1..] == [];
    assert Normalize(cwd, ["~"]) == Normalize(cwd + ["~"], []);
    assert ExpandPath("~", home, cwd) == Normalize(cwd, Split("~", '/'));
  }
}
