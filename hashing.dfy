/** The hashing side of src/utils/config.ts: `getAllFiles`, the sort of its
    result, and the file and directory hashes. SHA-256 itself is a parameter. */
module Hashing {
  import opened Text
  import opened Paths
  import opened Files

  /** SHA-256 as lower-case hex. It is a parameter: the model relies on no
      property of it beyond being a function. */
  type Digest = string -> string

  /** `h.substring(0, 12)`: the first twelve characters, or all of a shorter
      string. */
  function Short(h: string): (r: string)
    ensures |r| <= 12 && |r| <= |h| && r == h[..|r|]
    ensures |h| >= 12 ==> |r| == 12
  {
    if |h| <= 12 then h else h[..12]
  }

  predicate StrictlyBelow(p: Path, dir: Path) {
    |dir| < |p| && p[..|dir|] == dir
  }

  /** Every node strictly below `dir`; it shrinks on each step down, which is
      why the walk terminates. */
  ghost function Below(t: Tree, dir: Path): set<Path> {
    set p | p in t && StrictlyBelow(p, dir)
  }

  lemma BelowShrinks(t: Tree, dir: Path, e: Name)
    requires dir + [e] in t
    ensures |Below(t, dir + [e])| < |Below(t, dir)|
  {
    var c := dir + [e];
    assert c[..|dir|] == dir;
    assert c in Below(t, dir) && c !in Below(t, c);
    forall p | p in Below(t, c)
      ensures p in Below(t, dir)
    {
      assert p[..|dir|] == p[..|c|][..|dir|];
    }
    var rest := Below(t, dir) - Below(t, c);
    assert c in rest;
    assert Below(t, dir) == Below(t, c) + rest;
    assert Below(t, c) * rest == {};
  }

  /** `getAllFiles(dir)` as a value: every non-directory node below `dir`,
      each directory's entries in listing order, a sub-directory's files
      where the sub-directory is listed. None where `readdirSync` or
      `statSync` throws. */
  function WalkDir(t: Tree, dir: Path): (r: Option<seq<Path>>)
    ensures r.Some? ==> forall p :: p in r.value ==> IsFile(t, p) && StrictlyBelow(p, dir)
    decreases |Below(t, dir)|, 1
  {
    match ListDir(t, dir)
    case None => None
    case Some(es) => WalkEntries(t, dir, es)
  }

  /** The walk over the first entries `es` of `dir`. */
  function WalkEntries(t: Tree, dir: Path, es: seq<Name>): (r: Option<seq<Path>>)
    ensures r.Some? ==> forall p :: p in r.value ==> IsFile(t, p) && StrictlyBelow(p, dir)
    decreases |Below(t, dir)|, 0, |es|
  {
    if es == [] then Some([])
    else
      match WalkEntries(t, dir, es[..|es| - 1])
      case None => None
      case Some(front) =>
        var p := dir + [es[|es| - 1]];
        assert p[..|dir|] == dir;
        if p !in t then None
        else if t[p].File? then Some(front + [p])
        else
          BelowShrinks(t, dir, es[|es| - 1]);
          match WalkDir(t, p)
          case None => None
          case Some(sub) =>
            assert forall q :: q in sub ==> q[..|dir|] == q[..|p|][..|dir|];
            Some(front + sub)
  }

  /** Once the walk over some entries throws, the walk over all of them
      throws. */
  lemma {:induction false} WalkPrefixFails(t: Tree, dir: Path, es: seq<Name>, k: nat)
    requires 0 < k <= |es| && WalkEntries(t, dir, es[..k]).None?
    ensures WalkEntries(t, dir, es).None?
    decreases |es|
  {
    if k < |es| {
      var front := es[..|es| - 1];
      assert front[..k] == es[..k];
      WalkPrefixFails(t, dir, front, k);
    } else {
      assert es[..k] == es;
    }
  }

  /** The walk's next entry, for the method that runs it. */
  lemma WalkEntriesNext(t: Tree, dir: Path, es: seq<Name>, i: nat)
    requires i < |es| && WalkEntries(t, dir, es[..i]).Some?
    ensures var p, front := dir + [es[i]], WalkEntries(t, dir, es[..i]).value;
      WalkEntries(t, dir, es[..i + 1]) ==
        if p !in t then None
        else if t[p].File? then Some(front + [p])
        else if WalkDir(t, p).None? then None
        else Some(front + WalkDir(t, p).value)
  {
    assert es[..i + 1][..i] == es[..i];
  }

  /** `getAllFiles(dir, files)`: appends to the accumulator every file below
      `dir`, recursing into each sub-directory with the same accumulator. */
  method GetAllFiles(fs: FileSystem, dir: Path, files: seq<Path>) returns (r: Option<seq<Path>>)
    ensures WalkDir(fs.tree, dir).None? ==> r.None?
    ensures WalkDir(fs.tree, dir).Some? ==> r == Some(files + WalkDir(fs.tree, dir).value)
    decreases |Below(fs.tree, dir)|
  {
    var t := fs.tree;
    if !IsDir(t, dir) {
      return None;
    }
    var entries := t[dir].entries;
    var acc := files;
    var i := 0;
    while i < |entries|
      invariant 0 <= i <= |entries|
      invariant WalkEntries(t, dir, entries[..i]).Some?
      invariant acc == files + WalkEntries(t, dir, entries[..i]).value
    {
      var fullPath := dir + [entries[i]];
      var front := WalkEntries(t, dir, entries[..i]).value;
      WalkEntriesNext(t, dir, entries, i);
      if fullPath !in t {
        WalkPrefixFails(t, dir, entries, i + 1);
        return None;
      }
      if t[fullPath].Dir? {
        BelowShrinks(t, dir, entries[i]);
        var sub := GetAllFiles(fs, fullPath, acc);
        if sub.None? {
          WalkPrefixFails(t, dir, entries, i + 1);
          return None;
        }
        assert sub.value == files + (front + WalkDir(t, fullPath).value);
        acc := sub.value;
      } else {
        acc := acc + [fullPath];
      }
      i := i + 1;
    }
    assert entries[..i] == entries;
    r := Some(acc);
  }

  /** `a.sort()` on path strings without a comparator: ascending in the
      string order of the paths. */
  predicate PathLess(p: Path, q: Path) {
    Less(Render(p), Render(q))
  }

  predicate SortedPaths(s: seq<Path>) {
    forall i, j :: 0 <= i < j < |s| ==> !PathLess(s[j], s[i])
  }

  lemma NotLessTransitive(a: string, b: string, c: string)
    requires !Less(b, a) && !Less(c, b)
    ensures !Less(c, a)
  {
    LessTotal(a, b);
    if Less(c, a) && Less(a, b) {
      LessTransitive(c, a, b);
    }
  }

  lemma InsertFront(x: Path, s: seq<Path>)
    requires SortedPaths(s) && s != [] && !PathLess(s[0], x)
    ensures SortedPaths([x] + s)
  {
    forall j | 0 <= j < |s|
      ensures !PathLess(s[j], x)
    {
      if j > 0 {
        NotLessTransitive(Render(x), Render(s[0]), Render(s[j]));
      }
    }
  }

  lemma InsertBehind(x: Path, s: seq<Path>, r: seq<Path>)
    requires SortedPaths(s) && s != [] && PathLess(s[0], x)
    requires SortedPaths(r) && multiset(r) == multiset(s[1..]) + multiset{x}
    ensures SortedPaths([s[0]] + r)
  {
    forall k | 0 <= k < |r|
      ensures !PathLess(r[k], s[0])
    {
      assert r[k] in multiset(r);
      if r[k] == x {
        LessAsymmetric(Render(s[0]), Render(x));
      } else {
        assert r[k] in s[1..];
        var j :| 0 <= j < |s[1..]| && s[1..][j] == r[k];
        assert s[j + 1] == r[k];
      }
    }
  }

  function Insert(x: Path, s: seq<Path>): (r: seq<Path>)
    requires SortedPaths(s)
    ensures SortedPaths(r) && multiset(r) == multiset(s) + multiset{x}
  {
    if s == [] then [x]
    else if !PathLess(s[0], x) then InsertFront(x, s); [x] + s
    else
      var r := Insert(x, s[1..]);
      InsertBehind(x, s, r);
      assert s == [s[0]] + s[1..];
      [s[0]] + r
  }

  /** The sort: the same paths, ascending. */
  function SortPaths(s: seq<Path>): (r: seq<Path>)
    ensures SortedPaths(r) && multiset(r) == multiset(s)
  {
    if s == [] then []
    else
      assert s == [s[0]] + s[1..];
      Insert(s[0], SortPaths(s[1..]))
  }

  /** `file.replace(dirPath, "")`: the path string of `f` without the leading
      path string of `dir` (for the root "/", only that one slash goes). */
  function RelativeName(dir: Path, f: Path): string
    requires StrictlyBelow(f, dir)
  {
    if dir == [] then Join(f, '/') else "/" + Join(f[|dir|..], '/')
  }

  /** `replace` removes the first occurrence of the directory's string, and
      that occurrence opens the file's string: what is left is the rest. */
  lemma RelativeNameStripsPrefix(dir: Path, f: Path)
    requires StrictlyBelow(f, dir)
    ensures Render(dir) + RelativeName(dir, f) == Render(f)
  {
    if dir != [] {
      assert f == dir + f[|dir|..];
      JoinConcat(dir, f[|dir|..], '/');
    }
  }

  /** Each file's relative name with its content, in the order given. */
  function Entries(t: Tree, dir: Path, files: seq<Path>): (ps: seq<(string, string)>)
    requires forall p :: p in files ==> IsFile(t, p) && StrictlyBelow(p, dir)
    ensures |ps| == |files|
    ensures forall i :: 0 <= i < |files| ==>
      files[i] in files && IsFile(t, files[i]) &&
      ps[i] == (RelativeName(dir, files[i]), t[files[i]].content)
  {
    if files == [] then []
    else
      var last := files[|files| - 1];
      assert last in files;
      assert IsFile(t, last);
      Entries(t, dir, files[..|files| - 1]) + [(RelativeName(dir, last), t[last].content)]
  }

  /** What `calculateDirectoryHash` feeds the hash: each relative name, then
      each content, with nothing in between. */
  function PlainStream(ps: seq<(string, string)>): string {
    if ps == [] then "" else ps[0].0 + ps[0].1 + PlainStream(ps[1..])
  }

  lemma {:induction false} PlainStreamAppend(ps: seq<(string, string)>, q: (string, string))
    ensures PlainStream(ps + [q]) == PlainStream(ps) + q.0 + q.1
  {
    if ps == [] {
      assert ps + [q] == [q];
    } else {
      assert (ps + [q])[1..] == ps[1..] + [q];
      PlainStreamAppend(ps[1..], q);
      var a, b, rest := ps[0].0, ps[0].1, PlainStream(ps[1..]);
      assert a + b + (rest + q.0 + q.1) == a + b + rest + q.0 + q.1;
    }
  }

  function Digit(d: nat): (c: char)
    requires d < 10
    ensures '0' <= c <= '9' && c as int - '0' as int == d
  {
    ('0' as int + d) as char
  }

  predicate AllDigits(s: string) {
    forall i :: 0 <= i < |s| ==> '0' <= s[i] <= '9'
  }

  /** The decimal numeral of `n`. */
  function Decimal(n: nat): (s: string)
    ensures |s| >= 1 && AllDigits(s)
  {
    if n < 10 then [Digit(n)] else Decimal(n / 10) + [Digit(n % 10)]
  }

  function DecimalValue(s: string): nat
    requires AllDigits(s)
  {
    if s == [] then 0
    else DecimalValue(s[..|s| - 1]) * 10 + (s[|s| - 1] as int - '0' as int)
  }

  lemma {:induction false} DecimalRoundTrip(n: nat)
    ensures DecimalValue(Decimal(n)) == n
  {
    if n >= 10 {
      DecimalRoundTrip(n / 10);
      var s := Decimal(n);
      assert s[..|s| - 1] == Decimal(n / 10);
    }
  }

  /** A length-prefixed field: the length in decimal, a colon, the text. */
  function Frame(s: string): string {
    Decimal(|s|) + ":" + s
  }

  /** The stream the corrected hash is fed: the same fields in the same
      order, each length-prefixed. */
  function FramedStream(ps: seq<(string, string)>): string {
    if ps == [] then "" else Frame(ps[0].0) + (Frame(ps[0].1) + FramedStream(ps[1..]))
  }

  lemma {:induction false} FramedStreamAppend(ps: seq<(string, string)>, q: (string, string))
    ensures FramedStream(ps + [q]) == FramedStream(ps) + Frame(q.0) + Frame(q.1)
  {
    if ps == [] {
      assert ps + [q] == [q];
    } else {
      assert (ps + [q])[1..] == ps[1..] + [q];
      FramedStreamAppend(ps[1..], q);
      var a, b, rest := Frame(ps[0].0), Frame(ps[0].1), FramedStream(ps[1..]);
      assert a + (b + (rest + Frame(q.0) + Frame(q.1))) == a + (b + rest) + Frame(q.0) + Frame(q.1);
    }
  }

  /** A frame can be read back off the front of a stream: the first colon
      ends the length, and the length says where the text ends. */
  lemma FrameSplit(a: string, x: string, b: string, y: string)
    requires Frame(a) + x == Frame(b) + y
    ensures a == b && x == y
  {
    var da, db := Decimal(|a|), Decimal(|b|);
    var s := Frame(a) + x;
    assert s == da + (":" + a + x);
    assert s == db + (":" + b + y);
    assert s[|da|] == ':' && forall j :: 0 <= j < |da| ==> s[j] == da[j];
    assert s[|db|] == ':' && forall j :: 0 <= j < |db| ==> s[j] == db[j];
    assert |da| == |db|;
    assert da == s[..|da|] == db;
    DecimalRoundTrip(|a|);
    DecimalRoundTrip(|b|);
    var k := |da| + 1;
    assert a == s[k..k + |a|] == b;
    assert x == s[k + |a|..] == y;
  }

  /** The corrected stream is injective: equal streams come from the same
      names and contents in the same order. */
  lemma {:induction false} FramedStreamInjective(ps: seq<(string, string)>, qs: seq<(string, string)>)
    requires FramedStream(ps) == FramedStream(qs)
    ensures ps == qs
  {
    if ps != [] && qs != [] {
      var restP, restQ := FramedStream(ps[1..]), FramedStream(qs[1..]);
      FrameSplit(ps[0].0, Frame(ps[0].1) + restP, qs[0].0, Frame(qs[0].1) + restQ);
      FrameSplit(ps[0].1, restP, qs[0].1, restQ);
      FramedStreamInjective(ps[1..], qs[1..]);
      assert ps == [ps[0]] + ps[1..] && qs == [qs[0]] + qs[1..];
    }
  }

  /** The files of the walk in sorted order. */
  function SortedWalk(t: Tree, dir: Path): (r: Option<seq<Path>>)
    ensures r.Some? ==> forall p :: p in r.value ==> IsFile(t, p) && StrictlyBelow(p, dir)
  {
    match WalkDir(t, dir)
    case None => None
    case Some(w) =>
      var files := SortPaths(w);
      assert forall p :: p in files ==> p in multiset(w);
      Some(files)
  }

  /** `calculateDirectoryHash` as written: "" for a missing path, otherwise
      the first 12 hex digits of the digest of the plain stream. */
  function DirectoryHashAsWritten(t: Tree, sha: Digest, dir: Path): (r: Option<string>)
    ensures dir !in t ==> r == Some("")
    ensures dir in t && r.Some? ==> |r.value| <= 12
    ensures dir in t ==> (r.Some? <==> IsDir(t, dir) && WalkDir(t, dir).Some?)
  {
    if dir !in t then Some("")
    else
      match SortedWalk(t, dir)
      case None => None
      case Some(files) => Some(Short(sha(PlainStream(Entries(t, dir, files)))))
  }

  /** The input of the corrected hash. */
  function HashInput(t: Tree, dir: Path): Option<string> {
    match SortedWalk(t, dir)
    case None => None
    case Some(files) => Some(FramedStream(Entries(t, dir, files)))
  }

  /** The corrected `calculateDirectoryHash`: the same walk, sort and
      truncation, fed the length-prefixed stream. */
  function DirectoryHash(t: Tree, sha: Digest, dir: Path): (r: Option<string>)
    ensures dir !in t ==> r == Some("")
    ensures dir in t && r.Some? ==> |r.value| <= 12
    ensures dir in t ==> (r.Some? <==> IsDir(t, dir) && WalkDir(t, dir).Some?)
  {
    if dir !in t then Some("")
    else
      match HashInput(t, dir)
      case None => None
      case Some(input) => Some(Short(sha(input)))
  }

  /** `calculateDirectoryHash(dir)`: walks, sorts, then feeds the hash one
      file at a time, as written. */
  method CalculateDirectoryHash(fs: FileSystem, sha: Digest, dir: Path) returns (r: Option<string>)
    ensures r == DirectoryHashAsWritten(fs.tree, sha, dir)
  {
    var t := fs.tree;
    if dir !in t {
      return Some("");
    }
    var all := GetAllFiles(fs, dir, []);
    if all.None? {
      return None;
    }
    assert WalkDir(t, dir) == Some(all.value) by {
      assert [] + WalkDir(t, dir).value == WalkDir(t, dir).value;
    }
    var files := SortPaths(all.value);
    assert SortedWalk(t, dir) == Some(files);
    var fed := Feed(t, dir, files);
    r := Some(Short(sha(fed)));
  }

  /** The loop of `calculateDirectoryHash`: each file's relative name and
      then its content go into the hash, with nothing in between. */
  method Feed(t: Tree, dir: Path, files: seq<Path>) returns (fed: string)
    requires forall p :: p in files ==> IsFile(t, p) && StrictlyBelow(p, dir)
    ensures fed == PlainStream(Entries(t, dir, files))
  {
    fed := "";
    var i := 0;
    while i < |files|
      invariant 0 <= i <= |files|
      invariant fed == PlainStream(Entries(t, dir, files[..i]))
    {
      assert files[i] in files;
      var relativePath := RelativeName(dir, files[i]);
      var content := t[files[i]].content;
      assert files[..i + 1][..i] == files[..i];
      PlainStreamAppend(Entries(t, dir, files[..i]), (relativePath, content));
      fed := fed + relativePath + content;
      i := i + 1;
    }
    assert files[..i] == files;
  }

  /** `calculateFileHash`: "" for a missing path; reading a directory
      throws; otherwise the first 12 hex digits of the content's digest. */
  function FileHash(t: Tree, sha: Digest, p: Path): (r: Option<string>)
    ensures p !in t ==> r == Some("")
    ensures r.None? <==> IsDir(t, p)
    ensures IsFile(t, p) ==> |r.value| <= 12
  {
    if p !in t then Some("")
    else
      match ReadText(t, p)
      case None => None
      case Some(content) => Some(Short(sha(content)))
  }

  /** The files strictly below `dir`, with their contents. */
  ghost function FilesBelow(t: Tree, dir: Path): (m: map<Path, string>)
    ensures forall p :: p in m <==> IsFile(t, p) && StrictlyBelow(p, dir)
    ensures forall p :: p in m ==> p in t && t[p].File? && m[p] == t[p].content
  {
    map p | p in t && t[p].File? && StrictlyBelow(p, dir) :: t[p].content
  }

  /** In a well-formed tree every proper prefix of a node is a directory
      listing the next segment. */
  lemma {:induction false} AncestorLists(t: Tree, q: Path, k: nat)
    requires ParentsList(t) && q in t && k < |q|
    ensures IsDir(t, q[..k]) && q[k] in t[q[..k]].entries
    decreases |q|
  {
    var d := Dirname(q);
    if k == |q| - 1 {
      assert q[..k] == d && Last(q) == q[k];
    } else {
      AncestorLists(t, d, k);
      assert d[..k] == q[..k] && d[k] == q[k];
    }
  }

  /** The files the walk finds under entry `e` of `dir`. */
  ghost predicate FilesUnder(t: Tree, dir: Path, e: Name, sub: seq<Path>) {
    forall q :: q in sub <==> IsFile(t, q) && StrictlyBelow(q, dir) && q[|dir|] == e
  }

  /** A file entry contributes itself and nothing else. */
  lemma EntryFile(t: Tree, dir: Path, e: Name)
    requires ParentsList(t) && IsFile(t, dir + [e])
    ensures FilesUnder(t, dir, e, [dir + [e]])
  {
    var p := dir + [e];
    assert p[..|dir|] == dir && p[|dir|] == e;
    forall q | IsFile(t, q) && StrictlyBelow(q, dir) && q[|dir|] == e
      ensures q == p
    {
      assert q[..|dir| + 1] == q[..|dir|] + [q[|dir|]] == p;
      if |q| > |dir| + 1 {
        AncestorLists(t, q, |dir| + 1);
      }
    }
  }

  /** A directory entry contributes the files strictly below it. */
  lemma EntryDir(t: Tree, dir: Path, e: Name, sub: seq<Path>)
    requires IsDir(t, dir + [e])
    requires forall q :: q in sub <==> IsFile(t, q) && StrictlyBelow(q, dir + [e])
    ensures FilesUnder(t, dir, e, sub)
  {
    var p := dir + [e];
    forall q | StrictlyBelow(q, p)
      ensures StrictlyBelow(q, dir) && q[|dir|] == e
    {
      assert q[..|dir|] == q[..|p|][..|dir|];
      assert q[|dir|] == q[..|p|][|dir|];
    }
    forall q | StrictlyBelow(q, dir) && q[|dir|] == e && q != p
      ensures StrictlyBelow(q, p)
    {
      assert q[..|p|] == q[..|dir|] + [q[|dir|]];
    }
  }

  /** `r` holds, once each, the files below the entries `es` of `dir`. */
  ghost predicate FindsFiles(t: Tree, dir: Path, es: seq<Name>, r: seq<Path>) {
    Distinct(r) && forall q :: q in r <==> IsFile(t, q) && StrictlyBelow(q, dir) && q[|dir|] in es
  }

  /** `r` holds, once each, the files strictly below `dir`. */
  ghost predicate FindsAll(t: Tree, dir: Path, r: seq<Path>) {
    Distinct(r) && forall q :: q in r <==> IsFile(t, q) && StrictlyBelow(q, dir)
  }

  /** Appending the files of one more entry to those of the entries before. */
  lemma WalkStep(t: Tree, dir: Path, front: seq<Name>, e: Name, fv: seq<Path>, sub: seq<Path>)
    requires e !in front && FindsFiles(t, dir, front, fv) && Distinct(sub)
    requires FilesUnder(t, dir, e, sub)
    ensures FindsFiles(t, dir, front + [e], fv + sub)
  {
    DistinctConcat(fv, sub);
  }

  lemma WalkEntriesSnocFile(t: Tree, dir: Path, front: seq<Name>, e: Name)
    requires WalkEntries(t, dir, front).Some? && IsFile(t, dir + [e])
    ensures WalkEntries(t, dir, front + [e]) == Some(WalkEntries(t, dir, front).value + [dir + [e]])
  {
    assert (front + [e])[..|front|] == front;
  }

  lemma WalkEntriesSnocDir(t: Tree, dir: Path, front: seq<Name>, e: Name)
    requires WalkEntries(t, dir, front).Some? && IsDir(t, dir + [e]) && WalkDir(t, dir + [e]).Some?
    ensures WalkEntries(t, dir, front + [e]) ==
      Some(WalkEntries(t, dir, front).value + WalkDir(t, dir + [e]).value)
  {
    assert (front + [e])[..|front|] == front;
  }

  /** The next entry is a file. */
  lemma WalkStepFile(t: Tree, dir: Path, front: seq<Name>, e: Name)
    requires ParentsList(t) && e !in front && IsFile(t, dir + [e])
    requires WalkEntries(t, dir, front).Some?
    requires FindsFiles(t, dir, front, WalkEntries(t, dir, front).value)
    ensures WalkEntries(t, dir, front + [e]).Some?
    ensures FindsFiles(t, dir, front + [e], WalkEntries(t, dir, front + [e]).value)
  {
    EntryFile(t, dir, e);
    WalkStep(t, dir, front, e, WalkEntries(t, dir, front).value, [dir + [e]]);
    WalkEntriesSnocFile(t, dir, front, e);
  }

  /** The next entry is a directory whose walk is complete. */
  lemma WalkStepDir(t: Tree, dir: Path, front: seq<Name>, e: Name)
    requires e !in front && IsDir(t, dir + [e])
    requires WalkEntries(t, dir, front).Some?
    requires FindsFiles(t, dir, front, WalkEntries(t, dir, front).value)
    requires WalkDir(t, dir + [e]).Some? && FindsAll(t, dir + [e], WalkDir(t, dir + [e]).value)
    ensures WalkEntries(t, dir, front + [e]).Some?
    ensures FindsFiles(t, dir, front + [e], WalkEntries(t, dir, front + [e]).value)
  {
    var sub := WalkDir(t, dir + [e]).value;
    EntryDir(t, dir, e, sub);
    WalkStep(t, dir, front, e, WalkEntries(t, dir, front).value, sub);
    WalkEntriesSnocDir(t, dir, front, e);
  }

  lemma {:induction false} WalkEntriesComplete(t: Tree, dir: Path, es: seq<Name>)
    requires WellFormed(t) && IsDir(t, dir)
    requires Distinct(es) && forall e :: e in es ==> e in t[dir].entries
    ensures WalkEntries(t, dir, es).Some?
    ensures FindsFiles(t, dir, es, WalkEntries(t, dir, es).value)
    decreases |Below(t, dir)|, 0, |es|, 1
  {
    if es != [] {
      var front, e := es[..|es| - 1], es[|es| - 1];
      SplitLast(es);
      DistinctFront(es);
      WalkEntriesComplete(t, dir, front);
      WalkEntryComplete(t, dir, front, e);
    }
  }

  /** One more entry, after the entries `front` whose walk is complete. */
  lemma {:induction false} WalkEntryComplete(t: Tree, dir: Path, front: seq<Name>, e: Name)
    requires WellFormed(t) && IsDir(t, dir) && e in t[dir].entries && e !in front
    requires WalkEntries(t, dir, front).Some?
    requires FindsFiles(t, dir, front, WalkEntries(t, dir, front).value)
    ensures WalkEntries(t, dir, front + [e]).Some?
    ensures FindsFiles(t, dir, front + [e], WalkEntries(t, dir, front + [e]).value)
    decreases |Below(t, dir)|, 0, |front| + 1, 0
  {
    var p := dir + [e];
    assert p in t;
    if t[p].File? {
      WalkStepFile(t, dir, front, e);
    } else {
      BelowShrinks(t, dir, e);
      WalkDirComplete(t, p);
      WalkStepDir(t, dir, front, e);
    }
  }

  /** In a well-formed tree the walk never throws and yields each file below
      the directory exactly once. */
  lemma {:induction false} WalkDirComplete(t: Tree, dir: Path)
    requires WellFormed(t) && IsDir(t, dir)
    ensures WalkDir(t, dir).Some? && FindsAll(t, dir, WalkDir(t, dir).value)
    decreases |Below(t, dir)|, 1
  {
    WalkEntriesComplete(t, dir, t[dir].entries);
    forall p | IsFile(t, p) && StrictlyBelow(p, dir)
      ensures p[|dir|] in t[dir].entries
    {
      AncestorLists(t, p, |dir|);
    }
  }

  /** Two sorted arrangements of the same paths start with the same path. */
  lemma SortedHeads(a: seq<Path>, b: seq<Path>)
    requires SortedPaths(a) && SortedPaths(b) && multiset(a) == multiset(b) && a != []
    requires forall p :: p in a ==> Normal(p)
    ensures b != [] && a[0] == b[0]
  {
    assert a[0] in multiset(b) && a[0] in b;
    assert b[0] in multiset(a) && b[0] in a;
    var i :| 0 <= i < |a| && a[i] == b[0];
    var j :| 0 <= j < |b| && b[j] == a[0];
    assert !PathLess(a[i], a[0]) by {
      LessIrreflexive(Render(a[0]));
    }
    assert !PathLess(b[j], b[0]) by {
      LessIrreflexive(Render(b[0]));
    }
    LessTotal(Render(a[0]), Render(b[0]));
    RenderInjective(a[0], b[0]);
  }

  /** A sorted order of distinct path strings is unique: two sorted
      arrangements of the same paths coincide. */
  lemma {:induction false} SortedUnique(a: seq<Path>, b: seq<Path>)
    requires SortedPaths(a) && SortedPaths(b) && multiset(a) == multiset(b)
    requires forall p :: p in a ==> Normal(p)
    ensures a == b
  {
    if a != [] {
      SortedHeads(a, b);
      assert a == [a[0]] + a[1..] && b == [b[0]] + b[1..];
      assert multiset(a[1..]) == multiset(a) - multiset{a[0]};
      assert multiset(b[1..]) == multiset(b) - multiset{b[0]};
      SortedUnique(a[1..], b[1..]);
    }
  }

  /** Different files below the same directory have different relative
      names. */
  lemma RelativeNameInjective(dir: Path, f: Path, g: Path)
    requires StrictlyBelow(f, dir) && StrictlyBelow(g, dir) && Normal(f) && Normal(g)
    requires RelativeName(dir, f) == RelativeName(dir, g)
    ensures f == g
  {
    if dir == [] {
      SplitJoin(f, '/');
      SplitJoin(g, '/');
    } else {
      var rf, rg := f[|dir|..], g[|dir|..];
      assert Render(rf) == Render(rg);
      assert Normal(rf) && Normal(rg) by {
        assert forall i :: 0 <= i < |rf| ==> rf[i] == f[|dir| + i];
        assert forall i :: 0 <= i < |rg| ==> rg[i] == g[|dir| + i];
      }
      RenderInjective(rf, rg);
      assert f == dir + rf && g == dir + rg;
    }
  }

  /** In a well-formed tree the sorted walk holds exactly the files of
      `FilesBelow`. */
  lemma SortedWalkHoldsFilesBelow(t: Tree, dir: Path)
    requires WellFormed(t) && IsDir(t, dir)
    ensures SortedWalk(t, dir).Some?
    ensures forall p :: p in SortedWalk(t, dir).value <==> p in FilesBelow(t, dir)
    ensures forall p :: p in SortedWalk(t, dir).value ==> Normal(p)
  {
    WalkDirComplete(t, dir);
    var w := WalkDir(t, dir).value;
    var s := SortPaths(w);
    forall p
      ensures p in s <==> p in w
    {
      assert p in s <==> p in multiset(s);
      assert p in w <==> p in multiset(w);
    }
  }

  /** Equal files below `dir` sort into the same sequence. */
  lemma SameFilesSameSort(t1: Tree, t2: Tree, dir: Path)
    requires WellFormed(t1) && WellFormed(t2) && IsDir(t1, dir) && IsDir(t2, dir)
    requires FilesBelow(t1, dir) == FilesBelow(t2, dir)
    ensures SortedWalk(t1, dir).Some? && SortedWalk(t1, dir) == SortedWalk(t2, dir)
  {
    WalkDirComplete(t1, dir);
    WalkDirComplete(t2, dir);
    SortedWalkHoldsFilesBelow(t1, dir);
    var w1, w2 := WalkDir(t1, dir).value, WalkDir(t2, dir).value;
    DistinctSameElements(w1, w2);
    SortedUnique(SortPaths(w1), SortPaths(w2));
  }

  /** The entries of the same files with the same contents are the same. */
  lemma {:induction false} SameContentsSameEntries(t1: Tree, t2: Tree, dir: Path, files: seq<Path>)
    requires forall p :: p in files ==>
      IsFile(t1, p) && IsFile(t2, p) && StrictlyBelow(p, dir) && t1[p].content == t2[p].content
    ensures Entries(t1, dir, files) == Entries(t2, dir, files)
  {
    if files != [] {
      SameContentsSameEntries(t1, t2, dir, files[..|files| - 1]);
      assert files[|files| - 1] in files;
    }
  }

  /** Equal files below `dir` give the same sorted files with the same
      relative names and contents, whatever order the directories list their
      entries in. */
  lemma SameFilesSameEntries(t1: Tree, t2: Tree, dir: Path)
    requires WellFormed(t1) && WellFormed(t2) && IsDir(t1, dir) && IsDir(t2, dir)
    requires FilesBelow(t1, dir) == FilesBelow(t2, dir)
    ensures SortedWalk(t1, dir).Some? && SortedWalk(t1, dir) == SortedWalk(t2, dir)
    ensures Entries(t1, dir, SortedWalk(t1, dir).value) == Entries(t2, dir, SortedWalk(t2, dir).value)
  {
    SameFilesSameSort(t1, t2, dir);
    SortedWalkHoldsFilesBelow(t1, dir);
    var s := SortedWalk(t1, dir).value;
    forall p | p in s
      ensures IsFile(t2, p) && t1[p].content == t2[p].content
    {
      assert FilesBelow(t1, dir)[p] == FilesBelow(t2, dir)[p];
    }
    SameContentsSameEntries(t1, t2, dir, s);
  }

  /** Equal files below `dir` make the corrected hash input equal. */
  lemma SameFilesSameInput(t1: Tree, t2: Tree, dir: Path)
    requires WellFormed(t1) && WellFormed(t2) && IsDir(t1, dir) && IsDir(t2, dir)
    requires FilesBelow(t1, dir) == FilesBelow(t2, dir)
    ensures HashInput(t1, dir).Some? && HashInput(t1, dir) == HashInput(t2, dir)
  {
    SameFilesSameEntries(t1, t2, dir);
  }

  /** Equal corrected hash inputs mean equal files below `dir`. */
  lemma SameInputSameFiles(t1: Tree, t2: Tree, dir: Path)
    requires WellFormed(t1) && WellFormed(t2) && IsDir(t1, dir) && IsDir(t2, dir)
    requires HashInput(t1, dir) == HashInput(t2, dir)
    ensures FilesBelow(t1, dir) == FilesBelow(t2, dir)
  {
    SortedWalkHoldsFilesBelow(t1, dir);
    SortedWalkHoldsFilesBelow(t2, dir);
    var s1, s2 := SortedWalk(t1, dir).value, SortedWalk(t2, dir).value;
    var e1, e2 := Entries(t1, dir, s1), Entries(t2, dir, s2);
    FramedStreamInjective(e1, e2);
    SameSortedFiles(t1, t2, dir, s1, s2);
    SameListedFiles(t1, t2, dir, s1);
  }

  /** Two trees whose files below `dir` are the same list, with the same
      contents, have the same files below `dir`. */
  lemma SameListedFiles(t1: Tree, t2: Tree, dir: Path, s: seq<Path>)
    requires forall p :: p in s <==> p in FilesBelow(t1, dir)
    requires forall p :: p in s <==> p in FilesBelow(t2, dir)
    requires forall i :: 0 <= i < |s| ==> t1[s[i]].content == t2[s[i]].content
    ensures FilesBelow(t1, dir) == FilesBelow(t2, dir)
  {
    var f1, f2 := FilesBelow(t1, dir), FilesBelow(t2, dir);
    forall p | p in f1
      ensures f1[p] == f2[p]
    {
      var i :| 0 <= i < |s| && s[i] == p;
    }
    assert f1.Keys == f2.Keys;
  }

  /** Equal entries come from the same files with the same contents. */
  lemma SameSortedFiles(t1: Tree, t2: Tree, dir: Path, s1: seq<Path>, s2: seq<Path>)
    requires forall p :: p in s1 ==> IsFile(t1, p) && StrictlyBelow(p, dir) && Normal(p)
    requires forall p :: p in s2 ==> IsFile(t2, p) && StrictlyBelow(p, dir) && Normal(p)
    requires Entries(t1, dir, s1) == Entries(t2, dir, s2)
    ensures s1 == s2
    ensures forall i :: 0 <= i < |s1| ==> t1[s1[i]].content == t2[s1[i]].content
  {
    var e1, e2 := Entries(t1, dir, s1), Entries(t2, dir, s2);
    forall i | 0 <= i < |s1|
      ensures s1[i] == s2[i] && t1[s1[i]].content == t2[s2[i]].content
    {
      assert e1[i] == e2[i];
      RelativeNameInjective(dir, s1[i], s2[i]);
    }
  }

  /** The corrected hash input identifies the files below a directory: it is
      equal for two trees exactly when the same relative paths hold the same
      contents. */
  lemma HashInputIdentifiesFiles(t1: Tree, t2: Tree, dir: Path)
    requires WellFormed(t1) && WellFormed(t2) && IsDir(t1, dir) && IsDir(t2, dir)
    ensures HashInput(t1, dir).Some? && HashInput(t2, dir).Some?
    ensures HashInput(t1, dir) == HashInput(t2, dir) <==> FilesBelow(t1, dir) == FilesBelow(t2, dir)
  {
    SortedWalkHoldsFilesBelow(t1, dir);
    SortedWalkHoldsFilesBelow(t2, dir);
    if FilesBelow(t1, dir) == FilesBelow(t2, dir) {
      SameFilesSameInput(t1, t2, dir);
    }
    if HashInput(t1, dir) == HashInput(t2, dir) {
      SameInputSameFiles(t1, t2, dir);
    }
  }

  /** The hash as the program computes it sorts before it feeds, so it does
      not depend on the order directories list their entries in, nor on
      anything outside the directory. */
  lemma DirectoryHashAsWrittenDependsOnFilesOnly(t1: Tree, t2: Tree, sha: Digest, dir: Path)
    requires WellFormed(t1) && WellFormed(t2) && IsDir(t1, dir) && IsDir(t2, dir)
    requires FilesBelow(t1, dir) == FilesBelow(t2, dir)
    ensures DirectoryHashAsWritten(t1, sha, dir).Some?
    ensures DirectoryHashAsWritten(t1, sha, dir) == DirectoryHashAsWritten(t2, sha, dir)
  {
    SameFilesSameEntries(t1, t2, dir);
  }

  /** The corrected hash keeps that independence. */
  lemma DirectoryHashDependsOnFilesOnly(t1: Tree, t2: Tree, sha: Digest, dir: Path)
    requires WellFormed(t1) && WellFormed(t2) && IsDir(t1, dir) && IsDir(t2, dir)
    requires FilesBelow(t1, dir) == FilesBelow(t2, dir)
    ensures DirectoryHash(t1, sha, dir).Some?
    ensures DirectoryHash(t1, sha, dir) == DirectoryHash(t2, sha, dir)
  {
    SameFilesSameInput(t1, t2, dir);
  }

  /** A directory listing one file: the walk finds that file alone. */
  lemma WalkOneFile(t: Tree, dir: Path, e: Name)
    requires IsDir(t, dir) && t[dir].entries == [e] && IsFile(t, dir + [e])
    ensures SortedWalk(t, dir) == Some([dir + [e]])
  {
    assert [e][..0] == [];
    assert WalkEntries(t, dir, []) == Some([]);
    assert WalkEntries(t, dir, [e]) == Some([] + [dir + [e]]);
    assert SortPaths([dir + [e]]) == [dir + [e]];
  }

  lemma PlainStreamOne(name: string, content: string)
    ensures PlainStream([(name, content)]) == name + content
  {
    assert [(name, content)][1..] == [];
    assert PlainStream([(name, content)]) == name + content + "";
  }

  /** The hash as written of a directory holding one file hashes the file's
      name, after a slash, run into its content. */
  lemma AsWrittenOneFile(t: Tree, sha: Digest, dir: Path, e: Name, c: string)
    requires dir != [] && IsDir(t, dir) && t[dir].entries == [e]
    requires IsFile(t, dir + [e]) && t[dir + [e]].content == c
    ensures DirectoryHashAsWritten(t, sha, dir) == Some(Short(sha("/" + e + c)))
  {
    var f := dir + [e];
    WalkOneFile(t, dir, e);
    assert f[|dir|..] == [e];
    assert RelativeName(dir, f) == "/" + e;
    var es := Entries(t, dir, [f]);
    assert es == [("/" + e, c)];
    PlainStreamOne("/" + e, c);
  }

  /** Two component directories "c": one holds an empty file "ab", the
      other a file "a" holding "b". */
  const HoldsAb: Tree := map[[] := Dir(["c"]), ["c"] := Dir(["ab"]), ["c", "ab"] := File("", 420)]
  const HoldsA: Tree := map[[] := Dir(["c"]), ["c"] := Dir(["a"]), ["c", "a"] := File("b", 420)]

  lemma HoldsAbShape()
    ensures IsDir(HoldsAb, ["c"]) && HoldsAb[["c"]].entries == ["ab"]
    ensures IsFile(HoldsAb, ["c"] + ["ab"]) && HoldsAb[["c"] + ["ab"]].content == ""
  {
    assert ["c"] + ["ab"] == ["c", "ab"];
  }

  lemma HoldsAShape()
    ensures IsDir(HoldsA, ["c"]) && HoldsA[["c"]].entries == ["a"]
    ensures IsFile(HoldsA, ["c"] + ["a"]) && HoldsA[["c"] + ["a"]].content == "b"
    ensures ["c", "ab"] !in HoldsA
  {
    assert ["c"] + ["a"] == ["c", "a"];
    var f1: Path := ["c", "ab"];
    assert f1 != ["c", "a"] by { assert f1[1] != "a"; }
  }

  lemma SlashAB()
    ensures "/" + "ab" + "" == "/ab" && "/" + "a" + "b" == "/ab"
  {
  }

  /** The stream as written runs each relative path into the file's content,
      so both directories feed the hash "/ab": different files, same hash. */
  lemma AsWrittenCollides(sha: Digest)
    ensures FilesBelow(HoldsAb, ["c"]) != FilesBelow(HoldsA, ["c"])
    ensures DirectoryHashAsWritten(HoldsAb, sha, ["c"]).Some?
    ensures DirectoryHashAsWritten(HoldsAb, sha, ["c"]) == DirectoryHashAsWritten(HoldsA, sha, ["c"])
  {
    HoldsAbShape();
    HoldsAShape();
    assert ["c"] + ["ab"] == ["c", "ab"];
    assert ["c", "ab"] in FilesBelow(HoldsAb, ["c"]);
    AsWrittenOneFile(HoldsAb, sha, ["c"], "ab", "");
    AsWrittenOneFile(HoldsA, sha, ["c"], "a", "b");
    SlashAB();
  }
}
