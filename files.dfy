/** The filesystem the commands read and change: a finite map from absolute
    paths to nodes. Each `node:fs` call the commands make is a function from
    the tree before to the tree after, or None where Node would throw; the
    class `FileSystem` holds the current tree and applies those calls in
    place, the way the commands change the real disk step by step. */
module Files {
  import opened Text
  import opened Paths

  /** A regular file (its text and permission bits) or a directory (the names
      it lists, in the order `readdirSync` returns them). */
  datatype Node = File(content: string, mode: nat) | Dir(entries: seq<Name>)

  type Tree = map<Path, Node>

  /** What a real filesystem guarantees: a root directory, valid names, every
      node listed by its parent directory, and every listed name present. */
  ghost predicate WellFormed(t: Tree) {
    IsDir(t, []) && ValidPaths(t) && ParentsList(t) && ListingsDistinct(t) && ListingsPresent(t)
  }

  ghost predicate ValidPaths(t: Tree) {
    forall p :: p in t ==> ValidPath(p)
  }

  ghost predicate ParentsList(t: Tree) {
    forall p {:trigger Dirname(p)} :: p in t && p != [] ==>
      Dirname(p) in t && t[Dirname(p)].Dir? && Last(p) in t[Dirname(p)].entries
  }

  ghost predicate ListingsDistinct(t: Tree) {
    forall p :: p in t && t[p].Dir? ==> Distinct(t[p].entries)
  }

  ghost predicate ListingsPresent(t: Tree) {
    forall p, e :: p in t && t[p].Dir? && e in t[p].entries ==> p + [e] in t
  }

  predicate IsDir(t: Tree, p: Path) {
    p in t && t[p].Dir?
  }

  predicate IsFile(t: Tree, p: Path) {
    p in t && t[p].File?
  }

  /** `readFileSync(p, "utf-8")`: throws on a missing path and on a directory. */
  function ReadText(t: Tree, p: Path): Option<string> {
    if IsFile(t, p) then Some(t[p].content) else None
  }

  /** `readdirSync(p)`: throws on a missing path and on a file. */
  function ListDir(t: Tree, p: Path): Option<seq<Name>> {
    if IsDir(t, p) then Some(t[p].entries) else None
  }

  /** Creates node `n` at the absent path `p`, appending its name to the
      listing of its parent. */
  function AddChild(t: Tree, p: Path, n: Node): Tree
    requires p != [] && IsDir(t, Dirname(p))
  {
    t[Dirname(p) := Dir(t[Dirname(p)].entries + [Last(p)])][p := n]
  }

  /** `mkdirSync(p, { recursive: true })`: creates every missing directory on
      the way down to `p`; an existing directory is left as it is; a file on
      the way, or a name that cannot be created, makes it throw. */
  function AfterMkdir(t: Tree, p: Path): (r: Option<Tree>)
    ensures IsDir(t, p) ==> r == Some(t)
    ensures r.Some? ==> IsDir(r.value, p)
    ensures r.Some? ==> forall q :: q in t ==> q in r.value && (t[q].File? ==> r.value[q] == t[q])
    ensures r.Some? ==> forall q :: q in r.value && q !in t ==> |q| <= |p| && q == p[..|q|]
    decreases |p|
  {
    if p in t then (if t[p].Dir? then Some(t) else None)
    else if p == [] || !ValidName(Last(p)) then None
    else
      match AfterMkdir(t, Dirname(p))
      case None => None
      case Some(t1) => Some(AddChild(t1, p, Dir([])))
  }

  /** `cpSync(src, dst)` for a single file: the destination becomes a copy of
      the source, text and permission bits; a missing parent directory is
      created first. It throws when the source is not a file, when source and
      destination coincide, and when the destination is a directory. */
  function AfterCopy(t: Tree, src: Path, dst: Path): (r: Option<Tree>)
    ensures r.Some? ==> IsFile(t, src) && dst in r.value && r.value[dst] == t[src]
    ensures r.Some? ==> forall q :: q in t ==> q in r.value
    ensures r.Some? ==> forall q :: IsFile(t, q) && q != dst ==> r.value[q] == t[q]
    ensures IsFile(t, src) && IsFile(t, dst) && src != dst ==> r == Some(t[dst := t[src]])
  {
    if !IsFile(t, src) || src == dst then None
    else if dst in t then (if t[dst].Dir? then None else Some(t[dst := t[src]]))
    else if dst == [] || !ValidName(Last(dst)) then None
    else
      match AfterMkdir(t, Dirname(dst))
      case None => None
      case Some(t1) => Some(AddChild(t1, dst, t[src]))
  }

  /** `chmodSync(p, mode)`: sets the permission bits of a file (those of a
      directory are not modelled); throws on a missing path. */
  function AfterChmod(t: Tree, p: Path, mode: nat): (r: Option<Tree>)
    ensures r.Some? <==> p in t
    ensures IsFile(t, p) ==> r == Some(t[p := File(t[p].content, mode)])
    ensures IsDir(t, p) ==> r == Some(t)
  {
    if p !in t then None
    else if t[p].File? then Some(t[p := File(t[p].content, mode)])
    else Some(t)
  }

  /** `writeFileSync(p, text)`: an existing file keeps its permission bits, a
      new file gets `newMode`; throws on a directory and when the parent
      directory is missing. */
  function AfterWrite(t: Tree, p: Path, text: string, newMode: nat): (r: Option<Tree>)
    ensures r.Some? ==> IsFile(r.value, p) && r.value[p].content == text
    ensures r.Some? ==> forall q :: q in t ==> q in r.value
    ensures r.Some? ==> forall q :: IsFile(t, q) && q != p ==> r.value[q] == t[q]
    ensures IsFile(t, p) ==> r == Some(t[p := File(text, t[p].mode)])
  {
    if p in t then (if t[p].Dir? then None else Some(t[p := File(text, t[p].mode)]))
    else if p == [] || !IsDir(t, Dirname(p)) || !ValidName(Last(p)) then None
    else Some(AddChild(t, p, File(text, newMode)))
  }

  lemma AddChildWellFormed(t: Tree, p: Path, n: Node)
    requires WellFormed(t) && p != [] && p !in t && IsDir(t, Dirname(p)) && ValidName(Last(p))
    requires n.File? || n == Dir([])
    ensures WellFormed(AddChild(t, p, n))
  {
    NotYetListed(t, p);
    AddChildValid(t, p, n);
    AddChildParents(t, p, n);
    AddChildDistinct(t, p, n);
    AddChildPresent(t, p, n);
  }

  lemma NotYetListed(t: Tree, p: Path)
    requires ListingsPresent(t) && p != [] && p !in t && IsDir(t, Dirname(p))
    ensures Last(p) !in t[Dirname(p)].entries
  {
    assert p == Dirname(p) + [Last(p)];
  }

  lemma AddChildValid(t: Tree, p: Path, n: Node)
    requires ValidPaths(t) && p != [] && IsDir(t, Dirname(p)) && ValidName(Last(p))
    ensures ValidPaths(AddChild(t, p, n))
  {
    var d := Dirname(p);
    forall q | q in AddChild(t, p, n)
      ensures ValidPath(q)
    {
      if q == p {
        assert ValidPath(d);
        forall i | 0 <= i < |p|
          ensures ValidName(p[i])
        {
          if i < |d| {
            assert p[i] == d[i];
          }
        }
      } else {
        assert q in t;
      }
    }
  }

  lemma AddChildParents(t: Tree, p: Path, n: Node)
    requires ParentsList(t) && p != [] && p !in t && IsDir(t, Dirname(p))
    ensures ParentsList(AddChild(t, p, n))
  {
    var t' := AddChild(t, p, n);
    forall q | q in t' && q != []
      ensures Dirname(q) in t' && t'[Dirname(q)].Dir? && Last(q) in t'[Dirname(q)].entries
    {
      if q != p {
        assert q in t;
      }
    }
  }

  lemma AddChildDistinct(t: Tree, p: Path, n: Node)
    requires ListingsDistinct(t) && p != [] && IsDir(t, Dirname(p))
    requires Last(p) !in t[Dirname(p)].entries
    requires n.File? || n == Dir([])
    ensures ListingsDistinct(AddChild(t, p, n))
  {
    var t' := AddChild(t, p, n);
    var d := Dirname(p);
    forall q | q in t' && t'[q].Dir?
      ensures Distinct(t'[q].entries)
    {
      if q == d && q != p {
        DistinctConcat(t[d].entries, [Last(p)]);
      } else if q != p {
        assert t'[q] == t[q];
      }
    }
  }

  lemma AddChildPresent(t: Tree, p: Path, n: Node)
    requires ListingsPresent(t) && p != [] && IsDir(t, Dirname(p))
    requires n.File? || n == Dir([])
    ensures ListingsPresent(AddChild(t, p, n))
  {
    var t' := AddChild(t, p, n);
    var d := Dirname(p);
    assert p == d + [Last(p)];
    forall q, e | q in t' && t'[q].Dir? && e in t'[q].entries
      ensures q + [e] in t'
    {
      if q != p && q != d {
        assert t'[q] == t[q];
      }
    }
  }

  /** Each call leaves a well-formed tree well formed. */
  lemma {:induction false} MkdirWellFormed(t: Tree, p: Path)
    requires WellFormed(t) && AfterMkdir(t, p).Some?
    ensures WellFormed(AfterMkdir(t, p).value)
    decreases |p|
  {
    if p !in t {
      MkdirWellFormed(t, Dirname(p));
      var t1 := AfterMkdir(t, Dirname(p)).value;
      assert p !in t1;
      AddChildWellFormed(t1, p, Dir([]));
    }
  }

  lemma ReplaceFileWellFormed(t: Tree, p: Path, n: Node)
    requires WellFormed(t) && IsFile(t, p) && n.File?
    ensures WellFormed(t[p := n])
  {
    var t' := t[p := n];
    forall q | q in t' && q != []
      ensures Dirname(q) in t' && t'[Dirname(q)].Dir? && Last(q) in t'[Dirname(q)].entries
    {
      assert q in t;
    }
  }

  lemma CopyWellFormed(t: Tree, src: Path, dst: Path)
    requires WellFormed(t) && AfterCopy(t, src, dst).Some?
    ensures WellFormed(AfterCopy(t, src, dst).value)
  {
    if dst in t {
      ReplaceFileWellFormed(t, dst, t[src]);
    } else {
      MkdirWellFormed(t, Dirname(dst));
      var t1 := AfterMkdir(t, Dirname(dst)).value;
      assert dst !in t1;
      AddChildWellFormed(t1, dst, t[src]);
    }
  }

  lemma ChmodWellFormed(t: Tree, p: Path, mode: nat)
    requires WellFormed(t) && AfterChmod(t, p, mode).Some?
    ensures WellFormed(AfterChmod(t, p, mode).value)
  {
    if t[p].File? {
      ReplaceFileWellFormed(t, p, File(t[p].content, mode));
    }
  }

  lemma WriteWellFormed(t: Tree, p: Path, text: string, newMode: nat)
    requires WellFormed(t) && AfterWrite(t, p, text, newMode).Some?
    ensures WellFormed(AfterWrite(t, p, text, newMode).value)
  {
    if p in t {
      ReplaceFileWellFormed(t, p, File(text, t[p].mode));
    } else {
      AddChildWellFormed(t, p, File(text, newMode));
    }
  }

  /** The disk the commands work on. Each method performs one `node:fs` call
      in place; `ok` is false where Node throws, and then nothing changed. */
  class FileSystem {
    var tree: Tree

    ghost predicate Valid()
      reads this
    {
      WellFormed(tree)
    }

    constructor (t: Tree)
      requires WellFormed(t)
      ensures Valid() && tree == t
    {
      tree := t;
    }

    method Mkdir(p: Path) returns (ok: bool)
      requires Valid()
      modifies this
      ensures Valid()
      ensures ok == AfterMkdir(old(tree), p).Some?
      ensures tree == if ok then AfterMkdir(old(tree), p).value else old(tree)
    {
      var r := AfterMkdir(tree, p);
      ok := r.Some?;
      if ok {
        MkdirWellFormed(tree, p);
        tree := r.value;
      }
    }

    method Copy(src: Path, dst: Path) returns (ok: bool)
      requires Valid()
      modifies this
      ensures Valid()
      ensures ok == AfterCopy(old(tree), src, dst).Some?
      ensures tree == if ok then AfterCopy(old(tree), src, dst).value else old(tree)
    {
      var r := AfterCopy(tree, src, dst);
      ok := r.Some?;
      if ok {
        CopyWellFormed(tree, src, dst);
        tree := r.value;
      }
    }

    method Chmod(p: Path, mode: nat) returns (ok: bool)
      requires Valid()
      modifies this
      ensures Valid()
      ensures ok == AfterChmod(old(tree), p, mode).Some?
      ensures tree == if ok then AfterChmod(old(tree), p, mode).value else old(tree)
    {
      var r := AfterChmod(tree, p, mode);
      ok := r.Some?;
      if ok {
        ChmodWellFormed(tree, p, mode);
        tree := r.value;
      }
    }

    method WriteFile(p: Path, text: string, newMode: nat) returns (ok: bool)
      requires Valid()
      modifies this
      ensures Valid()
      ensures ok == AfterWrite(old(tree), p, text, newMode).Some?
      ensures tree == if ok then AfterWrite(old(tree), p, text, newMode).value else old(tree)
    {
      var r := AfterWrite(tree, p, text, newMode);
      ok := r.Some?;
      if ok {
        WriteWellFormed(tree, p, text, newMode);
        tree := r.value;
      }
    }
  }
}
