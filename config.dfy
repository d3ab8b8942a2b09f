/** The configuration side of src/utils/config.ts: where the project keeps its
    files, how `config.yaml` and `config.lock.yaml` are read (with their
    defaults and filters), the lock record's shape and how it is written,
    component discovery in `components/`, and the `.git` ancestor check. */
module ConfigFile {
  import opened Text
  import opened Paths
  import opened Values
  import opened Files
  import Hashing

  /** What the commands take from outside the filesystem. */
  datatype Env = Env(
    home: Path,                          // homedir()
    cwd: Path,                           // the working directory `path.resolve` uses
    projectRoot: Path,                   // getProjectRoot()
    newFileMode: nat,                    // bits of a file `writeFileSync` creates
    sha: Hashing.Digest,                 // SHA-256, as lower-case hex
    parseYaml: string -> Option<Value>,  // None where the YAML parser throws
    formatYaml: Value -> string,
    parseJson: string -> Option<Value>,  // None where JSON.parse throws
    formatJson: Value -> string,         // JSON.stringify(v, null, 2)
    clock: nat -> string)                // the k-th `new Date().toISOString()`

  function ConfigPath(env: Env): Path { env.projectRoot + ["config.yaml"] }
  function LockPath(env: Env): Path { env.projectRoot + ["config.lock.yaml"] }
  function ComponentsDir(env: Env): Path { env.projectRoot + ["components"] }

  datatype Config = Config(components: seq<string>, destinations: seq<string>)

  /** `Array.isArray(x) ? x.filter(item => typeof item === "string") : []`. */
  function StringList(x: Option<Value>): (r: seq<string>)
    ensures !(x.Some? && x.value.Arr?) ==> r == []
    ensures x.Some? && x.value.Arr? ==> forall s :: s in r <==> Str(s) in x.value.items
    ensures x.Some? && x.value.Arr? ==> r == Strings(x.value.items)
  {
    if x.Some? && x.value.Arr? then Strings(x.value.items) else []
  }

  /** `loadConfig`. A missing file is an empty configuration; a document that
      is not an object reads as `{}`; each field keeps only its string items,
      and is empty when it is not an array. Reading a directory or parsing
      malformed YAML throws (None). */
  function LoadConfig(t: Tree, env: Env): (r: Option<Config>)
    ensures ConfigPath(env) !in t ==> r == Some(Config([], []))
    ensures r.None? <==> (ConfigPath(env) in t &&
      (ReadText(t, ConfigPath(env)).None? || env.parseYaml(ReadText(t, ConfigPath(env)).value).None?))
  {
    var path := ConfigPath(env);
    if path !in t then Some(Config([], []))
    else
      match ReadText(t, path)
      case None => None
      case Some(text) =>
        match env.parseYaml(text)
        case None => None
        case Some(raw) =>
          var parsed := if Truthy(raw) && (raw.Obj? || raw.Arr?) then raw else Obj([]);
          Some(Config(StringList(Prop(parsed, "components")), StringList(Prop(parsed, "destinations"))))
  }

  /** What a parsed document gives: each field's string items in the
      order the array holds them, and an empty list for a field that is not
      an array or a document that is not an object. */
  lemma LoadConfigFields(t: Tree, env: Env, v: Value)
    requires IsFile(t, ConfigPath(env)) && env.parseYaml(t[ConfigPath(env)].content) == Some(v)
    ensures LoadConfig(t, env).Some?
    ensures !v.Obj? ==> LoadConfig(t, env) == Some(Config([], []))
    ensures forall s :: s in LoadConfig(t, env).value.components <==>
      (Prop(v, "components").Some? && Prop(v, "components").value.Arr? &&
       Str(s) in Prop(v, "components").value.items)
    ensures forall s :: s in LoadConfig(t, env).value.destinations <==>
      (Prop(v, "destinations").Some? && Prop(v, "destinations").value.Arr? &&
       Str(s) in Prop(v, "destinations").value.items)
    ensures LoadConfig(t, env).value ==
      Config(StringList(Prop(v, "components")), StringList(Prop(v, "destinations")))
  {
    assert ReadText(t, ConfigPath(env)) == Some(t[ConfigPath(env)].content);
    if v.Obj? {
      assert Truthy(v);
    }
  }

  function StrItems(ss: seq<string>): seq<Value> {
    seq(|ss|, i requires 0 <= i < |ss| => Str(ss[i]))
  }

  /** A configuration written as an object of two string arrays loads back
      exactly, order included. */
  lemma ConfigLoadsBack(t: Tree, env: Env, cs: seq<string>, ds: seq<string>)
    requires IsFile(t, ConfigPath(env))
    requires env.parseYaml(t[ConfigPath(env)].content) ==
      Some(Obj([("components", Arr(StrItems(cs))), ("destinations", Arr(StrItems(ds)))]))
    ensures LoadConfig(t, env) == Some(Config(cs, ds))
  {
    var v := Obj([("components", Arr(StrItems(cs))), ("destinations", Arr(StrItems(ds)))]);
    LoadConfigFields(t, env, v);
    GetPair("components", Arr(StrItems(cs)), "destinations", Arr(StrItems(ds)));
    StringsOfStrings(cs);
    StringsOfStrings(ds);
  }

  /** The lock record. `status` is one of the four states the type admits. */
  datatype SyncState = Synced | Diverged | Missing | Deleted
  datatype PendingAction = Update | Delete
  datatype DestinationStatus = DestinationStatus(
    hash: string, status: SyncState, syncedAt: string, pendingAction: Option<PendingAction>)
  datatype ComponentLockEntry = ComponentLockEntry(sourceHash: string, destinations: Dict<DestinationStatus>)
  datatype LockFile = LockFile(components: Dict<ComponentLockEntry>, globalHash: string)

  /** What `loadLockFile` hands back: it checks no types, so each field is
      whatever value the document holds there. */
  datatype LockView = LockView(components: Value, globalHash: Value)

  /** `loadLockFile`. A missing file, a falsy document and each falsy or
      absent field fall back to `{ components: {}, global_hash: "" }`. */
  function LoadLockFile(t: Tree, env: Env): (r: Option<LockView>)
    ensures LockPath(env) !in t ==> r == Some(LockView(Obj([]), Str("")))
    ensures r.Some? ==> Truthy(r.value.components) && r.value.globalHash != Null
    ensures r.None? <==> (LockPath(env) in t &&
      (ReadText(t, LockPath(env)).None? || env.parseYaml(ReadText(t, LockPath(env)).value).None?))
  {
    var path := LockPath(env);
    if path !in t then Some(LockView(Obj([]), Str("")))
    else
      match ReadText(t, path)
      case None => None
      case Some(text) =>
        match env.parseYaml(text)
        case None => None
        case Some(raw) =>
          var parsed := if Truthy(raw) then raw else Obj([]);
          Some(LockView(OrElse(Prop(parsed, "components"), Obj([])),
                        OrElse(Prop(parsed, "global_hash"), Str(""))))
  }

  function EncodeState(s: SyncState): Value {
    match s
    case Synced => Str("synced")
    case Diverged => Str("diverged")
    case Missing => Str("missing")
    case Deleted => Str("deleted")
  }

  /** A field that is `undefined` is left out of the document. */
  function EncodeStatus(s: DestinationStatus): Value {
    Obj([("hash", Str(s.hash)), ("status", EncodeState(s.status)), ("synced_at", Str(s.syncedAt))]
        + match s.pendingAction
          case None => []
          case Some(Update) => [("pending_action", Str("update"))]
          case Some(Delete) => [("pending_action", Str("delete"))])
  }

  function EncodeDestinations(d: Dict<DestinationStatus>): Dict<Value> {
    seq(|d|, i requires 0 <= i < |d| => (d[i].0, EncodeStatus(d[i].1)))
  }

  function EncodeEntry(e: ComponentLockEntry): Value {
    Obj([("source_hash", Str(e.sourceHash)), ("destinations", Obj(EncodeDestinations(e.destinations)))])
  }

  function EncodeComponents(d: Dict<ComponentLockEntry>): Dict<Value> {
    seq(|d|, i requires 0 <= i < |d| => (d[i].0, EncodeEntry(d[i].1)))
  }

  /** The document `saveLockFile` serialises. */
  function EncodeLock(l: LockFile): Value {
    Obj([("components", Obj(EncodeComponents(l.components))), ("global_hash", Str(l.globalHash))])
  }

  /** `saveLockFile`: the serialised lock replaces `config.lock.yaml`. */
  function SaveLock(t: Tree, env: Env, l: LockFile): Option<Tree> {
    AfterWrite(t, LockPath(env), env.formatYaml(EncodeLock(l)), env.newFileMode)
  }

  /** `saveLockFile(lock)`; `ok` is false where the write throws. */
  method SaveLockFile(fs: FileSystem, env: Env, l: LockFile) returns (ok: bool)
    requires fs.Valid()
    modifies fs
    ensures fs.Valid()
    ensures ok == SaveLock(old(fs.tree), env, l).Some?
    ensures fs.tree == if ok then SaveLock(old(fs.tree), env, l).value else old(fs.tree)
  {
    ok := fs.WriteFile(LockPath(env), env.formatYaml(EncodeLock(l)), env.newFileMode);
  }

  /** Whenever the YAML parser reads back what the formatter writes, loading
      a saved lock gives its components and its global hash back. */
  lemma SavedLockLoadsBack(t: Tree, env: Env, l: LockFile)
    requires SaveLock(t, env, l).Some?
    requires env.parseYaml(env.formatYaml(EncodeLock(l))) == Some(EncodeLock(l))
    ensures LoadLockFile(SaveLock(t, env, l).value, env) ==
      Some(LockView(Obj(EncodeComponents(l.components)), Str(l.globalHash)))
  {
    SaveLockWrites(t, env, l);
    LockLoadsAs(SaveLock(t, env, l).value, env, Obj(EncodeComponents(l.components)), l.globalHash);
  }

  lemma SaveLockWrites(t: Tree, env: Env, l: LockFile)
    requires SaveLock(t, env, l).Some?
    ensures IsFile(SaveLock(t, env, l).value, LockPath(env))
    ensures SaveLock(t, env, l).value[LockPath(env)].content == env.formatYaml(EncodeLock(l))
  {
  }

  lemma LoadLockFileReads(t: Tree, env: Env, doc: Value)
    requires IsFile(t, LockPath(env)) && env.parseYaml(t[LockPath(env)].content) == Some(doc)
    requires Truthy(doc)
    ensures LoadLockFile(t, env) ==
      Some(LockView(OrElse(Prop(doc, "components"), Obj([])), OrElse(Prop(doc, "global_hash"), Str(""))))
  {
    assert ReadText(t, LockPath(env)) == Some(t[LockPath(env)].content);
  }

  /** A lock document with both fields present loads as those fields. */
  lemma LockLoadsAs(t: Tree, env: Env, comps: Value, hash: string)
    requires IsFile(t, LockPath(env)) && comps.Obj?
    requires env.parseYaml(t[LockPath(env)].content) ==
      Some(Obj([("components", comps), ("global_hash", Str(hash))]))
    ensures LoadLockFile(t, env) == Some(LockView(comps, Str(hash)))
  {
    var doc := Obj([("components", comps), ("global_hash", Str(hash))]);
    LoadLockFileReads(t, env, doc);
    GetPair("components", comps, "global_hash", Str(hash));
    assert Prop(doc, "components") == Some(comps);
    assert Prop(doc, "global_hash") == Some(Str(hash));
    assert OrElse(Some(comps), Obj([])) == comps;
    assert OrElse(Some(Str(hash)), Str("")) == Str(hash);
  }

  datatype ComponentInfo = ComponentInfo(
    name: string, path: Path, hasSkillMd: bool, hasHooks: bool, hasRules: bool, hasTemplates: bool)

  /** The record `listAvailableComponents` pushes for the directory at `p`:
      `SKILL.md` only has to exist, the three sub-directories have to be
      directories. */
  function Describe(t: Tree, p: Path): ComponentInfo
    requires p != []
  {
    ComponentInfo(Last(p), p, p + ["SKILL.md"] in t,
      IsDir(t, p + ["hooks"]), IsDir(t, p + ["rules"]), IsDir(t, p + ["templates"]))
  }

  function Names(cs: seq<ComponentInfo>): (ns: seq<string>)
    ensures |ns| == |cs| && forall i :: 0 <= i < |cs| ==> ns[i] == cs[i].name
  {
    if cs == [] then [] else Names(cs[..|cs| - 1]) + [cs[|cs| - 1].name]
  }

  /** The loop of `listAvailableComponents` over the first entries `es` of
      `dir`: every entry that is a directory becomes a component, in listing
      order; `statSync` throws on an entry that is not there. */
  function DiscoverEntries(t: Tree, dir: Path, es: seq<Name>): (r: Option<seq<ComponentInfo>>)
    ensures r.Some? <==> forall e :: e in es ==> dir + [e] in t
  {
    if es == [] then Some([])
    else
      var e := es[|es| - 1];
      assert es == es[..|es| - 1] + [e];
      match DiscoverEntries(t, dir, es[..|es| - 1])
      case None => None
      case Some(cs) =>
        var p := dir + [e];
        if p !in t then None
        else if t[p].Dir? then Some(cs + [Describe(t, p)])
        else Some(cs)
  }

  /** Discovery keeps exactly the entries that are directories, each
      described as it stands. */
  lemma {:induction false} DiscoverEntriesFinds(t: Tree, dir: Path, es: seq<Name>)
    requires DiscoverEntries(t, dir, es).Some?
    ensures forall c :: c in DiscoverEntries(t, dir, es).value ==>
      c.name in es && IsDir(t, dir + [c.name]) && c == Describe(t, dir + [c.name])
    ensures forall e :: e in es ==> (e in Names(DiscoverEntries(t, dir, es).value) <==> IsDir(t, dir + [e]))
  {
    if es != [] {
      var front, e := es[..|es| - 1], es[|es| - 1];
      SplitLast(es);
      DiscoverEntriesFinds(t, dir, front);
      var cs := DiscoverEntries(t, dir, front).value;
      var p := dir + [e];
      assert Last(p) == e;
      if t[p].Dir? {
        var r := cs + [Describe(t, p)];
        assert Names(r) == Names(cs) + [e];
      }
    }
  }

  /** `listAvailableComponents` over the catalog directory `dir`: a missing
      directory has no components; `readdirSync` throws on a file. */
  function Discover(t: Tree, dir: Path): Option<seq<ComponentInfo>> {
    if dir !in t then Some([])
    else
      match ListDir(t, dir)
      case None => None
      case Some(es) => DiscoverEntries(t, dir, es)
  }

  /** `listAvailableComponents`, the loop pushing one record per directory. */
  method ListAvailableComponents(fs: FileSystem, env: Env) returns (r: Option<seq<ComponentInfo>>)
    ensures r == Discover(fs.tree, ComponentsDir(env))
  {
    var t, dir := fs.tree, ComponentsDir(env);
    if dir !in t {
      return Some([]);
    }
    if !t[dir].Dir? {
      return None;
    }
    var entries := t[dir].entries;
    var components: seq<ComponentInfo> := [];
    var i := 0;
    while i < |entries|
      invariant 0 <= i <= |entries|
      invariant DiscoverEntries(t, dir, entries[..i]) == Some(components)
    {
      var entryPath := dir + [entries[i]];
      assert entries[..i + 1][..i] == entries[..i];
      if entryPath !in t {
        assert DiscoverEntries(t, dir, entries[..i + 1]).None?;
        assert entries[i] in entries;
        return None;
      }
      if t[entryPath].Dir? {
        components := components + [Describe(t, entryPath)];
      }
      i := i + 1;
    }
    assert entries[..i] == entries;
    r := Some(components);
  }

  /** In a well-formed tree discovery never throws, and it finds exactly the
      sub-directories of the catalog. */
  lemma DiscoverComplete(t: Tree, dir: Path)
    requires WellFormed(t) && IsDir(t, dir)
    ensures Discover(t, dir).Some?
    ensures forall e :: e in t[dir].entries ==>
      (e in Names(Discover(t, dir).value) <==> IsDir(t, dir + [e]))
  {
    DiscoverEntriesFinds(t, dir, t[dir].entries);
  }

  /** `listAvailableSkills`: the components that have a `SKILL.md`. */
  function Skills(cs: seq<ComponentInfo>): (r: seq<ComponentInfo>)
    ensures |r| <= |cs|
    ensures forall c :: c in r <==> c in cs && c.hasSkillMd
  {
    if cs == [] then []
    else
      var last := cs[|cs| - 1];
      assert cs == cs[..|cs| - 1] + [last];
      Skills(cs[..|cs| - 1]) + (if last.hasSkillMd then [last] else [])
  }

  /** `filter` keeps the discovery order: the skills of one run of
      components followed by another are the first run's, then the
      second's. */
  lemma {:induction false} SkillsConcat(a: seq<ComponentInfo>, b: seq<ComponentInfo>)
    ensures Skills(a + b) == Skills(a) + Skills(b)
    decreases |b|
  {
    if b == [] {
      assert a + b == a;
    } else {
      var front, last := b[..|b| - 1], b[|b| - 1];
      var tail := if last.hasSkillMd then [last] else [];
      assert (a + b)[..|a + b| - 1] == a + front && (a + b)[|a + b| - 1] == last;
      assert Skills(a + b) == Skills(a + front) + tail;
      assert Skills(b) == Skills(front) + tail;
      SkillsConcat(a, front);
    }
  }

  /** One component is kept exactly when it has a `SKILL.md`. */
  lemma SkillsOne(c: ComponentInfo)
    ensures Skills([c]) == if c.hasSkillMd then [c] else []
  {
    assert [c][..0] == [];
  }

  function ListAvailableSkills(t: Tree, env: Env): Option<seq<ComponentInfo>> {
    match Discover(t, ComponentsDir(env))
    case None => None
    case Some(cs) => Some(Skills(cs))
  }

  /** Some directory from `p` up to, but not including, the root holds an
      entry named ".git". */
  ghost predicate UnderGit(t: Tree, p: Path) {
    exists k :: 0 < k <= |p| && p[..k] + [".git"] in t
  }

  /** `isGitManaged`: walks from `p` towards the root, stopping where
      `dirname` reaches its fixed point, so the root itself is never
      examined. */
  method IsGitManaged(fs: FileSystem, p: Path) returns (b: bool)
    ensures b == UnderGit(fs.tree, p)
  {
    var current := p;
    while current != Dirname(current)
      invariant |current| <= |p| && current == p[..|current|]
      invariant forall k :: |current| < k <= |p| ==> p[..k] + [".git"] !in fs.tree
      decreases |current|
    {
      if current + [".git"] in fs.tree {
        assert p[..|current|] + [".git"] in fs.tree;
        return true;
      }
      current := Dirname(current);
    }
    b := false;
  }
}
