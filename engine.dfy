/** What the `sync` and `status` commands share: the three reads they start
    with, the lookup of configured names among the discovered components, and
    the three-way comparison of a deployed file with its source. */
module Engine {
  import opened Text
  import opened Paths
  import opened Files
  import opened ConfigFile

  /** How a destination file stands against its source. */
  datatype Standing = Absent | Differs | Same

  /** `existsSync(dst)`; when it exists, `readFileSync` of the destination
      and then of the source, compared as strings. Either read throws on a
      directory or a missing file (None). */
  function Classify(t: Tree, src: Path, dst: Path): (r: Option<Standing>)
    ensures r == Some(Absent) <==> dst !in t
    ensures r == Some(Same) <==> IsFile(t, dst) && IsFile(t, src) && t[dst].content == t[src].content
    ensures r == Some(Differs) <==> IsFile(t, dst) && IsFile(t, src) && t[dst].content != t[src].content
    ensures r.None? <==> dst in t && !(IsFile(t, dst) && IsFile(t, src))
  {
    if dst !in t then Some(Absent)
    else
      match ReadText(t, dst)
      case None => None
      case Some(existing) =>
        match ReadText(t, src)
        case None => None
        case Some(source) => Some(if existing == source then Same else Differs)
  }

  /** `available.find(c => c.name === name)`: the first component so named. */
  function Find(cs: seq<ComponentInfo>, name: string): (r: Option<ComponentInfo>)
    ensures r.Some? <==> exists c :: c in cs && c.name == name
    ensures r.Some? ==> r.value in cs && r.value.name == name
  {
    if cs == [] then None
    else if cs[0].name == name then Some(cs[0])
    else
      assert forall c :: c in cs && c != cs[0] ==> c in cs[1..];
      Find(cs[1..], name)
  }

  /** The component found comes before every other component of that name. */
  lemma {:induction false} FindFirst(cs: seq<ComponentInfo>, name: string, i: nat)
    requires i < |cs| && cs[i].name == name
    ensures Find(cs, name).Some?
    ensures exists k :: 0 <= k <= i && cs[k] == Find(cs, name).value
  {
    if cs[0].name != name {
      FindFirst(cs[1..], name, i - 1);
      var k :| 0 <= k <= i - 1 && cs[1..][k] == Find(cs[1..], name).value;
      assert cs[k + 1] == cs[1..][k];
    }
  }

  /** `config.components.map(find).filter(defined)`: the components the
      configuration names, in configuration order. */
  function Enabled(names: seq<string>, available: seq<ComponentInfo>): seq<ComponentInfo> {
    if names == [] then []
    else
      Enabled(names[..|names| - 1], available) +
        match Find(available, names[|names| - 1])
        case None => []
        case Some(c) => [c]
  }

  /** `config.components.filter(name => !find(name))`. */
  function MissingNames(names: seq<string>, available: seq<ComponentInfo>): seq<string> {
    if names == [] then []
    else
      MissingNames(names[..|names| - 1], available) +
        if Find(available, names[|names| - 1]).None? then [names[|names| - 1]] else []
  }

  /** Enabling keeps the configuration order: the components of a run of
      names followed by another are those of the first run, then those of
      the second. */
  lemma {:induction false} EnabledConcat(a: seq<string>, b: seq<string>, available: seq<ComponentInfo>)
    ensures Enabled(a + b, available) == Enabled(a, available) + Enabled(b, available)
    decreases |b|
  {
    if b == [] {
      assert a + b == a;
    } else {
      var front := b[..|b| - 1];
      assert (a + b)[..|a + b| - 1] == a + front && (a + b)[|a + b| - 1] == b[|b| - 1];
      EnabledConcat(a, front, available);
    }
  }

  /** One name enables the first component so named, or nothing. */
  lemma EnabledOne(n: string, available: seq<ComponentInfo>)
    ensures Enabled([n], available) == if Find(available, n).Some? then [Find(available, n).value] else []
  {
    assert [n][..0] == [];
  }

  /** The missing names keep the configuration order too. */
  lemma {:induction false} MissingNamesConcat(a: seq<string>, b: seq<string>, available: seq<ComponentInfo>)
    ensures MissingNames(a + b, available) == MissingNames(a, available) + MissingNames(b, available)
    decreases |b|
  {
    if b == [] {
      assert a + b == a;
    } else {
      var front := b[..|b| - 1];
      assert (a + b)[..|a + b| - 1] == a + front && (a + b)[|a + b| - 1] == b[|b| - 1];
      MissingNamesConcat(a, front, available);
    }
  }

  /** One name is missing exactly when no component has it. */
  lemma MissingNamesOne(n: string, available: seq<ComponentInfo>)
    ensures MissingNames([n], available) == if Find(available, n).None? then [n] else []
  {
    assert [n][..0] == [];
  }

  /** Every configured name is either enabled, as the first component of that
      name, or missing, and not both. */
  lemma {:induction false} EnabledMissingPartition(names: seq<string>, available: seq<ComponentInfo>)
    ensures |Enabled(names, available)| + |MissingNames(names, available)| == |names|
    ensures forall c :: c in Enabled(names, available) <==>
      exists n :: n in names && Find(available, n) == Some(c)
    ensures forall n :: n in MissingNames(names, available) <==> n in names && Find(available, n).None?
  {
    if names != [] {
      var front, last := names[..|names| - 1], names[|names| - 1];
      SplitLast(names);
      EnabledMissingPartition(front, available);
      forall c | c in Enabled(names, available)
        ensures exists n :: n in names && Find(available, n) == Some(c)
      {
        if c !in Enabled(front, available) {
          assert Find(available, last) == Some(c);
        }
      }
    }
  }

  /** The three reads both commands start with, in this order: the
      configuration, the lock (which only matters because a malformed one
      throws) and the catalog. */
  function Load(t: Tree, env: Env): (r: Option<(Config, seq<ComponentInfo>)>)
    ensures r.Some? <==>
      LoadConfig(t, env).Some? && LoadLockFile(t, env).Some? && Discover(t, ComponentsDir(env)).Some?
  {
    match LoadConfig(t, env)
    case None => None
    case Some(cfg) =>
      match LoadLockFile(t, env)
      case None => None
      case Some(_) =>
        match Discover(t, ComponentsDir(env))
        case None => None
        case Some(cs) => Some((cfg, cs))
  }
}
