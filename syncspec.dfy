/** What the `sync` action of src/commands/sync.ts does, as functions of the
    disk it starts from. Each loop of the action is a fold over a prefix of its
    list, threading a `Run`; a call that throws ends the fold with the disk as
    it was at that moment. */
module SyncSpec {
  import opened Text
  import opened Paths
  import opened Values
  import opened Files
  import opened ConfigFile
  import opened Hashing
  import opened Engine
  import opened Settings
  import opened Index

  /** The state the action threads through its loops: the disk,
      `hasChanges`, the hook file names gathered for the current destination
      (`allHooks`), and whether a call has thrown. */
  datatype Run = Run(tree: Tree, changed: bool, hooks: seq<string>, crashed: bool)

  /** `0o755`, the mode given to every deployed hook. */
  const ExecutableMode: nat := 493

  /** Outside a dry run: create the destination directory when the file is
      new there, copy the source over, and set the mode when one is given. */
  function Install(r: Run, src: Path, dir: Path, dst: Path, mode: Option<nat>, isNew: bool): Run {
    match (if isNew then AfterMkdir(r.tree, dir) else Some(r.tree))
    case None => r.(crashed := true)
    case Some(t1) =>
      match AfterCopy(t1, src, dst)
      case None => r.(tree := t1, crashed := true)
      case Some(t2) =>
        if mode.None? then r.(tree := t2, changed := true)
        else
          match AfterChmod(t2, dst, mode.value)
          case None => r.(tree := t2, crashed := true)
          case Some(t3) => r.(tree := t3, changed := true)
  }

  /** One skill, hook or rule file: nothing when the deployed copy equals its
      source; otherwise a change, which a dry run only reports. */
  function Deploy(r: Run, src: Path, dir: Path, name: Name, mode: Option<nat>, dry: bool): (r': Run)
    ensures dry ==> r'.tree == r.tree
    ensures r'.hooks == r.hooks
  {
    if r.crashed then r
    else
      var dst := dir + [name];
      match Classify(r.tree, src, dst)
      case None => r.(crashed := true)
      case Some(Same) => r
      case Some(standing) =>
        if dry then r.(changed := true)
        else Install(r, src, dir, dst, mode, standing == Absent)
  }

  /** After a deployment that did not throw, outside a dry run, the deployed
      copy equals its source and carries the mode when it was (re)copied;
      `hasChanges` is set exactly when the copy was absent or different. */
  lemma DeployInstalls(r: Run, src: Path, dir: Path, name: Name, mode: Option<nat>)
    requires !r.crashed && !Deploy(r, src, dir, name, mode, false).crashed
    ensures var r' := Deploy(r, src, dir, name, mode, false);
      Classify(r'.tree, src, dir + [name]) == Some(Same)
    ensures var r' := Deploy(r, src, dir, name, mode, false);
      r'.changed == (r.changed || Classify(r.tree, src, dir + [name]) != Some(Same))
    ensures var r' := Deploy(r, src, dir, name, mode, false);
      mode.Some? && Classify(r.tree, src, dir + [name]) != Some(Same) ==> r'.tree[dir + [name]].mode == mode.value
  {
    var dst := dir + [name];
    var standing := Classify(r.tree, src, dst);
    if standing != Some(Same) {
      var t1 := if standing == Some(Absent) then AfterMkdir(r.tree, dir).value else r.tree;
      var t2 := AfterCopy(t1, src, dst).value;
      assert IsFile(t2, src) && t2[src] == t1[src];
    }
  }

  /** A deployment changes no file other than the deployed copy. */
  lemma DeployKeepsOthers(r: Run, src: Path, dir: Path, name: Name, mode: Option<nat>, dry: bool)
    requires !r.crashed
    ensures var r' := Deploy(r, src, dir, name, mode, dry);
      forall q :: IsFile(r.tree, q) && q != dir + [name] ==> IsFile(r'.tree, q) && r'.tree[q] == r.tree[q]
  {
    var dst := dir + [name];
    var standing := Classify(r.tree, src, dst);
    if standing != Some(Same) && standing.Some? && !dry && standing == Some(Absent) {
      var t1 := AfterMkdir(r.tree, dir);
      if t1.Some? {
        assert forall q :: IsFile(r.tree, q) ==> IsFile(t1.value, q) && t1.value[q] == r.tree[q];
      }
    }
  }

  /** The skills loop for one destination `d`. The unused `sourceHash` is
      still computed, and throws if the component directory cannot be
      walked. */
  function SkillSteps(r: Run, sha: Digest, d: Path, cs: seq<ComponentInfo>, dry: bool): (r': Run)
    ensures dry ==> r'.tree == r.tree
    ensures r'.hooks == r.hooks
  {
    if cs == [] then r
    else
      var r1 := SkillSteps(r, sha, d, cs[..|cs| - 1], dry);
      var c := cs[|cs| - 1];
      if r1.crashed || !c.hasSkillMd then r1
      else if DirectoryHashAsWritten(r1.tree, sha, c.path).None? then r1.(crashed := true)
      else Deploy(r1, c.path + ["SKILL.md"], d + ["skills", c.name], "SKILL.md", None, dry)
  }

  /** The inner hooks loop over one component's `hooks/` listing: each name
      joins `allHooks` before it is deployed, executable. */
  function HookFileSteps(r: Run, src: Path, d: Path, files: seq<Name>, dry: bool): (r': Run)
    ensures dry ==> r'.tree == r.tree
  {
    if files == [] then r
    else
      var r1 := HookFileSteps(r, src, d, files[..|files| - 1], dry);
      var f := files[|files| - 1];
      if r1.crashed then r1
      else Deploy(r1.(hooks := r1.hooks + [f]), src + [f], d + ["hooks"], f, Some(ExecutableMode), dry)
  }

  /** Without a throw, `allHooks` has gained exactly the listed names, in
      order. */
  lemma {:induction false} HookFileStepsGather(r: Run, src: Path, d: Path, files: seq<Name>, dry: bool)
    requires !HookFileSteps(r, src, d, files, dry).crashed
    ensures HookFileSteps(r, src, d, files, dry).hooks == r.hooks + files
  {
    if files != [] {
      var front := files[..|files| - 1];
      HookFileStepsGather(r, src, d, front, dry);
      assert files == front + [files[|files| - 1]];
    }
  }

  function HookSteps(r: Run, d: Path, cs: seq<ComponentInfo>, dry: bool): (r': Run)
    ensures dry ==> r'.tree == r.tree
  {
    if cs == [] then r
    else
      var r1 := HookSteps(r, d, cs[..|cs| - 1], dry);
      var c := cs[|cs| - 1];
      if r1.crashed || !c.hasHooks then r1
      else
        match ListDir(r1.tree, c.path + ["hooks"])
        case None => r1.(crashed := true)
        case Some(files) => HookFileSteps(r1, c.path + ["hooks"], d, files, dry)
  }

  /** A machine-local rule file, which is never deployed. */
  predicate LocalRule(f: string) {
    EndsWith(f, ".local.md")
  }

  /** One name of a `rules/` listing. */
  function RuleFileStep(r: Run, src: Path, d: Path, f: Name, dry: bool): (r': Run)
    ensures dry ==> r'.tree == r.tree
    ensures r'.hooks == r.hooks
  {
    if r.crashed || LocalRule(f) then r
    else Deploy(r, src + [f], d + ["rules"], f, None, dry)
  }

  /** The inner rules loop over one component's `rules/` listing. */
  function RuleFileSteps(r: Run, src: Path, d: Path, files: seq<Name>, dry: bool): (r': Run)
    ensures dry ==> r'.tree == r.tree
    ensures r'.hooks == r.hooks
  {
    if files == [] then r
    else RuleFileStep(RuleFileSteps(r, src, d, files[..|files| - 1], dry), src, d, files[|files| - 1], dry)
  }

  /** The listing without its machine-local files. */
  function Shared(files: seq<Name>): (r: seq<Name>)
    ensures forall f :: f in r <==> f in files && !LocalRule(f)
  {
    if files == [] then []
    else
      var front, f := files[..|files| - 1], files[|files| - 1];
      SplitLast(files);
      Shared(front) + if LocalRule(f) then [] else [f]
  }

  /** The rules loop behaves as if the `.local.md` files were not listed at
      all: they are neither read, nor compared, nor copied. */
  lemma {:induction false} RuleFileStepsSkipLocal(r: Run, src: Path, d: Path, files: seq<Name>, dry: bool)
    ensures RuleFileSteps(r, src, d, files, dry) == RuleFileSteps(r, src, d, Shared(files), dry)
  {
    if files != [] {
      var front, f := files[..|files| - 1], files[|files| - 1];
      RuleFileStepsSkipLocal(r, src, d, front, dry);
      var before := RuleFileSteps(r, src, d, front, dry);
      assert RuleFileSteps(r, src, d, files, dry) == RuleFileStep(before, src, d, f, dry);
      if LocalRule(f) {
        assert Shared(files) == Shared(front);
      } else {
        var s := Shared(front) + [f];
        assert Shared(files) == s && s[..|s| - 1] == Shared(front);
        assert RuleFileSteps(r, src, d, s, dry) == RuleFileStep(RuleFileSteps(r, src, d, Shared(front), dry), src, d, f, dry);
      }
    }
  }

  function RuleSteps(r: Run, d: Path, cs: seq<ComponentInfo>, dry: bool): (r': Run)
    ensures dry ==> r'.tree == r.tree
    ensures r'.hooks == r.hooks
  {
    if cs == [] then r
    else
      var r1 := RuleSteps(r, d, cs[..|cs| - 1], dry);
      var c := cs[|cs| - 1];
      if r1.crashed || !c.hasRules then r1
      else
        match ListDir(r1.tree, c.path + ["rules"])
        case None => r1.(crashed := true)
        case Some(files) => RuleFileSteps(r1, c.path + ["rules"], d, files, dry)
  }

  /** Writing a generated file: a dry run only reports it. */
  function Emit(r: Run, env: Env, p: Path, text: string, dry: bool): (r': Run)
    ensures dry ==> r' == r.(changed := true)
    ensures !dry && !r'.crashed ==> IsFile(r'.tree, p) && r'.tree[p].content == text && r'.changed
  {
    if dry then r.(changed := true)
    else
      match AfterWrite(r.tree, p, text, env.newFileMode)
      case None => r.(crashed := true)
      case Some(t) => r.(tree := t, changed := true)
  }

  /** `CLAUDE.md`: generated first, then written when missing or different. */
  function IndexStep(r: Run, env: Env, d: Path, cs: seq<ComponentInfo>, dry: bool): (r': Run)
    ensures dry ==> r'.tree == r.tree
    ensures r'.hooks == r.hooks
    ensures !r.crashed && !r'.crashed ==> ClaudeMd(r.tree, cs).Some?
    ensures !r.crashed && !r'.crashed && !dry ==>
      IsFile(r'.tree, d + ["CLAUDE.md"]) && r'.tree[d + ["CLAUDE.md"]].content == ClaudeMd(r.tree, cs).value
  {
    if r.crashed then r
    else
      match ClaudeMd(r.tree, cs)
      case None => r.(crashed := true)
      case Some(text) =>
        var p := d + ["CLAUDE.md"];
        if p !in r.tree then Emit(r, env, p, text, dry)
        else
          match ReadText(r.tree, p)
          case None => r.(crashed := true)
          case Some(existing) => if existing == text then r else Emit(r, env, p, text, dry)
  }

  /** `settings.json`: rewritten, pretty-printed, when the merge changed it. */
  function SettingsStep(r: Run, env: Env, d: Path, dry: bool): (r': Run)
    ensures dry ==> r'.tree == r.tree
    ensures !r.crashed && !r'.crashed && !dry ==>
      UpdateSettings(r.tree, env, d + ["settings.json"], r.hooks).Some? &&
      var (s, changed) := UpdateSettings(r.tree, env, d + ["settings.json"], r.hooks).value;
      changed ==> (IsFile(r'.tree, d + ["settings.json"]) &&
        r'.tree[d + ["settings.json"]].content == env.formatJson(s))
  {
    if r.crashed then r
    else
      var p := d + ["settings.json"];
      match UpdateSettings(r.tree, env, p, r.hooks)
      case None => r.(crashed := true)
      case Some((s, changed)) => if changed then Emit(r, env, p, env.formatJson(s), dry) else r
  }

  /** Everything `sync` does in a destination once it exists: skills, hooks,
      rules, then the two generated files. */
  function DestWork(r: Run, env: Env, d: Path, cs: seq<ComponentInfo>, dry: bool): (r': Run)
    ensures dry ==> r'.tree == r.tree
  {
    var r1 := SkillSteps(r, env.sha, d, cs, dry);
    var r2 := HookSteps(r1, d, cs, dry);
    var r3 := RuleSteps(r2, d, cs, dry);
    SettingsStep(IndexStep(r3, env, d, cs, dry), env, d, dry)
  }

  /** One destination: create it (outside a dry run), then skills, hooks,
      rules, `CLAUDE.md` and `settings.json`, with `allHooks` starting
      empty. */
  function DestStep(r: Run, env: Env, dest: string, cs: seq<ComponentInfo>, dry: bool): (r': Run)
    ensures dry ==> r'.tree == r.tree
  {
    if r.crashed then r
    else
      var d := ExpandPath(dest, env.home, env.cwd);
      match (if dry then Some(r.tree) else AfterMkdir(r.tree, d))
      case None => r.(crashed := true)
      case Some(t) => DestWork(Run(t, r.changed, [], false), env, d, cs, dry)
  }

  function DestSteps(r: Run, env: Env, dests: seq<string>, cs: seq<ComponentInfo>, dry: bool): (r': Run)
    ensures dry ==> r'.tree == r.tree
  {
    if dests == [] then r
    else DestStep(DestSteps(r, env, dests[..|dests| - 1], cs, dry), env, dests[|dests| - 1], cs, dry)
  }

  /** Once a call has thrown, the rest of each loop does nothing. */
  lemma {:induction false} SkillStepsCrashed(r: Run, sha: Digest, d: Path, cs: seq<ComponentInfo>, dry: bool, k: nat)
    requires k <= |cs| && SkillSteps(r, sha, d, cs[..k], dry).crashed
    ensures SkillSteps(r, sha, d, cs, dry) == SkillSteps(r, sha, d, cs[..k], dry)
    decreases |cs| - k
  {
    if k < |cs| {
      assert cs[..k + 1][..k] == cs[..k];
      SkillStepsCrashed(r, sha, d, cs, dry, k + 1);
    } else {
      assert cs[..k] == cs;
    }
  }

  lemma {:induction false} HookFileStepsCrashed(r: Run, src: Path, d: Path, files: seq<Name>, dry: bool, k: nat)
    requires k <= |files| && HookFileSteps(r, src, d, files[..k], dry).crashed
    ensures HookFileSteps(r, src, d, files, dry) == HookFileSteps(r, src, d, files[..k], dry)
    decreases |files| - k
  {
    if k < |files| {
      assert files[..k + 1][..k] == files[..k];
      HookFileStepsCrashed(r, src, d, files, dry, k + 1);
    } else {
      assert files[..k] == files;
    }
  }

  lemma {:induction false} HookStepsCrashed(r: Run, d: Path, cs: seq<ComponentInfo>, dry: bool, k: nat)
    requires k <= |cs| && HookSteps(r, d, cs[..k], dry).crashed
    ensures HookSteps(r, d, cs, dry) == HookSteps(r, d, cs[..k], dry)
    decreases |cs| - k
  {
    if k < |cs| {
      assert cs[..k + 1][..k] == cs[..k];
      HookStepsCrashed(r, d, cs, dry, k + 1);
    } else {
      assert cs[..k] == cs;
    }
  }

  lemma {:induction false} RuleFileStepsCrashed(r: Run, src: Path, d: Path, files: seq<Name>, dry: bool, k: nat)
    requires k <= |files| && RuleFileSteps(r, src, d, files[..k], dry).crashed
    ensures RuleFileSteps(r, src, d, files, dry) == RuleFileSteps(r, src, d, files[..k], dry)
    decreases |files| - k
  {
    if k < |files| {
      assert files[..k + 1][..k] == files[..k];
      RuleFileStepsCrashed(r, src, d, files, dry, k + 1);
    } else {
      assert files[..k] == files;
    }
  }

  lemma {:induction false} RuleStepsCrashed(r: Run, d: Path, cs: seq<ComponentInfo>, dry: bool, k: nat)
    requires k <= |cs| && RuleSteps(r, d, cs[..k], dry).crashed
    ensures RuleSteps(r, d, cs, dry) == RuleSteps(r, d, cs[..k], dry)
    decreases |cs| - k
  {
    if k < |cs| {
      assert cs[..k + 1][..k] == cs[..k];
      RuleStepsCrashed(r, d, cs, dry, k + 1);
    } else {
      assert cs[..k] == cs;
    }
  }

  lemma {:induction false} DestStepsCrashed(r: Run, env: Env, dests: seq<string>, cs: seq<ComponentInfo>, dry: bool, k: nat)
    requires k <= |dests| && DestSteps(r, env, dests[..k], cs, dry).crashed
    ensures DestSteps(r, env, dests, cs, dry) == DestSteps(r, env, dests[..k], cs, dry)
    decreases |dests| - k
  {
    if k < |dests| {
      assert dests[..k + 1][..k] == dests[..k];
      DestStepsCrashed(r, env, dests, cs, dry, k + 1);
    } else {
      assert dests[..k] == dests;
    }
  }

  /** One component's record after the first `n` destinations: each synced
      at the component's directory hash and stamped by its own clock
      reading. */
  function DestinationEntries(hash: string, dests: seq<string>, stamps: seq<string>, n: nat): Dict<DestinationStatus>
    requires n <= |dests| && n <= |stamps|
  {
    if n == 0 then []
    else Set(DestinationEntries(hash, dests, stamps, n - 1), dests[n - 1], Stamped(hash, stamps[n - 1]))
  }

  /** A destination synced at `hash` at time `stamp`. */
  function Stamped(hash: string, stamp: string): DestinationStatus {
    DestinationStatus(hash, Synced, stamp, None)
  }

  /** `n` successive readings of the clock from its `k`-th. */
  function ClockReadings(env: Env, k: nat, n: nat): seq<string> {
    seq(n, i requires 0 <= i < n => env.clock(k + i))
  }

  lemma ClockReading(env: Env, k: nat, n: nat, j: nat)
    requires j < n
    ensures |ClockReadings(env, k, n)| == n && ClockReadings(env, k, n)[j] == env.clock(k + j)
  {
  }

  /** The record names exactly the destinations handled so far, each synced
      at the component's hash with nothing pending. */
  lemma {:induction false} DestinationEntriesStamps(hash: string, dests: seq<string>, stamps: seq<string>, n: nat)
    requires n <= |dests| && n <= |stamps|
    ensures forall d :: d in Keys(DestinationEntries(hash, dests, stamps, n)) <==> d in dests[..n]
    ensures forall d :: d in dests[..n] ==> (Get(DestinationEntries(hash, dests, stamps, n), d).Some? &&
      Get(DestinationEntries(hash, dests, stamps, n), d).value.hash == hash &&
      Get(DestinationEntries(hash, dests, stamps, n), d).value.status == Synced &&
      Get(DestinationEntries(hash, dests, stamps, n), d).value.pendingAction.None?)
  {
    if n > 0 {
      assert dests[..n] == dests[..n - 1] + [dests[n - 1]];
      assert forall d :: d in dests[..n] <==> d in dests[..n - 1] || d == dests[n - 1];
      var rest := DestinationEntries(hash, dests, stamps, n - 1);
      var r := DestinationEntries(hash, dests, stamps, n);
      DestinationEntriesStamps(hash, dests, stamps, n - 1);
      SetKeys(rest, dests[n - 1], Stamped(hash, stamps[n - 1]));
      forall d | d in dests[..n]
        ensures Get(r, d).Some? && Get(r, d).value.hash == hash && Get(r, d).value.status == Synced &&
          Get(r, d).value.pendingAction.None?
      {
        if d != dests[n - 1] {
          assert Get(r, d) == Get(rest, d);
        }
      }
    }
  }

  /** The clock readings taken for the first `n` components, one per
      destination each. */
  function Readings(n: nat, dests: seq<string>): nat {
    if n == 0 then 0 else Readings(n - 1, dests) + |dests|
  }

  /** The lock loop over the enabled components; None where a directory hash
      throws. */
  function LockEntries(t: Tree, env: Env, cs: seq<ComponentInfo>, dests: seq<string>): Option<Dict<ComponentLockEntry>> {
    if cs == [] then Some([])
    else
      match LockEntries(t, env, cs[..|cs| - 1], dests)
      case None => None
      case Some(m) =>
        var c := cs[|cs| - 1];
        match DirectoryHashAsWritten(t, env.sha, c.path)
        case None => None
        case Some(h) =>
          Some(Set(m, c.name, ComponentLockEntry(h, DestinationEntries(h, dests, ClockReadings(env, Readings(|cs| - 1, dests), |dests|), |dests|))))
  }

  /** Once a directory hash has thrown, so has the whole loop. */
  lemma {:induction false} LockEntriesFailed(t: Tree, env: Env, cs: seq<ComponentInfo>, dests: seq<string>, k: nat)
    requires k <= |cs| && LockEntries(t, env, cs[..k], dests).None?
    ensures LockEntries(t, env, cs, dests).None?
    decreases |cs| - k
  {
    if k < |cs| {
      assert cs[..k + 1][..k] == cs[..k];
      LockEntriesFailed(t, env, cs, dests, k + 1);
    } else {
      assert cs[..k] == cs;
    }
  }

  /** What the lock states about a component: its directory's hash, and every
      destination synced at that hash. */
  ghost predicate Records(t: Tree, env: Env, c: ComponentInfo, e: ComponentLockEntry, dests: seq<string>) {
    DirectoryHashAsWritten(t, env.sha, c.path) == Some(e.sourceHash) &&
    (forall d :: d in Keys(e.destinations) <==> d in dests) &&
    forall d :: d in dests ==>
      Get(e.destinations, d).Some? && Get(e.destinations, d).value.hash == e.sourceHash &&
      Get(e.destinations, d).value.status == Synced && Get(e.destinations, d).value.pendingAction.None?
  }

  /** The lock loop's next step, for the method that runs it. */
  lemma LockEntriesNext(t: Tree, env: Env, cs: seq<ComponentInfo>, dests: seq<string>, i: nat, m: Dict<ComponentLockEntry>, h: string)
    requires i < |cs| && LockEntries(t, env, cs[..i], dests) == Some(m)
    requires DirectoryHashAsWritten(t, env.sha, cs[i].path) == Some(h)
    ensures LockEntries(t, env, cs[..i + 1], dests) ==
      Some(Set(m, cs[i].name, ComponentLockEntry(h, DestinationEntries(h, dests, ClockReadings(env, Readings(i, dests), |dests|), |dests|))))
  {
    assert cs[..i + 1][..i] == cs[..i];
  }

  /** The entry the last component adds. */
  function LastEntry(t: Tree, env: Env, cs: seq<ComponentInfo>, dests: seq<string>): ComponentLockEntry
    requires cs != [] && DirectoryHashAsWritten(t, env.sha, cs[|cs| - 1].path).Some?
  {
    var h := DirectoryHashAsWritten(t, env.sha, cs[|cs| - 1].path).value;
    ComponentLockEntry(h, DestinationEntries(h, dests, ClockReadings(env, Readings(|cs| - 1, dests), |dests|), |dests|))
  }

  lemma LockEntriesStep(t: Tree, env: Env, cs: seq<ComponentInfo>, dests: seq<string>)
    requires cs != [] && LockEntries(t, env, cs, dests).Some?
    ensures LockEntries(t, env, cs[..|cs| - 1], dests).Some?
    ensures DirectoryHashAsWritten(t, env.sha, cs[|cs| - 1].path).Some?
    ensures LockEntries(t, env, cs, dests).value ==
      Set(LockEntries(t, env, cs[..|cs| - 1], dests).value, cs[|cs| - 1].name, LastEntry(t, env, cs, dests))
  {
  }

  /** The new lock names exactly the enabled components. */
  lemma {:induction false} LockEntriesKeys(t: Tree, env: Env, cs: seq<ComponentInfo>, dests: seq<string>)
    requires LockEntries(t, env, cs, dests).Some?
    ensures var m := LockEntries(t, env, cs, dests).value;
      forall k :: k in Keys(m) <==> exists c :: c in cs && c.name == k
  {
    if cs != [] {
      var front, c := cs[..|cs| - 1], cs[|cs| - 1];
      SplitLast(cs);
      LockEntriesKeys(t, env, front, dests);
      LockEntriesStep(t, env, cs, dests);
      var m := LockEntries(t, env, front, dests).value;
      var e := LastEntry(t, env, cs, dests);
      var m' := Set(m, c.name, e);
      SetKeys(m, c.name, e);
      forall k
        ensures k in Keys(m') <==> exists x :: x in cs && x.name == k
      {
        if k in Keys(m') && k != c.name {
          assert k in Keys(m);
          var x :| x in front && x.name == k;
          assert x in cs;
        }
        if (exists x :: x in cs && x.name == k) && k != c.name {
          var x :| x in cs && x.name == k;
          assert x in front;
        }
      }
    }
  }

  /** Each entry of the new lock records a component of its name. */
  lemma {:induction false} LockEntriesRecord(t: Tree, env: Env, cs: seq<ComponentInfo>, dests: seq<string>)
    requires LockEntries(t, env, cs, dests).Some?
    ensures var m := LockEntries(t, env, cs, dests).value;
      forall k, e :: Get(m, k) == Some(e) ==> exists c :: c in cs && c.name == k && Records(t, env, c, e, dests)
  {
    if cs != [] {
      var front, c := cs[..|cs| - 1], cs[|cs| - 1];
      assert forall x :: x in front ==> x in cs;
      LockEntriesRecord(t, env, front, dests);
      LockEntriesStep(t, env, cs, dests);
      var m := LockEntries(t, env, front, dests).value;
      var e := LastEntry(t, env, cs, dests);
      var m' := Set(m, c.name, e);
      NewEntryRecords(t, env, c, e.sourceHash, dests, Readings(|cs| - 1, dests));
      forall k, e' | Get(m', k) == Some(e')
        ensures exists x :: x in cs && x.name == k && Records(t, env, x, e', dests)
      {
        if k != c.name {
          assert Get(m, k) == Some(e');
        }
      }
    }
  }

  lemma NewEntryRecords(t: Tree, env: Env, c: ComponentInfo, h: string, dests: seq<string>, k: nat)
    requires DirectoryHashAsWritten(t, env.sha, c.path) == Some(h)
    ensures Records(t, env, c, ComponentLockEntry(h, DestinationEntries(h, dests, ClockReadings(env, k, |dests|), |dests|)), dests)
  {
    DestinationEntriesStamps(h, dests, ClockReadings(env, k, |dests|), |dests|);
    assert dests[..|dests|] == dests;
  }

  /** How the action ended. */
  datatype Verdict = NoComponents | NoDestinations | Crashed | Finished(changed: bool)

  /** The disk afterwards, the verdict, and the configured names that were
      reported missing. */
  datatype Outcome = Outcome(tree: Tree, verdict: Verdict, missing: seq<string>)

  /** After the loop over the destinations: compute the new lock over the
      disk the copies left, and save it unless this is a dry run. */
  function Finish(r: Run, env: Env, enabled: seq<ComponentInfo>, dests: seq<string>, missing: seq<string>, dry: bool): (o: Outcome)
    ensures dry ==> o.tree == r.tree
    ensures o.missing == missing
    ensures o.verdict != NoComponents && o.verdict != NoDestinations
  {
    if r.crashed then Outcome(r.tree, Crashed, missing)
    else
      match LockEntries(r.tree, env, enabled, dests)
      case None => Outcome(r.tree, Crashed, missing)
      case Some(comps) =>
        if dry then Outcome(r.tree, Finished(r.changed), missing)
        else
          match SaveLock(r.tree, env, LockFile(comps, ""))
          case None => Outcome(r.tree, Crashed, missing)
          case Some(t2) => Outcome(t2, Finished(r.changed), missing)
  }

  /** The whole action: the three reads, then the rest. */
  function RunSync(t: Tree, env: Env, dry: bool): (o: Outcome)
    ensures dry ==> o.tree == t
    ensures Load(t, env).None? ==> o == Outcome(t, Crashed, [])
  {
    match Load(t, env)
    case None => Outcome(t, Crashed, [])
    case Some((cfg, available)) => Proceed(t, env, cfg, available, dry)
  }

  /** The action once the configuration and the catalog are read: stop early
      when nothing is configured; otherwise report the missing names, sync
      every destination and finish. */
  function Proceed(t: Tree, env: Env, cfg: Config, available: seq<ComponentInfo>, dry: bool): (o: Outcome)
    ensures dry ==> o.tree == t
    ensures o.verdict == NoComponents <==> cfg.components == []
    ensures o.verdict == NoDestinations <==> cfg.components != [] && cfg.destinations == []
    ensures o.verdict == NoComponents || o.verdict == NoDestinations ==> o.tree == t && o.missing == []
    ensures cfg.components != [] && cfg.destinations != [] ==> o.missing == MissingNames(cfg.components, available)
  {
    if cfg.components == [] then Outcome(t, NoComponents, [])
    else if cfg.destinations == [] then Outcome(t, NoDestinations, [])
    else
      var enabled := Enabled(cfg.components, available);
      var r := DestSteps(Run(t, false, [], false), env, cfg.destinations, enabled, dry);
      Finish(r, env, enabled, cfg.destinations, MissingNames(cfg.components, available), dry)
  }

  /** The lock a run that did not throw computes, over the disk its copies
      left behind. */
  function NewLock(t: Tree, env: Env, dry: bool): Option<LockFile> {
    match Load(t, env)
    case None => None
    case Some((cfg, available)) =>
      var enabled := Enabled(cfg.components, available);
      var r := DestSteps(Run(t, false, [], false), env, cfg.destinations, enabled, dry);
      match LockEntries(r.tree, env, enabled, cfg.destinations)
      case None => None
      case Some(comps) => Some(LockFile(comps, ""))
  }

  /** A run that finishes outside a dry run leaves a lock behind that loads
      back as the lock it computed, with an empty global hash. */
  lemma SyncSavesLock(t: Tree, env: Env)
    requires RunSync(t, env, false).verdict.Finished?
    requires var l := NewLock(t, env, false).value;
      env.parseYaml(env.formatYaml(EncodeLock(l))) == Some(EncodeLock(l))
    ensures var l := NewLock(t, env, false).value;
      l.globalHash == "" &&
      LoadLockFile(RunSync(t, env, false).tree, env) == Some(LockView(Obj(EncodeComponents(l.components)), Str("")))
  {
    var cfg := Load(t, env).value.0;
    var enabled := Enabled(cfg.components, Load(t, env).value.1);
    var r := DestSteps(Run(t, false, [], false), env, cfg.destinations, enabled, false);
    SavedLockLoadsBack(r.tree, env, NewLock(t, env, false).value);
  }
}
