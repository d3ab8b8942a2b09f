/** The `sync` action of src/commands/sync.ts as it runs: loops over the
    destinations and the enabled components that copy files on the disk in
    place. Each method is proved to leave the disk, `hasChanges` and
    `allHooks` exactly as the fold of `SyncSpec` that describes it; `ok` is
    false where a call threw, and the method then returns at once. */
module Sync {
  import opened Text
  import opened Paths
  import opened Values
  import opened Files
  import opened ConfigFile
  import opened Hashing
  import opened Engine
  import opened Settings
  import opened Index
  import opened SyncSpec

  /** Copy one file from `src` to `dir`/`name` unless the deployed copy
      already equals it. */
  method DeployFile(fs: FileSystem, src: Path, dir: Path, name: Name, mode: Option<nat>, dry: bool,
                    changed: bool, ghost hooks: seq<string>)
    returns (changed': bool, ok: bool)
    requires fs.Valid()
    modifies fs
    ensures fs.Valid()
    ensures Run(fs.tree, changed', hooks, !ok) ==
      Deploy(Run(old(fs.tree), changed, hooks, false), src, dir, name, mode, dry)
  {
    ghost var r0 := Run(fs.tree, changed, hooks, false);
    var dst := dir + [name];
    var standing := Classify(fs.tree, src, dst);
    if standing.None? {
      assert Deploy(r0, src, dir, name, mode, dry) == r0.(crashed := true);
      return changed, false;
    }
    if standing == Some(Same) {
      assert Deploy(r0, src, dir, name, mode, dry) == r0;
      return changed, true;
    }
    if dry {
      assert Deploy(r0, src, dir, name, mode, dry) == r0.(changed := true);
      return true, true;
    }
    var isNew := standing == Some(Absent);
    assert Deploy(r0, src, dir, name, mode, dry) == Install(r0, src, dir, dst, mode, isNew);
    changed', ok := InstallFile(fs, src, dir, dst, mode, isNew, changed, hooks);
  }

  /** Create the directory of a new copy, copy, and give the copy `mode`
      when one is set. */
  method InstallFile(fs: FileSystem, src: Path, dir: Path, dst: Path, mode: Option<nat>, isNew: bool,
                     changed: bool, ghost hooks: seq<string>)
    returns (changed': bool, ok: bool)
    requires fs.Valid()
    modifies fs
    ensures fs.Valid()
    ensures Run(fs.tree, changed', hooks, !ok) ==
      Install(Run(old(fs.tree), changed, hooks, false), src, dir, dst, mode, isNew)
  {
    changed' := changed;
    if isNew {
      ok := fs.Mkdir(dir);
      if !ok {
        return;
      }
    }
    ok := fs.Copy(src, dst);
    if !ok {
      return;
    }
    if mode.Some? {
      ok := fs.Chmod(dst, mode.value);
      if !ok {
        return;
      }
    }
    changed' := true;
  }

  /** The skills loop: each enabled component with a `SKILL.md` deploys it
      to `skills/<name>/SKILL.md`. */
  method SyncSkills(fs: FileSystem, sha: Digest, d: Path, cs: seq<ComponentInfo>, dry: bool,
                    changed: bool, ghost hooks: seq<string>)
    returns (changed': bool, ok: bool)
    requires fs.Valid()
    modifies fs
    ensures fs.Valid()
    ensures Run(fs.tree, changed', hooks, !ok) == SkillSteps(Run(old(fs.tree), changed, hooks, false), sha, d, cs, dry)
  {
    ghost var r0 := Run(fs.tree, changed, hooks, false);
    changed', ok := changed, true;
    for i := 0 to |cs|
      invariant fs.Valid()
      invariant Run(fs.tree, changed', hooks, false) == SkillSteps(r0, sha, d, cs[..i], dry)
    {
      assert cs[..i + 1][..i] == cs[..i];
      var c := cs[i];
      if !c.hasSkillMd {
        continue;
      }
      var sourceHash := CalculateDirectoryHash(fs, sha, c.path);
      if sourceHash.None? {
        SkillStepsCrashed(r0, sha, d, cs, dry, i + 1);
        return changed', false;
      }
      changed', ok := DeployFile(fs, c.path + ["SKILL.md"], d + ["skills", c.name], "SKILL.md", None, dry, changed', hooks);
      if !ok {
        SkillStepsCrashed(r0, sha, d, cs, dry, i + 1);
        return;
      }
    }
    assert cs[..|cs|] == cs;
  }

  /** The inner hooks loop over one listing: push the name onto `allHooks`,
      then deploy the file, executable. */
  method SyncHookFiles(fs: FileSystem, src: Path, d: Path, files: seq<Name>, dry: bool,
                       changed: bool, hooks: seq<string>)
    returns (changed': bool, hooks': seq<string>, ok: bool)
    requires fs.Valid()
    modifies fs
    ensures fs.Valid()
    ensures Run(fs.tree, changed', hooks', !ok) == HookFileSteps(Run(old(fs.tree), changed, hooks, false), src, d, files, dry)
  {
    ghost var r0 := Run(fs.tree, changed, hooks, false);
    changed', hooks', ok := changed, hooks, true;
    for j := 0 to |files|
      invariant fs.Valid()
      invariant Run(fs.tree, changed', hooks', false) == HookFileSteps(r0, src, d, files[..j], dry)
    {
      assert files[..j + 1][..j] == files[..j];
      var f := files[j];
      hooks' := hooks' + [f];
      changed', ok := DeployFile(fs, src + [f], d + ["hooks"], f, Some(ExecutableMode), dry, changed', hooks');
      if !ok {
        HookFileStepsCrashed(r0, src, d, files, dry, j + 1);
        return;
      }
    }
    assert files[..|files|] == files;
  }

  /** The hooks loop over the enabled components with a `hooks/` directory. */
  method SyncHooks(fs: FileSystem, d: Path, cs: seq<ComponentInfo>, dry: bool, changed: bool, hooks: seq<string>)
    returns (changed': bool, hooks': seq<string>, ok: bool)
    requires fs.Valid()
    modifies fs
    ensures fs.Valid()
    ensures Run(fs.tree, changed', hooks', !ok) == HookSteps(Run(old(fs.tree), changed, hooks, false), d, cs, dry)
  {
    ghost var r0 := Run(fs.tree, changed, hooks, false);
    changed', hooks', ok := changed, hooks, true;
    for i := 0 to |cs|
      invariant fs.Valid()
      invariant Run(fs.tree, changed', hooks', false) == HookSteps(r0, d, cs[..i], dry)
    {
      assert cs[..i + 1][..i] == cs[..i];
      var c := cs[i];
      if !c.hasHooks {
        continue;
      }
      var listing := ListDir(fs.tree, c.path + ["hooks"]);
      if listing.None? {
        HookStepsCrashed(r0, d, cs, dry, i + 1);
        return changed', hooks', false;
      }
      changed', hooks', ok := SyncHookFiles(fs, c.path + ["hooks"], d, listing.value, dry, changed', hooks');
      if !ok {
        HookStepsCrashed(r0, d, cs, dry, i + 1);
        return;
      }
    }
    assert cs[..|cs|] == cs;
  }

  /** The inner rules loop over one listing, skipping `.local.md` files. */
  method SyncRuleFiles(fs: FileSystem, src: Path, d: Path, files: seq<Name>, dry: bool,
                       changed: bool, ghost hooks: seq<string>)
    returns (changed': bool, ok: bool)
    requires fs.Valid()
    modifies fs
    ensures fs.Valid()
    ensures Run(fs.tree, changed', hooks, !ok) == RuleFileSteps(Run(old(fs.tree), changed, hooks, false), src, d, files, dry)
  {
    ghost var r0 := Run(fs.tree, changed, hooks, false);
    changed', ok := changed, true;
    for j := 0 to |files|
      invariant fs.Valid()
      invariant Run(fs.tree, changed', hooks, false) == RuleFileSteps(r0, src, d, files[..j], dry)
    {
      assert files[..j + 1][..j] == files[..j];
      var f := files[j];
      if EndsWith(f, ".local.md") {
        continue;
      }
      changed', ok := DeployFile(fs, src + [f], d + ["rules"], f, None, dry, changed', hooks);
      if !ok {
        RuleFileStepsCrashed(r0, src, d, files, dry, j + 1);
        return;
      }
    }
    assert files[..|files|] == files;
  }

  /** The rules loop over the enabled components with a `rules/` directory. */
  method SyncRules(fs: FileSystem, d: Path, cs: seq<ComponentInfo>, dry: bool, changed: bool, ghost hooks: seq<string>)
    returns (changed': bool, ok: bool)
    requires fs.Valid()
    modifies fs
    ensures fs.Valid()
    ensures Run(fs.tree, changed', hooks, !ok) == RuleSteps(Run(old(fs.tree), changed, hooks, false), d, cs, dry)
  {
    ghost var r0 := Run(fs.tree, changed, hooks, false);
    changed', ok := changed, true;
    for i := 0 to |cs|
      invariant fs.Valid()
      invariant Run(fs.tree, changed', hooks, false) == RuleSteps(r0, d, cs[..i], dry)
    {
      assert cs[..i + 1][..i] == cs[..i];
      var c := cs[i];
      if !c.hasRules {
        continue;
      }
      var listing := ListDir(fs.tree, c.path + ["rules"]);
      if listing.None? {
        RuleStepsCrashed(r0, d, cs, dry, i + 1);
        return changed', false;
      }
      changed', ok := SyncRuleFiles(fs, c.path + ["rules"], d, listing.value, dry, changed', hooks);
      if !ok {
        RuleStepsCrashed(r0, d, cs, dry, i + 1);
        return;
      }
    }
    assert cs[..|cs|] == cs;
  }

  /** Write a generated file, unless this is a dry run. */
  method EmitFile(fs: FileSystem, env: Env, p: Path, text: string, dry: bool, changed: bool, ghost hooks: seq<string>)
    returns (changed': bool, ok: bool)
    requires fs.Valid()
    modifies fs
    ensures fs.Valid()
    ensures Run(fs.tree, changed', hooks, !ok) == Emit(Run(old(fs.tree), changed, hooks, false), env, p, text, dry)
  {
    if dry {
      return true, true;
    }
    ok := fs.WriteFile(p, text, env.newFileMode);
    changed' := ok || changed;
  }

  /** `CLAUDE.md`: generate it, then write it when missing or different. */
  method WriteIndex(fs: FileSystem, env: Env, d: Path, cs: seq<ComponentInfo>, dry: bool,
                    changed: bool, ghost hooks: seq<string>)
    returns (changed': bool, ok: bool)
    requires fs.Valid()
    modifies fs
    ensures fs.Valid()
    ensures Run(fs.tree, changed', hooks, !ok) == IndexStep(Run(old(fs.tree), changed, hooks, false), env, d, cs, dry)
  {
    var content := GenerateClaudeMd(fs, cs);
    if content.None? {
      return changed, false;
    }
    var p := d + ["CLAUDE.md"];
    if p in fs.tree {
      var existing := ReadText(fs.tree, p);
      if existing.None? {
        return changed, false;
      }
      if existing.value == content.value {
        return changed, true;
      }
    }
    changed', ok := EmitFile(fs, env, p, content.value, dry, changed, hooks);
  }

  /** `settings.json`: merge the gathered hooks and write it when it changed. */
  method WriteSettings(fs: FileSystem, env: Env, d: Path, dry: bool, changed: bool, hooks: seq<string>)
    returns (changed': bool, ok: bool)
    requires fs.Valid()
    modifies fs
    ensures fs.Valid()
    ensures Run(fs.tree, changed', hooks, !ok) == SettingsStep(Run(old(fs.tree), changed, hooks, false), env, d, dry)
  {
    var p := d + ["settings.json"];
    var updated := UpdateSettingsWithHooks(fs, env, p, hooks);
    if updated.None? {
      return changed, false;
    }
    if !updated.value.1 {
      return changed, true;
    }
    changed', ok := EmitFile(fs, env, p, env.formatJson(updated.value.0), dry, changed, hooks);
  }

  /** The body of the loop over the destinations. */
  method SyncDestination(fs: FileSystem, env: Env, dest: string, cs: seq<ComponentInfo>, dry: bool,
                         changed: bool, ghost prior: seq<string>)
    returns (changed': bool, ok: bool)
    requires fs.Valid()
    modifies fs
    ensures fs.Valid()
    ensures var r := DestStep(Run(old(fs.tree), changed, prior, false), env, dest, cs, dry);
      fs.tree == r.tree && changed' == r.changed && ok == !r.crashed
  {
    var d := ExpandPath(dest, env.home, env.cwd);
    if !dry {
      ok := fs.Mkdir(d);
      if !ok {
        return changed, false;
      }
    }
    changed', ok := DeployInto(fs, env, d, cs, dry, changed);
  }

  /** The body of the loop over destinations once the destination exists. */
  method DeployInto(fs: FileSystem, env: Env, d: Path, cs: seq<ComponentInfo>, dry: bool, changed: bool)
    returns (changed': bool, ok: bool)
    requires fs.Valid()
    modifies fs
    ensures fs.Valid()
    ensures var r := DestWork(Run(old(fs.tree), changed, [], false), env, d, cs, dry);
      fs.tree == r.tree && changed' == r.changed && ok == !r.crashed
  {
    var hooks: seq<string> := [];
    changed', ok := SyncSkills(fs, env.sha, d, cs, dry, changed, hooks);
    ghost var r1 := Run(fs.tree, changed', hooks, !ok);
    if !ok {
      HookStepsCrashed(r1, d, cs, dry, 0);
      RuleStepsCrashed(r1, d, cs, dry, 0);
      return;
    }
    changed', hooks, ok := SyncHooks(fs, d, cs, dry, changed', hooks);
    ghost var r2 := Run(fs.tree, changed', hooks, !ok);
    if !ok {
      RuleStepsCrashed(r2, d, cs, dry, 0);
      return;
    }
    changed', ok := SyncRules(fs, d, cs, dry, changed', hooks);
    if !ok {
      return;
    }
    changed', ok := WriteIndex(fs, env, d, cs, dry, changed', hooks);
    if !ok {
      return;
    }
    changed', ok := WriteSettings(fs, env, d, dry, changed', hooks);
  }

  /** The lock loop: each enabled component's directory hash, then the
      status of every destination. */
  method BuildLock(fs: FileSystem, env: Env, cs: seq<ComponentInfo>, dests: seq<string>)
    returns (r: Option<LockFile>)
    ensures LockEntries(fs.tree, env, cs, dests).None? ==> r.None?
    ensures LockEntries(fs.tree, env, cs, dests).Some? ==> r == Some(LockFile(LockEntries(fs.tree, env, cs, dests).value, ""))
  {
    var comps: Dict<ComponentLockEntry> := [];
    var tick := 0;
    for i := 0 to |cs|
      invariant LockEntries(fs.tree, env, cs[..i], dests) == Some(comps)
      invariant tick == Readings(i, dests)
    {
      var c := cs[i];
      var sourceHash := CalculateDirectoryHash(fs, env.sha, c.path);
      if sourceHash.None? {
        assert cs[..i + 1][..i] == cs[..i];
        LockEntriesFailed(fs.tree, env, cs, dests, i + 1);
        return None;
      }
      LockEntriesNext(fs.tree, env, cs, dests, i, comps, sourceHash.value);
      comps, tick := StampDestinations(fs, env, comps, c, sourceHash.value, dests, tick);
    }
    assert cs[..|cs|] == cs;
    r := Some(LockFile(comps, ""));
  }

  /** Assign a component's entry with no destinations, then fill its nested
      `destinations` object, one clock reading per destination. */
  method StampDestinations(fs: FileSystem, env: Env, before: Dict<ComponentLockEntry>, c: ComponentInfo,
                           sourceHash: string, dests: seq<string>, tick: nat)
    returns (comps: Dict<ComponentLockEntry>, tick': nat)
    requires DirectoryHashAsWritten(fs.tree, env.sha, c.path) == Some(sourceHash)
    ensures comps == Set(before, c.name, ComponentLockEntry(sourceHash, DestinationEntries(sourceHash, dests, ClockReadings(env, tick, |dests|), |dests|)))
    ensures tick' == tick + |dests|
  {
    comps := Set(before, c.name, ComponentLockEntry(sourceHash, []));
    var statuses;
    statuses, tick' := StampStatuses(fs, env, c, sourceHash, dests, tick);
    SetTwice(before, c.name, ComponentLockEntry(sourceHash, []), ComponentLockEntry(sourceHash, statuses));
    comps := Set(comps, c.name, ComponentLockEntry(sourceHash, statuses));
  }

  /** The nested loop: each destination is recorded as synced at the
      component's directory hash, computed afresh, and at the next clock
      reading. */
  method StampStatuses(fs: FileSystem, env: Env, c: ComponentInfo, sourceHash: string, dests: seq<string>, tick: nat)
    returns (statuses: Dict<DestinationStatus>, tick': nat)
    requires DirectoryHashAsWritten(fs.tree, env.sha, c.path) == Some(sourceHash)
    ensures statuses == DestinationEntries(sourceHash, dests, ClockReadings(env, tick, |dests|), |dests|)
    ensures tick' == tick + |dests|
  {
    statuses := [];
    ghost var stamps := ClockReadings(env, tick, |dests|);
    for j := 0 to |dests|
      invariant statuses == DestinationEntries(sourceHash, dests, stamps, j)
    {
      var hash := CalculateDirectoryHash(fs, env.sha, c.path);
      var stamp := env.clock(tick + j);
      ClockReading(env, tick, |dests|, j);
      statuses := Set(statuses, dests[j], Stamped(hash.value, stamp));
    }
    tick' := tick + |dests|;
  }

  /** The loop over the destinations, from `hasChanges` false. */
  method SyncDestinations(fs: FileSystem, env: Env, dests: seq<string>, enabled: seq<ComponentInfo>, dry: bool)
    returns (changed: bool, ok: bool)
    requires fs.Valid()
    modifies fs
    ensures fs.Valid()
    ensures var r := DestSteps(Run(old(fs.tree), false, [], false), env, dests, enabled, dry);
      fs.tree == r.tree && changed == r.changed && ok == !r.crashed
  {
    ghost var r0 := Run(fs.tree, false, [], false);
    changed, ok := false, true;
    for i := 0 to |dests|
      invariant fs.Valid()
      invariant var r := DestSteps(r0, env, dests[..i], enabled, dry);
        fs.tree == r.tree && changed == r.changed && !r.crashed
    {
      assert dests[..i + 1][..i] == dests[..i];
      ghost var r := DestSteps(r0, env, dests[..i], enabled, dry);
      changed, ok := SyncDestination(fs, env, dests[i], enabled, dry, changed, r.hooks);
      if !ok {
        DestStepsCrashed(r0, env, dests, enabled, dry, i + 1);
        return;
      }
    }
    assert dests[..|dests|] == dests;
  }

  /** Compute the new lock and save it unless this is a dry run. */
  method FinishSync(fs: FileSystem, env: Env, enabled: seq<ComponentInfo>, dests: seq<string>, missing: seq<string>,
                    dry: bool, changed: bool, ghost hooks: seq<string>)
    returns (verdict: Verdict)
    requires fs.Valid()
    modifies fs
    ensures fs.Valid()
    ensures Outcome(fs.tree, verdict, missing) == Finish(Run(old(fs.tree), changed, hooks, false), env, enabled, dests, missing, dry)
  {
    var newLock := BuildLock(fs, env, enabled, dests);
    if newLock.None? {
      return Crashed;
    }
    if !dry {
      var saved := SaveLockFile(fs, env, newLock.value);
      if !saved {
        return Crashed;
      }
    }
    verdict := Finished(changed);
  }

  /** The three reads the action starts with: the configuration, the lock
      and the catalog. */
  method LoadInputs(fs: FileSystem, env: Env) returns (r: Option<(Config, seq<ComponentInfo>)>)
    ensures r == Load(fs.tree, env)
  {
    var config := LoadConfig(fs.tree, env);
    if config.None? {
      return None;
    }
    var lock := LoadLockFile(fs.tree, env);
    if lock.None? {
      return None;
    }
    var available := ListAvailableComponents(fs, env);
    if available.None? {
      return None;
    }
    r := Some((config.value, available.value));
  }

  /** The `sync` action: load, then carry on with what was read. */
  method SyncAction(fs: FileSystem, env: Env, dry: bool) returns (verdict: Verdict, missing: seq<string>)
    requires fs.Valid()
    modifies fs
    ensures fs.Valid()
    ensures Outcome(fs.tree, verdict, missing) == RunSync(old(fs.tree), env, dry)
  {
    var loaded := LoadInputs(fs, env);
    if loaded.None? {
      return Crashed, [];
    }
    verdict, missing := SyncLoaded(fs, env, loaded.value.0, loaded.value.1, dry);
  }

  /** Stop early when no components or no destinations are configured;
      otherwise report the missing names, sync every destination, then
      compute the new lock and save it unless this is a dry run. */
  method SyncLoaded(fs: FileSystem, env: Env, cfg: Config, available: seq<ComponentInfo>, dry: bool)
    returns (verdict: Verdict, missing: seq<string>)
    requires fs.Valid()
    modifies fs
    ensures fs.Valid()
    ensures Outcome(fs.tree, verdict, missing) == Proceed(old(fs.tree), env, cfg, available, dry)
  {
    if cfg.components == [] {
      return NoComponents, [];
    }
    if cfg.destinations == [] {
      return NoDestinations, [];
    }
    var enabled := Enabled(cfg.components, available);
    missing := MissingNames(cfg.components, available);
    var changed, ok := SyncDestinations(fs, env, cfg.destinations, enabled, dry);
    if !ok {
      return Crashed, missing;
    }
    verdict := FinishSync(fs, env, enabled, cfg.destinations, missing, dry, changed, []);
  }
}
