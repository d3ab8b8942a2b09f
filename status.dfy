/** The `status` action of src/commands/status.ts: a read-only pass over the
    configured destinations that reports, for each deployed artifact, whether
    it is absent, equal to its source or different. It is a function of the
    disk: the action only reads. Each loop is a fold over a prefix of its
    list threading a `Pass`; a call that throws ends the report with the
    lines printed so far. */
module Status {
  import opened Text
  import opened Paths
  import opened Files
  import opened ConfigFile
  import opened Engine
  import opened Index
  import opened SyncSpec

  datatype Kind = Skill | Hook | Rule

  /** One line of the report. An artifact line also records the configured
      component it was checked for and the two paths it compared. */
  datatype Entry =
    | Undeployed(dest: string)
    | Artifact(dest: string, kind: Kind, component: string, item: string, src: Path, dst: Path, standing: Standing)
    | Generated(dest: string, file: Name, present: bool)

  /** The lines printed so far and whether a call has thrown. */
  datatype Pass = Pass(entries: seq<Entry>, threw: bool)

  /** What the action reports once its three reads succeeded. */
  datatype Report = NoComponents | NoDestinations | Listing(pass: Pass)

  /** One artifact: `existsSync` of the deployed copy, then both reads and the
      comparison. */
  function CheckFile(p: Pass, t: Tree, dest: string, kind: Kind, component: string, item: string,
                     src: Path, dst: Path): Pass
  {
    if p.threw then p
    else
      match Classify(t, src, dst)
      case None => Pass(p.entries, true)
      case Some(s) => Pass(p.entries + [Artifact(dest, kind, component, item, src, dst, s)], false)
  }

  /** The skills loop: each configured name whose component has a
      `SKILL.md`. */
  function CheckSkills(t: Tree, p: Pass, dest: string, d: Path, names: seq<string>,
                       available: seq<ComponentInfo>): Pass
  {
    if names == [] then p
    else
      var p1 := CheckSkills(t, p, dest, d, names[..|names| - 1], available);
      var n := names[|names| - 1];
      var c := Find(available, n);
      if c.None? || !c.value.hasSkillMd then p1
      else CheckFile(p1, t, dest, Skill, n, n, c.value.path + ["SKILL.md"], (d + ["skills", n]) + ["SKILL.md"])
  }

  /** The inner hooks loop over one component's `hooks/` listing: only the
      `.sh` files. */
  function CheckHookFiles(t: Tree, p: Pass, dest: string, component: string, src: Path, d: Path,
                          files: seq<Name>): Pass
  {
    if files == [] then p
    else
      var p1 := CheckHookFiles(t, p, dest, component, src, d, files[..|files| - 1]);
      var f := files[|files| - 1];
      if EndsWith(f, ".sh") then CheckFile(p1, t, dest, Hook, component, f, src + [f], (d + ["hooks"]) + [f])
      else p1
  }

  /** The hooks loop: each configured name whose component has `hooks/`,
      whose listing throws when it is not a directory. */
  function CheckHooks(t: Tree, p: Pass, dest: string, d: Path, names: seq<string>,
                      available: seq<ComponentInfo>): Pass
  {
    if names == [] then p
    else
      var p1 := CheckHooks(t, p, dest, d, names[..|names| - 1], available);
      var c := Find(available, names[|names| - 1]);
      if p1.threw || c.None? || !c.value.hasHooks then p1
      else
        match ListDir(t, c.value.path + ["hooks"])
        case None => Pass(p1.entries, true)
        case Some(files) => CheckHookFiles(t, p1, dest, names[|names| - 1], c.value.path + ["hooks"], d, files)
  }

  /** The inner rules loop: only shared rule files, as the index takes
      them. */
  function CheckRuleFiles(t: Tree, p: Pass, dest: string, component: string, src: Path, d: Path,
                          files: seq<Name>): Pass
  {
    if files == [] then p
    else
      var p1 := CheckRuleFiles(t, p, dest, component, src, d, files[..|files| - 1]);
      var f := files[|files| - 1];
      if Indexed(f) then CheckFile(p1, t, dest, Rule, component, f, src + [f], (d + ["rules"]) + [f])
      else p1
  }

  function CheckRules(t: Tree, p: Pass, dest: string, d: Path, names: seq<string>,
                      available: seq<ComponentInfo>): Pass
  {
    if names == [] then p
    else
      var p1 := CheckRules(t, p, dest, d, names[..|names| - 1], available);
      var c := Find(available, names[|names| - 1]);
      if p1.threw || c.None? || !c.value.hasRules then p1
      else
        match ListDir(t, c.value.path + ["rules"])
        case None => Pass(p1.entries, true)
        case Some(files) => CheckRuleFiles(t, p1, dest, names[|names| - 1], c.value.path + ["rules"], d, files)
  }

  /** One destination: "(not deployed)" and nothing else when it does not
      exist; otherwise skills, hooks and rules, then whether the two
      generated files exist. */
  function CheckDestination(t: Tree, env: Env, p: Pass, dest: string, names: seq<string>,
                            available: seq<ComponentInfo>): Pass
  {
    if p.threw then p
    else
      var d := ExpandPath(dest, env.home, env.cwd);
      if d !in t then Pass(p.entries + [Undeployed(dest)], false)
      else
        var p3 := CheckRules(t, CheckHooks(t, CheckSkills(t, p, dest, d, names, available), dest, d, names, available),
                             dest, d, names, available);
        if p3.threw then p3
        else
          Pass(p3.entries + [Generated(dest, "CLAUDE.md", d + ["CLAUDE.md"] in t),
                             Generated(dest, "settings.json", d + ["settings.json"] in t)], false)
  }

  function CheckDestinations(t: Tree, env: Env, p: Pass, dests: seq<string>, names: seq<string>,
                             available: seq<ComponentInfo>): Pass
  {
    if dests == [] then p
    else
      CheckDestination(t, env, CheckDestinations(t, env, p, dests[..|dests| - 1], names, available),
                       dests[|dests| - 1], names, available)
  }

  /** The action: the three reads, the two early returns, then every
      destination. None when one of the reads throws. */
  function StatusReport(t: Tree, env: Env): Option<Report> {
    match Load(t, env)
    case None => None
    case Some((cfg, available)) =>
      if cfg.components == [] then Some(Report.NoComponents)
      else if cfg.destinations == [] then Some(Report.NoDestinations)
      else Some(Listing(CheckDestinations(t, env, Pass([], false), cfg.destinations, cfg.components, available)))
  }

  /** The report exists exactly when the three reads succeed, and it lists
      nothing when no component or no destination is configured. */
  lemma StatusVerdicts(t: Tree, env: Env)
    ensures StatusReport(t, env).Some? <==> Load(t, env).Some?
    ensures Load(t, env).Some? ==>
      var cfg := Load(t, env).value.0;
      (StatusReport(t, env).value == Report.NoComponents <==> cfg.components == []) &&
      (StatusReport(t, env).value == Report.NoDestinations <==> cfg.components != [] && cfg.destinations == [])
  {
  }

  /** `readdirSync(dir)` succeeds and lists `f`. */
  predicate Listed(t: Tree, dir: Path, f: Name) {
    ListDir(t, dir).Some? && f in ListDir(t, dir).value
  }

  /** What an artifact line of kind `kind` says about the component `c` it
      was checked for, in the destination directory `d`: the component has
      the flag the loop tests, the item is the skill's own name or a file of
      its `hooks/` or `rules/` listing that the filter keeps, and the two
      paths are the source inside the component and its deployed copy. */
  predicate Fits(t: Tree, d: Path, c: ComponentInfo, kind: Kind, component: string, item: string,
                 src: Path, dst: Path)
  {
    match kind
    case Skill =>
      c.hasSkillMd && item == component &&
      src == c.path + ["SKILL.md"] && dst == (d + ["skills", item]) + ["SKILL.md"]
    case Hook =>
      c.hasHooks && Listed(t, c.path + ["hooks"], item) && EndsWith(item, ".sh") &&
      src == (c.path + ["hooks"]) + [item] && dst == (d + ["hooks"]) + [item]
    case Rule =>
      c.hasRules && Listed(t, c.path + ["rules"], item) && Indexed(item) &&
      src == (c.path + ["rules"]) + [item] && dst == (d + ["rules"]) + [item]
  }

  /** What each line of the report asserts about the disk, given the
      configured names and the discovered components: an artifact line is for
      a configured name that has a component with the relevant flag, and
      carries the comparison of that component's file with its deployed
      copy. */
  predicate Sound(t: Tree, env: Env, names: seq<string>, available: seq<ComponentInfo>, e: Entry) {
    match e
    case Undeployed(dest) => ExpandPath(dest, env.home, env.cwd) !in t
    case Artifact(dest, kind, component, item, src, dst, standing) =>
      Classify(t, src, dst) == Some(standing) &&
      component in names && Find(available, component).Some? &&
      Fits(t, ExpandPath(dest, env.home, env.cwd), Find(available, component).value, kind, component, item, src, dst)
    case Generated(dest, file, present) =>
      present == (ExpandPath(dest, env.home, env.cwd) + [file] in t)
  }

  predicate AllSound(t: Tree, env: Env, names: seq<string>, available: seq<ComponentInfo>, es: seq<Entry>) {
    forall e :: e in es ==> Sound(t, env, names, available, e)
  }

  lemma CheckFileSound(p: Pass, t: Tree, env: Env, names: seq<string>, available: seq<ComponentInfo>,
                       dest: string, kind: Kind, component: string, item: string, src: Path, dst: Path)
    requires AllSound(t, env, names, available, p.entries)
    requires component in names && Find(available, component).Some?
    requires Fits(t, ExpandPath(dest, env.home, env.cwd), Find(available, component).value, kind, component, item, src, dst)
    ensures AllSound(t, env, names, available, CheckFile(p, t, dest, kind, component, item, src, dst).entries)
  {
  }

  lemma {:induction false} CheckSkillsSound(t: Tree, env: Env, all: seq<string>, available: seq<ComponentInfo>,
                                            p: Pass, dest: string, names: seq<string>)
    requires AllSound(t, env, all, available, p.entries)
    requires forall n :: n in names ==> n in all
    ensures var d := ExpandPath(dest, env.home, env.cwd);
      AllSound(t, env, all, available, CheckSkills(t, p, dest, d, names, available).entries)
  {
    if names != [] {
      var d := ExpandPath(dest, env.home, env.cwd);
      var p1 := CheckSkills(t, p, dest, d, names[..|names| - 1], available);
      CheckSkillsSound(t, env, all, available, p, dest, names[..|names| - 1]);
      var n := names[|names| - 1];
      var c := Find(available, n);
      if c.Some? && c.value.hasSkillMd {
        CheckFileSound(p1, t, env, all, available, dest, Skill, n, n, c.value.path + ["SKILL.md"],
                       (d + ["skills", n]) + ["SKILL.md"]);
      }
    }
  }

  lemma {:induction false} CheckHookFilesSound(t: Tree, env: Env, all: seq<string>, available: seq<ComponentInfo>,
                                               p: Pass, dest: string, component: string, src: Path, files: seq<Name>)
    requires AllSound(t, env, all, available, p.entries)
    requires component in all && Find(available, component).Some? && Find(available, component).value.hasHooks
    requires src == Find(available, component).value.path + ["hooks"]
    requires forall f :: f in files ==> Listed(t, src, f)
    ensures var d := ExpandPath(dest, env.home, env.cwd);
      AllSound(t, env, all, available, CheckHookFiles(t, p, dest, component, src, d, files).entries)
  {
    if files != [] {
      var d := ExpandPath(dest, env.home, env.cwd);
      var p1 := CheckHookFiles(t, p, dest, component, src, d, files[..|files| - 1]);
      CheckHookFilesSound(t, env, all, available, p, dest, component, src, files[..|files| - 1]);
      var f := files[|files| - 1];
      if EndsWith(f, ".sh") {
        CheckFileSound(p1, t, env, all, available, dest, Hook, component, f, src + [f], (d + ["hooks"]) + [f]);
      }
    }
  }

  lemma {:induction false} CheckHooksSound(t: Tree, env: Env, all: seq<string>, available: seq<ComponentInfo>,
                                           p: Pass, dest: string, names: seq<string>)
    requires AllSound(t, env, all, available, p.entries)
    requires forall n :: n in names ==> n in all
    ensures var d := ExpandPath(dest, env.home, env.cwd);
      AllSound(t, env, all, available, CheckHooks(t, p, dest, d, names, available).entries)
  {
    if names != [] {
      var d := ExpandPath(dest, env.home, env.cwd);
      var p1 := CheckHooks(t, p, dest, d, names[..|names| - 1], available);
      CheckHooksSound(t, env, all, available, p, dest, names[..|names| - 1]);
      var n := names[|names| - 1];
      var c := Find(available, n);
      if !p1.threw && c.Some? && c.value.hasHooks && ListDir(t, c.value.path + ["hooks"]).Some? {
        CheckHookFilesSound(t, env, all, available, p1, dest, n, c.value.path + ["hooks"],
                            ListDir(t, c.value.path + ["hooks"]).value);
      }
    }
  }

  lemma {:induction false} CheckRuleFilesSound(t: Tree, env: Env, all: seq<string>, available: seq<ComponentInfo>,
                                               p: Pass, dest: string, component: string, src: Path, files: seq<Name>)
    requires AllSound(t, env, all, available, p.entries)
    requires component in all && Find(available, component).Some? && Find(available, component).value.hasRules
    requires src == Find(available, component).value.path + ["rules"]
    requires forall f :: f in files ==> Listed(t, src, f)
    ensures var d := ExpandPath(dest, env.home, env.cwd);
      AllSound(t, env, all, available, CheckRuleFiles(t, p, dest, component, src, d, files).entries)
  {
    if files != [] {
      var d := ExpandPath(dest, env.home, env.cwd);
      var p1 := CheckRuleFiles(t, p, dest, component, src, d, files[..|files| - 1]);
      CheckRuleFilesSound(t, env, all, available, p, dest, component, src, files[..|files| - 1]);
      var f := files[|files| - 1];
      if Indexed(f) {
        CheckFileSound(p1, t, env, all, available, dest, Rule, component, f, src + [f], (d + ["rules"]) + [f]);
      }
    }
  }

  lemma {:induction false} CheckRulesSound(t: Tree, env: Env, all: seq<string>, available: seq<ComponentInfo>,
                                           p: Pass, dest: string, names: seq<string>)
    requires AllSound(t, env, all, available, p.entries)
    requires forall n :: n in names ==> n in all
    ensures var d := ExpandPath(dest, env.home, env.cwd);
      AllSound(t, env, all, available, CheckRules(t, p, dest, d, names, available).entries)
  {
    if names != [] {
      var d := ExpandPath(dest, env.home, env.cwd);
      var p1 := CheckRules(t, p, dest, d, names[..|names| - 1], available);
      CheckRulesSound(t, env, all, available, p, dest, names[..|names| - 1]);
      var n := names[|names| - 1];
      var c := Find(available, n);
      if !p1.threw && c.Some? && c.value.hasRules && ListDir(t, c.value.path + ["rules"]).Some? {
        CheckRuleFilesSound(t, env, all, available, p1, dest, n, c.value.path + ["rules"],
                            ListDir(t, c.value.path + ["rules"]).value);
      }
    }
  }

  lemma CheckDestinationSound(t: Tree, env: Env, p: Pass, dest: string, names: seq<string>,
                              available: seq<ComponentInfo>)
    requires AllSound(t, env, names, available, p.entries)
    ensures AllSound(t, env, names, available, CheckDestination(t, env, p, dest, names, available).entries)
  {
    var d := ExpandPath(dest, env.home, env.cwd);
    if !p.threw && d in t {
      CheckSkillsSound(t, env, names, available, p, dest, names);
      var p1 := CheckSkills(t, p, dest, d, names, available);
      CheckHooksSound(t, env, names, available, p1, dest, names);
      var p2 := CheckHooks(t, p1, dest, d, names, available);
      CheckRulesSound(t, env, names, available, p2, dest, names);
    }
  }

  lemma {:induction false} CheckDestinationsSound(t: Tree, env: Env, p: Pass, dests: seq<string>, names: seq<string>,
                                                  available: seq<ComponentInfo>)
    requires AllSound(t, env, names, available, p.entries)
    ensures AllSound(t, env, names, available, CheckDestinations(t, env, p, dests, names, available).entries)
  {
    if dests != [] {
      CheckDestinationsSound(t, env, p, dests[..|dests| - 1], names, available);
      CheckDestinationSound(t, env, CheckDestinations(t, env, p, dests[..|dests| - 1], names, available),
                            dests[|dests| - 1], names, available);
    }
  }

  /** Every line of the report is true of the disk: an artifact line is for
      a configured name whose component has the flag its loop tests (a name
      with no component, or without the flag, gets no line), it compares
      that component's `SKILL.md`, or a `.sh` hook or shared rule file of
      its listing, with the deployed copy, and its standing is that
      three-way comparison; a destination is reported as not deployed only
      when it does not exist, and the generated files are reported present
      exactly when they exist. */
  lemma StatusSound(t: Tree, env: Env)
    requires StatusReport(t, env).Some? && StatusReport(t, env).value.Listing?
    ensures var (cfg, available) := Load(t, env).value;
      AllSound(t, env, cfg.components, available, StatusReport(t, env).value.pass.entries)
  {
    var (cfg, available) := Load(t, env).value;
    CheckDestinationsSound(t, env, Pass([], false), cfg.destinations, cfg.components, available);
  }

  /** A destination that does not exist adds its "(not deployed)" line and
      nothing else. */
  lemma MissingDestination(t: Tree, env: Env, p: Pass, dest: string, names: seq<string>, available: seq<ComponentInfo>)
    requires !p.threw && ExpandPath(dest, env.home, env.cwd) !in t
    ensures CheckDestination(t, env, p, dest, names, available) == Pass(p.entries + [Undeployed(dest)], false)
  {
  }

  /** The report holds the line comparing `src` with `dst`, and that line
      carries their three-way comparison. */
  predicate HasLine(t: Tree, es: seq<Entry>, dest: string, kind: Kind, component: string, item: string,
                    src: Path, dst: Path)
  {
    Classify(t, src, dst).Some? && Artifact(dest, kind, component, item, src, dst, Classify(t, src, dst).value) in es
  }

  /** Every configured name whose component has a `SKILL.md` has its line. */
  predicate SkillsReported(t: Tree, es: seq<Entry>, dest: string, d: Path, names: seq<string>,
                           available: seq<ComponentInfo>)
  {
    forall n :: n in names && Find(available, n).Some? && Find(available, n).value.hasSkillMd ==>
      HasLine(t, es, dest, Skill, n, n, Find(available, n).value.path + ["SKILL.md"], (d + ["skills", n]) + ["SKILL.md"])
  }

  /** Every `.sh` file listed in the `hooks/` of a configured component that
      has one has its line. */
  ghost predicate HooksReported(t: Tree, es: seq<Entry>, dest: string, d: Path, names: seq<string>,
                          available: seq<ComponentInfo>)
  {
    forall n, f :: n in names && Find(available, n).Some? && Find(available, n).value.hasHooks &&
                   Listed(t, Find(available, n).value.path + ["hooks"], f) && EndsWith(f, ".sh") ==>
      HasLine(t, es, dest, Hook, n, f, (Find(available, n).value.path + ["hooks"]) + [f], (d + ["hooks"]) + [f])
  }

  /** Every shared rule file listed in the `rules/` of a configured component
      that has one has its line. */
  ghost predicate RulesReported(t: Tree, es: seq<Entry>, dest: string, d: Path, names: seq<string>,
                          available: seq<ComponentInfo>)
  {
    forall n, f :: n in names && Find(available, n).Some? && Find(available, n).value.hasRules &&
                   Listed(t, Find(available, n).value.path + ["rules"], f) && Indexed(f) ==>
      HasLine(t, es, dest, Rule, n, f, (Find(available, n).value.path + ["rules"]) + [f], (d + ["rules"]) + [f])
  }

  /** What the report says of one destination: "(not deployed)" when it does
      not exist; otherwise a line for every skill, hook and rule of the
      configured components, and the two generated files. */
  ghost predicate DestinationReported(t: Tree, env: Env, names: seq<string>, available: seq<ComponentInfo>,
                                dest: string, es: seq<Entry>)
  {
    var d := ExpandPath(dest, env.home, env.cwd);
    if d !in t then Undeployed(dest) in es
    else
      SkillsReported(t, es, dest, d, names, available) &&
      HooksReported(t, es, dest, d, names, available) &&
      RulesReported(t, es, dest, d, names, available) &&
      Generated(dest, "CLAUDE.md", d + ["CLAUDE.md"] in t) in es &&
      Generated(dest, "settings.json", d + ["settings.json"] in t) in es
  }

  /** `q` comes later in the same report as `p`: it holds every line of `p`,
      and `p` had not thrown unless `q` has. */
  predicate Extends(p: Pass, q: Pass) {
    (forall e :: e in p.entries ==> e in q.entries) && (!q.threw ==> !p.threw)
  }

  lemma {:induction false} CheckHookFilesKeeps(t: Tree, p: Pass, dest: string, component: string, src: Path, d: Path,
                                               files: seq<Name>)
    ensures Extends(p, CheckHookFiles(t, p, dest, component, src, d, files))
  {
    if files != [] {
      var p1 := CheckHookFiles(t, p, dest, component, src, d, files[..|files| - 1]);
      var f := files[|files| - 1];
      CheckHookFilesKeeps(t, p, dest, component, src, d, files[..|files| - 1]);
      CheckFileKeeps(p1, t, dest, Hook, component, f, src + [f], (d + ["hooks"]) + [f]);
    }
  }

  lemma {:induction false} CheckRuleFilesKeeps(t: Tree, p: Pass, dest: string, component: string, src: Path, d: Path,
                                               files: seq<Name>)
    ensures Extends(p, CheckRuleFiles(t, p, dest, component, src, d, files))
  {
    if files != [] {
      var p1 := CheckRuleFiles(t, p, dest, component, src, d, files[..|files| - 1]);
      var f := files[|files| - 1];
      CheckRuleFilesKeeps(t, p, dest, component, src, d, files[..|files| - 1]);
      CheckFileKeeps(p1, t, dest, Rule, component, f, src + [f], (d + ["rules"]) + [f]);
    }
  }

  lemma {:induction false} CheckSkillsKeeps(t: Tree, p: Pass, dest: string, d: Path, names: seq<string>,
                                            available: seq<ComponentInfo>)
    ensures Extends(p, CheckSkills(t, p, dest, d, names, available))
  {
    if names != [] {
      var p1 := CheckSkills(t, p, dest, d, names[..|names| - 1], available);
      var n := names[|names| - 1];
      var c := Find(available, n);
      CheckSkillsKeeps(t, p, dest, d, names[..|names| - 1], available);
      if c.Some? && c.value.hasSkillMd {
        CheckFileKeeps(p1, t, dest, Skill, n, n, c.value.path + ["SKILL.md"], (d + ["skills", n]) + ["SKILL.md"]);
      }
    }
  }

  lemma {:induction false} CheckHooksKeeps(t: Tree, p: Pass, dest: string, d: Path, names: seq<string>,
                                           available: seq<ComponentInfo>)
    ensures Extends(p, CheckHooks(t, p, dest, d, names, available))
  {
    if names != [] {
      var p1 := CheckHooks(t, p, dest, d, names[..|names| - 1], available);
      var n := names[|names| - 1];
      var c := Find(available, n);
      CheckHooksKeeps(t, p, dest, d, names[..|names| - 1], available);
      if !p1.threw && c.Some? && c.value.hasHooks && ListDir(t, c.value.path + ["hooks"]).Some? {
        CheckHookFilesKeeps(t, p1, dest, n, c.value.path + ["hooks"], d, ListDir(t, c.value.path + ["hooks"]).value);
      }
    }
  }

  lemma {:induction false} CheckRulesKeeps(t: Tree, p: Pass, dest: string, d: Path, names: seq<string>,
                                           available: seq<ComponentInfo>)
    ensures Extends(p, CheckRules(t, p, dest, d, names, available))
  {
    if names != [] {
      var p1 := CheckRules(t, p, dest, d, names[..|names| - 1], available);
      var n := names[|names| - 1];
      var c := Find(available, n);
      CheckRulesKeeps(t, p, dest, d, names[..|names| - 1], available);
      if !p1.threw && c.Some? && c.value.hasRules && ListDir(t, c.value.path + ["rules"]).Some? {
        CheckRuleFilesKeeps(t, p1, dest, n, c.value.path + ["rules"], d, ListDir(t, c.value.path + ["rules"]).value);
      }
    }
  }

  lemma CheckDestinationKeeps(t: Tree, env: Env, p: Pass, dest: string, names: seq<string>,
                              available: seq<ComponentInfo>)
    ensures Extends(p, CheckDestination(t, env, p, dest, names, available))
  {
    var d := ExpandPath(dest, env.home, env.cwd);
    var p1 := CheckSkills(t, p, dest, d, names, available);
    var p2 := CheckHooks(t, p1, dest, d, names, available);
    CheckSkillsKeeps(t, p, dest, d, names, available);
    CheckHooksKeeps(t, p1, dest, d, names, available);
    CheckRulesKeeps(t, p2, dest, d, names, available);
  }

  lemma {:induction false} CheckDestinationsKeeps(t: Tree, env: Env, p: Pass, dests: seq<string>, names: seq<string>,
                                                  available: seq<ComponentInfo>)
    ensures Extends(p, CheckDestinations(t, env, p, dests, names, available))
  {
    if dests != [] {
      CheckDestinationsKeeps(t, env, p, dests[..|dests| - 1], names, available);
      CheckDestinationKeeps(t, env, CheckDestinations(t, env, p, dests[..|dests| - 1], names, available),
                            dests[|dests| - 1], names, available);
    }
  }

  /** Every `.sh` file of a listing that was checked through without a throw
      has its line, comparing the listed file with its deployed copy. */
  lemma {:induction false} CheckHookFilesComplete(t: Tree, p: Pass, dest: string, component: string, src: Path,
                                                  d: Path, files: seq<Name>)
    requires !CheckHookFiles(t, p, dest, component, src, d, files).threw
    ensures forall f :: f in files && EndsWith(f, ".sh") ==>
      HasLine(t, CheckHookFiles(t, p, dest, component, src, d, files).entries, dest, Hook, component, f,
              src + [f], (d + ["hooks"]) + [f])
  {
    if files != [] {
      var front, f := files[..|files| - 1], files[|files| - 1];
      var p1 := CheckHookFiles(t, p, dest, component, src, d, front);
      SplitLast(files);
      CheckFileKeeps(p1, t, dest, Hook, component, f, src + [f], (d + ["hooks"]) + [f]);
      assert !p1.threw;
      CheckHookFilesComplete(t, p, dest, component, src, d, front);
    }
  }

  /** Every shared rule file of a listing checked through without a throw
      has its line. */
  lemma {:induction false} CheckRuleFilesComplete(t: Tree, p: Pass, dest: string, component: string, src: Path,
                                                  d: Path, files: seq<Name>)
    requires !CheckRuleFiles(t, p, dest, component, src, d, files).threw
    ensures forall f :: f in files && Indexed(f) ==>
      HasLine(t, CheckRuleFiles(t, p, dest, component, src, d, files).entries, dest, Rule, component, f,
              src + [f], (d + ["rules"]) + [f])
  {
    if files != [] {
      var front, f := files[..|files| - 1], files[|files| - 1];
      var p1 := CheckRuleFiles(t, p, dest, component, src, d, front);
      SplitLast(files);
      CheckFileKeeps(p1, t, dest, Rule, component, f, src + [f], (d + ["rules"]) + [f]);
      assert !p1.threw;
      CheckRuleFilesComplete(t, p, dest, component, src, d, front);
    }
  }

  /** Every configured name whose component has a `SKILL.md` has its line
      once the skills loop ran through without a throw. */
  lemma {:induction false} CheckSkillsComplete(t: Tree, p: Pass, dest: string, d: Path, names: seq<string>,
                                               available: seq<ComponentInfo>)
    requires !CheckSkills(t, p, dest, d, names, available).threw
    ensures SkillsReported(t, CheckSkills(t, p, dest, d, names, available).entries, dest, d, names, available)
  {
    if names != [] {
      var front, n := names[..|names| - 1], names[|names| - 1];
      var p1 := CheckSkills(t, p, dest, d, front, available);
      SplitLast(names);
      var c := Find(available, n);
      if c.Some? && c.value.hasSkillMd {
        CheckFileKeeps(p1, t, dest, Skill, n, n, c.value.path + ["SKILL.md"], (d + ["skills", n]) + ["SKILL.md"]);
      }
      assert !p1.threw;
      CheckSkillsComplete(t, p, dest, d, front, available);
    }
  }

  /** Every `.sh` file of the `hooks/` listing of every configured name whose
      component has one has its line once the hooks loop ran through
      without a throw. */
  lemma {:induction false} CheckHooksComplete(t: Tree, p: Pass, dest: string, d: Path, names: seq<string>,
                                              available: seq<ComponentInfo>)
    requires !CheckHooks(t, p, dest, d, names, available).threw
    ensures HooksReported(t, CheckHooks(t, p, dest, d, names, available).entries, dest, d, names, available)
  {
    if names != [] {
      var front, n := names[..|names| - 1], names[|names| - 1];
      var p1 := CheckHooks(t, p, dest, d, front, available);
      SplitLast(names);
      var c := Find(available, n);
      assert !p1.threw;
      CheckHooksComplete(t, p, dest, d, front, available);
      if c.Some? && c.value.hasHooks {
        var files := ListDir(t, c.value.path + ["hooks"]).value;
        CheckHookFilesKeeps(t, p1, dest, n, c.value.path + ["hooks"], d, files);
        CheckHookFilesComplete(t, p1, dest, n, c.value.path + ["hooks"], d, files);
      }
    }
  }

  /** Every shared rule file of the `rules/` listing of every configured name
      whose component has one has its line once the rules loop ran through
      without a throw. */
  lemma {:induction false} CheckRulesComplete(t: Tree, p: Pass, dest: string, d: Path, names: seq<string>,
                                              available: seq<ComponentInfo>)
    requires !CheckRules(t, p, dest, d, names, available).threw
    ensures RulesReported(t, CheckRules(t, p, dest, d, names, available).entries, dest, d, names, available)
  {
    if names != [] {
      var front, n := names[..|names| - 1], names[|names| - 1];
      var p1 := CheckRules(t, p, dest, d, front, available);
      SplitLast(names);
      var c := Find(available, n);
      assert !p1.threw;
      CheckRulesComplete(t, p, dest, d, front, available);
      if c.Some? && c.value.hasRules {
        var files := ListDir(t, c.value.path + ["rules"]).value;
        CheckRuleFilesKeeps(t, p1, dest, n, c.value.path + ["rules"], d, files);
        CheckRuleFilesComplete(t, p1, dest, n, c.value.path + ["rules"], d, files);
      }
    }
  }

  /** A destination checked through without a throw is reported in full. */
  lemma CheckDestinationComplete(t: Tree, env: Env, p: Pass, dest: string, names: seq<string>,
                                 available: seq<ComponentInfo>)
    requires !CheckDestination(t, env, p, dest, names, available).threw
    ensures DestinationReported(t, env, names, available, dest, CheckDestination(t, env, p, dest, names, available).entries)
  {
    var d := ExpandPath(dest, env.home, env.cwd);
    if d in t {
      var p1 := CheckSkills(t, p, dest, d, names, available);
      var p2 := CheckHooks(t, p1, dest, d, names, available);
      var p3 := CheckRules(t, p2, dest, d, names, available);
      var es := CheckDestination(t, env, p, dest, names, available).entries;
      assert !p3.threw && es[..|p3.entries|] == p3.entries;
      CheckRulesKeeps(t, p2, dest, d, names, available);
      CheckHooksKeeps(t, p1, dest, d, names, available);
      CheckSkillsComplete(t, p, dest, d, names, available);
      CheckHooksComplete(t, p1, dest, d, names, available);
      CheckRulesComplete(t, p2, dest, d, names, available);
      KeptReported(t, p1.entries, p3.entries, dest, d, names, available);
      KeptReported(t, p2.entries, p3.entries, dest, d, names, available);
      KeptReported(t, p3.entries, es, dest, d, names, available);
    }
  }

  /** Lines that were reported stay reported as lines are added. */
  lemma KeptReported(t: Tree, es: seq<Entry>, es': seq<Entry>, dest: string, d: Path, names: seq<string>,
                     available: seq<ComponentInfo>)
    requires forall e :: e in es ==> e in es'
    ensures SkillsReported(t, es, dest, d, names, available) ==> SkillsReported(t, es', dest, d, names, available)
    ensures HooksReported(t, es, dest, d, names, available) ==> HooksReported(t, es', dest, d, names, available)
    ensures RulesReported(t, es, dest, d, names, available) ==> RulesReported(t, es', dest, d, names, available)
  {
  }

  /** Every destination of a pass that did not throw is reported in full. */
  lemma {:induction false} CheckDestinationsComplete(t: Tree, env: Env, p: Pass, dests: seq<string>, names: seq<string>,
                                                     available: seq<ComponentInfo>)
    requires !CheckDestinations(t, env, p, dests, names, available).threw
    ensures forall dest :: dest in dests ==>
      DestinationReported(t, env, names, available, dest, CheckDestinations(t, env, p, dests, names, available).entries)
  {
    if dests != [] {
      var front, dest := dests[..|dests| - 1], dests[|dests| - 1];
      var p1 := CheckDestinations(t, env, p, front, names, available);
      var q := CheckDestinations(t, env, p, dests, names, available);
      SplitLast(dests);
      CheckDestinationKeeps(t, env, p1, dest, names, available);
      CheckDestinationsComplete(t, env, p, front, names, available);
      CheckDestinationComplete(t, env, p1, dest, names, available);
      forall x | x in front
        ensures DestinationReported(t, env, names, available, x, q.entries)
      {
        var d := ExpandPath(x, env.home, env.cwd);
        KeptReported(t, p1.entries, q.entries, x, d, names, available);
      }
    }
  }

  /** The report is complete: when it ran through without a throw, every
      configured destination that does not exist has its "(not deployed)"
      line, and every one that exists has the line of each configured skill,
      of each `.sh` hook and shared rule file of each configured component
      that has `hooks/` or `rules/`, and of its two generated files. */
  lemma StatusComplete(t: Tree, env: Env)
    requires StatusReport(t, env).Some? && StatusReport(t, env).value.Listing?
    requires !StatusReport(t, env).value.pass.threw
    ensures var (cfg, available) := Load(t, env).value;
      forall dest :: dest in cfg.destinations ==>
        DestinationReported(t, env, cfg.components, available, dest, StatusReport(t, env).value.pass.entries)
  {
    var (cfg, available) := Load(t, env).value;
    CheckDestinationsComplete(t, env, Pass([], false), cfg.destinations, cfg.components, available);
  }

  /** A check keeps the lines before it, and adds its own unless it throws. */
  lemma CheckFileKeeps(p: Pass, t: Tree, dest: string, kind: Kind, component: string, item: string,
                       src: Path, dst: Path)
    ensures var q := CheckFile(p, t, dest, kind, component, item, src, dst);
      (forall e :: e in p.entries ==> e in q.entries) &&
      (!q.threw ==> !p.threw && Artifact(dest, kind, component, item, src, dst, Classify(t, src, dst).value) in q.entries)
  {
  }

  /** A destination that exists and was checked through without a throw
      ends with the two generated files, reported present exactly when they
      exist. */
  lemma DeployedDestinationEnds(t: Tree, env: Env, p: Pass, dest: string, names: seq<string>,
                                available: seq<ComponentInfo>)
    requires ExpandPath(dest, env.home, env.cwd) in t
    requires !CheckDestination(t, env, p, dest, names, available).threw
    ensures var es, d := CheckDestination(t, env, p, dest, names, available).entries, ExpandPath(dest, env.home, env.cwd);
      |es| >= |p.entries| + 2 &&
      es[|es| - 2] == Generated(dest, "CLAUDE.md", d + ["CLAUDE.md"] in t) &&
      es[|es| - 1] == Generated(dest, "settings.json", d + ["settings.json"] in t)
  {
    var d := ExpandPath(dest, env.home, env.cwd);
    var p3 := CheckRules(t, CheckHooks(t, CheckSkills(t, p, dest, d, names, available), dest, d, names, available),
                         dest, d, names, available);
    assert !p.threw;
    ChecksExtend(t, p, dest, d, names, available);
  }

  /** The three loops of a destination only append lines. */
  lemma ChecksExtend(t: Tree, p: Pass, dest: string, d: Path, names: seq<string>, available: seq<ComponentInfo>)
    ensures var p3 := CheckRules(t, CheckHooks(t, CheckSkills(t, p, dest, d, names, available), dest, d, names, available),
                                 dest, d, names, available);
      |p3.entries| >= |p.entries|
  {
    var p1 := CheckSkills(t, p, dest, d, names, available);
    var p2 := CheckHooks(t, p1, dest, d, names, available);
    CheckSkillsGrow(t, p, dest, d, names, available);
    CheckHooksGrow(t, p1, dest, d, names, available);
    CheckRulesGrow(t, p2, dest, d, names, available);
  }

  lemma {:induction false} CheckSkillsGrow(t: Tree, p: Pass, dest: string, d: Path, names: seq<string>,
                                           available: seq<ComponentInfo>)
    ensures |CheckSkills(t, p, dest, d, names, available).entries| >= |p.entries|
  {
    if names != [] {
      CheckSkillsGrow(t, p, dest, d, names[..|names| - 1], available);
    }
  }

  lemma {:induction false} CheckHookFilesGrow(t: Tree, p: Pass, dest: string, component: string, src: Path, d: Path,
                                              files: seq<Name>)
    ensures |CheckHookFiles(t, p, dest, component, src, d, files).entries| >= |p.entries|
  {
    if files != [] {
      CheckHookFilesGrow(t, p, dest, component, src, d, files[..|files| - 1]);
    }
  }

  lemma {:induction false} CheckHooksGrow(t: Tree, p: Pass, dest: string, d: Path, names: seq<string>,
                                          available: seq<ComponentInfo>)
    ensures |CheckHooks(t, p, dest, d, names, available).entries| >= |p.entries|
  {
    if names != [] {
      var p1 := CheckHooks(t, p, dest, d, names[..|names| - 1], available);
      CheckHooksGrow(t, p, dest, d, names[..|names| - 1], available);
      var c := Find(available, names[|names| - 1]);
      if !p1.threw && c.Some? && c.value.hasHooks && ListDir(t, c.value.path + ["hooks"]).Some? {
        CheckHookFilesGrow(t, p1, dest, names[|names| - 1], c.value.path + ["hooks"], d, ListDir(t, c.value.path + ["hooks"]).value);
      }
    }
  }

  lemma {:induction false} CheckRuleFilesGrow(t: Tree, p: Pass, dest: string, component: string, src: Path, d: Path,
                                              files: seq<Name>)
    ensures |CheckRuleFiles(t, p, dest, component, src, d, files).entries| >= |p.entries|
  {
    if files != [] {
      CheckRuleFilesGrow(t, p, dest, component, src, d, files[..|files| - 1]);
    }
  }

  lemma {:induction false} CheckRulesGrow(t: Tree, p: Pass, dest: string, d: Path, names: seq<string>,
                                          available: seq<ComponentInfo>)
    ensures |CheckRules(t, p, dest, d, names, available).entries| >= |p.entries|
  {
    if names != [] {
      var p1 := CheckRules(t, p, dest, d, names[..|names| - 1], available);
      CheckRulesGrow(t, p, dest, d, names[..|names| - 1], available);
      var c := Find(available, names[|names| - 1]);
      if !p1.threw && c.Some? && c.value.hasRules && ListDir(t, c.value.path + ["rules"]).Some? {
        CheckRuleFilesGrow(t, p1, dest, names[|names| - 1], c.value.path + ["rules"], d, ListDir(t, c.value.path + ["rules"]).value);
      }
    }
  }

  /** `status` and a dry `sync` judge a file alike: status reports it equal
      to its source exactly when the dry run leaves the run untouched, and
      reports it absent or different exactly when the dry run records a
      change; both throw on the same files. */
  lemma CheckAgreesWithDryRun(r: Run, p: Pass, dest: string, kind: Kind, component: string, item: string,
                              src: Path, dir: Path, name: Name, mode: Option<nat>)
    requires !r.crashed && !p.threw
    ensures var q, r' := CheckFile(p, r.tree, dest, kind, component, item, src, dir + [name]),
                         Deploy(r, src, dir, name, mode, true);
      q.threw == r'.crashed &&
      (!q.threw ==> q.entries[|q.entries| - 1].standing == Same ==> r' == r) &&
      (!q.threw ==> q.entries[|q.entries| - 1].standing != Same ==> r' == r.(changed := true))
  {
  }
}
