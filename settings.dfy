/** `updateSettingsWithHooks` in src/commands/sync.ts: the `hooks` section of a
    destination's `settings.json` is rebuilt from the hook files deployed
    there, every other setting is left alone, and the caller learns whether
    the serialised document changed. */
module Settings {
  import opened Text
  import opened Paths
  import opened Values
  import opened Files
  import opened ConfigFile

  /** `basename(f, ".sh")` for a bare file name. */
  function Stem(f: string): (r: string)
    ensures EndsWith(f, ".sh") ==> r + ".sh" == f
    ensures !EndsWith(f, ".sh") ==> r == f
  {
    if EndsWith(f, ".sh") then f[..|f| - 3] else f
  }

  function HookCommand(f: string): string {
    "bash $HOME/.claude/hooks/" + f
  }

  /** One item of a category list: a single command hook running the
      deployed file, under the "Bash" matcher when `matcher` is set. */
  function HookEntry(f: string, matcher: bool): Value {
    var run := ("hooks", Arr([Obj([("type", Str("command")), ("command", Str(HookCommand(f)))])]));
    Obj(if matcher then [("matcher", Str("Bash")), run] else [run])
  }

  /** The three lists the loop fills. */
  datatype Categories = Categories(preToolUse: seq<Value>, notification: seq<Value>, stop: seq<Value>)

  /** Which list a hook file feeds, by its stem. */
  predicate Blocks(f: string) { Stem(f) == "block-main-commit" }
  predicate Waits(f: string) { Stem(f) == "notify-waiting" }
  predicate Stops(f: string) { Stem(f) == "notify-stop" }

  /** One turn of the loop: push the entry of `f` onto the list its stem
      selects. */
  function Push(c: Categories, f: string): Categories {
    if Blocks(f) then c.(preToolUse := c.preToolUse + [HookEntry(f, true)])
    else if Waits(f) then c.(notification := c.notification + [HookEntry(f, false)])
    else if Stops(f) then c.(stop := c.stop + [HookEntry(f, false)])
    else c
  }

  /** The lists after the loop over `files`, in file order. */
  function Categorize(files: seq<string>): Categories {
    if files == [] then Categories([], [], [])
    else Push(Categorize(files[..|files| - 1]), files[|files| - 1])
  }

  /** A push appends to each list what it would append to empty lists. */
  lemma PushAppends(c: Categories, f: string)
    ensures var e := Push(Categories([], [], []), f);
      Push(c, f) == Categories(c.preToolUse + e.preToolUse, c.notification + e.notification, c.stop + e.stop)
  {
    assert c.preToolUse + [] == c.preToolUse && c.notification + [] == c.notification && c.stop + [] == c.stop;
  }

  /** Each list keeps the file order, one entry per file, repeated names
      included: the files of one run followed by another fill each list with
      the first run's entries, then the second's. */
  lemma {:induction false} CategorizeConcat(a: seq<string>, b: seq<string>)
    ensures Categorize(a + b).preToolUse == Categorize(a).preToolUse + Categorize(b).preToolUse
    ensures Categorize(a + b).notification == Categorize(a).notification + Categorize(b).notification
    ensures Categorize(a + b).stop == Categorize(a).stop + Categorize(b).stop
    decreases |b|
  {
    if b == [] {
      assert a + b == a;
    } else {
      var front, f := b[..|b| - 1], b[|b| - 1];
      assert (a + b)[..|a + b| - 1] == a + front && (a + b)[|a + b| - 1] == f;
      var x, y, e := Categorize(a + front), Categorize(front), Push(Categories([], [], []), f);
      assert Categorize(a + b) == Push(x, f);
      assert Categorize(b) == Push(y, f);
      CategorizeConcat(a, front);
      PushAppends(x, f);
      PushAppends(y, f);
      var ca := Categorize(a);
      AppendAfter(x.preToolUse, ca.preToolUse, y.preToolUse, e.preToolUse);
      AppendAfter(x.notification, ca.notification, y.notification, e.notification);
      AppendAfter(x.stop, ca.stop, y.stop, e.stop);
    }
  }

  /** One file feeds exactly one entry to the list its stem selects, and
      nothing to the others. */
  lemma CategorizeOne(f: string)
    ensures Categorize([f]) ==
      if Blocks(f) then Categories([HookEntry(f, true)], [], [])
      else if Waits(f) then Categories([], [HookEntry(f, false)], [])
      else if Stops(f) then Categories([], [], [HookEntry(f, false)])
      else Categories([], [], [])
  {
    assert [f][..0] == [];
  }

  /** `PreToolUse` holds exactly the entries of the `block-main-commit`
      files, with the "Bash" matcher. */
  lemma {:induction false} CategorizeBlocks(files: seq<string>)
    ensures forall v :: v in Categorize(files).preToolUse <==>
      exists f :: f in files && Blocks(f) && v == HookEntry(f, true)
  {
    if files != [] {
      SplitLast(files);
      CategorizeBlocks(files[..|files| - 1]);
    }
  }

  /** `Notification` holds exactly the entries of the `notify-waiting`
      files. */
  lemma {:induction false} CategorizeWaits(files: seq<string>)
    ensures forall v :: v in Categorize(files).notification <==>
      exists f :: f in files && Waits(f) && v == HookEntry(f, false)
  {
    if files != [] {
      SplitLast(files);
      CategorizeWaits(files[..|files| - 1]);
    }
  }

  /** `Stop` holds exactly the entries of the `notify-stop` files; a file
      with any other stem contributes to no list. */
  lemma {:induction false} CategorizeStops(files: seq<string>)
    ensures forall v :: v in Categorize(files).stop <==>
      exists f :: f in files && Stops(f) && v == HookEntry(f, false)
  {
    if files != [] {
      SplitLast(files);
      CategorizeStops(files[..|files| - 1]);
    }
  }

  /** A list is present only when it is not empty. */
  function Section(key: string, entries: seq<Value>): Dict<Value> {
    if entries == [] then [] else [(key, Arr(entries))]
  }

  /** The `hooks` object once the empty lists have been deleted. */
  function HooksObject(c: Categories): (h: Dict<Value>)
    ensures Get(h, "PreToolUse") == if c.preToolUse == [] then None else Some(Arr(c.preToolUse))
    ensures Get(h, "Notification") == if c.notification == [] then None else Some(Arr(c.notification))
    ensures Get(h, "Stop") == if c.stop == [] then None else Some(Arr(c.stop))
    ensures h == [] <==> c.preToolUse == [] && c.notification == [] && c.stop == []
  {
    var pre, waiting, stop := Section("PreToolUse", c.preToolUse), Section("Notification", c.notification),
      Section("Stop", c.stop);
    SectionsGet(c, "PreToolUse");
    SectionsGet(c, "Notification");
    SectionsGet(c, "Stop");
    pre + waiting + stop
  }

  lemma SectionGet(key: string, entries: seq<Value>, k: string)
    ensures Get(Section(key, entries), k) == if entries != [] && k == key then Some(Arr(entries)) else None
  {
    if entries != [] {
      assert Section(key, entries)[1..] == [];
    }
  }

  /** Reading a key of the `hooks` object. */
  lemma SectionsGet(c: Categories, k: string)
    ensures var h := Section("PreToolUse", c.preToolUse) + Section("Notification", c.notification) + Section("Stop", c.stop);
      Get(h, k) ==
        if k == "PreToolUse" && c.preToolUse != [] then Some(Arr(c.preToolUse))
        else if k == "Notification" && c.notification != [] then Some(Arr(c.notification))
        else if k == "Stop" && c.stop != [] then Some(Arr(c.stop))
        else None
  {
    var pre, waiting, stop := Section("PreToolUse", c.preToolUse), Section("Notification", c.notification),
      Section("Stop", c.stop);
    GetConcat(pre, waiting, k);
    GetConcat(pre + waiting, stop, k);
    SectionGet("PreToolUse", c.preToolUse, k);
    SectionGet("Notification", c.notification, k);
    SectionGet("Stop", c.stop, k);
  }

  /** The `hooks` object holds no key but the three categories. */
  lemma HooksObjectKeys(c: Categories)
    ensures forall k :: k in Keys(HooksObject(c)) ==> k in ["PreToolUse", "Notification", "Stop"]
  {
    forall k | k in Keys(HooksObject(c))
      ensures k in ["PreToolUse", "Notification", "Stop"]
    {
      SectionsGet(c, k);
    }
  }

  /** The document after the merge, or None where `settings.hooks = hooks`
      throws: on `null`, and on a primitive since module code is strict. An
      array takes the property without it showing in its serialisation. */
  function Rebuild(s: Value, c: Categories): (r: Option<Value>)
    ensures r.Some? <==> s.Obj? || s.Arr?
    ensures s.Arr? ==> r == Some(s)
    ensures s.Obj? ==> r.Some? && r.value.Obj?
    ensures s.Obj? ==> (Get(r.value.fields, "hooks") ==
      if HooksObject(c) == [] then None else Some(Obj(HooksObject(c))))
    ensures s.Obj? ==> forall k :: k != "hooks" ==> Get(r.value.fields, k) == Get(s.fields, k)
  {
    match s
    case Obj(fields) =>
      var h := HooksObject(c);
      Some(Obj(if h == [] then Remove(fields, "hooks") else Set(fields, "hooks", Obj(h))))
    case Arr(_) => Some(s)
    case _ => None
  }

  /** Merging the same hooks into a merged document changes nothing. */
  lemma RebuildIdempotent(s: Value, c: Categories)
    requires Rebuild(s, c).Some?
    ensures Rebuild(Rebuild(s, c).value, c) == Rebuild(s, c)
  {
    if s.Obj? {
      var h := HooksObject(c);
      if h != [] {
        SetSame(Set(s.fields, "hooks", Obj(h)), "hooks", Obj(h));
      }
    }
  }

  /** The document as read: `{}` when the file is missing, cannot be read or
      does not parse. */
  function LoadSettings(t: Tree, env: Env, p: Path): Value {
    if p !in t then Obj([])
    else
      match ReadText(t, p)
      case None => Obj([])
      case Some(text) =>
        match env.parseJson(text)
        case None => Obj([])
        case Some(v) => v
  }

  /** The merged document and whether it differs from the one read; None
      where the merge throws. */
  function UpdateSettings(t: Tree, env: Env, p: Path, files: seq<string>): (r: Option<(Value, bool)>)
    ensures r.Some? <==> LoadSettings(t, env, p).Obj? || LoadSettings(t, env, p).Arr?
    ensures r.Some? ==> Rebuild(LoadSettings(t, env, p), Categorize(files)) == Some(r.value.0)
    ensures r.Some? ==> (r.value.1 <==> r.value.0 != LoadSettings(t, env, p))
  {
    var s := LoadSettings(t, env, p);
    match Rebuild(s, Categorize(files))
    case None => None
    case Some(s2) => Some((s2, s2 != s))
  }

  /** Once the merged document is written back (and the JSON printer and
      parser agree on it), the next run finds nothing to change. */
  lemma UpdateSettingsConverges(t: Tree, env: Env, p: Path, files: seq<string>, t2: Tree)
    requires UpdateSettings(t, env, p, files).Some?
    requires var s := UpdateSettings(t, env, p, files).value.0;
      IsFile(t2, p) && env.parseJson(t2[p].content) == Some(s)
    ensures UpdateSettings(t2, env, p, files) == Some((UpdateSettings(t, env, p, files).value.0, false))
  {
    RebuildIdempotent(LoadSettings(t, env, p), Categorize(files));
  }

  /** The loop of `updateSettingsWithHooks`: push each recognised hook file
      onto its list. */
  method CategorizeHooks(files: seq<string>) returns (c: Categories)
    ensures c == Categorize(files)
  {
    var pre, waiting, stop := [], [], [];
    for i := 0 to |files|
      invariant Categorize(files[..i]) == Categories(pre, waiting, stop)
    {
      assert files[..i + 1][..i] == files[..i];
      var f := files[i];
      var name := Stem(f);
      if name == "block-main-commit" {
        pre := pre + [HookEntry(f, true)];
      } else if name == "notify-waiting" {
        waiting := waiting + [HookEntry(f, false)];
      } else if name == "notify-stop" {
        stop := stop + [HookEntry(f, false)];
      }
    }
    assert files[..|files|] == files;
    c := Categories(pre, waiting, stop);
  }

  /** `updateSettingsWithHooks(settingsPath, hookFiles)`: read, fill the three
      lists, assign them, delete the empty ones and then an empty `hooks`. */
  method UpdateSettingsWithHooks(fs: FileSystem, env: Env, p: Path, files: seq<string>)
    returns (r: Option<(Value, bool)>)
    ensures r == UpdateSettings(fs.tree, env, p, files)
  {
    var settings := Obj([]);
    if p in fs.tree {
      var text := ReadText(fs.tree, p);
      if text.Some? {
        var parsed := env.parseJson(text.value);
        if parsed.Some? {
          settings := parsed.value;
        }
      }
    }
    var c := CategorizeHooks(files);
    if !(settings.Obj? || settings.Arr?) {
      return None;
    }
    if settings.Arr? {
      return Some((settings, false));
    }
    var hooks := PruneHooks(c);
    var fields := Set(settings.fields, "hooks", Obj(hooks));
    if hooks == [] {
      fields := Remove(fields, "hooks");
      RemoveSet(settings.fields, "hooks", Obj(hooks));
    }
    r := Some((Obj(fields), Obj(fields) != settings));
  }

  /** The three lists assigned, then each empty one deleted in turn. */
  method PruneHooks(c: Categories) returns (hooks: Dict<Value>)
    ensures hooks == HooksObject(c)
  {
    var pre, waiting, stop := [("PreToolUse", Arr(c.preToolUse))], [("Notification", Arr(c.notification))],
      [("Stop", Arr(c.stop))];
    hooks := pre + waiting + stop;
    if c.preToolUse == [] {
      RemoveConcat(pre + waiting, stop, "PreToolUse");
      RemoveConcat(pre, waiting, "PreToolUse");
      hooks := Remove(hooks, "PreToolUse");
      pre := [];
    }
    assert hooks == Section("PreToolUse", c.preToolUse) + waiting + stop;
    if c.notification == [] {
      RemoveConcat(pre + waiting, stop, "Notification");
      RemoveConcat(pre, waiting, "Notification");
      hooks := Remove(hooks, "Notification");
      waiting := [];
    }
    assert hooks == Section("PreToolUse", c.preToolUse) + Section("Notification", c.notification) + stop;
    if c.stop == [] {
      RemoveConcat(pre + waiting, stop, "Stop");
      RemoveConcat(pre, waiting, "Stop");
      hooks := Remove(hooks, "Stop");
    }
  }
}
