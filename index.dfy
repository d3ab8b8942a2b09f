/** `generateClaudeMd` in src/commands/sync.ts: the `CLAUDE.md` written to a
    destination is a fixed header followed by one `@rules/<file>` reference
    per shared rule file of the enabled components. */
module Index {
  import opened Text
  import opened Paths
  import opened Files
  import opened ConfigFile

  const Header: seq<string> := [
    "# Claude Code User-Level Instructions",
    "",
    "<!-- Auto-generated by agent-skills sync. Do not edit directly. -->",
    "<!-- For environment-specific settings, create CLAUDE.local.md -->",
    ""]

  /** A rule file that is shared: Markdown, but not a machine-local
      `.local.md` file. */
  predicate Indexed(f: string) {
    EndsWith(f, ".md") && !EndsWith(f, ".local.md")
  }

  function Reference(f: string): string {
    "@rules/" + f
  }

  /** The references for one listing of a `rules/` directory, in listing
      order. */
  function References(files: seq<Name>): (r: seq<string>)
    ensures |r| <= |files|
    ensures forall l :: l in r <==> exists f :: f in files && Indexed(f) && l == Reference(f)
  {
    if files == [] then []
    else
      var front, f := files[..|files| - 1], files[|files| - 1];
      SplitLast(files);
      References(front) + if Indexed(f) then [Reference(f)] else []
  }

  /** The references keep the listing order: those of a listing followed by
      another are the first listing's, then the second's. */
  lemma {:induction false} ReferencesConcat(a: seq<Name>, b: seq<Name>)
    ensures References(a + b) == References(a) + References(b)
    decreases |b|
  {
    if b == [] {
      assert a + b == a;
    } else {
      var front := b[..|b| - 1];
      assert (a + b)[..|a + b| - 1] == a + front && (a + b)[|a + b| - 1] == b[|b| - 1];
      ReferencesConcat(a, front);
    }
  }

  /** A listed file contributes exactly one reference when it is shared,
      and none otherwise. */
  lemma ReferencesOne(f: Name)
    ensures References([f]) == if Indexed(f) then [Reference(f)] else []
  {
    assert [f][..0] == [];
  }

  /** The references of every component with a `rules/` directory, in
      component order; None where listing a `rules/` directory throws. */
  function RuleReferences(t: Tree, cs: seq<ComponentInfo>): Option<seq<string>> {
    if cs == [] then Some([])
    else
      match RuleReferences(t, cs[..|cs| - 1])
      case None => None
      case Some(refs) =>
        var c := cs[|cs| - 1];
        if !c.hasRules then Some(refs)
        else
          match ListDir(t, c.path + ["rules"])
          case None => None
          case Some(files) => Some(refs + References(files))
  }

  /** The references keep the component order: the components of one run
      followed by another give the first run's references, then the
      second's, and the generation throws exactly when one of the runs
      does. */
  lemma {:induction false} RuleReferencesConcat(t: Tree, a: seq<ComponentInfo>, b: seq<ComponentInfo>)
    ensures RuleReferences(t, a + b).Some? <==> RuleReferences(t, a).Some? && RuleReferences(t, b).Some?
    ensures RuleReferences(t, a + b).Some? ==>
      RuleReferences(t, a + b).value == RuleReferences(t, a).value + RuleReferences(t, b).value
    decreases |b|
  {
    if b == [] {
      assert a + b == a;
    } else {
      var front := b[..|b| - 1];
      assert (a + b)[..|a + b| - 1] == a + front && (a + b)[|a + b| - 1] == b[|b| - 1];
      RuleReferencesConcat(t, a, front);
    }
  }

  /** One component contributes the references of its `rules/` listing when
      it has rules, and nothing otherwise. */
  lemma RuleReferencesOne(t: Tree, c: ComponentInfo)
    ensures RuleReferences(t, [c]) ==
      if !c.hasRules then Some([])
      else if ListDir(t, c.path + ["rules"]).None? then None
      else Some(References(ListDir(t, c.path + ["rules"]).value))
  {
    assert [c][..0] == [];
    if c.hasRules && ListDir(t, c.path + ["rules"]).Some? {
      var refs := References(ListDir(t, c.path + ["rules"]).value);
      assert [] + refs == refs;
    }
  }

  /** Once a listing has thrown, so has the whole generation. */
  lemma {:induction false} RuleReferencesFailed(t: Tree, cs: seq<ComponentInfo>, k: nat)
    requires k <= |cs| && RuleReferences(t, cs[..k]).None?
    ensures RuleReferences(t, cs).None?
    decreases |cs| - k
  {
    if k < |cs| {
      assert cs[..k + 1][..k] == cs[..k];
      RuleReferencesFailed(t, cs, k + 1);
    } else {
      assert cs[..k] == cs;
    }
  }

  /** The index names exactly the shared rule files of the components with
      rules: never a `.local.md` file, never a file of a component without
      rules. */
  lemma {:induction false} RuleReferencesExact(t: Tree, cs: seq<ComponentInfo>)
    requires RuleReferences(t, cs).Some?
    ensures forall c :: c in cs && c.hasRules ==> IsDir(t, c.path + ["rules"])
    ensures forall l :: l in RuleReferences(t, cs).value <==>
      exists c, f :: c in cs && c.hasRules && IsDir(t, c.path + ["rules"]) &&
        f in t[c.path + ["rules"]].entries && Indexed(f) && l == Reference(f)
  {
    if cs != [] {
      var front, c := cs[..|cs| - 1], cs[|cs| - 1];
      SplitLast(cs);
      RuleReferencesExact(t, front);
      forall l | l in RuleReferences(t, cs).value
        ensures exists c, f :: (c in cs && c.hasRules && IsDir(t, c.path + ["rules"]) &&
          f in t[c.path + ["rules"]].entries && Indexed(f) && l == Reference(f))
      {
        if l !in RuleReferences(t, front).value {
          var f :| f in t[c.path + ["rules"]].entries && Indexed(f) && l == Reference(f);
        }
      }
    }
  }

  /** The lines of the document. */
  function IndexLines(t: Tree, cs: seq<ComponentInfo>): Option<seq<string>> {
    match RuleReferences(t, cs)
    case None => None
    case Some(refs) => Some(Header + refs)
  }

  /** `lines.join("\n") + "\n"`. */
  function ClaudeMd(t: Tree, cs: seq<ComponentInfo>): Option<string> {
    match IndexLines(t, cs)
    case None => None
    case Some(lines) => Some(Join(lines, '\n') + "\n")
  }

  /** The document ends in a newline, and cutting it at its newlines gives
      back the header and one reference per line, as long as no listed file
      name holds a newline itself. */
  lemma ClaudeMdReadsBack(t: Tree, cs: seq<ComponentInfo>)
    requires ClaudeMd(t, cs).Some?
    requires NoneContains(IndexLines(t, cs).value, '\n')
    ensures var s := ClaudeMd(t, cs).value;
      |s| > 0 && s[|s| - 1] == '\n' && Split(s[..|s| - 1], '\n') == IndexLines(t, cs).value
    ensures IndexLines(t, cs).value[..|Header|] == Header
  {
    var lines := IndexLines(t, cs).value;
    var s := ClaudeMd(t, cs).value;
    assert s[..|s| - 1] == Join(lines, '\n');
    SplitJoin(lines, '\n');
  }

  /** `generateClaudeMd(enabledComponents)`: the header, then for each
      component with rules the filtered listing of its `rules/` directory,
      joined with newlines. */
  method GenerateClaudeMd(fs: FileSystem, cs: seq<ComponentInfo>) returns (r: Option<string>)
    ensures r == ClaudeMd(fs.tree, cs)
  {
    var lines := Header;
    for i := 0 to |cs|
      invariant RuleReferences(fs.tree, cs[..i]).Some?
      invariant lines == Header + RuleReferences(fs.tree, cs[..i]).value
    {
      assert cs[..i + 1][..i] == cs[..i];
      if cs[i].hasRules {
        var listing := ListDir(fs.tree, cs[i].path + ["rules"]);
        if listing.None? {
          RuleReferencesFailed(fs.tree, cs, i + 1);
          return None;
        }
        var files := listing.value;
        for j := 0 to |files|
          invariant lines == Header + RuleReferences(fs.tree, cs[..i]).value + References(files[..j])
        {
          assert files[..j + 1][..j] == files[..j];
          if Indexed(files[j]) {
            lines := lines + [Reference(files[j])];
          }
        }
        assert files[..|files|] == files;
      }
    }
    assert cs[..|cs|] == cs;
    r := Some(Join(lines, '\n') + "\n");
  }
}
