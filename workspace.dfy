/**
 * The decisions `renameWorkspace` takes for the entries of a workspace:
 * which entries are renamed and to what, which files are rewritten and with
 * what content, and how the command line is unpacked. Enumerating the
 * workspace, reading files and the ignore file, and performing renames and
 * writes are left to the caller: the entries come in as values, and the
 * renames and writes go out as values in the order the program performs them.
 */
module Workspace {
  import opened Wrappers
  import opened Text
  import opened Mappings
  import opened Substitution
  import opened Paths

  /** The patterns of the root's ignore file, as a predicate on root-relative paths. */
  datatype IgnoreRules = NoIgnoreFile | IgnoreFile(ignores: string -> bool)

  /** The entry at absolute path `entry` is excluded by the ignore file. */
  predicate Ignored(rules: IgnoreRules, root: string, entry: string)
    ensures Ignored(rules, root, entry) ==> rules.IgnoreFile?
  {
    rules.IgnoreFile? && rules.ignores(Relative(root, entry))
  }

  /** `/\.md$/i`: the path ends with `.md` in any letter case. */
  predicate EndsWithMarkdown(p: string) {
    && |p| >= 3
    && p[|p| - 3] == '.'
    && (p[|p| - 2] == 'm' || p[|p| - 2] == 'M')
    && (p[|p| - 1] == 'd' || p[|p| - 1] == 'D')
  }

  /** The entries whose contents are rewritten: a fixed list of text-like endings. */
  predicate IsTextFile(p: string) {
    || EndsWith(p, ".ts")
    || EndsWith(p, ".json")
    || EndsWith(p, ".tsx")
    || EndsWith(p, "pnpm-workspace.yaml")
    || EndsWith(p, ".code-workspace")
    || EndsWith(p, ".toml")
    || EndsWithMarkdown(p)
  }

  /** A JavaScript file is never selected for rewriting. */
  lemma JavaScriptNotSelected(p: string)
    requires EndsWith(p, ".js")
    ensures !IsTextFile(p)
  {
    var n := |p|;
    assert p[n - 3..] == ".js";
    assert p[n - 2] == 'j' && p[n - 1] == 's';
  }

  /** Every selected ending holds a `.`, so a path without one is never selected. */
  lemma SelectedHasDot(p: string)
    ensures IsTextFile(p) ==> '.' in p
  {
    var n := |p|;
    if EndsWith(p, "pnpm-workspace.yaml") {
      assert p[n - 5] == "pnpm-workspace.yaml"[14];
    } else if EndsWith(p, ".code-workspace") {
      assert p[n - 15] == ".code-workspace"[0];
    } else if EndsWith(p, ".json") || EndsWith(p, ".toml") {
      assert p[n - 5] == p[n - 5..][0];
    } else if EndsWith(p, ".tsx") {
      assert p[n - 4] == ".tsx"[0];
    } else if EndsWith(p, ".ts") || EndsWithMarkdown(p) {
      assert p[n - 3] == p[n - 3..][0];
    }
  }

  /** Whether a path ends with `.md` in any case depends on its last component only. */
  lemma MarkdownByName(p: string)
    ensures EndsWithMarkdown(p) <==> EndsWithMarkdown(Basename(p))
  {
    var b := Basename(p);
    if EndsWithMarkdown(p) {
      var md := p[|p| - 3..];
      SuffixOfBasename(p, md);
      assert b[|b| - 3..] == md;
      assert b[|b| - 3] == md[0] && b[|b| - 2] == md[1] && b[|b| - 1] == md[2];
    }
    if EndsWithMarkdown(b) {
      assert EndsWith(p, b);
      assert p[|p| - 3..] == b[|b| - 3..];
      assert p[|p| - 3] == b[|b| - 3] && p[|p| - 2] == b[|b| - 2] && p[|p| - 1] == b[|b| - 1];
    }
  }

  /** Whether an entry is selected depends on its last component only. */
  lemma TextFileByName(p: string)
    ensures IsTextFile(p) <==> IsTextFile(Basename(p))
  {
    SuffixOfBasename(p, ".ts");
    SuffixOfBasename(p, ".json");
    SuffixOfBasename(p, ".tsx");
    SuffixOfBasename(p, "pnpm-workspace.yaml");
    SuffixOfBasename(p, ".code-workspace");
    SuffixOfBasename(p, ".toml");
    MarkdownByName(p);
  }

  // ---------------------------------------------------------------------
  // The rename pass

  /** A rename the program performs: `source` is moved to `target`. */
  datatype Rename = Rename(source: string, target: string)

  /**
   * Where the rename pass moves `entry`, if anywhere: ignored entries stay,
   * and so do entries whose rewritten base name equals the old one.
   */
  function RenameTarget(root: string, rules: IgnoreRules, ms: seq<Mapping>, entry: string): (r: Option<string>)
    requires ValidMappings(ms)
    ensures r.None? <==> Ignored(rules, root, entry) || ApplyGuarded(Basename(entry), ms) == Basename(entry)
  {
    if Ignored(rules, root, entry) then None
    else
      var baseName := Basename(entry);
      var newBaseName := ApplyGuarded(baseName, ms);
      if baseName == newBaseName then None
      else Some(JoinPath(Dirname(entry), newBaseName))
  }

  /**
   * A rename keeps the parent directory and changes only the last component,
   * to the rewritten base name (for rules that do not introduce `/`).
   */
  lemma RenameKeepsParent(root: string, rules: IgnoreRules, ms: seq<Mapping>, entry: string)
    requires ValidMappings(ms)
    requires forall i :: 0 <= i < |ms| ==> '/' !in ms[i].replacement
    requires RenameTarget(root, rules, ms, entry).Some?
    requires ApplyGuarded(Basename(entry), ms) != []
    ensures var target := RenameTarget(root, rules, ms, entry).value;
      && Dirname(target) == Dirname(entry)
      && Basename(target) == ApplyGuarded(Basename(entry), ms)
      && Basename(target) != Basename(entry)
  {
    var newBaseName := ApplyGuarded(Basename(entry), ms);
    ApplyGuardedKeepsOut(Basename(entry), ms, '/');
    ReplaceLastComponent(entry, newBaseName);
  }

  /**
   * When the rules rewrite a base name to nothing, the target is the parent
   * directory itself, as joining with an empty name adds nothing.
   */
  lemma RenameToEmptyName(root: string, rules: IgnoreRules, ms: seq<Mapping>, entry: string)
    requires ValidMappings(ms)
    requires !Ignored(rules, root, entry)
    requires Basename(entry) != []
    requires ApplyGuarded(Basename(entry), ms) == []
    ensures RenameTarget(root, rules, ms, entry) == Some(Dirname(entry))
  {
  }

  /** An entry none of whose rule tokens occur in its base name is left where it is. */
  lemma UntouchedNameStays(root: string, rules: IgnoreRules, ms: seq<Mapping>, entry: string)
    requires ValidMappings(ms)
    requires forall i :: 0 <= i < |ms| ==> !Contains(Basename(entry), ms[i].token)
    ensures RenameTarget(root, rules, ms, entry) == None
  {
    ApplyGuardedNoTokens(Basename(entry), ms);
  }

  /** The renames of the pass over `entries`, in order. */
  function RenamePlan(root: string, rules: IgnoreRules, ms: seq<Mapping>, entries: seq<string>): (renames: seq<Rename>)
    requires ValidMappings(ms)
    ensures |renames| <= |entries|
    decreases |entries|
  {
    if entries == [] then []
    else
      var e := entries[|entries| - 1];
      var prev := RenamePlan(root, rules, ms, entries[..|entries| - 1]);
      match RenameTarget(root, rules, ms, e)
      case None => prev
      case Some(t) => prev + [Rename(e, t)]
  }

  /** Every rename of the pass moves an entry of the walk to its rename target. */
  lemma {:induction false} RenamePlanSound(root: string, rules: IgnoreRules, ms: seq<Mapping>,
                                           entries: seq<string>)
    requires ValidMappings(ms)
    ensures forall r :: r in RenamePlan(root, rules, ms, entries) ==>
      r.source in entries && RenameTarget(root, rules, ms, r.source) == Some(r.target)
    decreases |entries|
  {
    if entries != [] {
      var init := entries[..|entries| - 1];
      var e := entries[|entries| - 1];
      RenamePlanSound(root, rules, ms, init);
      var prev := RenamePlan(root, rules, ms, init);
      forall r | r in RenamePlan(root, rules, ms, entries)
        ensures r.source in entries && RenameTarget(root, rules, ms, r.source) == Some(r.target)
      {
        if r in prev {
          assert r.source in init;
        } else {
          assert r == Rename(e, RenameTarget(root, rules, ms, e).value);
        }
      }
    }
  }

  /** The renames contributed by one entry: none, or the move to its target. */
  function RenamesOf(root: string, rules: IgnoreRules, ms: seq<Mapping>, e: string): seq<Rename>
    requires ValidMappings(ms)
  {
    match RenameTarget(root, rules, ms, e)
    case None => []
    case Some(t) => [Rename(e, t)]
  }

  lemma RenamesOfMoved(root: string, rules: IgnoreRules, ms: seq<Mapping>, e: string)
    requires ValidMappings(ms)
    requires RenameTarget(root, rules, ms, e).Some?
    ensures RenamesOf(root, rules, ms, e) == [Rename(e, RenameTarget(root, rules, ms, e).value)]
  {
  }

  lemma RenamePlanStep(root: string, rules: IgnoreRules, ms: seq<Mapping>, entries: seq<string>)
    requires ValidMappings(ms)
    requires entries != []
    ensures RenamePlan(root, rules, ms, entries)
         == RenamePlan(root, rules, ms, entries[..|entries| - 1]) + RenamesOf(root, rules, ms, entries[|entries| - 1])
  {
  }

  /**
   * Every entry that is not ignored and whose base name the rules change is
   * renamed by the pass.
   */
  lemma {:induction false} RenamePlanComplete(root: string, rules: IgnoreRules, ms: seq<Mapping>,
                                              entries: seq<string>)
    requires ValidMappings(ms)
    ensures forall j :: 0 <= j < |entries| && RenameTarget(root, rules, ms, entries[j]).Some? ==>
      Rename(entries[j], RenameTarget(root, rules, ms, entries[j]).value) in RenamePlan(root, rules, ms, entries)
    decreases |entries|
  {
    if entries != [] {
      var n := |entries| - 1;
      var init := entries[..n];
      var prev := RenamePlan(root, rules, ms, init);
      var extra := RenamesOf(root, rules, ms, entries[n]);
      RenamePlanComplete(root, rules, ms, init);
      RenamePlanStep(root, rules, ms, entries);
      forall j | 0 <= j < |entries| && RenameTarget(root, rules, ms, entries[j]).Some?
        ensures Rename(entries[j], RenameTarget(root, rules, ms, entries[j]).value) in prev + extra
      {
        if j < n {
          assert init[j] == entries[j];
          assert Rename(entries[j], RenameTarget(root, rules, ms, entries[j]).value) in prev;
        } else {
          assert j == n;
          RenamesOfMoved(root, rules, ms, entries[n]);
        }
      }
    }
  }

  /** No ignored entry is ever renamed. */
  lemma IgnoredNeverRenamed(root: string, rules: IgnoreRules, ms: seq<Mapping>, entries: seq<string>)
    requires ValidMappings(ms)
    ensures forall r :: r in RenamePlan(root, rules, ms, entries) ==> !Ignored(rules, root, r.source)
  {
    RenamePlanSound(root, rules, ms, entries);
  }

  /** The rename pass over the entries of the first walk. */
  method RenamePass(root: string, rules: IgnoreRules, ms: seq<Mapping>, entries: seq<string>)
    returns (renames: seq<Rename>)
    requires ValidMappings(ms)
    ensures renames == RenamePlan(root, rules, ms, entries)
  {
    renames := [];
    for k := 0 to |entries|
      invariant renames == RenamePlan(root, rules, ms, entries[..k])
    {
      assert entries[..k + 1][..k] == entries[..k];
      var entry := entries[k];
      var parentDir := Dirname(entry);
      var baseName := Basename(entry);
      if Ignored(rules, root, entry) {
        continue;
      }
      var newBaseName := RewriteBaseName(baseName, ms);
      if baseName != newBaseName {
        renames := renames + [Rename(entry, JoinPath(parentDir, newBaseName))];
      }
    }
    assert entries[..|entries|] == entries;
  }

  // ---------------------------------------------------------------------
  // The content pass

  /** An entry of the second walk: a file with its text, or a directory (which cannot be read). */
  datatype Entry = File(path: string, content: string) | Directory(path: string)

  /** A write the program performs: `content` replaces the file at `path`. */
  datatype Write = Write(path: string, content: string)

  /**
   * What the content pass did: its writes in order, and the directory whose
   * read failed and ended the pass, if one did.
   */
  datatype ContentOutcome = ContentOutcome(writes: seq<Write>, failedAt: Option<string>)

  /** The entry is read by the content pass: selected by its ending and not ignored. */
  predicate Selected(root: string, rules: IgnoreRules, path: string) {
    IsTextFile(path) && !Ignored(rules, root, path)
  }

  /** The new text of a selected file, when the rules change it. */
  function NewContent(root: string, rules: IgnoreRules, ms: seq<Mapping>, path: string, content: string): (r: Option<string>)
    requires ValidMappings(ms)
    ensures r.Some? <==> Selected(root, rules, path) && ApplyAll(content, ms) != content
    ensures r.Some? ==> r.value == ApplyAll(content, ms)
  {
    if !Selected(root, rules, path) then None
    else
      var updated := ApplyAll(content, ms);
      if content != updated then Some(updated) else None
  }

  /** A file in which no token of any rule occurs is never written. */
  lemma UntouchedContentNotWritten(root: string, rules: IgnoreRules, ms: seq<Mapping>, path: string, content: string)
    requires ValidMappings(ms)
    requires forall i :: 0 <= i < |ms| ==> !Contains(content, ms[i].token)
    ensures NewContent(root, rules, ms, path, content) == None
  {
    ApplyAllNoTokens(content, ms);
  }

  /**
   * The content pass over `entries`: each selected file whose text changes
   * is written back; reading a selected directory throws, which ends the
   * pass there.
   */
  function ContentPlan(root: string, rules: IgnoreRules, ms: seq<Mapping>, entries: seq<Entry>): ContentOutcome
    requires ValidMappings(ms)
    decreases |entries|
  {
    if entries == [] then ContentOutcome([], None)
    else ContentStep(root, rules, ms, ContentPlan(root, rules, ms, entries[..|entries| - 1]), entries[|entries| - 1])
  }

  /** The content pass's handling of one entry, after the entries before it. */
  function ContentStep(root: string, rules: IgnoreRules, ms: seq<Mapping>, prev: ContentOutcome, e: Entry): (next: ContentOutcome)
    requires ValidMappings(ms)
    ensures prev.writes <= next.writes && |next.writes| <= |prev.writes| + 1
    ensures prev.failedAt.Some? ==> next == prev
    ensures next.failedAt.Some? ==> prev.failedAt.Some? || (e.Directory? && next.failedAt == Some(e.path))
  {
    if prev.failedAt.Some? || !Selected(root, rules, e.path) then prev
    else match e
      case Directory(p) => prev.(failedAt := Some(p))
      case File(p, content) =>
        match NewContent(root, rules, ms, p, content)
        case None => prev
        case Some(updated) => prev.(writes := prev.writes + [Write(p, updated)])
  }

  /** Once the pass has failed, later entries change nothing. */
  lemma {:induction false} FailureEndsPass(root: string, rules: IgnoreRules, ms: seq<Mapping>,
                                           entries: seq<Entry>, k: nat)
    requires ValidMappings(ms)
    requires k <= |entries|
    requires ContentPlan(root, rules, ms, entries[..k]).failedAt.Some?
    ensures ContentPlan(root, rules, ms, entries) == ContentPlan(root, rules, ms, entries[..k])
    decreases |entries|
  {
    if k < |entries| {
      var init := entries[..|entries| - 1];
      assert init[..k] == entries[..k];
      FailureEndsPass(root, rules, ms, init, k);
    } else {
      assert entries[..k] == entries;
    }
  }

  /**
   * Every write is for a selected file of the walk whose text the rules
   * change, with the rewritten text; a failure names a selected directory.
   */
  lemma {:induction false} ContentPlanSound(root: string, rules: IgnoreRules, ms: seq<Mapping>,
                                            entries: seq<Entry>)
    requires ValidMappings(ms)
    ensures forall w :: w in ContentPlan(root, rules, ms, entries).writes ==>
      exists c :: File(w.path, c) in entries && NewContent(root, rules, ms, w.path, c) == Some(w.content)
    ensures ContentPlan(root, rules, ms, entries).failedAt.Some? ==>
      var p := ContentPlan(root, rules, ms, entries).failedAt.value;
      Directory(p) in entries && Selected(root, rules, p)
    decreases |entries|
  {
    if entries != [] {
      var init := entries[..|entries| - 1];
      var e := entries[|entries| - 1];
      ContentPlanSound(root, rules, ms, init);
      assert entries == init + [e];
      var out := ContentPlan(root, rules, ms, entries);
      forall w | w in out.writes
        ensures exists c :: File(w.path, c) in entries && NewContent(root, rules, ms, w.path, c) == Some(w.content)
      {
        if w !in ContentPlan(root, rules, ms, init).writes {
          assert File(w.path, e.content) == e;
        }
      }
    }
  }

  /**
   * When no read fails, the pass writes every selected file whose text the
   * rules change.
   */
  lemma {:induction false} ContentPlanComplete(root: string, rules: IgnoreRules, ms: seq<Mapping>,
                                               entries: seq<Entry>)
    requires ValidMappings(ms)
    ensures ContentPlan(root, rules, ms, entries).failedAt.None? ==>
      forall p, c :: File(p, c) in entries && NewContent(root, rules, ms, p, c).Some? ==>
        Write(p, NewContent(root, rules, ms, p, c).value) in ContentPlan(root, rules, ms, entries).writes
    decreases |entries|
  {
    if entries != [] {
      var init := entries[..|entries| - 1];
      ContentPlanComplete(root, rules, ms, init);
      assert entries == init + [entries[|entries| - 1]];
    }
  }

  /** Without a selected directory among the entries, no read fails. */
  lemma {:induction false} NoDirectoryNoFailure(root: string, rules: IgnoreRules, ms: seq<Mapping>,
                                                entries: seq<Entry>)
    requires ValidMappings(ms)
    requires forall j :: 0 <= j < |entries| && entries[j].Directory? ==> !Selected(root, rules, entries[j].path)
    ensures ContentPlan(root, rules, ms, entries).failedAt.None?
    decreases |entries|
  {
    if entries != [] {
      var init := entries[..|entries| - 1];
      forall j | 0 <= j < |init| && init[j].Directory? ensures !Selected(root, rules, init[j].path) {
        assert init[j] == entries[j];
      }
      NoDirectoryNoFailure(root, rules, ms, init);
    }
  }

  /**
   * The pass ends at the first selected directory: the failure names it, and
   * the writes are those of the entries before it, which include every
   * changed selected file among them.
   */
  lemma FirstDirectoryEndsPass(root: string, rules: IgnoreRules, ms: seq<Mapping>,
                               entries: seq<Entry>, k: nat)
    requires ValidMappings(ms)
    requires k < |entries| && entries[k].Directory? && Selected(root, rules, entries[k].path)
    requires forall j :: 0 <= j < k && entries[j].Directory? ==> !Selected(root, rules, entries[j].path)
    ensures ContentPlan(root, rules, ms, entries[..k]).failedAt.None?
    ensures ContentPlan(root, rules, ms, entries)
         == ContentOutcome(ContentPlan(root, rules, ms, entries[..k]).writes, Some(entries[k].path))
    ensures forall p, c :: File(p, c) in entries[..k] && NewContent(root, rules, ms, p, c).Some? ==>
      Write(p, NewContent(root, rules, ms, p, c).value) in ContentPlan(root, rules, ms, entries).writes
  {
    var pre := entries[..k];
    forall j | 0 <= j < |pre| && pre[j].Directory? ensures !Selected(root, rules, pre[j].path) {
      assert pre[j] == entries[j];
    }
    NoDirectoryNoFailure(root, rules, ms, pre);
    ContentPlanComplete(root, rules, ms, pre);
    assert entries[..k + 1][..k] == pre;
    FailureEndsPass(root, rules, ms, entries, k + 1);
  }

  /** The parent and the base name of the example paths under `/r`. */
  lemma ExamplePaths()
    ensures Basename("/r/app.ts") == "app.ts" && Dirname("/r/app.ts") == "/r"
    ensures Basename("/r/myapp.ts") == "myapp.ts" && Dirname("/r/myapp.ts") == "/r"
  {
    LastSlashAt("/r/app.ts", 2);
    LastSlashAt("/r/myapp.ts", 2);
  }

  /** The example names differ, and each target is the new name under `/r`. */
  lemma ExampleTargets()
    ensures "myapp.ts" != "app.ts" && "/r/myapp.ts" == "/r" + "/" + "myapp.ts"
    ensures "mymyapp.ts" != "myapp.ts" && "/r/mymyapp.ts" == "/r" + "/" + "mymyapp.ts"
  {
  }

  /** Without an ignore file, an entry whose base name changes moves to the new name in its directory. */
  lemma RenamedWithin(root: string, ms: seq<Mapping>, entry: string, dir: string, base: string, newBase: string,
                      target: string)
    requires ValidMappings(ms)
    requires Dirname(entry) == dir && dir != "." && dir != "/"
    requires Basename(entry) == base && ApplyGuarded(base, ms) == newBase
    requires newBase != base && newBase != []
    requires target == dir + "/" + newBase
    ensures RenameTarget(root, NoIgnoreFile, ms, entry) == Some(target)
  {
  }

  lemma RenameAppOnce(ms: seq<Mapping>)
    requires ms == [Mapping("app", "myapp")]
    ensures ValidMappings(ms)
    ensures RenameTarget("/r", NoIgnoreFile, ms, "/r/app.ts") == Some("/r/myapp.ts")
  {
    AppRuleGuarded(ms);
    ExamplePaths();
    ExampleTargets();
    RenamedWithin("/r", ms, "/r/app.ts", "/r", "app.ts", "myapp.ts", "/r/myapp.ts");
  }

  lemma RenameAppTwice(ms: seq<Mapping>)
    requires ms == [Mapping("app", "myapp")]
    ensures ValidMappings(ms)
    ensures RenameTarget("/r", NoIgnoreFile, ms, "/r/myapp.ts") == Some("/r/mymyapp.ts")
  {
    AppRuleGuarded(ms);
    ExamplePaths();
    ExampleTargets();
    RenamedWithin("/r", ms, "/r/myapp.ts", "/r", "myapp.ts", "mymyapp.ts", "/r/mymyapp.ts");
  }

  /**
   * A second rename pass over the output of the first is not a no-op when a
   * new name contains an old one: with the rule app -> myapp under the root
   * `/r`, the file `/r/app.ts` is renamed to `/r/myapp.ts`, and that one in
   * turn to `/r/mymyapp.ts`.
   */
  lemma RerunRenamesAgain()
    ensures var ms := [Mapping("app", "myapp")];
      && ValidMappings(ms)
      && RenameTarget("/r", NoIgnoreFile, ms, "/r/app.ts") == Some("/r/myapp.ts")
      && RenameTarget("/r", NoIgnoreFile, ms, "/r/myapp.ts") == Some("/r/mymyapp.ts")
  {
    RenameAppOnce([Mapping("app", "myapp")]);
    RenameAppTwice([Mapping("app", "myapp")]);
  }

  /**
   * Likewise for the content pass: the text `app` is written as `myapp`,
   * and a second run writes it again as `mymyapp`.
   */
  lemma RerunWritesAgain()
    ensures var ms := [Mapping("app", "myapp")];
      && ValidMappings(ms)
      && NewContent("/r", NoIgnoreFile, ms, "/r/a.ts", "app") == Some("myapp")
      && NewContent("/r", NoIgnoreFile, ms, "/r/a.ts", "myapp") == Some("mymyapp")
  {
    RerunRewritesAgain();
    assert EndsWith("/r/a.ts", ".ts");
  }

  /** No ignored entry is ever written. */
  lemma IgnoredNeverWritten(root: string, rules: IgnoreRules, ms: seq<Mapping>, entries: seq<Entry>)
    requires ValidMappings(ms)
    ensures forall w :: w in ContentPlan(root, rules, ms, entries).writes ==> !Ignored(rules, root, w.path)
  {
    ContentPlanSound(root, rules, ms, entries);
  }

  /** The content pass over the entries of the second walk. */
  method ContentPass(root: string, rules: IgnoreRules, ms: seq<Mapping>, entries: seq<Entry>)
    returns (outcome: ContentOutcome)
    requires ValidMappings(ms)
    ensures outcome == ContentPlan(root, rules, ms, entries)
  {
    outcome := ContentOutcome([], None);
    for k := 0 to |entries|
      invariant outcome == ContentPlan(root, rules, ms, entries[..k])
      invariant outcome.failedAt.None?
    {
      assert entries[..k + 1][..k] == entries[..k];
      ghost var next := ContentStep(root, rules, ms, outcome, entries[k]);
      assert next == ContentPlan(root, rules, ms, entries[..k + 1]);
      var file := entries[k];
      if !Selected(root, rules, file.path) {
        continue;
      }
      match file
      case Directory(p) =>
        outcome := outcome.(failedAt := Some(p));
        FailureEndsPass(root, rules, ms, entries, k + 1);
        return;
      case File(p, content) =>
        var updatedContent := RewriteContent(content, ms);
        if content != updatedContent {
          outcome := outcome.(writes := outcome.writes + [Write(p, updatedContent)]);
        }
    }
    assert entries[..|entries|] == entries;
  }

  // ---------------------------------------------------------------------
  // The command line and the whole run

  /** The five positional arguments, in the order the program binds them. */
  datatype Args = Args(oldName: string, oldNameCapitalized: string, newName: string,
                       newNameCapitalized: string, rootDir: string)

  /**
   * `process.argv.slice(2)` unpacked: fewer than five arguments is a usage
   * error, otherwise the first five bind positionally and the rest are ignored.
   */
  function ParseArgs(argv: seq<string>): (r: Option<Args>)
    ensures r.None? <==> |argv| < 7
    ensures r.Some? ==> r.value == Args(argv[2], argv[3], argv[4], argv[5], argv[6])
  {
    var args := if |argv| <= 2 then [] else argv[2..];
    if |args| < 5 then None
    else Some(Args(args[0], args[1], args[2], args[3], args[4]))
  }

  /** What a run of the program does, given the entries of its two walks. */
  datatype RunResult = RunResult(exitStatus: int, renames: seq<Rename>, content: ContentOutcome)

  /** The rename pass, then the content pass, with the rules built from the names. */
  method RenameWorkspace(args: Args, rules: IgnoreRules, entries: seq<string>, reglobbed: seq<Entry>)
    returns (renames: seq<Rename>, outcome: ContentOutcome)
    requires ValidNames(args.oldName, args.oldNameCapitalized, args.newName, args.newNameCapitalized)
    requires AbsoluteRoot(args.rootDir)
    requires forall e :: e in entries ==> Below(args.rootDir, e)
    requires forall e :: e in reglobbed ==> Below(args.rootDir, e.path)
    ensures var ms := BuildMappings(args.oldName, args.oldNameCapitalized, args.newName, args.newNameCapitalized);
      && ValidMappings(ms)
      && renames == RenamePlan(args.rootDir, rules, ms, entries)
      && outcome == ContentPlan(args.rootDir, rules, ms, reglobbed)
  {
    ValidNamesIff(args.oldName, args.oldNameCapitalized, args.newName, args.newNameCapitalized);
    var mappings := BuildMappings(args.oldName, args.oldNameCapitalized, args.newName, args.newNameCapitalized);
    renames := RenamePass(args.rootDir, rules, mappings, entries);
    outcome := ContentPass(args.rootDir, rules, mappings, reglobbed);
  }

  /**
   * The program: a usage error stops it with status 1 before any work;
   * otherwise both passes run and the status is 0, also when a read failed
   * and ended the content pass.
   */
  method Run(argv: seq<string>, rules: IgnoreRules, entries: seq<string>, reglobbed: seq<Entry>)
    returns (result: RunResult)
    requires |argv| >= 7 ==> ValidNames(argv[2], argv[3], argv[4], argv[5])
    requires |argv| >= 7 ==> AbsoluteRoot(argv[6])
    requires |argv| >= 7 ==> forall e :: e in entries ==> Below(argv[6], e)
    requires |argv| >= 7 ==> forall e :: e in reglobbed ==> Below(argv[6], e.path)
    ensures |argv| < 7 ==> result == RunResult(1, [], ContentOutcome([], None))
    ensures |argv| >= 7 ==>
      var ms := BuildMappings(argv[2], argv[3], argv[4], argv[5]);
      && result.exitStatus == 0
      && ValidMappings(ms)
      && result.renames == RenamePlan(argv[6], rules, ms, entries)
      && result.content == ContentPlan(argv[6], rules, ms, reglobbed)
  {
    var parsed := ParseArgs(argv);
    if parsed.None? {
      return RunResult(1, [], ContentOutcome([], None));
    }
    var renames, outcome := RenameWorkspace(parsed.value, rules, entries, reglobbed);
    result := RunResult(0, renames, outcome);
  }
}
