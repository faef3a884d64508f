# rename-workspace, modelled in Dafny

`src/rename-workspace.ts` renames a monorepo template. It takes an old name, a
capitalised old name (possibly several names joined by `:`), a new name, a
capitalised new name and a root directory. It builds an ordered list of
substitution rules. Then it makes two passes over the workspace:

- the **rename pass** rewrites the base name of every entry that is not
  ignored and renames the entry when the base name changed;
- the **content pass** rewrites the text of every text-like file that is not
  ignored and writes it back when the text changed.

The model keeps the decisions and leaves the effects out. Entries arrive as
values: the paths of the first walk, and the files with their text (or
directories) of the second walk. Renames and writes leave as values, in the
order the program performs them.

Modules:

- `Wrappers` holds `Option`.
- `Text` holds literal replace-all, `split` on a character, and its inverse `Join`.
- `Mappings` holds the rule list and the conditions under which a rule is a literal replacement.
- `Substitution` holds the content fold and the guarded base-name fold, as functions, and the two loops of the source as methods proved against them.
- `Paths` holds `basename`, `dirname`, `join` and `relative` on `/`-separated paths.
- `Workspace` holds the text-file filter, both passes, argument unpacking and the whole run.

The source calls `new RegExp(token, "g")` with `String.prototype.replace`. The
model reads these calls as literal, left-to-right, non-overlapping replace-all.
That reading is exact when:

- every token is non-empty and free of regular-expression metacharacters;
- no replacement contains `$`.

These conditions are sufficient, not necessary: a lone `$` in a replacement,
and in a token `]`, or `{`/`}` where they form no quantifier, without the `u`
flag, are also literal in JavaScript.

`Mappings.ValidMappings` states these conditions, and `Mappings.ValidNames`
states them on the command-line names. Every operation on rules requires them.

The usage message lists the arguments as `<oldName> <newName>
<oldNameCapitalized> …`, but the code binds them in the order `oldName,
oldNameCapitalized, newName, newNameCapitalized, rootDir`. The model follows
the code.

The content pass also reads directories, because the walk reports directories
too. A directory whose name ends like a text file makes `readFileSync` throw.
The exception ends the pass, and the top-level `catch` only logs it, so the
exit status stays 0. The model records this as `failedAt` and stops the pass
there.

A second run with the same arguments is sure to change nothing when no old
token occurs in any base name it does not ignore or in any file it selects: an
entry or file in which no token occurs is neither renamed nor written
(`Workspace.UntouchedNameStays`, `Workspace.UntouchedContentNotWritten`). In
general a second run is not a no-op: with the single rule app → myapp,
`app.ts` becomes `myapp.ts` and then `mymyapp.ts`, and the text `app` becomes
`myapp` and then `mymyapp` (`Workspace.RerunRenamesAgain`,
`Workspace.RerunWritesAgain`).

## Model

| member | source | states |
|---|---|---|
| Text.ReplaceAll | src/rename-workspace.ts:50-53 | Replacing every occurrence of a token: leaves the string unchanged when the token does not occur or is its own replacement, introduces no character absent from the input and the replacement, and grows or shrinks with the replacement's length relative to the token's |
| Text.ReplaceAllLeavesNoOccurrence | src/rename-workspace.ts:50-53 | The `g` flag: when the replacement is non-empty and shares no character with the token, the token occurs at no index of the result, so every occurrence was replaced |
| Text.ReplaceAllRemovesToken | src/rename-workspace.ts:92-95 | The same seen through `includes`: the result no longer contains the token |
| Text.ReplaceAllUnchangedIff | src/rename-workspace.ts:92-98 | Replace-all leaves a string unchanged exactly when the token does not occur in it or the replacement equals the token (both directions) |
| Text.Contains | src/rename-workspace.ts:49 | `includes`, as a scan from the left; its meaning is given by `Text.ContainsIffOccurs` |
| Text.EndsWith | src/rename-workspace.ts:75-80 | `endsWith`: the last characters of the string are the suffix |
| Text.ContainsIffOccurs | src/rename-workspace.ts:49 | `includes` holds exactly when the token occurs at some index |
| Text.Split | src/rename-workspace.ts:18 | `split(":")` always yields at least one part |
| Text.SplitCount | src/rename-workspace.ts:18 | `split` yields one more part than the number of separators |
| Text.SplitPartsFree | src/rename-workspace.ts:18 | No part of `split` contains the separator |
| Text.JoinSplit | src/rename-workspace.ts:18 | Joining the parts of `split` with the separator gives the string back |
| Text.SplitJoin | src/rename-workspace.ts:18 | Splitting the join of separator-free parts gives the parts back |
| Mappings.BuildMappings | src/rename-workspace.ts:18-25 | The rule list has one more entry than the `:`-segments of the capitalised old name (two more than its `:` count); entry 0 is `oldName → newName`; entry i ≥ 1 is `segment i-1 → newNameCapitalized`, and its token contains no `:` |
| Mappings.SegmentsRoundTrip | src/rename-workspace.ts:18-24 | The tokens of entries 1.. are the segments in order, and joining them with `:` gives the capitalised old name back |
| Mappings.SegmentsDetermineName | src/rename-workspace.ts:18-24 | For separator-free segments, building rules from their `:`-join recovers exactly those segments as the tokens of entries 1.. |
| Mappings.ValidNamesIff | src/rename-workspace.ts:18-25 | All built rules are literal replacements exactly when the old name and every segment are non-empty literal tokens and neither new name holds `$` |
| Substitution.ApplyAll | src/rename-workspace.ts:91-96 | The content rewrite: each rule, in list order, replaces every occurrence of its token in the previous rule's output; its properties are the lemmas below |
| Substitution.ApplyGuarded | src/rename-workspace.ts:47-55 | The base-name rewrite: the same fold, but a rule runs only if the original base name contains its token |
| Substitution.ApplyAllAppend | src/rename-workspace.ts:91-96 | Running two rule lists one after the other is running their concatenation |
| Substitution.ApplyAllFirst | src/rename-workspace.ts:91-96 | The content rewrite is the left fold: the first rule runs on the text, the rest on its output |
| Substitution.ApplyAllNoTokens | src/rename-workspace.ts:91-96 | Text containing no token of any rule comes out of the content rewrite unchanged |
| Substitution.ApplyGuardedNoTokens | src/rename-workspace.ts:47-55 | A base name containing no token is unchanged by the guarded rewrite |
| Substitution.GuardedAgreesWithFold | src/rename-workspace.ts:47-55 | The guarded base-name rewrite equals the content fold whenever every rule it skips (token absent from the original base name) would not have matched the running result either |
| Substitution.GuardedAllPresent | src/rename-workspace.ts:47-55 | When the original base name contains every token, the guarded rewrite equals the content fold |
| Substitution.ApplyAllKeepsOut | src/rename-workspace.ts:91-96 | A character absent from the text and from every replacement is absent from the rewritten text |
| Substitution.ApplyGuardedKeepsOut | src/rename-workspace.ts:47-55 | The same for the guarded base-name rewrite (so rules without `/` never produce a `/` in a base name) |
| Substitution.OrderMatters | src/rename-workspace.ts:91-96 | With rules a→b, b→c the text `a` becomes `c`, and with the order swapped it becomes `b`: the result depends on rule order |
| Substitution.GuardedDiffersFromFold | src/rename-workspace.ts:47-55 | With rules foo→Bar, Bar→Qux the base name `foo` becomes `Bar` while the content `foo` becomes `Qux`: a token introduced by an earlier rule does not switch on a later rule in the base-name pass |
| Substitution.RerunRewritesAgain | src/rename-workspace.ts:47-55 | With the rule app → myapp, both rewrites applied to their own output change it again: `app` → `myapp` → `mymyapp` and `app.ts` → `myapp.ts` → `mymyapp.ts` |
| Substitution.RewriteContent | src/rename-workspace.ts:87-96 | The loop over the rules computes the left fold of replace-all over the text |
| Substitution.RewriteBaseName | src/rename-workspace.ts:47-55 | The loop over the rules computes the fold in which a rule runs only if the original base name contains its token |
| Paths.LastSlash | src/rename-workspace.ts:42-43 | The index found holds `/` and no later index does, or there is no `/` at all |
| Paths.Basename | src/rename-workspace.ts:43 | The base name contains no `/` and ends the path |
| Paths.Dirname | src/rename-workspace.ts:42 | `path.dirname`: never empty, and either `.` or a prefix of the path |
| Paths.JoinPath | src/rename-workspace.ts:58 | `path.join` of a directory and one name: the result ends with the name and, unless the directory is `.`, starts with the directory; an empty name gives the directory itself |
| Paths.ParentAndNameRebuildPath | src/rename-workspace.ts:42-43 | For an absolute path with a non-empty last component, joining its parent and its base name gives the path back |
| Paths.Relative | src/rename-workspace.ts:45 | For an entry under the root, the root, a `/` and the relative path make up the entry |
| Paths.ReplaceLastComponent | src/rename-workspace.ts:42-43 | Joining the parent directory of a path with a new non-empty `/`-free name keeps that parent directory and makes the new name the base name |
| Paths.SuffixOfBasename | src/rename-workspace.ts:73-81 | A `/`-free ending ends a path exactly when it ends the path's base name |
| Workspace.IsTextFile | src/rename-workspace.ts:73-82 | The content filter: the path ends with `.ts`, `.json`, `.tsx`, `pnpm-workspace.yaml`, `.code-workspace` or `.toml`, or with `.md` in any letter case |
| Workspace.SelectedHasDot | src/rename-workspace.ts:73-82 | Every selected path contains a `.`, so a path without one is never rewritten |
| Workspace.Ignored | src/rename-workspace.ts:45 | The ignore file, if there is one, matches the entry's path relative to the root; without an ignore file nothing is ignored |
| Workspace.Selected | src/rename-workspace.ts:73-84 | The content pass reads an entry when the filter selects it and the ignore file does not match it |
| Workspace.JavaScriptNotSelected | src/rename-workspace.ts:73-82 | A `.js` path is never selected for the content pass |
| Workspace.MarkdownByName | src/rename-workspace.ts:81 | A path ends with `.md` in any letter case exactly when its base name does |
| Workspace.TextFileByName | src/rename-workspace.ts:73-82 | Whether a path is selected depends only on its base name |
| Workspace.RenameTarget | src/rename-workspace.ts:45-59 | An entry is left in place exactly when it is ignored or its guarded rewritten base name equals the original |
| Workspace.RenameKeepsParent | src/rename-workspace.ts:42-43 | For rules that do not introduce `/` and a non-empty rewritten name, a rename keeps the parent directory and replaces the base name by the rewritten one, which differs from the old |
| Workspace.RenameToEmptyName | src/rename-workspace.ts:57-58 | When the rules rewrite a base name to nothing, the rename target is the entry's parent directory itself |
| Workspace.UntouchedNameStays | src/rename-workspace.ts:47-59 | An entry whose base name contains no token is not renamed |
| Workspace.RerunRenamesAgain | src/rename-workspace.ts:41-62 | A second rename pass is not a no-op when a new name contains an old one: with app → myapp, `/r/app.ts` is renamed to `/r/myapp.ts`, and that one to `/r/mymyapp.ts` |
| Workspace.RenamePlan | src/rename-workspace.ts:41-62 | The renames of the pass over the walk, in order, at most one per entry |
| Workspace.RenamePlanSound | src/rename-workspace.ts:41-62 | Every rename of the pass moves an entry of the walk to that entry's rename target |
| Workspace.RenamePlanComplete | src/rename-workspace.ts:41-62 | Every entry of the walk that has a rename target is renamed to it by the pass |
| Workspace.IgnoredNeverRenamed | src/rename-workspace.ts:45 | No ignored entry is renamed |
| Workspace.RenamePass | src/rename-workspace.ts:41-62 | The loop over the entries produces exactly the renames of the plan, in walk order |
| Workspace.NewContent | src/rename-workspace.ts:83-99 | A file is written exactly when it is selected and not ignored and its rewritten text differs, and then with the rewritten text |
| Workspace.UntouchedContentNotWritten | src/rename-workspace.ts:91-99 | A file containing none of the tokens is never written |
| Workspace.ContentPlan | src/rename-workspace.ts:83-102 | The writes of the content pass over the walk, in order, and the directory whose read ended it, if any |
| Workspace.ContentStep | src/rename-workspace.ts:84-101 | One entry of the content pass: writes only grow, by at most one; after a failure nothing changes; a new failure names the entry, which is a directory |
| Workspace.RerunWritesAgain | src/rename-workspace.ts:83-102 | A second content pass is not a no-op when a new name contains an old one: with app → myapp, the text `app` is written as `myapp`, and `myapp` as `mymyapp` |
| Workspace.FailureEndsPass | src/rename-workspace.ts:86 | Once reading an entry has failed, later entries change nothing |
| Workspace.ContentPlanSound | src/rename-workspace.ts:83-102 | Every write is for a file of the walk, with the text the rules give it; a failure names a selected directory of the walk |
| Workspace.ContentPlanComplete | src/rename-workspace.ts:83-102 | When no read fails, every selected file whose text the rules change is written with the new text |
| Workspace.NoDirectoryNoFailure | src/rename-workspace.ts:83-86 | Without a selected directory among the entries, no read fails |
| Workspace.FirstDirectoryEndsPass | src/rename-workspace.ts:83-102 | The pass ends at the first selected directory: the failure names it, the writes are those of the entries before it, and every changed selected file before it is written |
| Workspace.IgnoredNeverWritten | src/rename-workspace.ts:84 | No ignored entry is written |
| Workspace.ContentPass | src/rename-workspace.ts:83-102 | The loop over the entries produces exactly the writes of the plan in walk order, and stops at the first selected directory |
| Workspace.ParseArgs | src/rename-workspace.ts:111-120 | Fewer than five arguments after the first two is a usage error; otherwise the first five bind positionally as oldName, oldNameCapitalized, newName, newNameCapitalized, rootDir |
| Workspace.RenameWorkspace | src/rename-workspace.ts:6-103 | With usable names, an absolute root and walks below it, the rules are literal, and the run yields the rename plan over the first walk and the content plan over the second |
| Workspace.Run | src/rename-workspace.ts:110-134 | A usage error gives exit status 1 with no renames and no writes; otherwise exit status 0 with both plans, also when the content pass failed |

## Left out

- Filesystem effects are returned as values, not performed: `existsSync`, the ignore-file read, `readFileSync`, `writeFileSync` and `renameSync`. Failures of `renameSync` or `writeFileSync` are not modelled.
- The two walks and their order are inputs. `fast-glob` is not part of this model, and neither is the effect of a directory renamed before its children are visited.
- The `ignore` library's gitignore matching is an arbitrary predicate on root-relative paths.
- Regular-expression semantics beyond literal text are not modelled: metacharacters in tokens, `$` patterns in replacements, and empty tokens (from `::` or a trailing `:`). The `ValidNames`/`ValidMappings` preconditions exclude them.
- Paths.Relative: models `path.relative` only for a root that is absolute, not `/`, and without a trailing `/`, with every entry below it. `Workspace.RenameWorkspace` and `Workspace.Run` require this. A relative root such as `.` or `proj`, a root with a trailing `/`, the root `/`, and roots with `.`, `..` or repeated separators are not modelled; `path.relative` resolves them against the working directory first.
- Paths.JoinPath: does not normalise the joined path. A rewritten base name of `.` or `..`, or one containing `/` (a replacement may contain it), is kept as written, whereas `path.join` would resolve it.
- Console logging, the async wrapper, and the text of the caught error are left out.
- `capitalize` is never called and relies on Unicode case mapping, so it is left out.
- Workspace.Run: requires usable names and an absolute root for any argument list long enough to parse. Names outside the literal subset and relative roots are not modelled.
