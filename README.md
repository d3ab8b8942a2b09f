# agent-skills reconciliation engine, in Dafny

agent-skills is a command-line tool that keeps "component" bundles in sync. Each component lives in `components/<name>/` and may hold a `SKILL.md`, a `hooks/` directory of shell scripts and a `rules/` directory of Markdown rules. The tool copies them from the project's catalog into one or more destination directories, such as `~/.claude`.

This project models the tool's core and proves properties of that model:

- **`sync`** (src/commands/sync.ts):
  - for every configured destination, and every component enabled in `config.yaml`, classifies each artifact as absent, different or equal;
  - copies or overwrites it as needed (hooks become executable) and records whether anything changed;
  - regenerates the destination's `CLAUDE.md` index of shared rules;
  - rebuilds the `hooks` section of its `settings.json`;
  - finally rebuilds `config.lock.yaml`.

  With `--dry-run` it only reports.
- **`status`** (src/commands/status.ts): reports the same three-way classification without changing anything.
- **The helpers in src/utils/config.ts:**
  - reading the configuration and the lock, with their defaults and filters;
  - `expandPath`;
  - component discovery and `listAvailableSkills`;
  - the recursive file walk, the directory and file hashes;
  - the `.git` ancestor walk.

How the model is built:

- **The disk** is a finite map from paths (sequences of names) to nodes. A node is a file with its text and permission bits, or a directory with its listing in `readdirSync` order.
- **Each `node:fs` call** is a function from the tree before to the tree after, or None where Node would throw.
- **The class `Files.FileSystem`** applies those calls in place.
- **The imperative code** (the `sync` action, `generateClaudeMd`, `updateSettingsWithHooks`, `getAllFiles`, `calculateDirectoryHash`, `listAvailableComponents`, `isGitManaged`) is modelled as methods with loops. Each method is proved equal to a specification function, and the properties are proved about those functions.
- **`status`** reads only, and is modelled as a function from the disk to its report.

A call that throws ends the action. The model keeps the disk as it stood at that moment; the early exit is proved to skip everything after it.

Behaviour of the code worth knowing:

- Artifacts are compared by their text, not by digests. The directory hash computed in the skills loop is never used, except that it throws when the walk throws.
- `config.yaml` names are not deduplicated. A name listed twice is processed twice.
- `status` examines only `.sh` hooks and `.md` rules that are not `.local.md`. `sync` copies every hook and every rule that is not `.local.md`.
- A second `sync` with no source change does not leave the lock unchanged, because every destination is stamped with a fresh clock reading.
- The path sort is JavaScript's default string order, not a byte-wise one.
- The directory hash does not change with every change of the files: see Findings.

Modules, in dependency order:

- `Text`: strings, split and join, and the order of strings.
- `Paths`: paths and `expandPath`.
- `Values`: YAML/JSON values and ordered objects.
- `Files`: the disk and the `node:fs` calls.
- `Hashing`: the walk, the sort and the hashes.
- `ConfigFile`: configuration, lock, discovery and git.
- `Engine`: the reads and lookups that `sync` and `status` share.
- `Index`: `generateClaudeMd`.
- `Settings`: `updateSettingsWithHooks`.
- `SyncSpec`: `sync` as functions.
- `Sync`: `sync` as methods.
- `Status`: `status`.

## Model

| member | source | states |
|---|---|---|
| Text.SplitJoin | src/commands/sync.ts:308 | joining lines with a newline and cutting the text at its newlines gives the lines back, when no line holds a newline |
| Text.JoinSplit | src/commands/sync.ts:308 | cutting a text at a separator and joining the parts with it gives the text back |
| Text.LessIrreflexive | src/utils/config.ts:163 | the string order used by `sort()` never puts a string before itself |
| Text.LessTransitive | src/utils/config.ts:163 | the string order used by `sort()` is transitive |
| Text.LessTotal | src/utils/config.ts:163 | any two different strings are ordered one way or the other |
| Text.LessAsymmetric | src/utils/config.ts:163 | two strings are never ordered both ways |
| Values.Get | src/utils/config.ts:106-110 | a property read finds a value exactly when the key is present, and the value is stored under that key |
| Values.Set | src/commands/sync.ts:261-270 | after an assignment the key reads as the new value and every other key reads as before |
| Values.SetKeys | src/commands/sync.ts:261 | assigning an existing key keeps the key order; a new key goes last |
| Values.SetTwice | src/commands/sync.ts:261-264 | assigning a key twice is the same as assigning only the second value |
| Values.SetSame | src/commands/sync.ts:357 | assigning a key the value it already holds changes nothing |
| Values.SetKeepsUniqueKeys | src/commands/sync.ts:261 | an assignment never creates a second copy of a key |
| Values.Remove | src/commands/sync.ts:360-366 | after `delete` the key reads as missing, every other key reads as before, and deleting an absent key changes nothing |
| Values.RemoveSet | src/commands/sync.ts:357-363 | deleting a key just assigned leaves what deleting it before the assignment would |
| Values.RemoveConcat | src/commands/sync.ts:360-366 | deleting from a concatenation of objects deletes from each part |
| Values.GetConcat | src/commands/sync.ts:329-367 | a read in a concatenation finds the first part's value when that part has the key, otherwise the second part's |
| Values.Prop | src/utils/config.ts:86-89 | a property is found only on an object that holds the key |
| Values.OrElse | src/utils/config.ts:106-110 | `x \|\| fallback` gives `x` exactly when it is present and truthy, otherwise the fallback |
| Values.Strings | src/utils/config.ts:89-95 | the filter keeps a string exactly when the array holds it, and never grows the list |
| Values.StringsConcat | src/utils/config.ts:89-95 | the filter keeps the array order: the strings of one run of items followed by another are the first run's, then the second's |
| Values.StringsOne | src/utils/config.ts:89-95 | one item is kept, once, exactly when it is a string |
| Values.StringsOfStrings | src/utils/config.ts:89-90 | a list made only of strings passes the filter whole, in order |
| Paths.NormalizeKeepsNormal | src/utils/config.ts:73-75 | normalising segments onto a normal path gives a normal path |
| Paths.NormalizeConcat | src/utils/config.ts:73-75 | normalising two runs of segments one after the other is normalising their concatenation |
| Paths.NormalizeOfNormal | src/utils/config.ts:73-75 | the segments of a normal path are appended as they are |
| Paths.SplitRender | src/utils/config.ts:75 | cutting a rendered absolute path at "/" gives an empty segment for the root, then the path's own segments |
| Paths.ExpandPathIsNormal | src/utils/config.ts:71-76 | `expandPath` always gives a normal path when the home and working directories are normal |
| Paths.ExpandRendered | src/utils/config.ts:75 | expanding the string form of an absolute normal path gives the path back |
| Paths.RenderInjective | src/utils/config.ts:166 | two normal paths with the same string form are the same path |
| Paths.TildeIsHome | src/utils/config.ts:72-74 | "~/rest" expands exactly as the home directory written out in full, followed by "/rest", would |
| Paths.BareTildeIsRelative | src/utils/config.ts:72-75 | a bare "~" does not start with "~/" and is resolved as a name in the working directory |
| Files.AfterMkdir | src/commands/sync.ts:85 | recursive `mkdirSync` leaves an existing directory alone; when it succeeds `p` is a directory, every file is kept, and every new node lies on the way down to `p` |
| Files.AfterCopy | src/commands/sync.ts:104 | a successful `cpSync` makes the destination a copy of the source file and changes no other file; copying a file over another is exactly that replacement |
| Files.AfterChmod | src/commands/sync.ts:146 | `chmodSync` succeeds exactly on an existing path and sets a file's permission bits, leaving its text alone |
| Files.AfterWrite | src/commands/sync.ts:219 | a successful `writeFileSync` leaves a file holding the text and changes no other file; an existing file keeps its permission bits |
| Files.MkdirWellFormed | src/commands/sync.ts:85 | creating directories keeps the disk well formed |
| Files.CopyWellFormed | src/commands/sync.ts:104 | copying keeps the disk well formed |
| Files.ChmodWellFormed | src/commands/sync.ts:146 | changing the mode keeps the disk well formed |
| Files.WriteWellFormed | src/commands/sync.ts:219 | writing keeps the disk well formed |
| Files.FileSystem.Mkdir | src/commands/sync.ts:85 | the disk becomes the recursive `mkdirSync` result, or stays as it was when that throws |
| Files.FileSystem.Copy | src/commands/sync.ts:104 | the disk becomes the `cpSync` result, or stays as it was when that throws |
| Files.FileSystem.Chmod | src/commands/sync.ts:146 | the disk becomes the `chmodSync` result, or stays as it was when that throws |
| Files.FileSystem.WriteFile | src/commands/sync.ts:219 | the disk becomes the `writeFileSync` result, or stays as it was when that throws |
| ConfigFile.StringList | src/utils/config.ts:89-95 | a field that is not an array gives `[]`; an array gives its string items, in order and with repeats, as the `Strings` filter keeps them |
| ConfigFile.LoadConfig | src/utils/config.ts:79-98 | a missing `config.yaml` is the empty configuration; loading throws exactly when the file cannot be read or does not parse |
| ConfigFile.LoadConfigFields | src/utils/config.ts:84-97 | a parsed document that is not an object gives two empty lists; otherwise each list is its field's string items in the field's order, and empty when the field is not an array |
| ConfigFile.ConfigLoadsBack | src/utils/config.ts:79-97 | a document of two string arrays loads back as exactly those lists, order included |
| ConfigFile.LoadLockFile | src/utils/config.ts:100-111 | a missing lock loads as `{components: {}, global_hash: ""}`; loaded components are truthy and the hash is never null; loading throws exactly when the file cannot be read or parsed |
| ConfigFile.LoadLockFileReads | src/utils/config.ts:105-110 | a truthy document loads as its fields, each falling back to its default when absent or falsy |
| ConfigFile.LockLoadsAs | src/utils/config.ts:105-110 | a document with both fields present loads as those fields |
| ConfigFile.SaveLockFile | src/utils/config.ts:113-116 | the disk becomes the result of writing the serialised lock to `config.lock.yaml`, or stays as it was when the write throws |
| ConfigFile.SaveLockWrites | src/utils/config.ts:113-116 | after a save, `config.lock.yaml` holds the serialised lock |
| ConfigFile.SavedLockLoadsBack | src/utils/config.ts:100-116 | when the YAML parser reads back what the formatter writes, a saved lock loads back as its components and its global hash |
| ConfigFile.DiscoverEntries | src/utils/config.ts:128-147 | the discovery loop throws exactly when a listed entry is not there (`statSync`) |
| ConfigFile.DiscoverEntriesFinds | src/utils/config.ts:128-147 | discovery keeps exactly the listed entries that are directories, each named after its entry and described as it stands |
| ConfigFile.ListAvailableComponents | src/utils/config.ts:119-150 | the method's loop returns what discovery specifies: no components for a missing catalog, a throw on a catalog that is a file, otherwise one record per sub-directory |
| ConfigFile.DiscoverComplete | src/utils/config.ts:119-150 | on a well-formed disk discovery never throws and finds exactly the sub-directories of the catalog |
| ConfigFile.Skills | src/utils/config.ts:212-214 | `listAvailableSkills` keeps a component exactly when it has a `SKILL.md`, never growing the list |
| ConfigFile.SkillsConcat | src/utils/config.ts:212-214 | `filter` keeps the discovery order: the skills of one run of components followed by another are the first run's, then the second's |
| ConfigFile.SkillsOne | src/utils/config.ts:212-214 | one component is kept, once, exactly when it has a `SKILL.md` |
| ConfigFile.IsGitManaged | src/utils/config.ts:200-209 | the loop answers true exactly when some directory from the path up to, but not including, the root holds `.git` |
| Engine.Classify | src/commands/sync.ts:99-111 | an artifact is absent exactly when its destination is missing, equal or different when both are files with equal or different texts, and the reads throw otherwise |
| Engine.Find | src/commands/sync.ts:67 | a component is found exactly when one has the name, and the one found has it |
| Engine.FindFirst | src/commands/sync.ts:67 | the component found comes before every other component of that name |
| Engine.EnabledMissingPartition | src/commands/sync.ts:66-72 | every configured name is either enabled, as the first component of that name, or missing, never both, and the two lists together are as long as the configuration |
| Engine.EnabledConcat | src/commands/sync.ts:66-68 | `enabledComponents` keeps the configuration order, repeats included: one run of names followed by another enables the first run's components, then the second's |
| Engine.EnabledOne | src/commands/sync.ts:66-68 | one name enables the first component of that name, once, or nothing |
| Engine.MissingNamesConcat | src/commands/sync.ts:70-72 | the missing names keep the configuration order, repeats included |
| Engine.MissingNamesOne | src/commands/sync.ts:70-72 | one name is reported missing, once, exactly when no component has it |
| Engine.Load | src/commands/sync.ts:48-50 | the three reads succeed exactly when the configuration, the lock and the catalog can all be read |
| Hashing.Short | src/utils/config.ts:172 | the hash is a prefix of the digest, twelve characters long when the digest has at least twelve |
| Hashing.WalkDir | src/utils/config.ts:183-197 | the walk yields only files strictly below the directory |
| Hashing.WalkEntries | src/utils/config.ts:186-194 | the walk over some entries yields only files strictly below the directory |
| Hashing.WalkPrefixFails | src/utils/config.ts:184-194 | once the walk over some entries throws, the whole walk throws |
| Hashing.GetAllFiles | src/utils/config.ts:183-197 | the recursive method appends the walk's files to the accumulator, and throws when the walk throws |
| Hashing.Insert | src/utils/config.ts:163 | inserting into a sorted list keeps it sorted and adds exactly that path |
| Hashing.SortPaths | src/utils/config.ts:163 | the sort gives the same paths, ascending |
| Hashing.RelativeNameStripsPrefix | src/utils/config.ts:166 | `replace` strips exactly the directory's path string from the front of the file's |
| Hashing.Entries | src/utils/config.ts:165-169 | each file becomes its relative name paired with its content, in the order given |
| Hashing.DecimalRoundTrip | src/utils/config.ts:168-169 | the length written before each field of the corrected stream reads back as that length |
| Hashing.FramedStreamAppend | src/utils/config.ts:165-170 | the corrected stream of one more file is the stream before, then the file's framed name and framed content |
| Hashing.PlainStreamAppend | src/utils/config.ts:165-170 | as written, feeding one more file appends its relative name and then its content to the stream, with nothing between them |
| Hashing.FrameSplit | src/utils/config.ts:168-169 | a framed field can be read back off the front of a stream |
| Hashing.FramedStreamInjective | src/utils/config.ts:165-170 | equal corrected streams come from the same names and contents, in the same order |
| Hashing.SortedWalk | src/utils/config.ts:163 | the sorted walk holds only files strictly below the directory |
| Hashing.DirectoryHashAsWritten | src/utils/config.ts:157-173 | as written: "" for a missing path, at most twelve characters otherwise, and a throw exactly when the path is not a directory or the walk throws |
| Hashing.DirectoryHash | src/utils/config.ts:157-173 | the corrected hash has the same missing-path, length and throw behaviour |
| Hashing.CalculateDirectoryHash | src/utils/config.ts:157-173 | the method's walk, sort and feeding loop compute the directory hash as written |
| Hashing.Feed | src/utils/config.ts:165-170 | the loop feeds each file's relative name and then its content, in the order given, with nothing between them |
| Hashing.FileHash | src/utils/config.ts:175-181 | `calculateFileHash` gives "" for a missing path, throws exactly on a directory, and gives at most twelve characters for a file |
| Hashing.FilesBelow | src/utils/config.ts:183-197 | the files strictly below a directory, with their contents |
| Hashing.WalkEntriesComplete | src/utils/config.ts:186-194 | on a well-formed disk the walk over distinct listed entries never throws and finds each file below them once |
| Hashing.WalkEntryComplete | src/utils/config.ts:186-194 | one more listed entry adds exactly the files below it |
| Hashing.WalkDirComplete | src/utils/config.ts:183-197 | on a well-formed disk `getAllFiles` never throws and yields each file below the directory exactly once |
| Hashing.SortedUnique | src/utils/config.ts:163 | two sorted arrangements of the same normal paths are equal, so the sort result does not depend on the listing order |
| Hashing.RelativeNameInjective | src/utils/config.ts:166 | different files below a directory have different relative names |
| Hashing.SortedWalkHoldsFilesBelow | src/utils/config.ts:163 | on a well-formed disk the sorted walk holds exactly the files below the directory |
| Hashing.SameFilesSameSort | src/utils/config.ts:163 | the same files below a directory sort into the same sequence, whatever the listing order |
| Hashing.SameFilesSameInput | src/utils/config.ts:162-170 | the same files with the same contents feed the corrected hash the same stream |
| Hashing.SameFilesSameEntries | src/utils/config.ts:162-170 | the same files with the same contents give the same sorted files, relative names and contents, whatever the listing order |
| Hashing.SameInputSameFiles | src/utils/config.ts:162-170 | the same corrected stream comes from the same files with the same contents |
| Hashing.HashInputIdentifiesFiles | src/utils/config.ts:164-169 | corrected: two directories feed the hash the same stream exactly when they hold the same files with the same contents |
| Hashing.DirectoryHashAsWrittenDependsOnFilesOnly | src/utils/config.ts:157-173 | the hash the program computes never throws on a well-formed directory and depends only on the files below it, not on the listing order, because the files are sorted before they are fed |
| Hashing.DirectoryHashDependsOnFilesOnly | src/utils/config.ts:157-173 | the corrected hash also never throws on a well-formed directory and depends only on the files below it |
| Hashing.AsWrittenOneFile | src/utils/config.ts:165-172 | as written, a directory with one file hashes "/", the name and the content run together |
| Hashing.AsWrittenCollides | src/utils/config.ts:164-169 | as written, a directory holding an empty file `ab` and one holding a file `a` with text `b` have different files and the same hash |
| Index.References | src/commands/sync.ts:299-304 | a listing contributes a line only for a `.md` file that is not `.local.md`, never more lines than files |
| Index.ReferencesConcat | src/commands/sync.ts:299-304 | the lines keep the listing order: one listing followed by another gives the first's lines, then the second's |
| Index.ReferencesOne | src/commands/sync.ts:299-304 | a listed file contributes exactly one `@rules/<f>` line when it is shared, and none otherwise |
| Index.RuleReferencesFailed | src/commands/sync.ts:296-306 | once listing a `rules/` directory throws, generating the index throws |
| Index.RuleReferencesExact | src/commands/sync.ts:296-306 | the index references exactly the shared rule files of the enabled components with rules, never a `.local.md` file |
| Index.RuleReferencesConcat | src/commands/sync.ts:296-306 | the lines keep the component order: one run of components followed by another gives the first run's lines, then the second's, and throws exactly when either run throws |
| Index.RuleReferencesOne | src/commands/sync.ts:296-306 | one component contributes the lines of its `rules/` listing when it has rules, nothing when it has none, and throws when the listing throws |
| Index.ClaudeMdReadsBack | src/commands/sync.ts:287-308 | the document ends in a newline, starts with the fixed five-line header, and cuts back into its lines |
| Index.GenerateClaudeMd | src/commands/sync.ts:286-309 | the method's loops build exactly the specified document, or throw where a listing throws |
| Settings.Stem | src/commands/sync.ts:337 | `basename(f, ".sh")` drops a trailing `.sh` and leaves any other name alone |
| Settings.CategorizeBlocks | src/commands/sync.ts:340-344 | `PreToolUse` holds a "Bash"-matcher entry exactly for the `block-main-commit` files |
| Settings.CategorizeWaits | src/commands/sync.ts:345-348 | `Notification` holds an entry exactly for the `notify-waiting` files |
| Settings.CategorizeStops | src/commands/sync.ts:349-353 | `Stop` holds an entry exactly for the `notify-stop` files |
| Settings.CategorizeConcat | src/commands/sync.ts:336-354 | each list keeps the order of `allHooks`, repeated names included: one run of files followed by another fills each list with the first run's entries, then the second's |
| Settings.CategorizeOne | src/commands/sync.ts:336-354 | one file pushes exactly one entry onto the list its stem selects and nothing onto the others; any other stem pushes nothing |
| Settings.HooksObject | src/commands/sync.ts:359-367 | each category is present exactly when its list is not empty, and `hooks` is empty exactly when all three are |
| Settings.SectionGet | src/commands/sync.ts:360-363 | a category list is kept only when it is not empty |
| Settings.SectionsGet | src/commands/sync.ts:329-363 | reading a key of the pruned `hooks` object gives that category's list when it is not empty, and nothing for any other key |
| Settings.HooksObjectKeys | src/commands/sync.ts:329-367 | the pruned `hooks` object holds no key but the three categories |
| Settings.Rebuild | src/commands/sync.ts:357-367 | merging throws on null and primitives; on an object it sets or removes `hooks` and keeps every other key; an array is left as it serialises |
| Settings.RebuildIdempotent | src/commands/sync.ts:357-370 | merging the same hooks into a merged document changes nothing |
| Settings.UpdateSettings | src/commands/sync.ts:315-370 | the result is the merge of the document read, and `changed` holds exactly when the merged document differs from it |
| Settings.UpdateSettingsConverges | src/commands/sync.ts:326-370 | once the merged document is written back and parses as itself, the next merge reports no change |
| Settings.CategorizeHooks | src/commands/sync.ts:336-354 | the pushing loop fills the three lists exactly as specified |
| Settings.UpdateSettingsWithHooks | src/commands/sync.ts:311-371 | the method reads, fills, assigns and prunes exactly as specified |
| Settings.PruneHooks | src/commands/sync.ts:357-367 | assigning the lists and deleting the empty ones gives the pruned `hooks` object |
| SyncSpec.Deploy | src/commands/sync.ts:99-122 | a dry run never changes the disk, and no artifact changes the gathered hooks |
| SyncSpec.DeployInstalls | src/commands/sync.ts:99-122 | after an apply that did not throw, the copy equals its source; `hasChanges` is set exactly when it was absent or different; a recopied hook gets the given mode |
| SyncSpec.DeployKeepsOthers | src/commands/sync.ts:99-122 | deploying one artifact changes no other file |
| SyncSpec.SkillSteps | src/commands/sync.ts:88-123 | a dry run of the skills loop never changes the disk |
| SyncSpec.HookFileSteps | src/commands/sync.ts:135-166 | a dry run of the hooks loop never changes the disk |
| SyncSpec.HookFileStepsGather | src/commands/sync.ts:135-138 | without a throw, `allHooks` gains exactly the listed names, in order |
| SyncSpec.HookSteps | src/commands/sync.ts:125-167 | a dry run of the hooks loop never changes the disk |
| SyncSpec.RuleFileStep | src/commands/sync.ts:177-207 | a dry run of one rule never changes the disk |
| SyncSpec.RuleFileSteps | src/commands/sync.ts:177-208 | a dry run of the rules of one listing never changes the disk |
| SyncSpec.Shared | src/commands/sync.ts:179 | the listing without its `.local.md` files |
| SyncSpec.RuleFileStepsSkipLocal | src/commands/sync.ts:177-179 | the rules loop behaves as if the `.local.md` files were not listed: never read, compared or copied |
| SyncSpec.RuleSteps | src/commands/sync.ts:169-209 | a dry run of the rules loop never changes the disk |
| SyncSpec.Emit | src/commands/sync.ts:215-236 | a dry run only records a change; otherwise a write that does not throw leaves the file holding the text |
| SyncSpec.IndexStep | src/commands/sync.ts:211-236 | after an apply that did not throw, `CLAUDE.md` holds exactly the generated document |
| SyncSpec.SettingsStep | src/commands/sync.ts:238-256 | after an apply that did not throw, `settings.json` holds the printed merged document whenever the merge changed it |
| SyncSpec.DestWork | src/commands/sync.ts:88-256 | a dry run of a destination's artifacts never changes the disk |
| SyncSpec.DestStep | src/commands/sync.ts:79-257 | a dry run of one destination never changes the disk, not even to create the destination |
| SyncSpec.DestSteps | src/commands/sync.ts:79-257 | a dry run of the destination loop never changes the disk |
| SyncSpec.SkillStepsCrashed | src/commands/sync.ts:90-123 | once a call has thrown, the rest of the skills loop does nothing |
| SyncSpec.HookFileStepsCrashed | src/commands/sync.ts:135-166 | once a call has thrown, the rest of a hooks listing does nothing |
| SyncSpec.HookStepsCrashed | src/commands/sync.ts:129-167 | once a call has thrown, the rest of the hooks loop does nothing |
| SyncSpec.RuleFileStepsCrashed | src/commands/sync.ts:177-208 | once a call has thrown, the rest of a rules listing does nothing |
| SyncSpec.RuleStepsCrashed | src/commands/sync.ts:171-209 | once a call has thrown, the rest of the rules loop does nothing |
| SyncSpec.DestStepsCrashed | src/commands/sync.ts:79-257 | once a call has thrown, the remaining destinations are not touched |
| SyncSpec.DestinationEntriesStamps | src/commands/sync.ts:265-271 | a component's record names exactly the destinations handled, each synced at the component's hash with nothing pending |
| SyncSpec.LockEntriesFailed | src/commands/sync.ts:260-267 | once a directory hash throws, building the lock throws |
| SyncSpec.LockEntriesKeys | src/commands/sync.ts:260-264 | the new lock names exactly the enabled components |
| SyncSpec.LockEntriesRecord | src/commands/sync.ts:260-272 | each lock entry records its component's directory hash, as the program computes it, and every destination synced at that hash |
| SyncSpec.NewEntryRecords | src/commands/sync.ts:261-271 | the entry built for a component records it |
| SyncSpec.Finish | src/commands/sync.ts:259-284 | a dry run does not save the lock; the missing names are reported as given; the verdict is never an early return |
| SyncSpec.RunSync | src/commands/sync.ts:47-284 | a dry run leaves the disk as it was; a failed read throws before anything changes |
| SyncSpec.Proceed | src/commands/sync.ts:52-276 | no components or no destinations returns before any change and reports no missing name; otherwise the missing names are reported; a dry run changes nothing |
| SyncSpec.SyncSavesLock | src/commands/sync.ts:62 | a run that finishes outside a dry run leaves a lock that loads back as the lock it computed, with an empty global hash, whenever the YAML parser reads back what the formatter writes |
| Sync.DeployFile | src/commands/sync.ts:99-122 | the method leaves the disk and `hasChanges` exactly as the classification and action specify |
| Sync.InstallFile | src/commands/sync.ts:144-146 | creating the directory, copying and setting the mode leave the disk as specified |
| Sync.SyncSkills | src/commands/sync.ts:88-123 | the skills loop leaves the disk and `hasChanges` as specified |
| Sync.SyncHookFiles | src/commands/sync.ts:135-166 | one hooks listing leaves the disk, `hasChanges` and `allHooks` as specified |
| Sync.SyncHooks | src/commands/sync.ts:125-167 | the hooks loop leaves the disk, `hasChanges` and `allHooks` as specified |
| Sync.SyncRuleFiles | src/commands/sync.ts:177-208 | one rules listing leaves the disk and `hasChanges` as specified |
| Sync.SyncRules | src/commands/sync.ts:169-209 | the rules loop leaves the disk and `hasChanges` as specified |
| Sync.EmitFile | src/commands/sync.ts:215-222 | writing a generated file leaves the disk as specified |
| Sync.WriteIndex | src/commands/sync.ts:211-236 | the `CLAUDE.md` step leaves the disk and `hasChanges` as specified |
| Sync.WriteSettings | src/commands/sync.ts:238-256 | the `settings.json` step leaves the disk and `hasChanges` as specified |
| Sync.SyncDestination | src/commands/sync.ts:79-257 | one destination leaves the disk and `hasChanges` as specified |
| Sync.DeployInto | src/commands/sync.ts:88-256 | the artifacts of an existing destination leave the disk and `hasChanges` as specified |
| Sync.BuildLock | src/commands/sync.ts:259-272 | the lock loop builds the specified lock, from the directory hash as the program computes it, with an empty global hash, or throws where a hash throws |
| Sync.StampDestinations | src/commands/sync.ts:261-271 | a component's entry is assigned, then filled with one record per destination |
| Sync.StampStatuses | src/commands/sync.ts:265-271 | the nested loop records each destination as synced at the component's hash, one clock reading each |
| Sync.SyncDestinations | src/commands/sync.ts:79-257 | the destination loop leaves the disk and `hasChanges` as specified |
| Sync.FinishSync | src/commands/sync.ts:259-284 | building and saving the lock leaves the disk and the verdict as specified |
| Sync.LoadInputs | src/commands/sync.ts:48-50 | the three reads give the specified configuration and catalog |
| Sync.SyncAction | src/commands/sync.ts:47-284 | the whole action leaves the disk, the verdict and the missing names as specified |
| Sync.SyncLoaded | src/commands/sync.ts:52-284 | the action after its reads leaves the disk, the verdict and the missing names as specified |
| Status.StatusVerdicts | src/commands/status.ts:14-26 | a report exists exactly when the three reads succeed; it is "no components" exactly when none are configured, and "no destinations" exactly when components are but no destinations |
| Status.CheckFileSound | src/commands/status.ts:47-60 | an artifact line checked for a configured name, whose component has the flag and the listed file its loop takes, carries the three-way comparison of that component's file with the deployed copy |
| Status.CheckSkillsSound | src/commands/status.ts:39-61 | every skill line is for a configured name whose component has `SKILL.md`, and compares that component's `SKILL.md` with `skills/<name>/SKILL.md`; a name without a component or without `SKILL.md` gets no line |
| Status.CheckHookFilesSound | src/commands/status.ts:71-91 | every hook line is for a `.sh` file of the component's `hooks/` listing, and compares that file with `hooks/<file>` in the destination |
| Status.CheckHooksSound | src/commands/status.ts:63-92 | the hooks loop adds only such lines, each for a configured name whose component has `hooks/`; other names are skipped |
| Status.CheckRuleFilesSound | src/commands/status.ts:102-122 | every rule line is for a `.md` file, not `.local.md`, of the component's `rules/` listing, and compares that file with `rules/<file>` in the destination |
| Status.CheckRulesSound | src/commands/status.ts:94-123 | the rules loop adds only such lines, each for a configured name whose component has `rules/`; other names are skipped |
| Status.CheckDestinationSound | src/commands/status.ts:30-142 | every line for a destination is true of the disk |
| Status.CheckDestinationsSound | src/commands/status.ts:30-142 | every line for every destination is true of the disk |
| Status.StatusSound | src/commands/status.ts:13-143 | every line of the report is true of the disk: each artifact line is for a configured name whose component has the flag its loop tests, and carries the comparison of that component's file with the deployed copy; "(not deployed)" only for a missing destination; the generated files present exactly when they exist |
| Status.MissingDestination | src/commands/status.ts:34-37 | a missing destination adds its "(not deployed)" line and nothing else |
| Status.CheckHookFilesComplete | src/commands/status.ts:72-91 | every `.sh` file of a listing gets its line, for its component, carrying the three-way comparison of the listed file with its deployed copy |
| Status.CheckRuleFilesComplete | src/commands/status.ts:103-122 | every shared rule file of a listing gets its line, for its component, carrying the three-way comparison of the listed file with its deployed copy |
| Status.CheckSkillsComplete | src/commands/status.ts:41-61 | every configured name whose component has a `SKILL.md` gets its line, carrying the three-way comparison of that component's `SKILL.md` with the deployed one |
| Status.CheckHooksComplete | src/commands/status.ts:65-92 | once the hooks loop ran through, every `.sh` file listed in the `hooks/` of every configured name whose component has one has its line |
| Status.CheckRulesComplete | src/commands/status.ts:96-123 | once the rules loop ran through, every shared rule file listed in the `rules/` of every configured name whose component has one has its line |
| Status.CheckDestinationComplete | src/commands/status.ts:31-139 | a destination checked through is reported in full: "(not deployed)" when missing, otherwise every skill, hook and rule line above and both generated-file lines |
| Status.CheckDestinationsComplete | src/commands/status.ts:30-142 | every destination of a pass that did not throw is reported in full |
| Status.StatusComplete | src/commands/status.ts:13-143 | the report that ran through lists every configured destination in full, the other half of `StatusSound` |
| Status.KeptReported | src/commands/status.ts:39-123 | lines once reported stay reported as later lines are added |
| Status.CheckHookFilesKeeps | src/commands/status.ts:76-91 | the loop over one `hooks/` listing keeps every earlier line, and does not resume after a throw |
| Status.CheckRuleFilesKeeps | src/commands/status.ts:107-122 | the loop over one `rules/` listing keeps every earlier line, and does not resume after a throw |
| Status.CheckSkillsKeeps | src/commands/status.ts:41-61 | the skills loop keeps every earlier line, and does not resume after a throw |
| Status.CheckHooksKeeps | src/commands/status.ts:65-92 | the hooks loop keeps every earlier line, and does not resume after a throw |
| Status.CheckRulesKeeps | src/commands/status.ts:96-123 | the rules loop keeps every earlier line, and does not resume after a throw |
| Status.CheckDestinationKeeps | src/commands/status.ts:31-141 | one destination keeps every earlier line, and does not resume after a throw |
| Status.CheckDestinationsKeeps | src/commands/status.ts:30-142 | the destination loop keeps every earlier line, and does not resume after a throw |
| Status.CheckFileKeeps | src/commands/status.ts:50-60 | an artifact check keeps the lines before it and adds its own unless it throws |
| Status.DeployedDestinationEnds | src/commands/status.ts:125-139 | an existing destination's lines end with the `CLAUDE.md` and `settings.json` existence checks |
| Status.CheckAgreesWithDryRun | src/commands/status.ts:50-60 | `status` and a dry `sync` throw on the same artifacts; `status` reports an artifact equal exactly when the dry run leaves it alone, and absent or different exactly when the dry run records a change |

## Left out

- Console output: the messages, their glyphs and their order are not modelled. `status` is modelled as its list of report lines, and `sync` as its effect on the disk and on `hasChanges`.
- `src/commands/list.ts` and the command-line wiring are not part of this model.
- The YAML and JSON libraries, SHA-256, `homedir()`, the working directory, the project root and `new Date()` are not modelled. They enter as parameters of `ConfigFile.Env`. Parsing and printing are arbitrary functions, and "the printed document changed" is structural inequality of the values. The `node:fs` calls are modelled on `Files.Tree`.
- The previously loaded lock is not used: `sync` and `status` only read it, for the throw a malformed lock causes.
- The directory hash computed in the skills loop is not used either. Only its throw is modelled.
- Object keys that look like array indices: JavaScript enumerates them first. The model keeps plain insertion order.
- String order: the model sorts by character, not by UTF-16 code unit.
- `isGitManaged` on a relative path is not modelled. The model takes paths as absolute.
- File contents are text: each file holds the UTF-8 decoding that `readFileSync(p, "utf-8")` gives. `cpSync` copies bytes, and `calculateDirectoryHash` and `calculateFileHash` hash raw bytes. Two files whose bytes differ but decode alike, as invalid UTF-8 decodes to U+FFFD, cannot be told apart here. The program reports them as synced and never recopies them. SyncSpec.DeployInstalls's "the copy equals its source" holds for the decoded text.
- Symbolic links, permission errors and partially written files are not modelled. Directory permission bits are not modelled; `chmodSync` on a directory succeeds and changes nothing.
- `NaN` is never truthy in JavaScript. The model's truthiness does not single it out.
- Values.Remove: does not state the key order of what remains, only that each remaining key reads as before.
- Hashing.Short: states at most twelve characters. Exactly twelve would need the digest's length, and the model takes SHA-256 as an arbitrary function.
- Hashing.DirectoryHash: the corrected, length-prefixed hash is the intended half of the finding below. The rest of the model, the lock included, uses the hash as the program computes it.
- Settings.UpdateSettingsConverges: states convergence for one run. When two components ship a hook file of the same name, `allHooks` lists it twice, and convergence only follows from writing that document back.
- SyncSpec.SyncSavesLock: does not state that a second run leaves the lock unchanged, because each run stamps fresh clock readings.
- SyncSpec.RunSync: does not state that a second `sync` with no source change reports no change, because that is not true of the code. Two enabled components `A` and `B` may both ship `hooks/x.sh` (src/commands/sync.ts:133-166), or both ship `rules/x.md` (src/commands/sync.ts:171-208), with different text. Every run then copies `A`'s file and overwrites it with `B`'s, so every run sets `hasChanges` and writes the file twice. Idempotence holds at best when no two enabled components share a hook or rule file name, the catalog and the destinations do not overlap, and the JSON printer and parser round-trip `settings.json`. That conditional statement is not proved here. Only its `settings.json` part is proved, by Settings.UpdateSettingsConverges.

## Findings

| source | as written | input that shows it | evidently intended | confidence | as-written member | corrected member |
|---|---|---|---|---|---|---|
| src/utils/config.ts:164-169 | each file's relative path and its content go into the hash back to back, with nothing between fields | directory `c` holding an empty file `ab`, and directory `c` holding a file `a` with text `b`: both feed the digest "/ab" and get the same hash | the hash changes whenever the relative paths or contents of the files change | not executed | Hashing.AsWrittenCollides | Hashing.HashInputIdentifiesFiles |
