# CliToolkit core, modelled in Dafny

CliToolkit is a console tool built from two parts. The first is an interactive **menu engine**:
- menus are declared by attribute (`[Menu(path, order, auto_confirm, no_ci)]`);
- their paths form a trie (`MenuSelection`);
- `MenuUtils` registers the menus and their entry hooks (`[MenuEnter(path, execute_once)]`);
- `ShowMenu` walks the trie by a stack of chosen names;
- a leaf's action runs through `AMenuExecute.Execute`;
- `CliCommand` runs a comma-separated list of menus in batch mode.

The second is an SFTP **sync pipeline** (`SftpUtils`):
- a session pool;
- the local/remote diff;
- creation of missing remote parent directories;
- bounded-concurrency upload with success/ignored/failed tallies;
- the whole-batch retry;
- the recursive remote listings;
- the ignore list from `SftpIgnoreAutoConfig`.

This project models both parts as immutable datatypes with pure functions and a few small methods, and proves what the code promises.

Modules:

- `Base`: `Option`.
- `Text`: the .NET string operations the code relies on:
  - `Split` (never drops empty parts) and its inverse `Join`;
  - `IndexOf`, `TrimStart`, `Replace(s, "")` as `RemoveAll`;
  - `FileInfo.Name` as `FileName`;
  - `Path.Combine` and `Replace("\\", "/")`.
- `MenuTrie`: `MenuSelection`, with `Add`, `GetSelection`, `IsEnd` and `_GetLastDic` (as `Resolve`/`Walk`).
- `MenuRegistry`: the static constructor of `MenuUtils`, plus `MenuExecute`, `IsMenuExist` and `GetAllMenuPath`. It covers:
  - first-registration-wins menus;
  - per-path hook lists;
  - the (order, path) sort;
  - insertion into the trie.
- `MenuNavigator`: the `ShowMenu` loop, modelled as a step function over a script of inputs. Each input holds the cancellation flag, the typed index and the exit confirmation. The module also models `_ShowMenuTable` and `_GenCachedPath`.
- `MenuExecutor`: the repeat/stop loop of `AMenuExecute.Execute`. The action's results and the "continue?" answers are scripts.
- `CliCommand`: `_AskPath` and `_ExecuteAsync`. The multi-selection prompt's answer is a mask over the offered paths.
- `SftpIgnore`: `IsIgnore` and `CheckPrompt`. The typed prompt text is an input.
- `SftpPool`: `Prewarm`, `Get` and `Dispose` over a FIFO queue of sessions.
- `SyncPlanner`: `DiffLocalAndRemoteFile` and `ServerDirSafeCheck`.
- `RemoteListing`: `GetAllFileInfoRecursive` and `GetAllDirInfoRecursive` over a finite remote tree.
- `UploadScheduler`: `UploadFiles` and the retry of `DiffUploadWithProgress`.
  - Concurrency becomes a sequential state machine.
  - At each `Task.WhenAny` a script says which in-flight tasks have completed.
  - A set says which tasks fault.

Two details of the diff matter for reading the model:
- **Diff total.** The total returned by the diff counts every local file, ignored ones included (`Tools/SftpUtils.cs:495`).
- **Remote listing in the diff.** The diff indexes one level of the remote listing, the entries `ListDirectoryAsync(remote_dir)` returns (`Tools/SftpUtils.cs:447`); the recursive walks of `RemoteListing` are not used by it.

The source's string comparisons in the sort use `CompareTo`, which is culture-sensitive. The model compares strings ordinally: code point by code point, and a proper prefix comes first. "## Left out" says where the two orders differ.

## Model

| member | source | states |
|---|---|---|
| Text.IndexOf | Menus/MenuSelection.cs:24 | the result is -1 when the character does not occur, otherwise the position of its first occurrence |
| Text.SplitPartsFree | Menus/MenuSelection.cs:80 | no part of a split holds the separator |
| Text.JoinSplit | Menus/MenuSelection.cs:80 | joining the parts of a split with the separator gives back the original string |
| Text.SplitJoin | Menus/MenuSelection.cs:80 | splitting a join of separator-free parts gives back the parts |
| Text.TrimStart | Tools/MenuUtils.cs:284 | the result is a suffix that does not start with the trimmed character, and everything removed was that character |
| Text.RemoveAllAbsent | Tools/SftpUtils.cs:449 | removing a pattern that does not occur leaves the string unchanged |
| Text.FileNameIsLastSegment | Tools/SftpUtils.cs:278-280 | a file's name is the slash-free suffix of its path after the last '/' |
| Text.Combine | Tools/SftpUtils.cs:293 | `Path.Combine` returns a rooted name as is, drops an empty directory or an empty name, and otherwise ends with the name |
| Text.ReplaceChar | Tools/SftpUtils.cs:235 | every occurrence of one character is replaced and every other character kept |
| Text.ReplaceCharAppend | Tools/SftpUtils.cs:235 | replacing a character in a concatenation replaces it in each part |
| MenuTrie.Find | Menus/MenuSelection.cs:38 | the lookup of a child by name finds the first child with that name, and fails exactly when no child has it |
| MenuTrie.Add | Menus/MenuSelection.cs:13-48 | an empty path leaves the trie unchanged; the children only grow, and the path's first key is always a child afterwards |
| MenuTrie.AddValid | Menus/MenuSelection.cs:38-42 | adding keeps children uniquely and non-emptily named, at every level |
| MenuTrie.AddKeepsPaths | Menus/MenuSelection.cs:38-47 | every chain of names present before an add is present after it |
| MenuTrie.AddMakesPath | Menus/MenuSelection.cs:24-47 | after adding a path, its whole chain of segments resolves; a new path ends at a leaf and an existing one keeps its children |
| MenuTrie.AddedPathIsEnd | Menus/MenuSelection.cs:24-47 | after adding a path not present before, `IsEnd` holds for it |
| MenuTrie.AddSingleKey | Menus/MenuSelection.cs:24-36 | a path with no '/' after position 0 (a leading '/' included) is one key equal to the whole string, added directly below the node if missing |
| MenuTrie.AddSlashFree | Menus/MenuSelection.cs:24-47 | adding a path without empty segments never creates a name containing '/' |
| MenuTrie.GetSelection | Menus/MenuSelection.cs:55-67 | the list is one label then the names of the resolved node's children, one for one in order; the label is "exit" exactly when the path resolves to the root, "back" otherwise |
| MenuTrie.IsEnd | Menus/MenuSelection.cs:74 | a path is a leaf exactly when its selection list has one entry |
| MenuTrie.WalkStopsAtUnknown | Menus/MenuSelection.cs:80-94 | resolution stops at the first unknown segment: whatever follows it, the result is the deepest matched node |
| MenuTrie.EmptyPathIsRoot | Menus/MenuSelection.cs:80-94 | the empty path resolves to the root and lists "exit" then the top-level names |
| MenuTrie.ResolveChain | Menus/MenuSelection.cs:80-94 | resolving a '/'-joined chain of slash-free names walks the chain name by name |
| MenuTrie.ContainsDepth | Menus/MenuSelection.cs:80-94 | a chain present in the trie is matched to its full length |
| MenuTrie.ContainsBound | Menus/MenuSelection.cs:80-94 | a chain present in the trie is no longer than the trie's height |
| MenuTrie.ContainsSnoc | Menus/MenuSelection.cs:61-63 | extending a present chain by a listed child name gives a present chain |
| MenuTrie.ContainsInit | Menus/MenuSelection.cs:80-94 | every prefix of a present chain is present |
| MenuTrie.ChainNames | Menus/MenuSelection.cs:38-42 | the names along a chain in a well-built trie are non-empty and slash-free |
| MenuRegistry.Lookup | Tools/MenuUtils.cs:152 | the lookup finds a registered menu with the path, and fails exactly when none has it |
| MenuRegistry.RegisterMenus | Tools/MenuUtils.cs:33-47 | paths are unique and non-empty, the registered menu for a path is its first declaration, and an empty path is dropped |
| MenuRegistry.FirstMenuSnoc | Tools/MenuUtils.cs:46 | a later declaration for a path never displaces an earlier one |
| MenuRegistry.RegisterHooks | Tools/MenuUtils.cs:48-70 | a path has a hook list exactly when it is non-empty and declares hooks; the list holds them in declaration order |
| MenuRegistry.Insert | Tools/MenuUtils.cs:76-83 | inserting into a list sorted by (order, path) keeps it sorted and adds exactly the element |
| MenuRegistry.Sort | Tools/MenuUtils.cs:75-83 | the result is sorted by (order, path) and is a permutation of the input |
| MenuRegistry.BeforeTotal | Tools/MenuUtils.cs:79-81 | the (order, path) comparison relates every pair of menus |
| MenuRegistry.AddAllContains | Tools/MenuUtils.cs:85-88 | inserting the sorted menus keeps the trie well-formed, loses no chain, and makes every well-formed menu path resolve |
| MenuRegistry.BuildWellFormed | Tools/MenuUtils.cs:21-89 | the built registry's trie is well-formed, holds every registered well-formed path, and its menus are the first registrations |
| MenuRegistry.BuildSlashFree | Tools/MenuUtils.cs:85-88 | when every declared path is well-formed, no trie name contains '/' |
| MenuRegistry.MenuExecute | Tools/MenuUtils.cs:145-165 | a menu runs exactly when `IsMenuExist` holds for the path and flag; it is the registered menu for the path, never a no-CI one in CI mode |
| MenuRegistry.ExistsIffDeclared | Tools/MenuUtils.cs:173-188 | a path exists exactly when it is non-empty, declared, and its first declaration is not excluded by the CI flag |
| MenuRegistry.DefaultMenuRunsInCi | Menus/MenuAttribute.cs:27-30 | a menu declared with only a path, first for that path, is started by a CI run and does not ask to repeat |
| MenuRegistry.GetAllMenuPath | Tools/MenuUtils.cs:195-210 | the list holds exactly the registered paths the CI flag allows; without the flag, all of them in registration order |
| MenuRegistry.ListedIndices | Tools/MenuUtils.cs:199-207 | the positions to list are strictly increasing, each one allowed by the CI flag, and every allowed position is among them |
| MenuRegistry.GetAllMenuPathInOrder | Tools/MenuUtils.cs:195-210 | with either flag, entry k of the list is the path of the k-th allowed menu in registration order, and nothing else is listed |
| MenuRegistry.AllMenuPathIffExists | Tools/MenuUtils.cs:195-210 | a path is listed exactly when `IsMenuExist` holds for it |
| MenuNavigator.GenCachedPathRoundTrip | Tools/MenuUtils.cs:275-287 | an empty stack gives the root ""; a stack of slash-free names gives their '/'-join, and splitting that path gives the stack back |
| MenuNavigator.GenCachedPathEmpty | Tools/MenuUtils.cs:275-287 | the empty stack gives the root ""; a stack whose first name is non-empty and does not start with '/' gives a non-empty path |
| MenuNavigator.ShowMenuTable | Tools/MenuUtils.cs:244-268 | an out-of-range index keeps the stack; 1 with an empty stack exits exactly when confirmed; 1 otherwise pops one name; a higher index pushes the chosen child |
| MenuNavigator.Step | Tools/MenuUtils.cs:98-135 | one pass: it stops at once on cancellation; the path's hooks fire in order and an execute-once hook removes the path's whole list; the root or a non-leaf shows a menu; a leaf runs and pops one name; the new path is rebuilt from the stack |
| MenuNavigator.StepNeverFaults | Tools/MenuUtils.cs:131-132 | while the path matches the stack, a leaf is never reached with an empty stack, so the pop after running it never fails |
| MenuNavigator.ShowMenuNeverCrashes | Tools/MenuUtils.cs:96-136 | from the start state no input script drives the loop into the failing pop |
| MenuNavigator.CancelStopsAtOnce | Tools/MenuUtils.cs:100-103 | cancellation observed at the top of an iteration ends the loop with nothing fired or run |
| MenuNavigator.HooksOnlyShrink | Tools/MenuUtils.cs:105-116 | hook lists are only ever removed, never added or changed |
| MenuNavigator.RemovedHooksStaySilent | Tools/MenuUtils.cs:111-114 | once a path's hook list is gone, none of its hooks fires again |
| MenuNavigator.DefaultHookFiresOnce | Menus/MenuEnterAttribute.cs:10 | a hook declared with only a path fires on the first entry to its path, and no hook of that path fires in any later iteration |
| MenuNavigator.MenuStep | Tools/MenuUtils.cs:118-128 | at the root or a non-leaf, the loop continues exactly with the stack the menu table produced |
| MenuNavigator.LeafStep | Tools/MenuUtils.cs:131-134 | at a leaf, the loop runs it and pops exactly one name |
| MenuNavigator.SelectThenBack | Tools/MenuUtils.cs:253-264 | choosing a child and then "back" restores the stack |
| MenuNavigator.RunStaysInTrie | Tools/MenuUtils.cs:96-136 | the stack always names a chain present in the trie, so it is never deeper than the trie is tall |
| MenuNavigator.ShowMenuStaysInTrie | Tools/MenuUtils.cs:96-136 | from the start state of a registry built from well-formed paths, every script leaves a stack present in the trie |
| MenuExecutor.StreakIsFirstStop | Menus/AMenuExecute.cs:32-50 | the streak of repeated rounds ends exactly at the first round that does not go on |
| MenuExecutor.Execute | Menus/AMenuExecute.cs:27-54 | without auto-confirm: one invocation, no question, and a throw is reported; with auto-confirm: 1 + the number of "yes" answers before the first "no" or throw, with a question only after a successful run |
| CliCommand.KeepCounts | Commands/CliCommandCommand.cs:29-39 | each piece is kept exactly when `IsMenuExist(piece, true)`, as often as it occurs (duplicates kept, no trimming) |
| CliCommand.KeepAppend | Commands/CliCommandCommand.cs:33-39 | filtering preserves the argument order |
| CliCommand.Picked | Commands/CliCommandCommand.cs:49-55 | the prompt's selection is drawn from the offered paths |
| CliCommand.AskPath | Commands/CliCommandCommand.cs:25-56 | a non-empty filtered list is used as is; otherwise the choice comes from the CI-allowed menu paths |
| CliCommand.AskPathRunnable | Commands/CliCommandCommand.cs:25-56 | every chosen path passes `IsMenuExist(path, true)` |
| CliCommand.CliExecute | Commands/CliCommandCommand.cs:13-23 | every chosen path is executed in order in CI mode, each starting its registered menu, and the command returns 0 |
| SftpIgnore.PromptAnswer | AutoConfig/SftpIgnoreAutoConfig.cs:23-25 | an empty or all-whitespace answer takes the default ".DS_Store", any other is kept as typed; the answer is never blank |
| SftpIgnore.Elements | AutoConfig/SftpIgnoreAutoConfig.cs:34-37 | the set holds exactly the list's elements |
| SftpIgnore.CheckPrompt | AutoConfig/SftpIgnoreAutoConfig.cs:17-40 | it returns true exactly when the list was missing or empty; then the list becomes the plain ',' split of the answer; otherwise it is kept; the set is rebuilt to exactly the list's elements, so `IsIgnore` is exact membership |
| SftpIgnore.CheckPromptIdempotent | AutoConfig/SftpIgnoreAutoConfig.cs:17-40 | a second call asks nothing and changes nothing |
| SftpPool.Prewarm | Tools/SftpUtils.cs:28-34 | exactly `max_upload_client` new connected sessions are enqueued behind the existing ones |
| SftpPool.Get | Tools/SftpUtils.cs:36-49 | the front session is dequeued, or with an empty queue a new one is opened and the queue stays empty; the session returned is connected |
| SftpPool.GetKeepsFresh | Tools/SftpUtils.cs:36-49 | a checked-out session is no longer pooled, and pooled sessions stay distinct |
| SftpPool.DisposeKeepsFresh | Tools/SftpUtils.cs:51 | returning a checked-out session keeps pooled sessions distinct |
| SftpPool.DrainQueue | Tools/SftpUtils.cs:36-49 | n successive `Get`s hand out the first n pooled sessions in queue order and open none |
| SftpPool.DisposedComesBackInTurn | Tools/SftpUtils.cs:36-51 | a returned session comes out after exactly the sessions pooled before it |
| SyncPlanner.RelKey | Tools/SftpUtils.cs:449-454 | a key never starts with '/' |
| SyncPlanner.RelKeyOfNested | Tools/SftpUtils.cs:475-480 | a file `root/rel` is keyed by `rel` when `rel` does not mention the root |
| SyncPlanner.IndexHasKey | Tools/SftpUtils.cs:447-457 | every listed entry's key is in the remote index |
| SyncPlanner.IndexKeyListed | Tools/SftpUtils.cs:447-457 | every key in the remote index belongs to a listed entry |
| SyncPlanner.IndexKeepsLast | Tools/SftpUtils.cs:456 | for a key, the index keeps the last listed entry with it |
| SyncPlanner.Diff | Tools/SftpUtils.cs:441-496 | it fails on an empty local root, or an empty remote root with a non-empty listing; otherwise it returns a subset of the local files, exactly those not ignored and without a same-key, same-length remote entry, with the total of all local files and the number of ignored ones |
| SyncPlanner.UpToDateIsSkipped | Tools/SftpUtils.cs:447-490 | for a file whose relative path is also listed remotely, it is sent exactly when it is not ignored and its length differs from the last listed entry with that path |
| SyncPlanner.DirPrefixesSound | Tools/SftpUtils.cs:506-516 | each listed directory is the part of the path before one of its '/' |
| SyncPlanner.DirPrefixesComplete | Tools/SftpUtils.cs:506-516 | every '/' after position 0 yields a listed directory |
| SyncPlanner.ServerDirSafeCheck | Tools/SftpUtils.cs:498-521 | it creates exactly the missing directories above the path, shortest first, never the path itself, and afterwards all of them exist |
| SyncPlanner.MissingMembers | Tools/SftpUtils.cs:516-519 | a directory is created exactly when it lies above the path and did not exist |
| SyncPlanner.ParentsFirst | Tools/SftpUtils.cs:498-521 | every directory above a created one existed already or was created before it |
| SyncPlanner.RerunCreatesNothing | Tools/SftpUtils.cs:498-521 | a second run on what the first left creates nothing |
| RemoteListing.AllFilesAreReachableFiles | Tools/SftpUtils.cs:114-132 | the file walk returns exactly the files reachable without passing "." or ".." |
| RemoteListing.AllDirsAreReachableDirs | Tools/SftpUtils.cs:139-156 | the directory walk returns exactly the reachable directories |
| RemoteListing.SubdirsFirst | Tools/SftpUtils.cs:153-154 | every directory below a listed one is listed before it |
| UploadScheduler.TargetEndsWithName | Tools/SftpUtils.cs:293 | a relative name ends its upload target, with '\' turned into '/' |
| UploadScheduler.Kept | Tools/SftpUtils.cs:280-284 | the kept names and the ignored ones together account for every file |
| UploadScheduler.KeptMembers | Tools/SftpUtils.cs:276-284 | a name is uploaded exactly when some file has it and it is not ignored |
| UploadScheduler.Completes | Tools/SftpUtils.cs:304-306 | a wait finds only in-flight tasks complete, and at least one |
| UploadScheduler.Bound | Tools/SftpUtils.cs:299 | the admission bound is the limit, and exactly 1 when the limit is below 1 |
| UploadScheduler.BoundIsAdmission | Tools/SftpUtils.cs:299 | once a task is in flight, reaching `max_upload_client` and reaching the bound are the same test |
| UploadScheduler.Wait | Tools/SftpUtils.cs:304-325 | every task found complete is counted once: faulted ones as failed, others as success; it leaves the in-flight set |
| UploadScheduler.Submit | Tools/SftpUtils.cs:290-325 | after each file the tallies still split the counted tasks by fault, and the in-flight set stays under the bound |
| UploadScheduler.Schedule | Tools/SftpUtils.cs:276-331 | over all files the in-flight set never exceeds the bound, and every task is counted or still in flight |
| UploadScheduler.UploadFiles | Tools/SftpUtils.cs:262-339 | `ignored` counts the files with an ignored name; the others upload in order to their targets; success and failed split the counted tasks by fault; tasks in flight at the end are never counted, and the call throws exactly when one of them faulted; with fewer files than the limit nothing is counted at all |
| UploadScheduler.FirstFaultIsNotCounted | Tools/SftpUtils.cs:290-301 | the first upload under a limit of 2 or more is submitted without a wait, so a fault in it is not counted and it is still in flight |
| UploadScheduler.UploadFilesCounted | Tools/SftpUtils.cs:262-339 | counting the leftover tasks too, success is the number of non-faulted uploads and failed the number of faulted ones, with success + ignored + failed the number of files |
| UploadScheduler.FirstStop | Tools/SftpUtils.cs:409-418 | it is the first pass that fails nothing or throws; every earlier pass failed something and returned |
| UploadScheduler.RetryUpload | Tools/SftpUtils.cs:403-428 | an empty diff uploads nothing; otherwise the same set is uploaded again until a pass fails nothing, a pass throws, or 4 passes are done; the loop ends raised exactly when its last pass threw, and synced exactly when its last pass returned no failure |

## Left out

- Reflection discovery (`GetTypes`, `Activator.CreateInstance`, `Init`) is replaced by an explicit list of declarations. `Init` copies the attribute's fields unchanged, so a registered menu is its attribute.
- Entry hooks' own bodies are left out. Their exceptions are swallowed (`Menus/AMenuEnter.cs:26-36`), so a hook firing is modelled only as its record in the trace.
- Menu actions' bodies are left out. `MenuExecute` returns which menu it starts, and `AMenuExecute.Execute` is modelled separately by its scripts.
- All Spectre.Console rendering is left out: tables, rules, progress bars, charts and `Path2Tree`. Prompts are inputs.
- The SFTP transport, file permissions and the `ListDirectoryAsync` bridge are left out. The remote side is a listing or a set of existing paths.
- Real concurrency is replaced by a sequential scheduler. `Task.WhenAny` completions and task faults are inputs.
- The `catch` around an upload submission (`Tools/SftpUtils.cs:327-330`) is left out. Submitting starts a task and cannot throw; failures surface as faulted tasks.
- Per-pass outcomes of the retry (a `failed` count or an exception) are inputs. What a pass does is `UploadFiles`, modelled on its own.
- MenuRegistry.Sort: compares paths ordinally, while `CompareTo` in the source is culture-sensitive. The orders differ on mixed case. All six `Sftp/` menus have order 1 (`CustomMenu/SftpMenu.cs:24-154`). Ordinally "Sftp/YooAsset" sorts before "Sftp/cat"; a culture comparer puts it after "Sftp/cat". So the numbers shown in the Sftp menu, and which menu a typed number starts, differ from the program's.
- SftpIgnore.PromptAnswer: the prompt's treatment of blank input is Spectre.Console's `TextPrompt` behaviour (a default is taken for any `IsNullOrWhiteSpace` answer). Spectre.Console is not part of this model. Whitespace is .NET's `char.IsWhiteSpace` set, written out.
- Paths use '/' only; Windows separators are not modelled. `FileInfo.Name` is the text after the last '/'.
- `ShowMenu`'s optional start path is left out. The loop starts at the root, which is the default.
- MenuTrie.AddMakesPath: stated only for well-formed paths, meaning non-empty segments and no leading, trailing or doubled '/'. For other paths a leading '/' makes the whole string one key (`MenuTrie.AddSingleKey`), and "a//b" stores a name "/b" that `_GetLastDic` can never reach.
- MenuNavigator.ShowMenuStaysInTrie: assumes every declared path is well-formed, for the same reason.
- Text.Split and Text.RemoveAll: their contracts state only sizes; their meaning is stated by `JoinSplit`, `SplitJoin`, `SplitPartsFree` and `RemoveAllAbsent`.

## Findings

| source | as written | input that shows it | evidently intended | confidence | as-written member | corrected member |
|---|---|---|---|---|---|---|
| Tools/SftpUtils.cs:333-336 | tasks still in flight after the loop are awaited with `Task.WhenAll` but never counted, and if one of them faulted the exception escapes `UploadFiles`; the caller gets no counts, no chart is drawn and the retry of `DiffUploadWithProgress` (`Tools/SftpUtils.cs:409-428`) is skipped | one file whose upload fails, with `max_upload_client` 2 or more: the loop never waits, the faulted task is left over, and `WhenAll` rethrows instead of returning `failed == 1` | every upload is counted, faulted ones as `failed`, so that `failed <= 0` decides the retry | medium; not executed | UploadScheduler.UploadFiles, UploadScheduler.FirstFaultIsNotCounted | UploadScheduler.UploadFilesCounted |
