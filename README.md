# BulkStartStop core, modelled in Dafny

BulkStartStop is a small Windows tool. It keeps a list of files to manage, such as programs, scripts and shortcuts, and starts or stops them one at a time or all together. Each file runs inside its own Windows job object, so stopping it also ends everything it spawned. This project models the tool's logic in `main.py` and proves properties of that model. The user interface is not modelled.

- **OpenCommand** (`open_command.dfy`) models `get_program_for_file`. It builds the command line that opens a file:
  - a `.lnk` or `.url` shortcut goes through `cmd.exe /C start`;
  - any other extension uses the "open" command registered for it, with the file's path substituted for `%1`, `%l` and `%L`;
  - tokens that ask for further arguments (`%*`, `%2` to `%9`, unless escaped as `%%`) are dropped, and the rest are joined with spaces.

  The method rewrites the token list in place, as the source does. It is proved equal to the specification function `ProgramFor`. `shlex.split` removes the quotes around `"%1"` and around the program's own path, and the `' '.join` never puts them back, so a path holding a space reaches `start_process` split into several arguments (`SpaceInPathSplitsArgument`).
- **Processes** (`processes.dfy`) models `ProcessModel`, the liveness state machine of one managed path. The job is a value holding the command and working directory it was started with, plus an alive flag. `start_process` sets the flag and `terminate` clears it. The `Kill`, `Run`, `SetAlive` and `Toggle` methods are each proved against a pure step function. Lemmas about those step functions give idempotence of the setter, toggle as a negated set, and double toggle.
- **PathsFile** (`paths_file.dfy`) models `PathsStorage`. It keeps the path list in a text file, one path per line. It loads lazily when its in-memory tuple is empty and saves on every assignment. The file is modelled by its text, or by `None` when it cannot be opened. `Serialize` is the writer and `Parse` the reader: universal-newline `readlines`, then Python's `strip` on each line. The program runs on Windows, where the text-mode writer turns each `\n` into `\r\n`, so a save stores `WindowsNewlines(Serialize(paths))`. Round-trip lemmas relate the reader to the writer with and without that translation, and a further lemma proves that one load and save reaches a fixed point.
- **Registry** (`registry.dfy`) models `Model` and the list-changing methods of `Controller`. It has:
  - the ordered path list, which keeps duplicates;
  - the dictionary from path to `ProcessModel`, which grows through `setdefault` and never shrinks;
  - `add_apps`, `delete_app`, `delete_all_apps` and `toggle_app`;
  - the bulk loop of `set_all_apps_alive`.
- **Status** (`status.dfy`) models `AppView.get_state` and `View.get_common_state`. Both work on snapshots of each entry's `is_exists` and `is_alive` answers.
- **Text** (`text.dfy`) models the Python string operations these use:
  - `in` and `replace`;
  - `lower` (ASCII letters only);
  - `strip`, with the full `isspace` set;
  - `' '.join`;
  - `split(' ')`, as the join's reference inverse.

Calls into the operating system and into libraries are not modelled. They are fields of a `Host` value, passed to the operations that use them:
- `os.path.splitext` and `normpath`, read by `ProgramFor`;
- `os.path.dirname`, read by `Launched` for the working directory;
- `os.path.exists`, read by `Status.Snapshot` as an entry's `is_exists` answer;
- the two `HKEY_CLASSES_ROOT` registry lookups together with `shlex.split`, read by `ProgramFor`.

## Model

| member | source | states |
|---|---|---|
| OpenCommand.GetProgramForFile | main.py:82-101 | The in-place loop keeps the number of tokens and turns token k into token k with the path substituted for `%1`, then `%l`, then `%L`; filtering and joining then give exactly `ProgramFor` |
| OpenCommand.ProgramFor | main.py:82-101 | The result is `None` exactly when the extension is not `.lnk`/`.url` and the registry lookup fails; a shortcut never fails |
| OpenCommand.MultiArgNeedsPair | main.py:98 | A token is dropped only if it holds `%*` or `%2` … `%9`; `%c` alone matches, and `%%c` (an escaped percent) does not |
| OpenCommand.ShortcutIgnoresRegistry | main.py:83-86 | For an extension that is exactly `.lnk` or `.url`, the result is `cmd.exe /C start "" "<normpath>"`, whatever the registry holds |
| OpenCommand.SubstituteWithoutPlaceholder | main.py:93-97 | The loop's guard holds exactly when the token contains `%1`, `%l` or `%L`, and a token it rejects is left unchanged by the substitution |
| OpenCommand.SubstituteLeavesNoPlaceholder | main.py:93-97 | With a non-empty path that has no `%` and does not begin with `1`, `l` or `L`, no substituted token contains `%1`, `%l` or `%L` |
| OpenCommand.PlaceholderCanReappear | main.py:93-97 | Without the first-character condition a placeholder can reappear: `"%%1"` with path `1.txt` becomes `"%1.txt"` |
| OpenCommand.Kept | main.py:98 | A token is kept if and only if it is among the input tokens and the look-behind pattern `(?<!%)%(\*\|[2-9])` finds no match in it |
| OpenCommand.KeptAppend | main.py:98 | The filter works token by token and keeps the original order: filtering a concatenation concatenates the filtered parts |
| OpenCommand.MultiArgPlaceholderExamples | main.py:98 | `%*` and `/x%2` match the pattern; the escaped `%%2` and the file placeholder `%1` do not |
| OpenCommand.CommandLineSplitsBack | main.py:99 | When no kept token holds a space, splitting the command line on spaces gives back exactly the kept tokens, in order |
| OpenCommand.SpaceInPathSplitsArgument | main.py:99 | The join adds no quoting: a path `a b` substituted into `["x", "%1"]` yields `x a b`, which splits into three arguments |
| OpenCommand.Executable | main.py:124 | The executable is the expansion unless it is `None` or empty, and then it is the raw path |
| Text.ReplaceAbsent | main.py:95-97 | `replace` leaves text that does not contain the pattern unchanged |
| Text.LowerFindsEitherCase | main.py:94 | `"%l" in arg.lower()` holds exactly when the token contains `%l` or `%L` |
| Text.ContainsMeans | main.py:94 | `sub in s` holds exactly when `sub` occurs at some index of `s` |
| Text.ReplaceLeavesNoPair | main.py:95-97 | Replacing every `md` by a non-empty text that holds no `m` and does not begin with `c` creates no `mc`; when `c` is `d`, no `md` survives |
| Text.JoinLength | main.py:99 | The length of `' '.join` is the tokens' total length plus one for each pair of neighbouring tokens |
| Text.JoinAppend | main.py:99 | Joining two non-empty runs of tokens is joining each run and putting one space between them, so a separator goes only between neighbours |
| Text.NatToStringValue | main.py:306 | The decimal digits rendered for a count read back as that count |
| Text.Strip | main.py:29 | The result is a slice of the input with no whitespace at either end, and only whitespace was removed around it |
| Text.StripFixesTrimmed | main.py:29 | Stripping leaves a string unchanged exactly when it has no whitespace at either end |
| Text.SplitJoin | main.py:99 | Joining tokens that hold no space and splitting on spaces gives the tokens back |
| Text.JoinSplit | main.py:99 | Splitting on spaces and joining with spaces gives the text back |
| Processes.Alive | main.py:113-117 | `is_alive` is false when there is no job |
| Processes.Killed | main.py:119-121 | After `kill` no job is alive. With no job nothing changes; otherwise the job keeps its command and directory |
| Processes.Launched | main.py:123-126 | `run` starts a live job in the path's directory on `Executable`: the expansion, or the raw path when the expansion is `None` or empty |
| Processes.AfterSetAlive | main.py:128-135 | After the setter, liveness equals the value given. An unchanged value changes nothing, turning on from off installs a newly launched job, and turning off from on is `Killed` of the same job |
| Processes.AfterToggle | main.py:137-141 | `toggle` flips liveness: a live job becomes `Killed` of itself, and otherwise a newly launched job is installed |
| Processes.SetAliveIdempotent | main.py:128-135 | Giving the setter the same value twice has the effect of giving it once |
| Processes.ToggleIsSetAliveNegated | main.py:137-141 | `toggle` is the setter given the negation of the current liveness |
| Processes.ToggleTwice | main.py:137-141 | Two toggles restore liveness, and from a live job they leave a freshly launched one |
| Processes.ProcessModel.constructor | main.py:105-107 | A new entry holds its path and no job |
| Processes.ProcessModel.IsAlive | main.py:113-117 | `is_alive` is false while there is no job |
| Processes.ProcessModel.Kill | main.py:119-121 | The job becomes `Killed` of the old job |
| Processes.ProcessModel.Run | main.py:123-126 | The job is replaced by `Launched(host, path)`, whatever was there before |
| Processes.ProcessModel.SetAlive | main.py:128-135 | The job becomes `AfterSetAlive` of the old job |
| Processes.ProcessModel.Toggle | main.py:137-141 | The job becomes `AfterToggle` of the old job |
| PathsFile.Lines | main.py:29 | No line `readlines` yields contains a line break |
| PathsFile.LinesAfterLine | main.py:29 | A line ended by `\n` is read back whole, and reading goes on after it |
| PathsFile.LinesAfterCrLf | main.py:29 | A line ended by `\r\n` is read back whole, the two characters ending it together |
| PathsFile.LinesAfterCr | main.py:29 | A line ended by a lone `\r` is read back whole |
| PathsFile.LinesMixedEnds | main.py:29 | `a\r\nb\rc` reads as the three lines `a`, `b`, `c` |
| PathsFile.StripAll | main.py:29 | Line k of the result is line k stripped, so the count is kept and no result has whitespace at either end |
| PathsFile.StripAllTrimmed | main.py:29 | Stripping lines that are already trimmed changes nothing |
| PathsFile.Serialize | main.py:35 | The written text is empty exactly when the list is, and otherwise ends with `\n` |
| PathsFile.LinesSerialize | main.py:29-35 | Reading back the text `save` hands the writer, before any newline translation, yields one line per path, provided no path holds a line break |
| PathsFile.LinesWindowsSerialize | main.py:29-35 | The same holds for the text as stored on Windows, where each `\n` becomes `\r\n` |
| PathsFile.ParseWindowsSerialize | main.py:25-35 | Loading what `save` wrote on Windows gives back the same paths, under the same condition as `ParseSerialize` |
| PathsFile.ReadPaths | main.py:25-31 | A file that cannot be opened loads as the empty tuple, and every loaded path is trimmed and holds no line break |
| PathsFile.Parse | main.py:29 | Every loaded path has no whitespace at either end and no line break |
| PathsFile.ParseSerialize | main.py:25-35 | Loading the text `save` hands the writer gives back the same paths when none holds a line break or begins or ends with whitespace |
| PathsFile.LoadSaveLoadStable | main.py:25-35 | Whatever the file held, saving the loaded list (with Windows line ends) and loading again gives the same list |
| PathsFile.PathsStorage.constructor | main.py:21-23 | A new storage holds the empty tuple |
| PathsFile.PathsStorage.Current | main.py:38-41 | The getter's value is the stored tuple when that is non-empty; it is empty only when nothing is stored and the file is unreadable or parses to nothing |
| PathsFile.PathsStorage.Load | main.py:25-31 | The tuple becomes the parsed file, or empty when the file cannot be opened |
| PathsFile.PathsStorage.Save | main.py:33-35 | The file becomes each path followed by a line end, which the Windows text-mode writer stores as `\r\n` |
| PathsFile.PathsStorage.GetPaths | main.py:37-41 | Returns the stored tuple and reloads only when that tuple is empty; a non-empty tuple is kept |
| PathsFile.PathsStorage.SetPaths | main.py:43-46 | Stores the value and writes it to the file as `Save` does, and the getter then returns the value |
| Registry.IndexOf | main.py:365 | `list.remove` acts at the first occurrence: the element there is the one sought, and it does not occur before |
| Registry.RemoveFirst | main.py:365 | Removal shortens the list by one and takes out one copy of the element, as a multiset |
| Registry.RemoveFirstOccurrence | main.py:365 | Removal takes out exactly the first occurrence and keeps everything else in order, later copies included |
| Registry.NewEntries | main.py:150 | The dictionary comprehension gives each listed path, and only those, a new entry for its own path with no job |
| Registry.SetDefaults | main.py:154-157 | `setdefault` in order: one entry per path, each for its own path. Existing entries are kept, and each missing path gets a new entry with no job |
| Registry.SetEach | main.py:392-393 | After the loop, each entry's job is one setter step from its job before the loop, even when the entry occurs twice |
| Registry.Model.constructor | main.py:145-150 | The list is what the storage's getter returns, and each listed path gets a new entry with no job |
| Registry.Model.Processes | main.py:152-157 | Returns one entry per listed path, in order, each for its own path. Existing entries are reused, missing ones are created, and none is removed |
| Registry.Model.Save | main.py:163-165 | The list is written to the file and re-read through the getter, so it comes back unchanged |
| Registry.Controller.constructor | main.py:355-357 | The controller holds the given model, whose entries are valid and cover its list, with the list the storage holds |
| Registry.Controller.AddApps | main.py:359-362 | The new paths are appended in order, keeping duplicates. The file is saved, existing entries are kept, and the entry keys grow by exactly the added paths, new ones with no job |
| Registry.Controller.DeleteApp | main.py:364-367 | A listed path loses its first occurrence and the file is saved. An unlisted path changes nothing. Entries are never dropped |
| Registry.Controller.DeleteAllApps | main.py:369-372 | The list becomes empty, the file is saved empty, and the entries are kept |
| Registry.Controller.ToggleApp | main.py:387-389 | The entry's job becomes `AfterToggle` of its old job |
| Registry.Controller.SetAllAppsAlive | main.py:391-394 | Every listed path's entry ends with the given liveness, reached by one setter step from its old job even when the path is listed twice. Unlisted entries keep their job, no entry is added or removed, and the list is unchanged |
| Status.Snapshot | main.py:109-117 | The label shown for an entry is "NOT FOUND" exactly when its path does not exist, "ACTIVE" exactly when it exists and its job is alive, and "NOT ACTIVE" otherwise |
| Status.GetState | main.py:210-216 | "NOT FOUND" if and only if the path is missing; "ACTIVE" if and only if it exists and its job is alive; "NOT ACTIVE" otherwise |
| Status.AppStateTextInjective | main.py:212-216 | The three per-path labels differ, so a label tells the state it came from |
| Status.NoneFoundMeans | main.py:299 | The `all(not app.is_exists ...)` test holds exactly when no entry exists, the empty list included |
| Status.CountAliveMeans | main.py:301-305 | The alive count equals the length exactly when all entries are alive, and is zero exactly when none is |
| Status.GetCommonState | main.py:297-306 | Each of the four labels holds if and only if its condition does. A partial label carries the alive count k and the list length n, with 0 < k < n |
| Status.CommonStateTextInjective | main.py:299-306 | Each common label tells the state it came from, the partial label both of its numbers |
| Status.CommonStateOfOne | main.py:297-306 | For a one-entry list the common label agrees with the entry's own label |

## Left out

- The Tk user interface is not part of this model: the views, the scrollable frame, the file dialogs, theming and the one-second refresh timer. `toggle_app` and the bulk loop end by refreshing the view, and that step is omitted.
- `ConfigStorage`, `Config` and their JSON persistence are left out. The path list's storage is passed to `Model` directly rather than named by the configuration. Also left out: `save_settings`, `Controller.setup`, `on_close` and the run-at-startup and kill-on-close settings.
- `mkdir`, `make_shortcut` and `open_path` are left out. They are file-system and shell side effects with no logic to prove.
- The job object library (a native DLL) is not part of this model. A job is a value with an alive flag, and the following are not modelled:
  - a process exiting by itself;
  - `start_process` failing;
  - termination of the whole process tree.

  The job belongs to exactly one entry, so it is modelled without aliasing.
- The registry lookups, `shlex.split` and the `os.path` functions are uninterpreted fields of `Host`. Any exception from the lookups or from `shlex` becomes `None`. An exception raised by the substitution or join code itself is not modelled; those operations cannot fail on strings.
- Text.LowerFindsEitherCase: `str.lower` is modelled on ASCII letters only. No other character lowers to `%` or `l`, so the only thing the source uses it for, the `"%l"` test, is unaffected.
- The byte-order mark that `utf-8-sig` writes and removes is not modelled; the file is its decoded text. The writer's newline translation is the Windows one (`WindowsNewlines`), the only platform the program runs on; another platform's writer is not modelled. A failure while writing the file is not modelled either; such a write raises in the source.
- PathsFile.PathsStorage.Load: a file that opens but is not valid UTF-8 raises `UnicodeDecodeError`, a `ValueError` that the `except OSError` does not catch, so the exception reaches the caller. The file is modelled as decoded text or `None`, so this case is not represented.
- Registry.Controller.DeleteApp: when the path is not listed, `list.remove` raises `ValueError` before anything changes. The model returns `false` and changes nothing, rather than raising.
- Registry.Controller.SetAllAppsAlive: this model's `start_process` cannot fail (see the job object line above). In the program a failed launch raises, for example for an entry whose file is missing, and the remaining entries are not set.
- Behaviours the program does not have, and the model does not add:
  - saving does not reload a non-empty list from the file, because the getter reloads only an empty tuple;
  - paths are never de-duplicated;
  - the bulk loop collects no per-entry errors;
  - liveness is asked of the job each time, never cached;
  - dictionary entries are never discarded.
