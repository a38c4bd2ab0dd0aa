# RustCast application index, modelled in Dafny

RustCast is a launcher: it searches a list of `App` records. This project models how that list is built and what each record does when it is chosen:

- **macOS bundle scanner** (`get_installed_apps` in `src/utils.rs`). It keeps the `*.app` directories of a folder. For each one it derives a display name, a lowercase search key, a description and an `OpenApp` command.
- **Bundle icon resolution.** Tier 1 reads `Contents/Info.plist` line by line. The line after `<key>CFBundleIconFile</key>` names the icon file, unwrapped from `<string>…</string>`; with no such line the name is `AppIcon.icns`. Tier 2 is a fallback over the `*.icns` files in `Contents/Resources`, with a tie-break when there are several.
- **Extra-directory indexer** (`index_dirs_from_config`). It appends every executable found in the configured directories to an app list held in a class.
- **`is_valid_url`**, a check on the domain ending of a string.
- **Linux desktop-entry scanner** (`src/cross_platform/linux.rs`). It keeps visible `.desktop` entries that have a name and a command line. It tokenises the `Exec` line and dispatches glob roots.
- **Command and record types** (`src/commands.rs`, `src/app/apps.rs`):
  - the `Function` and `AppCommand` variants and the `App` record;
  - what `execute` hands to the host for each variant (the search URL, the `sh -c` argument, the clipboard text);
  - the hand-written equalities;
  - the press message a rendered entry carries;
  - the built-in entries.

The filesystem is input data (`FileSystem.dfy`): a map from path to node. A node is a file (mode bits, bytes, optional UTF-8 text) or a directory (entry names in listing order). A listed entry with no node stands for an entry whose type or metadata cannot be read. Three foreign libraries are parameters:

- the `.icns` decoder, a function from bytes to an optional icon family;
- the desktop-entry parser;
- glob expansion.

Modules follow the source files:

| module | models |
|---|---|
| `Base` | `Option`, `Result` |
| `Strings` | the Rust `str`/`Path` helpers the source calls |
| `FileSystem` | the filesystem as input data |
| `Commands` | `src/commands.rs` |
| `Apps` | `src/app/apps.rs` |
| `Utils` | `src/utils.rs` |
| `Linux` | `src/cross_platform/linux.rs` |

In these places the model follows the code as written:

- Tier 1 uses the plist value as written and does not add a missing `.icns` extension (`src/utils.rs:135-139`).
- The indexer keeps the full file name, extension included, as the display name (`src/utils.rs:343-347`).
- The Linux scanner never sets an icon, even when icons are wanted (`src/cross_platform/linux.rs:80-88`).
- On macOS, an extra-directory entry with extension `app` qualifies whether or not it is a directory (`src/utils.rs:339`).
- The Linux command is built from two strings, the command and the joined arguments (`src/cross_platform/linux.rs:92-95`). `execute` joins a sequence of strings, so the model stores `RunShellCommand([cmd, args])`.

Two inconsistencies in the source are resolved as follows:

- The scanners write a field `icons`, but `App` declares `icon`. The model uses `icon`.
- `index_dirs_from_config` builds its record without `desc` and without the `AppCommand::Function` wrapper (`src/utils.rs:344-349`). The model uses `desc == ""` and `Function(OpenApp(path))`.

## Model

| member | source | states |
|---|---|---|
| `Utils.HandleFromIcns` | src/utils.rs:49-66 | the handle is the first variant's image of the family decoded from the file's bytes; an unreadable file, a failed decode or an empty family give none |
| `Utils.HandleFromIcnsTakesFirst` | src/utils.rs:53-55 | when the family's first variant is `first`, the result depends on that variant alone, whatever follows it |
| `Utils.FirstKeyIndex` | src/utils.rs:111-121 | the index found is the first line whose trimmed text is exactly `<key>CFBundleIconFile</key>`, and none is found iff no line trims to it |
| `Utils.IconLine` | src/utils.rs:109-126 | an icon line exists iff the key line exists and is not the last line; it is then the line right after the first key line |
| `Utils.ScanIconLine` | src/utils.rs:109-126 | the `scan` loop threading the `expect_next` flag over the lines returns exactly `IconLine(lines)` |
| `Utils.StringValue` | src/utils.rs:127-133 | if the trimmed line starts with `<string>` and ends with `</string>`, the trimmed line is `<string>` + value + `</string>`; otherwise the value is `""` |
| `Utils.IconFileName` | src/utils.rs:109-138 | definition: the unwrapped value of the line after the first key line, or `AppIcon.icns` without one; its cases are `IconFileNameDeclared` and `IconFileNameDefault` |
| `Utils.IconFileNameDeclared` | src/utils.rs:109-139 | a plist whose line after the first key line is `<string>name</string>` (with any surrounding whitespace) declares the icon file `name` |
| `Utils.IconFileNameDefault` | src/utils.rs:138 | a plist without a key line, or with the key on its last line, names `AppIcon.icns` |
| `Utils.DeclaredIcon` | src/utils.rs:107-139 | definition of tier 1: the decoded `Contents/Resources/<IconFileName>`, and none when `Info.plist` cannot be read as text |
| `Utils.FallbackIcon` | src/utils.rs:145-170 | definition of tier 2: with several candidates `AppIcon.icns` if listed, else none; with one candidate that file; with none no icon; its cases are the four fallback lemmas below |
| `Utils.ResolveIcon` | src/utils.rs:106-172 | definition: tier 1 when it yields a handle, otherwise tier 2, as the `Ok(Some(a))` arm and its fallback do; its properties are `DeclaredIconWins` and the fallback lemmas |
| `Utils.IcnsNames` | src/utils.rs:145-158 | no more candidates than entries, and a name is a candidate iff it is listed and ends in `.icns` |
| `Utils.IcnsNamesEmpty` | src/utils.rs:145-158 | there is no candidate iff no listed name ends in `.icns` |
| `Utils.IcnsNamesCounts` | src/utils.rs:145-158 | every `.icns` name is a candidate exactly as often as it is listed, and no other name is one; so the count that picks the tie-break branch is the number of `.icns` entries |
| `Utils.IcnsNamesAppend` | src/utils.rs:145-158 | the candidates of one listing followed by another are the first's candidates followed by the second's, so the candidates keep the listing order |
| `Utils.DeclaredIconWins` | src/utils.rs:135-142 | when the plist reads and its declared file decodes to `h`, the icon is `h` and the fallback is not consulted |
| `Utils.AmbiguousFallbackHasNoIcon` | src/utils.rs:160-165 | with two distinct candidates, neither of them exactly `AppIcon.icns`, the fallback gives no icon |
| `Utils.FallbackPrefersDefault` | src/utils.rs:160-165 | with several candidates, one of them `AppIcon.icns`, the fallback decodes `Resources/AppIcon.icns` |
| `Utils.FallbackSingleCandidate` | src/utils.rs:166-167 | when tier 1 yields nothing and `Resources` lists exactly one name ending in `.icns`, once, that file is decoded whatever its name |
| `Utils.FallbackWithoutCandidates` | src/utils.rs:168-170 | no candidate gives no icon |
| `Utils.BundleApp` | src/utils.rs:87-98 | an entry gives a record iff it is a directory whose name ends in `.app`; the record has the name minus `.app`, the lowercase key, desc `Application`, `OpenApp` of the full path, and an icon only when icons are stored |
| `Utils.BundleApps` | src/utils.rs:80-186 | no more records than entries, and every record comes from a bundle entry as `BundleApp` describes |
| `Utils.BundleAppsComplete` | src/utils.rs:80-186 | every bundle entry's record is in the result |
| `Utils.BundleAppsSelection` | src/utils.rs:80-186 | the records are what `filter_map` keeps: the records of the entries at strictly increasing positions, which are all the bundle positions; so one record per bundle entry, in listing order |
| `Utils.MacInstalledApps` | src/utils.rs:71-187 | the scan fails as a whole with `DirectoryUnreadable` iff `read_dir` fails, which in the model means the folder is not a directory (see "## Left out"), and with `EntryTypeUnreadable` iff some entry's type is unreadable; on success it gives no more records than entries, each from a bundle entry |
| `Utils.MacScanComplete` | src/utils.rs:71-187 | when the directory reads and every entry type reads, every bundle entry's record is in the result |
| `Utils.MacScanSelection` | src/utils.rs:71-187 | a successful scan gives exactly one record per bundle entry, in listing order, as `BundleAppsSelection` states |
| `Utils.MacRecordsKeyedAndIconless` | src/utils.rs:173-184 | every record of a successful scan has `nameLc == Lower(name)` and desc `Application`, and with icons off it has no icon |
| `Utils.MacScanWithoutIconsIgnoresReader` | src/utils.rs:173-175 | without icons, the scan does not depend on the icon decoder, so no icon tier runs |
| `Utils.EndsWithDomainByLastLabel` | src/utils.rs:210-221 | a string ends with `.` followed by one of a list of dot-free labels iff its label after the last dot is in that list |
| `Utils.IsValidUrl` | src/utils.rs:210-221 | definition: the ten `ends_with` tests on `.com .net .org .edu .gov .io .co .me .app .dev`, in order; characterised by `IsValidUrlByLastLabel` |
| `Utils.IsValidUrlByLastLabel` | src/utils.rs:210-221 | a string is a valid URL iff it has a dot and the text after its last dot is one of `com net org edu gov io co me app dev` |
| `Utils.IsExecutable` | src/utils.rs:332-340 | definition: on Windows a file with extension `exe`; on macOS a file with one of the `0o111` bits set, or any entry with extension `app` |
| `Utils.ExtensionQualifies` | src/utils.rs:332-340 | any file named `<stem>.exe` qualifies on Windows, and any entry named `<stem>.app`, file or directory, qualifies on macOS |
| `Utils.ConfigApp` | src/utils.rs:343-349 | definition of the pushed record: `OpenApp` of the path, the full file name, its lowercase, desc `""` and no icon |
| `Utils.EntriesRun` | src/utils.rs:328-351 | definition of the inner loop over a directory's entries: the records of the executables, stopping at the first entry without metadata; no more records than entries; one record per runnable entry in listing order is `EntriesRunSelection` |
| `Utils.DirRun` | src/utils.rs:320-327 | definition of one configured directory: a missing path pushes nothing, a path that is not a directory panics, otherwise its entries run |
| `Utils.DirsRun` | src/utils.rs:319-352 | definition of the outer loop: the directories in order, stopping at the first panic |
| `Utils.EntriesRunPanics` | src/utils.rs:328-330 | the indexing of one directory panics iff some listed entry has no metadata |
| `Utils.EntriesRunSound` | src/utils.rs:328-350 | every record pushed for a directory is the record of an executable entry, keyed by the lowercase full file name, with desc `""` and no icon |
| `Utils.EntriesRunComplete` | src/utils.rs:328-350 | when no entry of a directory panics, every executable entry's record is pushed |
| `Utils.ConfigOutcomesAt` | src/utils.rs:328-350 | the indexer's outcome for the `i`-th entry: the record of that entry when it has metadata and qualifies, none otherwise |
| `Utils.EntriesRunSelection` | src/utils.rs:328-350 | when a directory's run does not panic, its records are the runnable entries' records at strictly increasing positions, covering every runnable entry; so one record per runnable entry, in listing order |
| `Utils.EntriesRunPanicPrefix` | src/utils.rs:328-330 | a run that panics stops at an entry without metadata, and what it pushed is the non-panicking run of the entries before it, to which `EntriesRunSelection` applies |
| `Utils.DirsRunRecords` | src/utils.rs:319-352 | every record pushed over the configured directories has `nameLc == Lower(name)`, no icon, and comes from an executable entry of an existing configured directory |
| `Utils.DirsRunComplete` | src/utils.rs:319-352 | without a panic, every executable entry of every existing configured directory is pushed |
| `Utils.DirRunSelection` | src/utils.rs:319-350 | unless it panics, one configured directory gives the selection of its entries' outcomes; a missing one gives none |
| `Utils.DirsRunSelection` | src/utils.rs:319-352 | without a panic, the pushed records are the selection over the outcomes of all configured directories' entries, directory by directory and each in listing order |
| `Utils.DirsRunPanics` | src/utils.rs:321-330 | the run panics iff some configured path exists but is not a directory, or is a directory with an entry lacking metadata |
| `Utils.AppList.IndexDirsFromConfig` | src/utils.rs:315-354 | with no configured directories it returns false and leaves the list unchanged; otherwise the list becomes its old contents followed by the pushed records, and a run that does not panic returns true |
| `Utils.AppList.IndexDirs` | src/utils.rs:319-352 | the loop over configured directories appends exactly the pushed records of the run and reports its panic |
| `Utils.AppList.IndexDir` | src/utils.rs:320-327 | a missing directory pushes nothing; a path that is not a directory panics; otherwise its entries are indexed |
| `Utils.AppList.IndexEntries` | src/utils.rs:328-351 | the loop over a directory's entries appends exactly the records of its executables, stopping at the first entry without metadata |
| `Commands.EncodeQuery` | src/commands.rs:42 | the encoded query has the same length, with every space turned into `+` and every other character kept |
| `Commands.EncodeQueryRoundTrip` | src/commands.rs:42 | a query without `+` is recovered by turning the `+` back into spaces |
| `Commands.SearchUrl` | src/commands.rs:43 | the template cut at its `%s` placeholders gives placeholder-free pieces; rejoined with `%s` they give the template back, and rejoined with the encoded query they give the URL |
| `Commands.SearchUrlWithoutPlaceholder` | src/commands.rs:43 | a template without `%s` is opened unchanged |
| `Commands.ShellArgument` | src/commands.rs:30 | the `sh -c` argument is the tokens joined by single spaces: splitting it on spaces gives back a non-empty list of space-free tokens; for Linux records, whose second part holds spaces when there are several arguments, `Linux.DesktopCommandLine` states the round trip over whitespace |
| `Commands.I32ToStringRoundTrip` | src/commands.rs:37 | the text copied for `RandomVar` is an optional `-` followed by digits, and it parses back to the number |
| `Commands.I32ToString` | src/commands.rs:37 | definition of `i32::to_string`: a `-` for negatives, then the decimal digits without leading zeros; its round trip is `I32ToStringRoundTrip` |
| `Commands.Execute` | src/commands.rs:20-64 | a shell command spawns `sh -c` with the joined tokens; `RandomVar` puts the number's decimal text on the clipboard; `GoogleSearch` opens the search URL |
| `Commands.ContentEqCases` | src/commands.rs:79-92 | a text never equals an image in either order; two texts are equal iff their strings are; two images iff their byte buffers are |
| `Commands.ContentEqIsEquivalence` | src/commands.rs:79-92 | clipboard equality is reflexive, symmetric and transitive |
| `Commands.ImagesEqualDespiteDimensions` | src/commands.rs:85-88 | two images with the same bytes but different dimensions compare equal, although they differ as values |
| `Commands.ContentEq` | src/commands.rs:79-92 | definition of the hand-written equality: texts by content, images by bytes alone, mixed kinds never; characterised by `ContentEqCases` |
| `Apps.AppEqIgnoresCommand` | src/app/apps.rs:45-52 | two entries are equal iff they agree once the command is disregarded |
| `Apps.AppEqIsEquivalence` | src/app/apps.rs:45-52 | entry equality is reflexive, symmetric and transitive |
| `Apps.AppEq` | src/app/apps.rs:45-52 | definition: agreement on `name_lc`, `icon`, `desc` and `name`; characterised by `AppEqIgnoresCommand` |
| `Apps.PressMessage` | src/app/apps.rs:181-185 | there is no message iff the command is `Display`; a function `f` sends `RunFunction(f)`, and a message is sent unchanged |
| `Apps.BasicAppsTable` | src/app/apps.rs:71-137 | seven entries sharing one icon; only the sixth, the version banner, is `Display` and cannot be run; the search keys are `quit settings emoji clipboard refresh version finder`; the banner reads `Current RustCast Version: ` followed by the version or `Unknown Version` |
| `Apps.BasicKeysAreNotLowercasedNames` | src/app/apps.rs:84-136 | the search keys are chosen words: `quit` is not the lowercase of `Quit RustCast`, while `finder` happens to be that of `Finder` |
| `Apps.BasicApps` | src/app/apps.rs:71-137 | definition of the `vec!` literal of seven entries; its shape is `BasicAppsTable` |
| `Linux.DropFieldCodes` | src/cross_platform/linux.rs:74 | at most as many tokens as given; every kept token is an input token that does not start with `%`, every such token is kept, and none is kept iff every token is a field code |
| `Linux.DropFieldCodesFirst` | src/cross_platform/linux.rs:74-76 | the first kept token is the first input token that is not a field code |
| `Linux.DropFieldCodesCounts` | src/cross_platform/linux.rs:74 | every token that is not a field code is kept exactly as often as it occurs, and no field code is kept |
| `Linux.DropFieldCodesAppend` | src/cross_platform/linux.rs:74 | filtering a concatenation is the concatenation of the filtered parts, so the kept tokens, and with them the Exec arguments, stay in line order |
| `Linux.ParseExec` | src/cross_platform/linux.rs:73-78 | definition: the first token left after dropping field codes, and the rest joined by single spaces; none when no token is left |
| `Linux.ParseExecCommand` | src/cross_platform/linux.rs:74-76 | the command is the first whitespace token of the `Exec` line that is not a field code |
| `Linux.ParseExecNone` | src/cross_platform/linux.rs:76 | a command line yields no command iff every whitespace token is a field code, a blank line included |
| `Linux.ParseExecTokens` | src/cross_platform/linux.rs:73-78 | the command followed by the re-split arguments is exactly the token list with field codes removed, and neither the command nor any argument starts with `%` |
| `Linux.EntryOf` | src/cross_platform/linux.rs:50-61 | definition: the parsed entry of a name with extension exactly `desktop` whose file reads as text; none otherwise |
| `Linux.DesktopApp` | src/cross_platform/linux.rs:50-96 | an entry gives a record iff it has extension `desktop`, reads as text, parses with a name and a command line that is not all field codes, and is neither `NoDisplay` nor `Hidden`; the record has the name, its lowercase key, the comment or `""`, no icon, and `RunShellCommand([cmd, args])` |
| `Linux.DesktopCommandLine` | src/cross_platform/linux.rs:73-95 | the command a record runs, split on whitespace, is the entry's tokens with field codes removed |
| `Linux.DesktopApps` | src/cross_platform/linux.rs:49-97 | the records of the listed entries taken in order; no more records than entries |
| `Linux.DesktopOutcomesAt` | src/cross_platform/linux.rs:49-97 | the per-entry outcome at position `i` is that of the `i`-th listed entry |
| `Linux.DesktopAppsSound` | src/cross_platform/linux.rs:49-97 | every record comes from a directory entry as `DesktopApp` describes |
| `Linux.DesktopAppsComplete` | src/cross_platform/linux.rs:49-97 | every entry that gives a record has it in the result |
| `Linux.DesktopAppsSelection` | src/cross_platform/linux.rs:49-97 | the records are exactly those of the entries that give one, each once, at strictly increasing positions: the `for`/`push` order |
| `Linux.LinuxApps` | src/cross_platform/linux.rs:41-100 | definition: no records for a root that does not exist or is not a directory, else the records of its entries |
| `Linux.LinuxAppsSelection` | src/cross_platform/linux.rs:41-100 | a directory root gives exactly one record per entry that yields one, in listing order |
| `Linux.GetInstalledApps` | src/cross_platform/linux.rs:41-100 | the `for` loop, with its `continue` skips and pushes, returns exactly the records of the root's entries in listing order, or none when the root is not a directory |
| `Linux.LinuxAppsShaped` | src/cross_platform/linux.rs:45-96 | a directory root gives no more records than entries; each record is keyed by its lowercase name, has no icon, and runs a two-part shell command whose first part is not a field code |
| `Linux.LinuxInstalledAppsShaped` | src/cross_platform/linux.rs:15-39 | the records gathered over all roots, glob roots included, have the same shape |
| `Linux.GlobApps` | src/cross_platform/linux.rs:29-39 | definition: a root containing `*` scans every expanded path in order and concatenates the records; any other root is scanned directly |
| `Linux.LinuxInstalledApps` | src/cross_platform/linux.rs:15-27 | definition: the records of every root, in the order of the roots |
| `Linux.GlobPlainRoot` | src/cross_platform/linux.rs:30-38 | a root without `*` is scanned directly, whatever the glob expansion would give |
| `Linux.MissingRootIsEmpty` | src/cross_platform/linux.rs:45-47 | a root that does not exist or is not a directory yields no records |
| `Strings.TrimSpec` | src/utils.rs:118-128 | `trim` gives a slice of the text with only whitespace outside it and no whitespace at either end |
| `Strings.SplitWhitespaceOfJoin` | src/cross_platform/linux.rs:78 | re-splitting on whitespace the tokens joined by single spaces gives back the tokens |

## Left out

- The side effects of `execute` are left out:
  - the model produces a description of the request for the host and performs nothing;
  - opening URLs, spawning processes, clipboard access and `exit` are not performed;
  - the URL constructor's `unwrap`, which could fail on a malformed search URL, is not modelled.
- Commands.Execute: for `OpenApp`, `OpenPrefPane` and `Quit` its contract states nothing. Their outcome depends only on the host.
- `rayon` parallel iteration (`src/utils.rs:80-81`, `src/cross_platform/linux.rs:19-23`) is modelled as a sequential pass. Its `collect` into a `Vec` keeps the input order, so the sequential order is the source's own; only the concurrency is not modelled.
- `to_lowercase` is modelled on ASCII letters only. Non-ASCII case mapping needs Unicode tables.
- Icon handles are compared by value, since image handles are opaque.
- The `into_string` and `to_str` failure exits (`src/utils.rs:92-104`) are not modelled, because file names are modelled as strings already.
- A directory that exists but cannot be listed is not modelled: the filesystem's `read_dir` fails only on a path that is not a directory. So the model has no panic for the Linux scanner's `read_dir(dir).unwrap()` (`src/cross_platform/linux.rs:49`) or the indexer's (`src/utils.rs:326`) on such a directory. The Mac scanner's exit on any `read_dir` failure (`src/utils.rs:72-75`) is modelled only for a path that is not a directory. `LinuxApps`, `GlobApps` and `LinuxInstalledApps` therefore have no failure outcome, although a panic in one rayon worker aborts `get_installed_linux_apps` as a whole (`src/cross_platform/linux.rs:19-23`).
- Glob pattern errors are not modelled: the expander is a total function of the root, so `glob(path).unwrap()` (`src/cross_platform/linux.rs:32`) never panics in the model.
- Errors on individual directory entries are not modelled, nor are symbolic links. The scanners drop such errors with `filter_map(ok)` and `flatten`, and `index_dirs_from_config` panics on one in `path.unwrap()` (`src/utils.rs:329`). Every listed name is readable.
- `.icns` decoding and RGBA conversion, the desktop-entry key-file parser and glob expansion are not modelled. They are foreign libraries, taken as parameters.
- In the fallback, when several candidates exist and none is `AppIcon.icns`, the source decodes an empty path. The model gives no icon, which is what reading the empty path yields.
- `emoji_apps` is not modelled, because it depends on an external emoji table. `Function::CopyToClipboard`, which only it uses, is absent from the `Function` enum in `src/commands.rs`.
- `ClipboardContent` is not modelled, because its timestamp comes from the clock. `from_content_type` is not modelled for the same reason.
- Configuration is not modelled: reading the file, TOML parsing, its error return, config paths and `default_app_paths`. The configured directories and the Linux roots are inputs.
- `open_settings`, `open_url`, `open_application` and the second `get_installed_apps` (`src/utils.rs:357`), a per-platform dispatcher, are not modelled. They are thread spawning and platform selection.
- Iced rendering is not modelled, except the press-message mapping: the widget tree, styles and colour arithmetic (floating point).
- `Message` has only the three variants this core names.
- The Linux `store_icons` flag is accepted and ignored. The source also ignores it, because it never stores the icon it looks up.
- The indexer takes the platform as a parameter, covering macOS and Windows. The source defines no executable test for other platforms.
