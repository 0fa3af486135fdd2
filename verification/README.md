# nano_dev_utils in Dafny

A functional model of the small developer utilities in `nano_dev_utils`:

- **FileTreeDisplay** renders a directory as an indented text tree.
  - Kept subdirectories come first, in name order, each followed by its own subtree. Kept files follow, in name order.
  - Every level adds one `style * indent` unit to the line prefix.
  - Names are hidden by literal membership in, or a shell-pattern match against, the ignore set for their kind.
  - An unreadable directory becomes a single placeholder line.
  - The tree text starts with a `<root name>/` header line. It is either written to a file, whose path is returned, or returned and optionally printed.
- **PortsRelease** frees TCP ports in both versions the repository ships.
  - It runs the platform's socket-listing command, reads the PID from the first matching line of its output, and kills that process.
  - `release_all` does this for a list of ports.
- **Timer** picks the unit (ns, μs, ms, s) in which an elapsed time is shown.
- **Importer** is a lazy cache of imported modules.
- **update** copies attributes onto an object that has a `__dict__`, or one that has only `__slots__`.
- **merge_config** is the command-line entry point's overlay of options onto a configuration file.

The filesystem, the commands' output, the kill return code, the operating system's name and the import machinery are inputs:

- the directory tree is a `Listing` value;
- command results are `Call` values;
- imports are an oracle function.

Log output is a sequence of `LogEvent` values.

Modules:

- `Wrappers`: `Option`, `Result`, and `Call`, which is a returned value or a raised exception.
- `Text`: the Python `str` behaviour the code relies on. This covers `*`, `join`, `split(c)`, `split()` with Python's whitespace set, and `splitlines()` with its line-break set. It also covers `in`, `str(int)`, `int(token)`, and code-point order.
- `Glob`: case-sensitive `fnmatch`.
- `FileTree`: `file_tree_display.py`.
- `ReleasePorts` and `LegacyReleasePorts`: the current and the older `release_ports.py`. The older one is written as the loops it is and is proved to compute what the current model computes.
- `Timers`, `DynamicImporter`, `Common` and `CliMerge`.

Where the repository's own texts disagree, the model follows the code of `file_tree_display.py`:

- The docstring of `file_tree_display` (`file_tree_display.py:55-57`) calls the returned tree "CRLF-separated". `get_tree_info` joins the lines with `\n` (line 78), and so does the model.
- With `save2file`, `file_tree_display` returns the output path and prints nothing (lines 67-68).
- `format_out_path` puts the default file inside the root, as `root / "<name>_filetree.txt"` (lines 154-158). The command-line entry point computes its own default beside the root with `with_name` (`__main__.py:97`) and passes it in as `filepath`.
- The suffix is `_filetree.txt` (`file_tree_display.py:6`). `ftd_consts.py:4` defines `_file_tree.txt`, which `file_tree_display.py` does not import.
- The only ordering is the plain code-point sort of `list.sort` (lines 108-109). The entry point passes `include_dirs`, `include_files`, `files_first`, `skip_sorting`, `sort_key_name` and `reverse` (`__main__.py:104-111`), which the constructor (lines 17-27) does not accept.

## Model

| member | source | states |
|---|---|---|
| FileTree.Init | src/nano_dev_utils/file_tree_display.py:40-47 | an empty or missing root falls back to the current directory; ignore lists become sets holding exactly their members; other settings are kept |
| FileTree.FormatOutPath | src/nano_dev_utils/file_tree_display.py:154-158 | a non-empty `filepath` is used as given; otherwise the path starts with the root's text, its `/`-separated components are the root's components followed by one more, and that last component is the root's name followed by `_filetree.txt` |
| FileTree.JoinPathComponents | src/nano_dev_utils/file_tree_display.py:157 | joining a single name under a directory adds exactly that name to the directory's components |
| FileTree.JoinPathName | src/nano_dev_utils/file_tree_display.py:156-157 | a single name joined under a directory is the last component of the joined path |
| FileTree.PlainNameIgnoredByPattern | src/nano_dev_utils/file_tree_display.py:118-131 | for a name with no glob metacharacters, `should_ignore` holds iff some member of the set for its kind matches it as a pattern |
| FileTree.LiteralMemberIgnored | src/nano_dev_utils/file_tree_display.py:128-130 | a literal member is ignored even when, read as a pattern, it does not match itself (`[ab]`) |
| FileTree.Select | src/nano_dev_utils/file_tree_display.py:93-100 | the `dirs` or `files` list holds each entry of the listing of that kind that is not ignored, as often as the listing holds it, and nothing else |
| FileTree.SortByName | src/nano_dev_utils/file_tree_display.py:108-109 | the sort yields a permutation of its input that is ordered by name in code-point order |
| FileTree.SortedDirs | src/nano_dev_utils/file_tree_display.py:93-108 | the kept subdirectories, name-sorted, are exactly the directory entries of the listing that are not ignored |
| FileTree.SortedFiles | src/nano_dev_utils/file_tree_display.py:93-109 | the kept files, name-sorted, are exactly the non-directory entries (symbolic links included) that are not ignored |
| FileTree.ReadableLength | src/nano_dev_utils/file_tree_display.py:111-116 | the line count is the total size of the subdirectory blocks plus one line per kept file |
| FileTree.DirectoryBlockAt | src/nano_dev_utils/file_tree_display.py:111-113 | the j-th kept subdirectory's line is `prefix + unit + name + "/"`, directly followed by its whole subtree rendered with the prefix extended by one unit |
| FileTree.FileLineAt | src/nano_dev_utils/file_tree_display.py:115-116 | after all subdirectory blocks, the j-th line is `prefix + unit + name` of the j-th kept file in name order |
| FileTree.FlattenSlice | src/nano_dev_utils/file_tree_display.py:111-113 | the lines yielded for one subdirectory sit contiguously and in order at their offset in the directory's output |
| FileTree.LinesCarryPrefix | src/nano_dev_utils/file_tree_display.py:101-116 | every line yielded for a directory read with prefix p starts with `p + style * indent`, placeholder lines included |
| FileTree.DirBlockCarriesPrefix | src/nano_dev_utils/file_tree_display.py:112-113 | every line of a subdirectory's block starts with the parent's prefix plus one unit |
| FileTree.StarStyleIndentThree | src/nano_dev_utils/file_tree_display.py:102-116 | with style `*` and indent 3 every line starts with `***` |
| FileTree.UnreadableDirectory | src/nano_dev_utils/file_tree_display.py:101-106 | a directory that raises PermissionError or another OSError yields exactly one line, `prefix + unit + "[Permission Denied]"` or `prefix + unit + "[Error reading directory]"` |
| FileTree.IgnoredEntryInvisible | src/nano_dev_utils/file_tree_display.py:95-100 | removing an ignored entry from a listing leaves the output unchanged |
| FileTree.IgnoredDirectoryUnread | src/nano_dev_utils/file_tree_display.py:95-98 | the contents of an ignored directory do not matter, even whether it can be read |
| FileTree.IgnoreSetsAreKindSpecific | src/nano_dev_utils/file_tree_display.py:95-100 | directory names are matched only against `ignore_dirs` and files only against `ignore_files` |
| FileTree.SortedUnique | src/nano_dev_utils/file_tree_display.py:108-109 | two name-sorted sequences of the same distinct-named entries are equal |
| FileTree.EnumerationOrderIrrelevant | src/nano_dev_utils/file_tree_display.py:92-116 | the order in which `os.scandir` lists a directory does not change its rendering |
| FileTree.SingleFile | src/nano_dev_utils/file_tree_display.py:115-116 | a listing holding one kept file yields exactly that file's line |
| FileTree.SingleDirectory | src/nano_dev_utils/file_tree_display.py:111-113 | a listing holding one kept directory yields its `/` line followed by its subtree |
| FileTree.TreeInfo | src/nano_dev_utils/file_tree_display.py:75-78 | the tree text starts with the `<root name>/` header, followed by a newline when there are lines |
| FileTree.TreeInfoLines | src/nano_dev_utils/file_tree_display.py:76-78 | when no name holds a newline, splitting the text at newlines gives back the header and the lines in order, and the text holds exactly one newline per line |
| FileTree.Display | src/nano_dev_utils/file_tree_display.py:59-73 | a root that is not a directory fails with NotADirectoryError `The path '<root>' is not a directory.`; with `save2file` the tree is written to the output path, that path is returned and nothing is printed; otherwise the tree text is returned and printed iff `printout` |
| FileTree.DisplayText | src/nano_dev_utils/file_tree_display.py:63-73 | without `save2file`, the returned text splits into the header and the lines of the root's listing |
| Glob.PlainMatchesItself | src/nano_dev_utils/file_tree_display.py:131 | a pattern without `*`, `?` or `[` matches exactly the name it spells |
| Glob.StarMatchesAll | src/nano_dev_utils/file_tree_display.py:131 | `*` matches every name |
| Glob.StarSkips | src/nano_dev_utils/file_tree_display.py:131 | a leading `*` matches iff the rest of the pattern matches some suffix of the name |
| Glob.StarSuffix | src/nano_dev_utils/file_tree_display.py:131 | `*` followed by plain text matches exactly the names ending in that text |
| Glob.BracketIsNotLiteral | src/nano_dev_utils/file_tree_display.py:131 | `[ab]` matches `a` and `b` but not the name `[ab]` |
| Glob.QuestionMatchesOne | src/nano_dev_utils/file_tree_display.py:131 | `?` matches exactly the one-character names |
| Glob.ClassMatch | src/nano_dev_utils/file_tree_display.py:131 | for any set body without `]` that does not start with `!`, `[body]` matches a one-character name iff its character is a member of the body or lies in one of its `lo-hi` ranges |
| Glob.NegatedClassMatch | src/nano_dev_utils/file_tree_display.py:131 | for any set body without `]`, `[!body]` matches a one-character name iff its character is neither a member nor in a range of the body |
| Glob.NegatedClass | src/nano_dev_utils/file_tree_display.py:131 | on one-character names `[!body]` matches iff `[body]` does not, for every such body |
| Glob.ItemsWithoutRanges | src/nano_dev_utils/file_tree_display.py:131 | a set body without `-` holds exactly its own characters |
| Glob.RangeMatch | src/nano_dev_utils/file_tree_display.py:131 | `[lo-hi]` matches a one-character name iff its character lies between lo and hi, both included |
| Glob.UnclosedBracket | src/nano_dev_utils/file_tree_display.py:131 | a `[` without a closing `]` is an ordinary character |
| Text.Repeat | src/nano_dev_utils/file_tree_display.py:102 | `style * indent` has length `len(style) * indent`, is empty when indent is not positive, starts with `style` otherwise, and its i-th character is `style[i % len(style)]` |
| Text.SplitOn | src/nano_dev_utils/release_ports.py:107 | `split(c)` gives one more piece than there are separators, no piece holds the separator, and joining the pieces with it restores the text |
| Text.SplitOnJoin | src/nano_dev_utils/release_ports.py:107 | splitting a join of separator-free pieces gives back the pieces |
| Text.Tokens | src/nano_dev_utils/release_ports.py:96 | `split()` gives non-empty tokens without whitespace whose concatenation is the text without whitespace |
| Text.TokensOfJoin | src/nano_dev_utils/release_ports.py:96 | splitting space-joined tokens gives back the tokens |
| Text.TokensOfSpaced | src/nano_dev_utils/release_ports.py:96 | for any tokens without whitespace laid out with any whitespace runs, non-empty between tokens and possibly empty or absent at either end, `split()` gives back exactly the tokens |
| Text.Lines | src/nano_dev_utils/release_ports.py:93 | no line returned by `splitlines()` holds a line break |
| Text.LinesOfTerminated | src/nano_dev_utils/release_ports.py:93 | `splitlines()` of newline-terminated lines gives back the lines |
| Text.LinesReconstruct | src/nano_dev_utils/release_ports.py:93 | every text is its `splitlines()` lines, each followed by the terminator it dropped (`\r\n` or one line-break character), except a last line that runs to the end of the text, which is then non-empty |
| Text.LinesOfUnlines | src/nano_dev_utils/release_ports.py:93 | lines without breaks, each followed by a terminator except perhaps a non-empty last one, split back into exactly those lines and terminators, unless a lone `\r` is followed by an empty line ended by `\n` |
| Text.ContainsAt | src/nano_dev_utils/release_ports.py:95 | `sub in s` holds iff sub occurs at some position of s |
| Text.ParseIntOfIntToString | src/nano_dev_utils/release_ports.py:99 | `int(str(n)) == n` for every int n |
| Text.BelowIff | src/nano_dev_utils/file_tree_display.py:108 | string order is the first differing code point, with a proper prefix first |
| Text.BelowTotal | src/nano_dev_utils/file_tree_display.py:108 | any two names are ordered one way or the other |
| Text.BelowAntisymmetric | src/nano_dev_utils/file_tree_display.py:108 | names ordered both ways are equal |
| ReleasePorts.Init | src/nano_dev_utils/release_ports.py:16-21 | the default ports are the given list, or [6277, 6274] when none is given |
| ReleasePorts.SystemOf | src/nano_dev_utils/release_ports.py:74-80 | the command tables are keyed by the system's name: exactly `Windows`, `Linux` and `Darwin` select an entry, and the name is kept |
| ReleasePorts.SystemOfName | src/nano_dev_utils/release_ports.py:74-80 | a system's name determines it, so no unsupported name can reach a table entry |
| ReleasePorts.LookupCommand | src/nano_dev_utils/release_ports.py:76-83 | Windows runs `netstat -ano \| findstr :<port>`, Linux `ss -lntp \| grep :<port>`, Darwin `lsof -i :<port>`, and every other system has no command |
| ReleasePorts.KillCommand | src/nano_dev_utils/release_ports.py:125-132 | Windows runs `taskkill /F /PID <pid>`, Linux and Darwin `kill -9 <pid>`, and every other system has no command |
| ReleasePorts.TerminateFailedMessage | src/nano_dev_utils/release_ports.py:40-48 | the message is `Failed to terminate process <pid>`, then ` (on port <port>)` iff the port is given and non-zero, then `. Error: <error>` iff the error is given and non-empty |
| ReleasePorts.FirstPidPart | src/nano_dev_utils/release_ports.py:104-105 | picks the first token containing `pid=` |
| ReleasePorts.ScanLines | src/nano_dev_utils/release_ports.py:93-117 | no PID and no parse failure iff no line both holds the port's decimal text and offers a candidate token; a reported parse failure names a line of the output |
| ReleasePorts.ScanIsFirst | src/nano_dev_utils/release_ports.py:94-116 | the first line that holds the port and offers a candidate decides the result |
| ReleasePorts.ScanIgnoresLaterLines | src/nano_dev_utils/release_ports.py:98-116 | a parse failure or a found PID stops the scan: later lines are never examined |
| ReleasePorts.GetPidByPort | src/nano_dev_utils/release_ports.py:72-120 | an unsupported system runs nothing and logs the system; a raised exception or a non-empty stderr gives None with its error logged; a found PID comes with no log and is what the first selecting line offers; when no line selects, the result is None and nothing is logged |
| ReleasePorts.OutputIgnored | src/nano_dev_utils/release_ports.py:81-91 | on an unsupported system, or once stderr is non-empty, stdout is not examined |
| ReleasePorts.LookupOfOutput | src/nano_dev_utils/release_ports.py:93-117 | the first selecting line's token gives the PID when it is an int; otherwise the result is None with that line logged |
| ReleasePorts.WindowsLine | src/nano_dev_utils/release_ports.py:97-99 | on Windows a line of five or more fields mentioning the port gives the int in field 4 |
| ReleasePorts.DarwinLine | src/nano_dev_utils/release_ports.py:111-113 | on Darwin a line of two or more fields mentioning the port gives the int in field 1 |
| ReleasePorts.LinuxLine | src/nano_dev_utils/release_ports.py:103-107 | on Linux a first `pid=`-token of the form `pid=<n>` gives n |
| ReleasePorts.SsUsersPart | src/nano_dev_utils/release_ports.py:103-110 | for any process name without `=`, any PID and fd, the text between the first two `=` of the token `users:(("<name>",pid=<pid>,fd=<fd>))` is `<pid>,fd`, which `int()` rejects, so a Linux line in this form is a parse failure |
| ReleasePorts.KillProcess | src/nano_dev_utils/release_ports.py:122-142 | true iff the system is supported, the command ran and its return code is 0; nothing is logged exactly on success; an unsupported system or a non-zero code is logged, and an exception raised by the command is logged as an unexpected error |
| ReleasePorts.LookupsAreIntPorts | src/nano_dev_utils/release_ports.py:148-156 | each int port is looked up exactly once, in the given order; non-int ports are never looked up |
| ReleasePorts.KillsAreFoundPids | src/nano_dev_utils/release_ports.py:153-162 | a kill is requested exactly for each PID a lookup found, in order |
| ReleasePorts.TurnLogs | src/nano_dev_utils/release_ports.py:149-162 | for every environment: a non-int port yields exactly one invalid-port record; an int port's turn logs "no process" iff its lookup finds no PID; after a found PID the turn ends with a success record iff the kill succeeded and otherwise with a failure naming the PID and the port |
| ReleasePorts.InvalidsAreNonInts | src/nano_dev_utils/release_ports.py:149-152 | the invalid-port records name exactly the non-int arguments, once each and in order |
| ReleasePorts.ReleaseAllPorts | src/nano_dev_utils/release_ports.py:144-148 | without a port list the object's default ports are processed; with one, even an empty one, only that list |
| ReleasePorts.DefaultPortsLookedUp | src/nano_dev_utils/release_ports.py:11-21 | with no arguments, ports 6277 and 6274 are looked up in that order |
| LegacyReleasePorts.GetPidByPort | src/nano_utils_yaronday/release_ports.py:22-70 | the older loop returns the same PID and logs the same event as the current lookup for every system, port and command result |
| LegacyReleasePorts.KillProcess | src/nano_utils_yaronday/release_ports.py:72-92 | the older kill succeeds exactly when the current one does: supported system, command ran, return code 0 |
| LegacyReleasePorts.ReleasePort | src/nano_utils_yaronday/release_ports.py:98-112 | one turn of the older loop produces the same events as the current one |
| LegacyReleasePorts.ReleaseAll | src/nano_utils_yaronday/release_ports.py:94-114 | the older `release_all` looks up exactly the int ports in order and kills exactly the PIDs found; its event trace equals the current version's |
| Timers.Scale | src/nano_dev_utils/timers.py:18-29 | value times the unit's size in nanoseconds is exactly the total; the value is below 1000 for every unit but s, and at least 1 for every unit but ns |
| Timers.ScaleIsLargestFit | src/nano_dev_utils/timers.py:18-29 | the chosen unit is the largest whose size does not exceed the total, and ns below one microsecond |
| Timers.ScaleMonotone | src/nano_dev_utils/timers.py:18-29 | a longer time never gets a smaller unit |
| Timers.Boundaries | src/nano_dev_utils/timers.py:18-29 | 999 → ns, 1000 → 1 μs, 999999 → μs, 10^6 → 1 ms, 10^9 − 1 → ms, 10^9 → 1 s |
| DynamicImporter.Init | src/nano_dev_utils/dynamic_importer.py:8-9 | a new importer has an empty cache |
| DynamicImporter.ImportModFromLib | src/nano_dev_utils/dynamic_importer.py:11-27 | a hit returns the cached module and imports nothing; a miss imports exactly `library.module_name`; a success adds only `module_name ↦ module`; ModuleNotFoundError gives ImportError `Could not import library.module_name` with the cache unchanged; when the import succeeds the call returns that module and caches it; any other error passes through unchanged with the cache untouched |
| DynamicImporter.HitIgnoresLibrary | src/nano_dev_utils/dynamic_importer.py:17-18 | a cached module is returned whatever library is named |
| DynamicImporter.Idempotent | src/nano_dev_utils/dynamic_importer.py:17-25 | after a successful call, repeating it returns the same module without importing |
| DynamicImporter.RunKeepsEntries | src/nano_dev_utils/dynamic_importer.py:17-25 | across any sequence of calls, cache entries are never replaced or removed; new keys are names that were asked for; every entry is what the import gave for that name |
| Common.Overlay | src/nano_dev_utils/common.py:13-14 | every given name takes its value, other attributes keep theirs, and no other name appears |
| Common.FirstRefused | src/nano_dev_utils/common.py:15-19 | finds the first name, in dict order, that has no slot |
| Common.Update | src/nano_dev_utils/common.py:13-22 | only a slots-only object can fail, the failure names a given name without a slot, and no existing attribute is removed |
| Common.DictObjectUpdate | src/nano_dev_utils/common.py:13-14 | on a `__dict__` object every given name takes its new value, other attributes are unchanged, and nothing is raised |
| Common.SlotsObjectUpdate | src/nano_dev_utils/common.py:15-18 | on a slots-only object the update succeeds iff every name has a slot, and then every name takes its value; an attribute not named keeps its value and no new name appears |
| Common.SlotsObjectRefusal | src/nano_dev_utils/common.py:15-22 | the first name without a slot raises AttributeError whose message names it; the earlier names stay set (no rollback); that name and all later ones keep their old state, as does every attribute not named |
| Common.CannotSetMessage | src/nano_dev_utils/common.py:20-22 | the message names the key in quotes |
| CliMerge.MergeConfig | src/nano_dev_utils/__main__.py:75-83 | the key set is the config keys plus the non-None CLI keys other than `config`; non-None CLI values win, and every other config value is kept |
| CliMerge.NoneNeverOverrides | src/nano_dev_utils/__main__.py:79-82 | CLI values of None, and a `config` key, change nothing |
| CliMerge.MergeIdempotent | src/nano_dev_utils/__main__.py:79-83 | merging the same command line twice equals merging it once |
| CliMerge.DefaultsOverrideConfig | src/nano_dev_utils/__main__.py:40-70 | options with non-None parser defaults (`style`, `indent`, the `store_true` flags, `sort_key`) always override the file; options defaulting to None leave it alone |
| CliMerge.CfgIsCopied | src/nano_dev_utils/__main__.py:25 | the config path is stored as `cfg`, not `config`, so a given `--cfg` is copied into the merged options |

## Left out

- Filesystem access: `os.scandir`, `Path.is_dir` and `Path.cwd` are replaced by the `Listing` data and a `cwd` parameter. The write in `buffer2file` and its re-raised PermissionError and OSError are left out. `print` is the `printed` field of the outcome.
- Path normalisation by `pathlib`: `str(Path(p))` collapses repeated slashes and `.` parts. The model keeps the root text as given and joins with a single `/`. `PathName` drops empty and `.` components.
- The order in which a lazy generator touches the filesystem: the tree is data, so traversal is not interleaved with I/O.
- `FileTreeDisplay.update`, `PortsRelease.update` and `PortsRelease.init`: thin wrappers over attribute assignment. `Common.Update` is the general form.
- Names holding lone surrogates: Python strings, such as names `os.scandir` decodes with `surrogateescape`, may hold them, but a Dafny `string` holds only Unicode scalar values.
- Case folding in `fnmatch` (`normcase` on Windows): the glob is case-sensitive. Its character ranges use plain code-point comparison.
- Text.ParseInt: models `int()` on a whitespace-free token as an optional sign and one or more ASCII digits. Underscores and non-ASCII digits are not accepted.
- Byte decoding of command output and stderr: the model receives decoded text. A UnicodeDecodeError is among the exceptions a `Call` can report as raised.
- `platform.system()` is assumed to return the same name on every call, so the model takes one `System` per `World`. Both versions call it several times; the current one calls it at release_ports.py lines 64, 74 and 129.
- Ports that are Python `bool`s: `isinstance(True, int)` holds (`release_ports.py:149`), so `True` is looked up, but the command and the line filter then use the text `True` (`:{port}`, `str(port) in line`, lines 77-79 and 95). `PortArg` holds only ints, so such ports are not modelled.
- The outer `except Exception` of `release_all`: `get_pid_by_port` and `kill_process` catch their own exceptions, and logging is not modelled as failing.
- Log output: each record is a `LogEvent` with a level. `ReleasePorts.Message` and `LegacyReleasePorts.LegacyMessage` give the wording, which has no contract of its own.
- Oracles are functions: the same port always gives the same command output, the same PID the same kill result, and the same dotted path the same import outcome.
- Timers.Scale: the value is the exact quotient, not Python's float division. The `precision`-digit formatting, the `verbose` argument text and the clock are left out, as is the float-seconds timer of the older package.
- The rest of `__main__.py`: argparse parsing itself, `main`, and the include sets, connector styles, sort keys, `files_first`, `skip_sorting` and `reverse` it passes on. The constructor does not accept those options.
- `ftd_consts.py`, the package `__init__` files and the benchmark scripts.
