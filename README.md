# Odin completions and editor commands, modelled in Dafny

This project models the text-processing core of a Sublime Text plugin for the Odin language.

**Completion synthesis.** The plugin turns Odin declaration text into snippet completions: pairs of a label and an insert text with `${n:param}` placeholders. It covers:
- procedures, with the splitter for parameter lists that keeps commas inside a procedure-typed parameter;
- types, structs and variables;
- the block-comment, line-comment and import strippers;
- the per-definition dispatch and the `before_dot` context;
- the per-package completion cache.

**The two `odin query` indexers.**
- `odin_completer.py` re-indexes on a file change or after a minute, and its per-package accessors empty each list.
- `completer.py` indexes once per completer, and its accessors keep what each list already holds.

Both parse the procedure signature string the query reports.

**The editor utilities.**
- Ada case conversion of a selection (`ContextCommands.py`).
- Parsing and merging of the Visual Studio environment (`odin_set_vc_vars.py`).
- The string work of the side-bar commands (`SidebarCommands.py`):
  - the path of a command;
  - the clipboard message;
  - Duplicate's compound extension and the input-panel selection of Duplicate and Move;
  - the filtering and rewriting of the shader build report.

**Modules.**
- `Base` holds `Option`, Python's exception kinds and an `Outcome` that is a value or a raised exception.
- `Strings` and `Paths` model the Python string and POSIX `os.path` (`posixpath`) operations the plugin calls: `strip`, `find`, `split`, `join`, `replace`, `splitlines`, `upper`/`lower` on ASCII, `os.path.split` and `os.path.splitext`.
- `Parser` models `parser.py`.
- `OdinCompletions` models `OdinCompletions.py`.
- `PackageIndex` holds what the two indexers share: the decoded query records, the three per-package dictionaries and the package list. They form the class `PackageTables`, which both `Completer` classes refer to, as the class attributes of the source are shared by every instance. The module also holds the signature parsing.
- `OdinCompleter` and `Completer` model the two indexers.
- `ContextCommands`, `VcVars` and `Sidebar` model the utilities.

**Form of the model.**
- Code that changes state is imperative Dafny: classes whose methods change fields, and loops proved against functions that state what they compute.
- The definition loops of the two indexers are specified by folds, `ReplacingIndex` and `AccumulatingIndex`. The lemmas beside each fold state what each package's list holds afterwards.
- An exception is an `Outcome` or an `Option<PyError>`. The state changed before the exception is kept, as in Python.

**Inputs that arrive as parameters.**
- the clock (whole seconds);
- file contents;
- the output of `odin query` (records already decoded from JSON);
- the output of the Visual Studio batch file and of the shader build script (`None` when the command fails);
- the matches of the regular expressions that are not modelled;
- the editor state a command reads.

**Two behaviours worth knowing.**
- The parameter splitter (`parser.py:11`) does not count parentheses: it splits at a comma unless a `)` comes before the next `(`. `Parser.SplitCommasFromSpec` states this rule.
- `completer.py`'s `gen_completion_for_proc` returns a list holding a one-label list, not a `[label, insert]` pair. The model's entry for it is `LabelOnly(label)`.

## Model

| member | source | states |
|---|---|---|
| Parser.SplitCommasFromSpec | parser.py:11 | the positions found are exactly the commas after which no `)` comes before the next `(`, each once, in increasing order |
| Parser.NoSplitInsideParens | parser.py:10-11 | a comma inside a parenthesised group with no nested parentheses is never a split point |
| Parser.ProcTypedParamIsOne | parser.py:10-11 | a parameter whose type is `proc(a, b)`, with no other comma, stays one parameter |
| Parser.FindSplitCommas | parser.py:30-32 | the loop over `finditer` collects exactly the split commas, in order |
| Parser.SplitParams | parser.py:26-41 | the loop gives `ParamsOf`: k split commas give k+1 stripped stretches; with none, the whole text, or nothing for empty text |
| Parser.SplitParamsStep | parser.py:36-39 | iteration i cuts from one past the previous comma (or 0) to the next comma (or the end), and appends that stretch stripped |
| Parser.Pieces | parser.py:34-39 | cutting at k positions gives k+1 stretches |
| Parser.PiecesRejoin | parser.py:34-39 | the stretches between split commas, joined with commas, give the parameter text back |
| Parser.Placeholders | parser.py:61-68 | one placeholder per parameter |
| Parser.PlaceholdersAt | parser.py:61-68 | placeholder i is numbered i+1 and pre-fills parameter i |
| Parser.MakeProcCompletion | parser.py:57-81 | the loop builds the label `name(p1, p2) -> R\t file` and the insert text `name(${1:p1}, ${2:p2})`; no parameters give `name()` |
| Parser.InsertTextBalance | parser.py:61-71 | the insert text has the parenthesis balance of `name(` + parameters + `)` |
| Parser.ReturnTypeOf | parser.py:24 | the return type is absent exactly when the captured text is blank, and otherwise has no surrounding whitespace |
| Parser.TypeCompletionsAt | parser.py:48-54 | each type match gives exactly one completion `[name\tkeyword package, name]`, in match order |
| Parser.TypeCompletions | parser.py:48-54 | the loop gives `TypeCompletionsOf` |
| Parser.ProcCompletionsAt | parser.py:20-43 | each procedure match gives exactly one completion, in match order |
| Parser.ProcCompletion | parser.py:21-43 | the loop body gives the completion of the match's name, split parameters and return type |
| Parser.CompletionsFromFile | parser.py:18-45 | the type completions first, then the procedure completions, each in match order |
| Parser.CompletionTable.constructor | parser.py:88 | the class attribute `completions_by_package` starts as an empty dictionary |
| Parser.CompletionCache.constructor | parser.py:87-88 | a cache works on the one table given to it, the dictionary of its class |
| Parser.CompletionCache.InvalidateCompletions | parser.py:90-94 | the package's entry is gone, so `has_completions` is false for it (no effect when absent); every other entry is unchanged |
| Parser.CompletionCache.SetCompletions | parser.py:93-97 | `has_completions` is true for the package, which has exactly the given completions (overwriting); every other entry is unchanged |
| Parser.CachesShareTable | parser.py:87-97 | two caches share the class's dictionary: what one sets the other has, and what one invalidates the other no longer has |
| OdinCompletions.StripBlockComments | OdinCompletions.py:103-123 | the depth-counting loop returns `StripBlockCommentsOf` |
| OdinCompletions.ScanBounds | OdinCompletions.py:114-120 | the depth is never negative, and the resume point never passes the scan or the text |
| OdinCompletions.ScanOpen | OdinCompletions.py:110-114 | an opening marker raises the depth by one; at depth 0 the text since the resume point is kept |
| OdinCompletions.ScanSeesClose | OdinCompletions.py:115-120 | the iteration after a closing marker lowers the depth, clamped at 0, and resumes the text there when the depth reaches 0 |
| OdinCompletions.NoOpenUnchanged | OdinCompletions.py:103-123 | text without `/*` is returned unchanged, stray `*/` included |
| OdinCompletions.BlockCommentsRemoved | OdinCompletions.py:103-123 | for any text whose markers stand apart, with every comment closed and not ending in the `*/` that closes one, the result is exactly the text outside every comment, however deeply comments nest; a stray `*/` stays |
| OdinCompletions.AsWrittenMatchesFixed | OdinCompletions.py:109-122 | when no comment is open as the loop ends, the source's result equals the corrected one |
| OdinCompletions.CloseAtEndIsMissed | OdinCompletions.py:109-122 | as written: a comment that ends the text is not removed, and the text before it appears twice |
| OdinCompletions.UnclosedCommentDoublesPrefix | OdinCompletions.py:111-122 | as written: the text before an unclosed comment appears twice, followed by the comment |
| OdinCompletions.FixedNoOpenUnchanged | OdinCompletions.py:103-123 | the corrected scan also leaves text without `/*` unchanged |
| OdinCompletions.FixedBlockCommentsRemoved | OdinCompletions.py:103-123 | corrected: for any text whose markers stand apart, the result is exactly the text outside every comment, however deeply comments nest and wherever the last one ends; an unclosed comment is dropped with everything after it |
| OdinCompletions.StripLineCommentsOf | OdinCompletions.py:125-126 | removing line comments never lengthens the text |
| OdinCompletions.LineCommentsKeepLines | OdinCompletions.py:125-126 | every line break is kept (the pattern stops before `\n`) |
| OdinCompletions.NoLineCommentUnchanged | OdinCompletions.py:125-126 | text with no `//` is unchanged |
| OdinCompletions.LineCommentRemoved | OdinCompletions.py:125-126 | a `//` comment is removed up to its line break, which stays |
| OdinCompletions.StripImportsOf | OdinCompletions.py:128-129 | removing imports never lengthens the text |
| OdinCompletions.ImportLineRemoved | OdinCompletions.py:128-129 | a whole `import` line, line break included, is removed |
| OdinCompletions.NoImportUnchanged | OdinCompletions.py:128-129 | text in which `import` does not occur is unchanged |
| OdinCompletions.MakeProcCompletions | OdinCompletions.py:131-161 | exactly one pair: label `name(p1, p2) -> R\t file`, insert text with numbered placeholders |
| OdinCompletions.FoundParams | OdinCompletions.py:177 | `findall` finds at most one parameter per comma-separated piece |
| OdinCompletions.BlankParamsGiveNone | OdinCompletions.py:179-181 | blank parameter text gives no parameters |
| OdinCompletions.ParamsRoundTrip | OdinCompletions.py:177-181 | parameters written with `, ` between them are found again, one for one |
| OdinCompletions.MakeProcCompletionsFromDefinition | OdinCompletions.py:167-183 | no match gives `[]`; a match gives exactly the one pair for its name, parameters and return type |
| OdinCompletions.VariableCompletionOf | OdinCompletions.py:185-188 | the label is the identifier, a tab, a space and the file name |
| OdinCompletions.VariableCompletionIdentifier | OdinCompletions.py:186-187 | the identifier of `name: rest` is `name` stripped |
| OdinCompletions.VariableCompletionWithoutColon | OdinCompletions.py:186-187 | without a `:` (`find` gives -1) the identifier loses the last character |
| OdinCompletions.Distinct | OdinCompletions.py:163-165 | every definition text found is kept, and none twice |
| OdinCompletions.DefinitionCompletionsAtMostOne | OdinCompletions.py:202-214 | a definition gives at most one completion, and none exactly when it is neither a struct nor a matching proc |
| OdinCompletions.FileCompletionsBound | OdinCompletions.py:202-214 | a file gives no more completions than it has definitions |
| OdinCompletions.FileCompletionsMembers | OdinCompletions.py:202-214 | a completion is in the list exactly when some definition text gives it |
| OdinCompletions.CompletionsFromFilePath | OdinCompletions.py:190-216 | the loop gives the dispatch fold over the distinct definition texts, with the file name from `os.path.split`; a completion is produced exactly when some definition text found gives it, and there are at most as many as distinct texts |
| OdinCompletions.ViewIsOdin | OdinCompletions.py:27-42 | Odin exactly when the syntax names `odin.sublime-syntax` or the path's last five characters are `.odin` in any case |
| OdinCompletions.OdinExtension | OdinCompletions.py:39-40 | a path ending in `.odin` or `.ODIN` is Odin whatever the syntax |
| OdinCompletions.BeforeDotOf | OdinCompletions.py:231-234 | `None` exactly when the line has no `.`; otherwise the text before its last `.` |
| OdinCompletions.ModuleCompletionsAt | OdinCompletions.py:245-249 | the i-th module completion is `['Module: ' + mod, mod]` |
| OdinCompletions.AppendModuleCompletions | OdinCompletions.py:246-249 | the loop appends one completion per module, in order |
| OdinCompletions.ReversedConcatAppend | OdinCompletions.py:251-252 | the reversed walk over two lists of files is the second list's walk followed by the first's |
| OdinCompletions.AppendReversed | OdinCompletions.py:251-252 | the loop appends the files' completions, last file first |
| OdinCompletions.GatherCompletions | OdinCompletions.py:242-252 | user then core module names when the line has no `.`, then the files' completions in reverse |
| OdinCompletions.CompletionListener.constructor | OdinCompletions.py:22-25 | the listener's fields start empty |
| OdinCompletions.CompletionListener.OnQueryCompletions | OdinCompletions.py:218-259 | not Odin: nothing changes; otherwise `before_dot` is set; without a package the `[0]` fails; otherwise the module fields are set and the completions gathered |
| PackageIndex.IndexedPackageNamesMembers | odin_completer.py:66-69 | a name is appended exactly when some package has it and it is not `main` |
| PackageIndex.PackageTables.AddPackages | completer.py:48-51 | the package loop appends the non-`main` names in order, leaving the dictionaries unchanged |
| PackageIndex.TableOf | odin_completer.py:84-89 | `type name` goes to types, `variable` and `constant` to vars, `procedure` to procs; other kinds are ignored |
| PackageIndex.TypeEntry | odin_completer.py:85 | `[typ\tpackage, typ]`; a missing type fails with `TypeError` |
| PackageIndex.VarEntry | odin_completer.py:87 | `[name\t(type_kind or package), name]` |
| PackageIndex.ProcPairEntry | odin_completer.py:92-107 | fails exactly when the signature does, `AttributeError` without one; otherwise the label from the first `(` and the numbered insert text |
| PackageIndex.ProcLabelEntry | completer.py:78-93 | fails as the signature does; otherwise the label alone |
| PackageIndex.ProcParamsBodyOf | odin_completer.py:39 | the body found starts with a `(` of the signature |
| PackageIndex.ProcParamsBodyNone | odin_completer.py:39 | on one line, nothing is found exactly when no `(` follows a `proc` |
| PackageIndex.ProcSignatureRaises | completer.py:79-80 | a signature fails exactly when its head has no `proc` followed by `(`, and then with `IndexError` |
| PackageIndex.ProcSignatureNeverValueError | odin_completer.py:93-97 | `sig.index('(')` never fails once a body was found |
| PackageIndex.ProcSignatureLabel | odin_completer.py:97 | the label is the name followed by the signature from its first `(` |
| PackageIndex.SignatureParams | odin_completer.py:95 | one parameter per piece of `split(',')`, at least one |
| PackageIndex.SignatureParamsShape | odin_completer.py:95 | one parameter more than there are commas, none with a space or parenthesis at either end |
| PackageIndex.EmptyProcSignature | odin_completer.py:93-97 | `proc()` gives the label `name()` and one empty parameter |
| PackageIndex.EmptyProcInsertText | odin_completer.py:100-105 | `proc()` gives the insert text `name(${1:})` |
| PackageIndex.BuildInsertText | odin_completer.py:98-105 | the loop builds the numbered insert text |
| OdinCompleter.FreshCompleterReindexes | odin_completer.py:30-32 | the initial state forces an index at any time after zero |
| OdinCompleter.SameFileWithinIntervalSkipped | odin_completer.py:48-50 | the same file is skipped exactly when at most the interval has passed |
| OdinCompleter.ReplacingIndexStops | odin_completer.py:74-89 | after an exception no later definition is looked at |
| OdinCompleter.ReplacingLastWins | odin_completer.py:84-89 | without an exception, each package's list holds only the entry of its last definition, or is unchanged when it has none |
| OdinCompleter.ReplacingKeepsAtMostOne | odin_completer.py:109-128 | starting from tables whose lists hold at most one entry each, every list holds at most one entry after indexing, whether or not it raises |
| OdinCompleter.Completer.constructor | odin_completer.py:30-32 | no file indexed yet, the last index one interval before time zero |
| OdinCompleter.Completer.NeedsReindex | odin_completer.py:43-50 | true for another file, recording it; otherwise true exactly when more than the interval has passed |
| OdinCompleter.Completer.ForPackage | odin_completer.py:109-128 | the list is created or emptied and returned empty; nothing else changes |
| OdinCompleter.Completer.GenCompletionForProc | odin_completer.py:92-107 | gives `ProcPairEntry` |
| OdinCompleter.Completer.IndexDefinitions | odin_completer.py:74-89 | the loop gives the fold `ReplacingIndex`, stopping at the first exception |
| OdinCompleter.Completer.IndexFile | odin_completer.py:52-90 | skips when not needed or without `main :: proc`; otherwise appends the packages and indexes; the last full index time moves only when no exception was raised |
| Completer.AccumulatingIndexStops | completer.py:56-71 | after an exception no later definition is looked at |
| Completer.AccumulatingAppends | completer.py:56-71 | without an exception, each package's list is what it held followed by its definitions' entries, in order |
| Completer.IndexingTwiceDuplicates | completer.py:95-108 | indexing the same output twice holds every entry twice |
| Completer.Completer.Create | completer.py:38-39 | the completer is made exactly when indexing raises nothing; the shared tables keep what was added either way |
| Completer.Completer.ForPackage | completer.py:95-108 | the list is created empty when absent, and otherwise returned as it is |
| Completer.Completer.GenCompletionForProc | completer.py:78-93 | gives `ProcLabelEntry` |
| Completer.Completer.IndexDefinitions | completer.py:56-71 | the loop gives the fold `AccumulatingIndex` |
| Completer.Completer.IndexFile | completer.py:41-71 | appends the packages, then indexes the definitions |
| ContextCommands.AdaCaseOf | ContextCommands.py:17-34 | same length, non-alphanumeric characters unchanged, letters change case only |
| ContextCommands.AdaCase | ContextCommands.py:17-34 | the two-flag loop computes `AdaCaseOf`; the flags always hold opposite values |
| ContextCommands.AdaCaseSelection | ContextCommands.py:13-35 | every line is replaced by its Ada-cased text |
| ContextCommands.LowerAdaCase | ContextCommands.py:17-32 | lowering the result gives the lowered input |
| ContextCommands.AdaCaseIdempotent | ContextCommands.py:17-34 | converting twice gives what converting once gives |
| ContextCommands.AdaCaseKeepsSpaces | ContextCommands.py:33-34 | `foo bar` becomes `Foo bar` |
| ContextCommands.AdaCaseAtUnderscores | ContextCommands.py:21-32 | `FOO_BAR` becomes `Foo_Bar` |
| VcVars.EnvLinesOf | odin_set_vc_vars.py:34-37 | the stripped lines after the first sentinel line; `None` exactly when no line is the sentinel |
| VcVars.Assignment | odin_set_vc_vars.py:43-44 | a line splits at its first `=` into an upper-cased name and the rest; no `=` gives nothing |
| VcVars.EnvRaisesIff | odin_set_vc_vars.py:42-44 | the loop raises, with `IndexError`, exactly when some line has no `=` |
| VcVars.LastAssigning | odin_set_vc_vars.py:42-44 | the last line assigning a name, if any |
| VcVars.EnvLastWins | odin_set_vc_vars.py:42-44 | a name is set exactly when some line assigns it, to the value of the last such line |
| VcVars.EnvKeysUpper | odin_set_vc_vars.py:44 | every name is upper case |
| VcVars.EnvStops | odin_set_vc_vars.py:42-44 | after a line without `=` no later line is looked at |
| VcVars.GetVcEnv | odin_set_vc_vars.py:10-46 | `None` without the setting, output or sentinel; otherwise the parsed variables or the `IndexError` |
| VcVars.VcEnvRaisesIndexError | odin_set_vc_vars.py:26-44 | the only exception is `IndexError` |
| VcVars.Environ.AddNewVars | odin_set_vc_vars.py:59-61 | every new name is added with its value; present names are kept |
| VcVars.Environ.UpdateChangedVars | odin_set_vc_vars.py:64-66 | same names; every name also in the new variables takes their value, the others are unchanged |
| VcVars.Environ.InstallVcEnv | odin_set_vc_vars.py:48-70 | no variables: the environment is unchanged; otherwise it is the old one overwritten by the variables, with the sentinel `BOOTSTRAPPED` |
| VcVars.Environ.Set | odin_set_vc_vars.py:72-82 | nothing off Windows or when the sentinel is set; otherwise the install: with variables, the old environment overwritten by them with the sentinel set, reporting `Enabled`; without, unchanged, reporting the failure; a parse error raises `IndexError` and changes nothing |
| Sidebar.GetPath | SidebarCommands.py:15-19 | the first path, or else the active file |
| Sidebar.ClipboardMessageCases | SidebarCommands.py:22-27 | with a line break, the number of lines (line breaks + 1); otherwise the data quoted |
| Sidebar.CompoundSplitExt | SidebarCommands.py:142-148 | `name + ext == leaf`; an extension exactly when `splitext` finds one, and then it starts with a dot; the loop stops at a name without a dot or without an extension; the name then ends at the first dot that follows a character other than a dot (`.a.b` gives `.a`, `.b`), and for a leaf not starting with a dot it is the text before its first dot |
| Sidebar.CompoundNameEndUnique | SidebarCommands.py:142-148 | that end of the name is unique, so the split is determined by the leaf |
| Sidebar.RootFileSelectionMissesName | SidebarCommands.py:152 | as written: for `/a.txt` the selection is empty and misses the name |
| Sidebar.RepeatedSeparatorSelectionEarly | SidebarCommands.py:140-152 | as written: for `/x//a.txt` the directory part is `/x`, and the selection is `/a` |
| Sidebar.NoDirectorySelectionLate | SidebarCommands.py:140-152 | as written: for `a.txt` the directory part is empty, and the selection `[1, 1)` is empty |
| Sidebar.SelectionAsWrittenOffset | SidebarCommands.py:140-152 | on every path the region as written ends where the corrected one does; its start is off by one minus the number of separators before the leaf, so it is right exactly when the directory part is not empty and one `/` separates it from the leaf; no separator is counted exactly when the directory part is empty or slashes only |
| Paths.PathSplitGap | SidebarCommands.py:140 | `os.path.split` drops no separator exactly when the directory part is empty or slashes only; the directory part is empty exactly when the path has no `/` |
| Sidebar.NameSelection | SidebarCommands.py:152 | corrected: the selected text followed by the extension is the leaf |
| Sidebar.DuplicateSelection | SidebarCommands.py:139-152 | the name and compound extension split the leaf; an extension exactly when `splitext` finds one, starting with a dot, the name ending at the first dot after a character other than a dot; the corrected region selects the name |
| Sidebar.MoveSelection | SidebarCommands.py:185-191 | the corrected region selects the leaf without its last extension |
| Sidebar.KeptLinesMembers | SidebarCommands.py:86-88 | a line is kept exactly when it is an output line without `Microsoft` and longer than two characters |
| Sidebar.RewriteLineMarkers | SidebarCommands.py:101-105 | a line with `error` is wrapped in red bold; a line with `no code produced` ends in `<br>`, inside the bold when both apply |
| Sidebar.ShortenLine | SidebarCommands.py:95-96 | the inner loop replaces each path match by its file name in turn, and changes no other line |
| Sidebar.RewriteReport | SidebarCommands.py:92-105 | every kept line is rewritten in place by `RewriteLine` of its original text |
| Sidebar.ReportOf | SidebarCommands.py:78-110 | the report starts with the header and ends with `</body>` |
| Sidebar.ShaderReport | SidebarCommands.py:78-112 | a failing script raises `RuntimeError`; otherwise the report |
| Sidebar.ReplaceLineBreaks | SidebarCommands.py:109 | no line break is left in the joined lines |

## Left out

- The regular expression engine. Matches of `definition_pattern`, `proc_pattern`, `proc_return_pattern`, `type_pattern`, `struct_pattern`, `proc_differentiator_pattern`, `package_pattern`, the module patterns and the Windows path pattern of the shader report are inputs, as match records.
  - Modelled exactly: the comma lookahead, the line-comment, import and proc-params patterns, and the `.*?proc.*?(\(.*?)$` signature pattern.
- File reading, the directory walk, `get_file_contents` and `get_all_odin_file_paths`. The editor, filesystem and module filters are not part of this model; the completions of each file are an input.
- Subprocesses (`odin query`, the Visual Studio batch file, the shader build script), JSON decoding and the import-time query of `completer.py:113`. Their outputs are parameters. A JSON `null` for `type_kind` is not modelled: a key that is present always holds a string.
- `parser.py:4` creating the cache before its class exists, which fails at import. The cache is modelled as a class on its own.
- `time.time()`, which is a parameter in whole seconds. The message with the time spent in `on_query_completions` is not modelled.
- The `type_kind`, `kinds` and `types` lists and their sets, which the indexers build and never read.
- Python's set order in `extract_definitions_from_text` and for the file paths. `Distinct` keeps, of each repeated text, the last occurrence in place; any order is possible in the source.
- The editor's UI: status messages, popups, input panels, the clipboard, views and the selection regions of a view.
- The `on_done`, copy and move steps of Duplicate and Move, with their threads.
- The `Thread` in `set` (commented out in the source), and printing.
- Unicode: upper and lower case are ASCII only, and strings are sequences of characters.
- List aliasing. An accessor returns the stored list, and the caller's `append` changes it in place. The model stores the appended list back with `SetList`, which gives the same dictionaries.
- OdinCompletions.BlockCommentsRemoved and OdinCompletions.FixedBlockCommentsRemoved cover texts whose markers stand apart: no two markers overlap (as in `/*/` or `*/*`), and no `*/` is followed at once by `/*`. In that last case the loop's `elif` skips the `*/`, and the model does not state what the source then removes.
- Sidebar.DuplicateSelection, Sidebar.MoveSelection and Paths.PathSplit follow POSIX `os.path` only. On Windows `os.path` splits at `\` as well as `/`, and after a drive such as `C:`, so the leaves and regions there differ from the model's.
- Sidebar.DuplicateSelection and Sidebar.MoveSelection take the path as a string. When `get_path` falls back to an active view without a file, the source's `os.path.split(None)` raises `TypeError`; that case is not modelled.
- Sidebar.CompoundSplitExt: `ext is not ''` and `_ext is ''` compare identity. The model reads them as value comparisons, which is what they evidently mean.
- OdinCompletions.CompletionListener.OnQueryCompletions: the line at the cursor and the patterns' findings over the active file are parameters. `get_all_odin_file_paths` is out, so its `TypeError` on a `None` `before_dot` is not modelled. In the source that error (`OdinCompletions.py:83-84`, which adds `None` to a string) comes on every query from a line without a `.`, before lines 245-249 run: the module-name completions that `GatherCompletions` adds in that case are never produced by the source.

## Findings

| source | as written | input that shows it | evidently intended | confidence | as-written member | corrected member |
|---|---|---|---|---|---|---|
| OdinCompletions.py:109-118 | the loop runs `i` up to `len - 1` and tests `odin_text[i-2:i]`, so a `*/` ending the text is never seen | `a/*b*/` gives `aa/*b*/` | the comment is removed, giving `a` | not executed | OdinCompletions.CloseAtEndIsMissed | OdinCompletions.FixedBlockCommentsRemoved |
| OdinCompletions.py:111-122 | after an unclosed `/*` the final append takes the text from the last resume point, so the prefix is kept twice | `a/*b` gives `aa/*b` | the unclosed comment is dropped and the prefix kept once, giving `a` | not executed | OdinCompletions.UnclosedCommentDoublesPrefix | OdinCompletions.FixedBlockCommentsRemoved |
| SidebarCommands.py:152 | the selection starts at `len(base) + 1`, which is the start of the leaf only when the directory part is not empty and one `/` separates it from the leaf | a root file, `/a.txt`: base `/`, the selection `[2, 2)` is empty; repeated separators, `/x//a.txt`: base `/x`, the selection `[3, 5)` is `/a`; no directory part, `a.txt`: the selection `[1, 1)` is empty | the leaf without its extension: `[1, 2)`, `[4, 5)`, `[0, 1)` | not executed | Sidebar.SelectionAsWrittenOffset | Sidebar.NameSelection |
