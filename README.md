# EasyBuild helper scripts, modelled in Dafny

The repository is a handful of Python scripts around EasyBuild, the HPC
software build framework, and the Slurm batch scheduler. This project models
the text processing at their core and proves what the scripts promise about it.

- **Recipe search and selection.** Two variants: `easybuild_module_search.py`
  (modules `ModuleSearch`) and `searcher.py` (module `Searcher`). For every
  desired name, the output of `eb --search` is split into candidate lines.
  There may be no candidate, one candidate, or several, in which case the
  operator picks one by number. The token after the last space of the chosen
  line goes to the results file, one identifier per line. In accounting mode
  the dependencies of every selected recipe are listed with a dry run and
  gathered into a set. The parts the variants share are in `Prompt` (the
  numbered choice loop), `Recipes` (dependency listing, the results file, one
  step's conclusion) and `Catalog` (the names in the `module avail` listing).
- **Build-log classification.** Two variants: `easybuild_validation.py`
  (module `Validation`) and `validator.py` (module `Validator`). Each log gets
  a module name taken from its file name and labels from a keyword table.
  The log is "failed" when some label applies. The verdicts are sorted by
  module name and printed as a report. The log and verdict types, the module
  name, the string order, the stable sort and the deduplication they share
  are in `Logs`.
- **Batch-script generation.** Two variants: `easybuild_create_slurm.py`
  (module `CreateSlurm`), which writes one job that lets EasyBuild submit the
  builds, and `slurm_creator.py` (module `SlurmCreator`), which writes a Slurm
  job array. `Slurm` holds what they share: `read_eb_paths`, which reads the
  results file back, and the `EBFILES=(...)` line.

The outside world is passed in as values:
- the output of each external tool is a `ToolOutput(stdout, stderr)`, or a
  function from a name to one (`Recipes.Env`);
- the operator's answers are a script of already-parsed numbers, where `None`
  means a line `int()` rejects and an exhausted script means end of input;
- each log file is its base name and its lines;
- the configuration globals (`create_install_file`, `dry_run`, `job_cores`,
  `max_walltime`) are parameters.

Every `file.write` is one element of a `seq<string>`, so a file is the
concatenation of its chunks (`Slurm.Concat`). Printed lines are a
`seq<string>` without their colour codes.

Where the two variants of a script contain the same function, it is modelled
once and cited for both. Where they differ, each variant has its own
definition and its own lemmas.

## Model

| member | source | states |
|---|---|---|
| Prompt.AskFrom | easybuild_module_search.py:124-159 | The loop returns the candidate numbered by the first answer in 1..len, untouched by the display rewrite. It declines at the first 0. It ends in `Exhausted` when the answers run out. Every answer skipped on the way was a parse failure or out of range. |
| Prompt.AskUserWhichModule | searcher.py:102-127 | The retry loop over the scripted answers ends exactly as `AskFrom` describes: same outcome, same answers consumed. |
| Prompt.DisplayLine | easybuild_module_search.py:129-133 | With no filter the line is shown as it is. With a filter, the filter is shown followed by the last piece of the line split at the filter. That piece is a suffix of the line holding no occurrence of the filter, and it is the whole line when the filter does not occur. |
| Text.AfterLastFree | easybuild_module_search.py:132 | The last piece of a split on a non-empty filter holds no occurrence of that filter. |
| Text.AfterLastIsLastPiece | easybuild_module_search.py:132 | The text after the last occurrence found scanning left to right is the last piece of `split`. |
| Text.SplitOnJoin | easybuild_module_search.py:132 | Joining the pieces of a split by the separator gives back the line. |
| Text.SplitOnOverlap | easybuild_module_search.py:132 | With overlapping occurrences the cuts are not overlapping: for every character c, `"ccc".split("cc")` is `["", "c"]` (e.g. `"aaa".split("aa")` is `["", "a"]`), so the kept text is `"c"`. |
| Recipes.LastToken | easybuild_module_search.py:85 | The identifier written holds no space. It is a suffix of the line, preceded by a space when the line has one, and it is the whole line otherwise. |
| Recipes.BulletIsStrippedStar | easybuild_module_search.py:200 | A line counts as a dependency bullet exactly when its stripped form starts with `*`. |
| Recipes.DependencyId | easybuild_module_search.py:201 | There is an id exactly when the line has a `(`. The id holds neither parenthesis. |
| Recipes.DependencyIdAt | searcher.py:161 | The id is the text after the first `(` up to the next `(` or `)`, or up to the end of the line when neither follows. |
| Recipes.ParseDependenciesFails | easybuild_module_search.py:199-202 | Parsing fails exactly when some bullet line has no `(`, and the line it reports is such a line. Otherwise no id holds a parenthesis. |
| Recipes.ParseDependenciesAppend | searcher.py:158-162 | Parsing two runs of lines one after the other gives the first run's ids followed by the second's, or the first failure. |
| Recipes.DependencyListing | easybuild_module_search.py:184-206 | Non-empty stderr gives no dependencies. In accounting mode that stderr is written after an error header; without accounting nothing is written. Otherwise the ids are those of the bullet lines. In accounting mode they are written after a header, joined by newlines; when a bullet line has no `(`, only the header is written before the exception. |
| Recipes.ListDependencies | searcher.py:147-167 | The loop that builds the dependency list writes the chunks and returns the result that `DependencyListing` specifies. |
| Recipes.ResultLines | easybuild_module_search.py:86 | The results file holds one line per selected identifier, in order, each ended by a newline. |
| Recipes.ResultLinesSnoc | searcher.py:65-66 | Selecting one more identifier appends exactly its line to the results file. |
| Recipes.Conclude | easybuild_module_search.py:76-100 | End of input aborts the run. A declined prompt moves on with nothing written. A choice writes its last token and a newline. Errors are reported only in accounting mode, and the choice's dependencies are listed only then. Without accounting, dependencies never change. |
| Recipes.ConcludeChoice | searcher.py:58-79 | The statements after the choice update the file, the dependency list and the answer position exactly as `Conclude` specifies. |
| Recipes.Finish | easybuild_module_search.py:104-109 | An aborted run has no return value. A completed one returns the set of gathered dependencies in accounting mode and nothing otherwise. |
| Recipes.GatheredMembers | searcher.py:77-88 | A dependency is gathered exactly when some selected recipe's dry run lists it. |
| Catalog.SecondSegment | easybuild_module_search.py:236-240 | The name taken from an entry holds no `/`. |
| Catalog.SecondSegmentAt | searcher.py:191-194 | The name is the text between the first and the second `/`, or up to the end of the line. |
| Catalog.EntryTest | easybuild_module_search.py:235 | A line counts exactly when it is non-blank and holds a `/`; the test reduces to "holds a `/`". |
| Catalog.EntriesMembers | searcher.py:189-195 | A name is collected exactly when some counting line has it as its second segment. |
| Catalog.ListAllModules | easybuild_module_search.py:218-251 | A failed listing gives the empty list. Otherwise the names are those of the counting lines of stdout followed by stderr, each exactly once, in no promised order. |
| ModuleSearch.CandidateLines | easybuild_module_search.py:53-55 | Empty output gives no candidates; otherwise no candidate holds a newline. |
| ModuleSearch.CandidateLinesRoundTrip | easybuild_module_search.py:53-55 | Only a single trailing empty piece is dropped: rejoining the candidates, plus the newline when one was dropped, gives back the output. |
| ModuleSearch.CandidateLinesOfTerminated | easybuild_module_search.py:53-55 | Newline-terminated lines come back as exactly those lines. |
| ModuleSearch.SearchName | easybuild_module_search.py:32-102 | One turn of the loop over the desired names updates the file, selections, dependencies and answer position as `SearchStep` specifies. |
| ModuleSearch.SearchModules | easybuild_module_search.py:14-109 | The written chunks and the return value are those of the run over the names in order, stopping at the first exception. |
| ModuleSearch.FaultIsFinal | easybuild_module_search.py:76 | Once an exception is raised, the remaining names change nothing. |
| ModuleSearch.StepSelection | easybuild_module_search.py:58-82 | No candidates: nothing selected and no answer read. One candidate: it is selected without a prompt. Several: the prompt decides, declining selects nothing, and end of input aborts. |
| ModuleSearch.SelectionOnlyStep | easybuild_module_search.py:70-86 | Without accounting, one turn keeps the file equal to the selected identifiers' lines and adds at most one selection. |
| ModuleSearch.SelectionOnlyFile | easybuild_module_search.py:31-86 | Without accounting, the results file is exactly the selected identifiers, one per line, at most one per desired name. No dependencies are listed, and running out of answers is the only way to abort. |
| ModuleSearch.SoleCandidateStep | easybuild_module_search.py:70-73 | A name with exactly one candidate selects that candidate's last token without reading an answer. |
| ModuleSearch.SoleChoices | easybuild_module_search.py:32-86 | There is one identifier per desired name. |
| ModuleSearch.SoleChoicesAt | easybuild_module_search.py:70-86 | The i-th identifier is the last token of the i-th name's candidate. |
| ModuleSearch.SingleCandidates | easybuild_module_search.py:32-86 | When every name has exactly one candidate, the file holds their identifiers in the order of the names and no answer is read. |
| ModuleSearch.AccountingGathers | easybuild_module_search.py:98-100 | In accounting mode the global list is the concatenated dependency lists of the selected recipes, in selection order. |
| ModuleSearch.ReturnedDependencies | easybuild_module_search.py:104-109 | The returned set holds exactly the ids that some selected recipe's dry run lists. |
| ModuleSearch.SelectionOnlyIgnoresDryRun | easybuild_module_search.py:98 | Without accounting no dry run is consulted: the whole run is the same whatever the dry runs would print. |
| Searcher.SearchName | searcher.py:21-81 | One turn of the loop over the desired names does what `Searcher.SearchStep` specifies. |
| Searcher.SearchModules | searcher.py:7-88 | The written chunks and the return value are those of the run over the names in order, stopping at the first exception. |
| Searcher.FaultIsFinal | searcher.py:58 | Once an exception is raised, the remaining names change nothing. |
| Searcher.StepSelection | searcher.py:41-63 | Output without a newline, even a lone line, counts as "no versions". Exactly two pieces select the first without a prompt. From three pieces on, the prompt chooses among all pieces, the trailing one included. |
| Searcher.TerminatedOutputPieces | searcher.py:41 | k newline-terminated candidates split into those k lines plus one empty piece. |
| Searcher.ExtraChoiceIsEmpty | searcher.py:125-127 | Answering k+1 to a prompt over k candidates and the trailing piece chooses the empty piece. |
| Searcher.EmptyChoiceWritesBlankLine | searcher.py:58-66 | Choosing that extra entry selects the empty identifier and writes a blank line to the results file. |
| Searcher.SelectionOnlyStep | searcher.py:53-66 | Without accounting, one turn keeps the file equal to the selected identifiers' lines and adds at most one selection. |
| Searcher.SelectionOnlyFile | searcher.py:20-66 | Without accounting, the file is exactly the selected identifiers, one per line, at most one per name, with no dependencies. |
| Searcher.AccountingGathers | searcher.py:77-79 | In accounting mode the global list is the concatenated dependency lists of the selected recipes. |
| Searcher.ReturnedDependencies | searcher.py:85-88 | The returned set holds exactly the ids that some selected recipe's dry run lists. |
| Logs.StatusLine | easybuild_validation.py:75-80 | A status line is never blank. |
| Logs.InfoLines | easybuild_validation.py:82-84 | There is one info line per label, and none is blank. |
| Logs.ModuleNameOf | easybuild_validation.py:35 | The name is a prefix of the base name. It is the whole base name when that has no `-`; otherwise it stops right before the last `-`. |
| Logs.ModuleNameOfSuffixed | validator.py:26 | Whatever precedes a final `-` suffix is the module name, dashes in it included. |
| Logs.StrLessTotal | easybuild_validation.py:60 | Any two different names are ordered one way. |
| Logs.StrLessAsymmetric | validator.py:49 | Two names are never each before the other. |
| Logs.StrLeTransitive | easybuild_validation.py:60 | The sort order is transitive. |
| Logs.StrLessIrreflexive | validator.py:49 | No name sorts before itself. |
| Logs.Insert | easybuild_validation.py:60 | Inserting one verdict adds exactly that verdict. |
| Logs.SortByModule | validator.py:49 | Sorting permutes the verdicts. |
| Logs.InsertSorted | easybuild_validation.py:60 | Inserting into a sorted list keeps it sorted. |
| Logs.SortByModuleSorted | easybuild_validation.py:60 | The sorted verdicts are in order of module name. |
| Logs.InsertWithModule | validator.py:49 | Insertion puts a verdict before the first verdict of its own module. |
| Logs.SortByModuleStable | easybuild_validation.py:60 | The sort is stable: verdicts of one module keep their input order. |
| Logs.SortByModuleSortedInput | validator.py:49 | Already sorted verdicts are left as they are. |
| Logs.AddOnce | easybuild_validation.py:46-47 | Adding a label that is already present leaves the list unchanged; an absent label is appended at the end. |
| Logs.FirstIndex | validator.py:38-39 | This is the position of the first occurrence. |
| Logs.FirstIndexPrefix | easybuild_validation.py:46-47 | The first occurrence is unchanged by what comes later. |
| Logs.DedupDistinct | easybuild_validation.py:46-47 | The collected labels hold no label twice. |
| Logs.DedupOrder | validator.py:38-39 | Every collected label was seen, and the labels are listed in the order of their first appearance. |
| Logs.DedupProperties | easybuild_validation.py:46-55 | The collected labels are distinct, hold exactly the labels seen, and keep the order of their first appearance. |
| Validation.FirstKeyword | easybuild_validation.py:42-49 | This is the first entry of the table, in order, whose keyword the line contains, or none when it contains no keyword. |
| Validation.ScanLine | easybuild_validation.py:41-55 | Scanning one line adds its label, when it has one, only if the label is new, and then marks the log failed. A line without a label changes nothing. |
| Validation.ClassifyLog | easybuild_validation.py:34-57 | The line loop, with its early exit on the first keyword and its generic fallback, computes the verdict `Classify` defines. |
| Validation.LineLabelsNonEmpty | easybuild_validation.py:36-55 | Some label is recorded exactly when some line gets a label. |
| Validation.LineLabelsMembers | easybuild_validation.py:42-55 | A label is recorded exactly when some line gets it. |
| Validation.ClassifyVerdict | easybuild_validation.py:35-57 | The verdict has the file's module name and is failed exactly when some line is labelled. A valid verdict has no labels. The labels are exactly the lines' labels, distinct, in first-seen order. |
| Validation.LineLabelRule | easybuild_validation.py:42-49 | A line holding a keyword gets the label of that keyword or of an earlier one, never the generic label. |
| Validation.GenericRule | easybuild_validation.py:51-55 | The generic label goes exactly to lines with no keyword that hold "error" in any letter case. |
| Validation.Classifications | easybuild_validation.py:34-57 | There is one verdict per log. |
| Validation.CheckInstallationLogs | easybuild_validation.py:11-62 | There is one verdict per log. The verdicts are sorted by module name, form a permutation of the unsorted verdicts, and keep listing order within a module. |
| Validation.ReportResults | easybuild_validation.py:65-86 | The printed lines are the report's blocks, entry after entry. |
| Validation.BlockLines | easybuild_validation.py:75-86 | An entry prints its status line, its info lines when it failed with labels, then a blank line. |
| Validation.ReportBlankLines | easybuild_validation.py:86 | Every entry, valid or failed, is followed by exactly one blank line. |
| Validator.KeywordStep | validator.py:35-39 | When the line holds the keyword tried, the deduplicated labels gain its label exactly when the label is new. When it does not, the labels are unchanged. |
| Validator.TryKeyword | validator.py:36-40 | Trying one keyword keeps the loop's invariant. The labels are the deduplicated labels found so far, and the status is failed exactly when one was found. |
| Validator.ScanLine | validator.py:35-40 | After every keyword has been tried on a line, the labels are the deduplicated labels of the earlier lines followed by this line's. The status is failed exactly when some label was found. |
| Validator.DedupSnoc | validator.py:38-39 | Appending a label only when absent is deduplication of the extended list. |
| Validator.ClassifyLog | validator.py:25-46 | The nested loops, which try every keyword on every line with no early exit, and the fallback guard after them compute the verdict `Classify` defines. |
| Validator.LabelsUpToMembers | validator.py:35-39 | A label comes from a line exactly when the line holds its keyword. |
| Validator.AllLabelsMembers | validator.py:34-40 | A label is recorded exactly when some line holds its keyword. |
| Validator.AllLabelsNonEmpty | validator.py:34-40 | Some label is recorded exactly when some line holds some keyword. |
| Validator.ClassifyStatus | validator.py:26-44 | The verdict is failed exactly when some line holds some keyword, and a valid verdict has no labels. The fallback "Other installation error" never appears: its guard cannot fire. |
| Validator.ClassifyLabels | validator.py:34-40 | The labels are exactly those of the keywords found, distinct, in first-seen order. |
| Validator.LineLabelsInOrder | validator.py:35-39 | A line holding several keywords contributes all their labels, in table order. |
| Validator.LabelsUpToPrefix | validator.py:35 | Each keyword tried on a line only extends the labels it contributes. |
| Validator.Classifications | validator.py:25-46 | There is one verdict per log. |
| Validator.CheckInstallationLogs | validator.py:5-51 | There is one verdict per log, sorted by module name, a permutation of the unsorted verdicts, stable within a module. |
| Validator.ReportResults | validator.py:53-68 | The printed lines are the report's blocks, entry after entry. |
| Validator.FailedBlock | validator.py:63-68 | A failed entry prints its status line, one info line per label, then a blank line. |
| Validator.ReportBlankLines | validator.py:68 | Blank lines follow failed entries only: there are exactly as many as failed verdicts. |
| Slurm.UniversalNewlines | slurm_creator.py:55-56 | Reading in text mode leaves no carriage return, and text without one is unchanged. |
| Slurm.NewlinesOfJoin | slurm_creator.py:55-56 | Lines ended by `\n`, `\r\n` or a lone `\r` read as the same lines ended by `\n`. |
| Slurm.ReadEbPathsOfLines | easybuild_create_slurm.py:87-88 | Whichever of the three line endings the file uses, the paths read back are its stripped, non-blank lines. |
| Slurm.NonBlankStrippedShape | slurm_creator.py:56 | There are no more paths than lines, and every path is non-empty with no white space at either end. |
| Slurm.ReadEbPathsShape | easybuild_create_slurm.py:87-88 | Every path read back is non-empty with no white space at either end. |
| Slurm.NonBlankStrippedOfWords | slurm_creator.py:56 | Non-empty lines without white space come back unchanged, and a blank last line is dropped. |
| Slurm.ConcatOfLines | easybuild_module_search.py:86 | A file written one identifier per line is the identifiers joined by newlines, plus a final newline. |
| Slurm.ReadBackResults | easybuild_create_slurm.py:88 | Reading back a results file of non-empty identifiers without white space gives exactly those identifiers, in order. |
| Slurm.Quoted | slurm_creator.py:33 | There is one quoted path per path. |
| Slurm.QuotedBody | slurm_creator.py:33 | Joining the quoted paths by spaces gives the paths and the spaces between them, joined by double quotes and opened and closed by one. |
| Slurm.EbFilesRoundTrip | easybuild_create_slurm.py:61 | The line starts with `EBFILES=(` and ends with `)` and a newline. Taking the texts between pairs of double quotes in between gives back the paths in order, provided no path holds a double quote. |
| Slurm.NatToString | slurm_creator.py:24 | The number is written as at least one decimal digit. |
| Slurm.NatToStringRoundTrip | slurm_creator.py:24 | The written digits read back as the number. |
| CreateSlurm.GenerateSlurmScript | easybuild_create_slurm.py:29-67 | An empty list writes nothing. Otherwise the script's list-dependent lines are the `EBFILES` line and the `COMMAND` line. |
| CreateSlurm.CommandLineShape | easybuild_create_slurm.py:65-67 | The command submits jobs with `--robot --job` exactly when it is not a dry run. The core count and wall time follow it verbatim. |
| CreateSlurm.SearchThenRead | easybuild_create_slurm.py:88 | A selection-only search, read back by `read_eb_paths`, gives exactly the selected identifiers in the order of the desired names, provided they are non-empty and free of white space. |
| SlurmCreator.GenerateSlurmScript | slurm_creator.py:12-38 | An empty list writes nothing. Otherwise the list-dependent lines are the array directive, the `EBFILES` line and the dry-run or real command. |
| SlurmCreator.ArrayDirectiveRange | slurm_creator.py:24 | The array directive's upper bound reads back as n-1: tasks are numbered 0 to n-1. |
| SlurmCreator.TaskIndexValue | slurm_creator.py:35-38 | The subscript written into each task's command, evaluated in task t, is t-1. |
| SlurmCreator.TaskCommandRecipe | slurm_creator.py:35-38 | Both task commands refer to `EBFILES` at that subscript. |
| SlurmCreator.TaskIndices | slurm_creator.py:24-38 | Over all tasks numbered by the directive, the indices the command's subscript asks for are exactly -1..n-2. The last file's own index is never asked for. |
| SlurmCreator.BashElement | slurm_creator.py:36-38 | Bash 4.3 and later resolve each such index to a valid element, a negative one counting back from the end. |
| SlurmCreator.EachFileOnce | slurm_creator.py:24-38 | Under bash 4.3 and later, which count negative indices from the end, every file is still built by exactly one task: task 0 builds the last file. |

## Left out

- Running the external tools (`eb --search`, `eb ... -D`, `module avail`). Their command strings and the `| grep` filter are not modelled: each tool's stdout and stderr, after the filter, are inputs.
- `input()` and `int()`: the answers are given already parsed. A line `int()` rejects is `None`. End of input (`EOFError`) aborts the run.
- `print`, the progress messages, the displayed numbered menu and the ANSI colour codes. `Prompt.DisplayLine` models the rewrite of one displayed line, but not its printing. The report's lines are modelled without colour codes.
- Opening, truncating and closing files, `glob` and directory listing. Logs arrive as a sequence of base names with their lines, in the order the listing gives them.
- The `__main__` blocks, `sys.argv` handling and the module-level settings, which are parameters here.
- The constant header, body and trailer lines of both batch scripts. Only the lines that depend on the list and the options are modelled.
- The second guard `len(eb_files) == 0` of both batch-script generators (easybuild_create_slurm.py:33-35, slurm_creator.py:16-19). It cannot fire after the first guard, and the model's empty case is that first guard.
- SlurmCreator.BashElement: follows bash 4.3 and later, which accept negative array subscripts. Older bash rejects `${EBFILES[-1]}` as a bad subscript, so there task 0 builds nothing.
- SlurmCreator.SubscriptValue: evaluates only the subscript forms the script writes, the array task variable alone or minus a decimal number. Other bash arithmetic is not modelled.
- Catalog.ListAllModules: does not fix the order of its result, because `list(set(...))` has no defined order; it states only that the names are distinct and which names they are.
- Text.Lower: lowers only the ASCII capitals A-Z, where Python's `str.lower` covers all of Unicode. For the test `"error" in line.lower()` this is exact: no character outside A-Z lowers to text holding `e`, `r` or `o`. The Kelvin sign lowers to `k`, and the dotted capital I lowers to `i` and a combining dot.
- Logs.StrLess: compares strings by code points, which is Python's order on `str`. No locale is involved.
- The exception handler of `list_all_modules` is modelled by its outcome only: a failed listing, given as `None`, yields the empty list.
- Logs.ModuleNameOf: `rsplit('-', 1)[0]` keeps a `.out` extension when the base name has no `-`.
- Recipes.DependencyId: the id ends at the next `(` as well as at `)`, because `split('(')[1]` stops there.
- Decoding: tool output (`stdout.decode()`) and log files (`open(..., encoding='utf-8')`) arrive here as already-decoded text. Bytes that are not valid UTF-8 would raise `UnicodeDecodeError`, which the model cannot raise. In `list_all_modules` that error is caught, and the `None` listing covers that case.
