# Infrastructure tools: commit collector, Markdown table builder, Azure DevOps queries

This project models three pieces of the infrastructure-tools repository in Dafny
and proves properties of them:

- **The commit collector.** It takes the first line of each commit message of a
  pull request. It decides, through an ordered list of rules, whether a commit is
  skipped and for what reason. It cleans the titles of the commits it keeps, and
  gathers one Markdown table of kept commits and one of skipped commits
  (`CommitCollector.dfy`, with the hand-written matchers for its regular
  expressions in `TitlePatterns.dfy`).
- **The Markdown table builder.** A mutable builder holds a header and rows and
  renders them as a padded, `|`-separated text table (`MarkdownTableBuilder.dfy`
  for the class, `TableLayout.dfy` for the functions that specify it).
- **The Azure DevOps communicator.** It prepares the query URL, the argument
  dictionary and the api path of each `Get*` request, up to the point where the
  request is sent (`AzureDevOps.dfy`).

`Strings.dfy` holds the string operations of .NET the three pieces use: trimming,
splitting, joining, ordinal prefix tests, ASCII case folding and integer
formatting. `Wrappers.dfy` holds `Option` and `Result`, and the
"every step or the first failure" combinator used for loops that can throw.

A thrown exception becomes a `Failure` value:

- `RunError` in the collector;
- `TableError.EmptySequence` when `Aggregate` has nothing to fold;
- `ArgumentError` in the communicator.

The data the collector fetches from GitHub is an input of `Run`. Its result is
the two rendered tables it writes to the console: the kept commits, and the
skipped commits with their reasons.

## Model

| member | source | states |
|---|---|---|
| CommitCollector.SplitLines | src/CommitCollector/CommitCollector.cs:13 | splitting on "\n" and "\r\n" always yields at least one piece |
| CommitCollector.TrimmedEntriesOne | src/CommitCollector/CommitCollector.cs:85 | a single piece gives its trim as its one entry, and none when it is all whitespace |
| CommitCollector.TrimmedEntriesConcat | src/CommitCollector/CommitCollector.cs:85 | the entries of consecutive pieces are the entries of the first pieces followed by those of the later ones, so entries keep the pieces' order and every non-blank piece gives one |
| CommitCollector.FirstEntry | src/CommitCollector/CommitCollector.cs:85 | the first entry is the trim of a piece k such that every piece before k is all whitespace |
| CommitCollector.FirstLineShape | src/CommitCollector/CommitCollector.cs:85 | there is no first line (First() throws) exactly when the message is all whitespace; otherwise the line is the trim of the first piece of the split that is not all whitespace; it is non-empty, trimmed, holds no '\n' and occurs in the message |
| CommitCollector.FirstLineIdempotent | src/CommitCollector/CommitCollector.cs:85 | the first line of a first line is itself |
| CommitCollector.FirstLineOfOneLine | src/CommitCollector/CommitCollector.cs:85 | a message without '\n' that is not blank has its trimmed self as first line |
| CommitCollector.SplitLinesWhiteSpace | src/CommitCollector/CommitCollector.cs:13 | a message is all whitespace exactly when every piece of its split is |
| CommitCollector.SplitLinesNoNewline | src/CommitCollector/CommitCollector.cs:13 | no piece of the split holds '\n' |
| CommitCollector.SplitLinesPiece | src/CommitCollector/CommitCollector.cs:13 | every piece occurs in the message where the split found it |
| CommitCollector.SplitLinesSingle | src/CommitCollector/CommitCollector.cs:13 | a message without '\n' splits into itself |
| CommitCollector.FirstFiredIff | src/CommitCollector/CommitCollector.cs:117-162 | the first rule that fires gives the reason: it fires, no earlier rule fires, and no reason means no rule fires |
| CommitCollector.IsSkippableFirstRule | src/CommitCollector/CommitCollector.cs:117-162 | IsSkippable answers with the reason of the first of bot author, "Update dependencies from ", "Merge branch ", the merge pattern, only infra files and only test files that accepts the commit |
| CommitCollector.ForbiddenTextsFire | src/CommitCollector/CommitCollector.cs:15-18 | the forbidden texts are searched in array order and the first that occurs in the title is reported |
| CommitCollector.FileRulesFire | src/CommitCollector/CommitCollector.cs:14 | the infra rule holds when every file ends with an infra extension in any case, and the test rule when every file holds "test" in any case |
| CommitCollector.FirstFiredOfSkipRules | src/CommitCollector/CommitCollector.cs:117-162 | the six rules, tried in their order |
| CommitCollector.PatternReasonText | src/CommitCollector/CommitCollector.cs:143 | the pattern reason quotes the first 19 characters of the pattern, "Merge pull request " |
| CommitCollector.BotIsSkipped | src/CommitCollector/CommitCollector.cs:12 | a commit by "dotnet-maestro[bot]" is skipped as "author: maestrobot" whatever its title and files |
| CommitCollector.BothTextsReportFirst | src/CommitCollector/CommitCollector.cs:128-136 | a title holding both forbidden texts reports "Skip title text: Update dependencies from " |
| CommitCollector.PatternReason | src/CommitCollector/CommitCollector.cs:138-146 | a title past the first rules that holds a merge text anywhere is skipped as "Skip title pattern: Merge pull request " |
| CommitCollector.NoFilesAreInfraFiles | src/CommitCollector/CommitCollector.cs:149-153 | a commit that changes no file and passes the title rules is skipped as "All infra files" |
| CommitCollector.TestRule | src/CommitCollector/CommitCollector.cs:155-162 | once some file is not an infra file, the commit is skipped as "All test files" exactly when every file name holds "test" in any case, and kept otherwise |
| CommitCollector.RemoveTexts | src/CommitCollector/CommitCollector.cs:165-178 | the loops erase the four release prefixes and then the two patterns in order, and the result only deletes characters of the title |
| CommitCollector.EraseAllDeletesOnly | src/CommitCollector/CommitCollector.cs:165-178 | erasing any list of fragments leaves a subsequence of the input |
| CommitCollector.CleanTitleDeletesOnly | src/CommitCollector/CommitCollector.cs:165-178 | the cleaned title is a subsequence of the title |
| CommitCollector.EraseAllWithoutMatch | src/CommitCollector/CommitCollector.cs:165-178 | a text in which no fragment matches anywhere is returned unchanged |
| CommitCollector.CleanTitleWithoutMatch | src/CommitCollector/CommitCollector.cs:165-178 | a title holding none of the trim texts or patterns is returned unchanged |
| CommitCollector.CleanTitleSteps | src/CommitCollector/CommitCollector.cs:167-175 | the four literals are erased first, then the pull request numbers, then the version tags |
| CommitCollector.CleanBackportTitle | src/CommitCollector/CommitCollector.cs:22-31 | "[release/9.0-staging] " + c + " (#digits)" is cleaned to c when c holds no '[' nor '(' and does not end with a space |
| CommitCollector.PullRequestNumberAtEnd | src/CommitCollector/CommitCollector.cs:29 | when c holds no '(' and does not end with a space, the pattern `[ ]*\(\#\d+\)` erases a trailing " (#digits)" and nothing of c |
| CommitCollector.CleanTitleExample | src/CommitCollector/CommitCollector.cs:22-31 | "[release/9.0-staging] Fix bug (#123)" is cleaned to "Fix bug" |
| CommitCollector.HeaderedTableRenders | src/CommitCollector/CommitCollector.cs:106 | a table with a header renders, in two lines more than it has rows |
| CommitCollector.Run | src/CommitCollector/CommitCollector.cs:79-113 | the loop and the skipped table produce exactly Collect: both rendered tables, or the error of the first commit that throws |
| CommitCollector.TriageOutcomes | src/CommitCollector/CommitCollector.cs:83-96 | the loop completes exactly when no commit throws, and then it has one outcome per commit in listing order |
| CommitCollector.TriageFirstError | src/CommitCollector/CommitCollector.cs:83-96 | a failing loop reports the error of a commit all of whose predecessors went through |
| CommitCollector.TriagePrefixFailure | src/CommitCollector/CommitCollector.cs:83-96 | once a commit throws, the later commits change nothing |
| CommitCollector.RowsAndSkipsPartition | src/CommitCollector/CommitCollector.cs:87-95 | every commit goes into exactly one of the two tables |
| CommitCollector.ClassifyMeaning | src/CommitCollector/CommitCollector.cs:85-95 | a skipped commit carries the reason of the first rule that fires and its uncleaned first line (trimmed, but not through `RemoveTexts`); a kept commit fires no rule and its row links its cleaned first line, a subsequence of that line, to its url with its author's login |
| TitlePatterns.PrefixRun | src/CommitCollector/CommitCollector.cs:19-31 | the longest run of characters with the property at the start of a text (a greedy `\d+` or `[ ]*`) |
| TitlePatterns.MergeAtSound | src/CommitCollector/CommitCollector.cs:20 | a match of the merge pattern at the start means one of its texts starts there |
| TitlePatterns.MergeAtComplete | src/CommitCollector/CommitCollector.cs:20 | every text of the merge pattern, with or without "dotnet" and with any non-empty digits, is matched |
| TitlePatterns.MergePatternIff | src/CommitCollector/CommitCollector.cs:19-21 | Regex.IsMatch holds exactly when a text of the pattern occurs somewhere in the title |
| TitlePatterns.PullRequestNumberSound | src/CommitCollector/CommitCollector.cs:29 | what the matcher of `[ ]*\(\#\d+\)` takes is spaces, "(#", digits and ")" |
| TitlePatterns.PullRequestNumberComplete | src/CommitCollector/CommitCollector.cs:29 | every such text is taken whole |
| TitlePatterns.VersionTagSound | src/CommitCollector/CommitCollector.cs:30 | what the matcher of `\[\d+\.0\] ` takes is "[", digits and ".0] " |
| TitlePatterns.VersionTagComplete | src/CommitCollector/CommitCollector.cs:30 | every such text is taken whole |
| TitlePatterns.EraseDeletesOnly | src/CommitCollector/CommitCollector.cs:167-175 | Replace with the empty string leaves a subsequence of its input |
| TitlePatterns.EraseWithoutMatch | src/CommitCollector/CommitCollector.cs:167-175 | with no match anywhere, Replace changes nothing |
| TitlePatterns.EraseKeepsPrefix | src/CommitCollector/CommitCollector.cs:167-175 | a part in which no match starts is kept as it is |
| TitlePatterns.EraseLiteralAbsent | src/CommitCollector/CommitCollector.cs:169 | a literal whose first character is not an ASCII letter and does not occur in the text erases nothing |
| TitlePatterns.EraseLiteralAtStart | src/CommitCollector/CommitCollector.cs:169 | a literal whose first character is not an ASCII letter and does not occur in the rest is erased from the start of the text, and the rest kept |
| TitlePatterns.ReleasePrefixesOnStaging | src/CommitCollector/CommitCollector.cs:23-26 | when the rest of a "[release/9.0-staging] " title holds no '[', the three other release prefixes leave the title unchanged and the fourth removes its prefix |
| TitlePatterns.EraseVersionTagAbsent | src/CommitCollector/CommitCollector.cs:30 | a text without '[' holds no version tag |
| TableLayout.MaxColumns | src/MarkdownTable/MarkdownTable/MarkdownTableBuilder.cs:102-112 | the column count is the largest of the header length and every row length |
| TableLayout.MaxLengthIsLongest | src/MarkdownTable/MarkdownTable/MarkdownTableBuilder.cs:87 | Max over a column is the length of its longest cell |
| TableLayout.ColumnWidthIsWidest | src/MarkdownTable/MarkdownTable/MarkdownTableBuilder.cs:75-88 | with no rows a column is 1 wide whatever the header says; with rows it is the widest of its header cell and its cells, and equal to one of them |
| TableLayout.Widths | src/MarkdownTable/MarkdownTable/MarkdownTableBuilder.cs:90-100 | one width per column, each that column's width |
| TableLayout.PadRight | src/MarkdownTable/MarkdownTable/MarkdownTableBuilder.cs:143-146 | "{0,-w}" keeps the cell and pads it with spaces to w, never cutting it |
| TableLayout.RowLines | src/MarkdownTable/MarkdownTable/MarkdownTableBuilder.cs:70 | one line per row |
| TableLayout.RowLinesAt | src/MarkdownTable/MarkdownTable/MarkdownTableBuilder.cs:70 | line k is row k rendered, in insertion order |
| TableLayout.AppendLinesConcat | src/MarkdownTable/MarkdownTable/MarkdownTableBuilder.cs:60-72 | appending two groups of lines is appending them one after the other |
| TableLayout.RenderSuccess | src/MarkdownTable/MarkdownTable/MarkdownTableBuilder.cs:58-73 | when the horizontal line exists, the table is the header line only when there is a header, then the horizontal line, then the rows in order, each followed by the newline |
| TableLayout.RenderFails | src/MarkdownTable/MarkdownTable/MarkdownTableBuilder.cs:58-73 | when the horizontal line fails, ToString fails with the same error and emits nothing |
| TableLayout.HorizontalLineLength | src/MarkdownTable/MarkdownTable/MarkdownTableBuilder.cs:126-133 | with columns the horizontal line exists and is 1 + Σ(w + 3) long |
| TableLayout.RowLength | src/MarkdownTable/MarkdownTable/MarkdownTableBuilder.cs:135-160 | a row whose cells fit their columns is exactly as long as the horizontal line |
| TableLayout.LinesAligned | src/MarkdownTable/MarkdownTable/MarkdownTableBuilder.cs:58-73 | with rows, every line of the table has the same length |
| TableLayout.RenderFailsIff | src/MarkdownTable/MarkdownTable/MarkdownTableBuilder.cs:126-133 | rendering fails exactly when there is no column: no header and only empty rows |
| TableLayout.RowAsJoin | src/MarkdownTable/MarkdownTable/MarkdownTableBuilder.cs:135-160 | a row is the outer border, one field per column joined by '\|', and the outer border |
| TableLayout.RowCells | src/MarkdownTable/MarkdownTable/MarkdownTableBuilder.cs:135-160 | a row has exactly maxCols fields; each trims back to its cell, and the missing trailing cells to "" |
| MarkdownTable.MarkdownTableBuilder.constructor | src/MarkdownTable/MarkdownTable/MarkdownTableBuilder.cs:14-37 | a new builder has no header and no rows |
| MarkdownTable.MarkdownTableBuilder.WithHeader | src/MarkdownTable/MarkdownTable/MarkdownTableBuilder.cs:39-43 | replaces the header only, and returns the builder itself |
| MarkdownTable.MarkdownTableBuilder.WithRow | src/MarkdownTable/MarkdownTable/MarkdownTableBuilder.cs:45-49 | appends exactly one row at the end, keeps the header and the earlier rows, and returns the builder itself |
| MarkdownTable.MarkdownTableBuilder.Clear | src/MarkdownTable/MarkdownTable/MarkdownTableBuilder.cs:51-56 | empties the header and the rows, and returns the builder itself |
| MarkdownTable.MarkdownTableBuilder.MaxColumns | src/MarkdownTable/MarkdownTable/MarkdownTableBuilder.cs:102-112 | the loop computes the column count of TableLayout.MaxColumns |
| MarkdownTable.MarkdownTableBuilder.Column | src/MarkdownTable/MarkdownTable/MarkdownTableBuilder.cs:114-119 | the loop collects cell index of every row, "" where the row is shorter |
| MarkdownTable.MarkdownTableBuilder.ColumnWidth | src/MarkdownTable/MarkdownTable/MarkdownTableBuilder.cs:75-88 | the width of TableLayout.ColumnWidth |
| MarkdownTable.MarkdownTableBuilder.SizeRow | src/MarkdownTable/MarkdownTable/MarkdownTableBuilder.cs:90-100 | the loop collects the width of every column |
| MarkdownTable.MarkdownTableBuilder.HorizontalLine | src/MarkdownTable/MarkdownTable/MarkdownTableBuilder.cs:126-133 | the horizontal line of the current widths, failing with no column |
| MarkdownTable.MarkdownTableBuilder.Row | src/MarkdownTable/MarkdownTable/MarkdownTableBuilder.cs:135-160 | the two loops build the row of TableLayout.Row: padded cells, then blanks for the missing columns |
| MarkdownTable.MarkdownTableBuilder.ToString | src/MarkdownTable/MarkdownTable/MarkdownTableBuilder.cs:58-73 | the rendering of TableLayout.Render for the current header and rows |
| AzureDevOps.LookupAssign | src/Connectors/AzureDevOps/AzureDevOpsCommunicator.cs:141-146 | after arguments[key] = value the key holds value and every other key what it held |
| AzureDevOps.AssignKeys | src/Connectors/AzureDevOps/AzureDevOpsCommunicator.cs:141-146 | the keys keep their order, and a new key goes last |
| AzureDevOps.AssignKeepsDistinct | src/Connectors/AzureDevOps/AzureDevOpsCommunicator.cs:141-146 | no key occurs twice after an assignment |
| AzureDevOps.QueryStringRoundTrip | src/Connectors/AzureDevOps/AzureDevOpsCommunicator.cs:77-88 | when no key or value holds '&', splitting the query after its '?' at '&' gives back the pairs, and each pair splits at its first '=' into key and value when the key holds no '=' |
| AzureDevOps.Communicator.GetQueryUrl | src/Connectors/AzureDevOps/AzureDevOpsCommunicator.cs:75-91 | the base url of the api followed by '?' and the "key=value" pairs joined by '&'; exactly the base url with no arguments |
| AzureDevOps.NewCommunicator | src/Connectors/AzureDevOps/AzureDevOpsCommunicator.cs:25-33 | a communicator exactly when organization, project and token are all non-empty; otherwise the error names the first empty one |
| AzureDevOps.Communicator.GetBuildDefinitions | src/Connectors/AzureDevOps/AzureDevOpsCommunicator.cs:104-114 | the options' arguments become BuildDefinitionArguments, and the request goes to "build/definitions" with them |
| AzureDevOps.BuildDefinitionArguments | src/Connectors/AzureDevOps/AzureDevOpsCommunicator.cs:108-111 | "name" is the definition name when it is not null or whitespace; every other key and a blank name leave the arguments as they were |
| AzureDevOps.Communicator.GetBuilds | src/Connectors/AzureDevOps/AzureDevOpsCommunicator.cs:116-123 | the request goes to BuildsApi of the build id with the options' arguments |
| AzureDevOps.BuildsApiRoundTrip | src/Connectors/AzureDevOps/AzureDevOpsCommunicator.cs:120 | the api is "build/builds" exactly when there is no id; otherwise the id parses back from after "build/builds/" |
| AzureDevOps.Communicator.GetPipelines | src/Connectors/AzureDevOps/AzureDevOpsCommunicator.cs:125-132 | the request goes to PipelinesApi of the pipeline id with the options' arguments |
| AzureDevOps.PipelinesApiRoundTrip | src/Connectors/AzureDevOps/AzureDevOpsCommunicator.cs:129 | the api is "pipelines" exactly when there is no id; otherwise the id parses back from after "pipelines/" |
| AzureDevOps.Communicator.GetCommits | src/Connectors/AzureDevOps/AzureDevOpsCommunicator.cs:134-150 | the options' arguments become CommitArguments, and the request goes to "git/repositories/{Repo}/commits" |
| AzureDevOps.CommitArgumentsLookup | src/Connectors/AzureDevOps/AzureDevOpsCommunicator.cs:141-147 | the version type is "branch", the version is the branch name, "$top" is Top only when Top is positive and otherwise what it was, and every other key is untouched |
| AzureDevOps.DefaultTopLeavesTopAbsent | src/Connectors/AzureDevOps/Commit.cs:78 | the default Top of -1 adds no "$top" |
| AzureDevOps.Communicator.GetPullRequests | src/Connectors/AzureDevOps/AzureDevOpsCommunicator.cs:152-173 | the request of PullRequests, or its first failing check with nothing changed; on success the target branch is normalised in the options and the arguments are the request's |
| AzureDevOps.PullRequests | src/Connectors/AzureDevOps/AzureDevOpsCommunicator.cs:152-160 | fails exactly when Repo or TargetBranch is empty or Status is undefined, naming the first failing check; otherwise the request goes to "git/repositories/{Repo}/pullrequests" |
| AzureDevOps.PullRequestArgumentsLookup | src/Connectors/AzureDevOps/AzureDevOpsCommunicator.cs:162-170 | "searchCriteria.targetRefName" holds the normalised branch and "searchCriteria.status" the status argument; every other key is untouched |
| AzureDevOps.NormalizeBranchProperties | src/Connectors/AzureDevOps/AzureDevOpsCommunicator.cs:162-166 | the result starts with "refs/heads/"; it is the branch itself exactly when the branch already starts so; normalising is idempotent; otherwise the prefix is followed by the branch |
| AzureDevOps.StatusArgumentValues | src/Connectors/AzureDevOps/PullRequest.cs:32-39 | the five statuses give "abandoned", "active", "all", "completed" and "notSet" |
| AzureDevOps.CommitOptions.constructor | src/Connectors/AzureDevOps/Commit.cs:74-80 | Repo and BranchName are empty, Top is -1, and there are no arguments |
| AzureDevOps.PullRequestOptions.constructor | src/Connectors/AzureDevOps/PullRequest.cs:62-68 | Repo and TargetBranch are empty, Status is Completed, and there are no arguments |
| AzureDevOps.BuildOptions.constructor | src/Connectors/AzureDevOps/Build.cs:36-40 | no build id and no arguments |
| AzureDevOps.PipelineOptions.constructor | src/Connectors/AzureDevOps/Pipeline.cs:39-43 | no pipeline id and no arguments |
| AzureDevOps.BuildDefinitionOptions.constructor | src/Connectors/AzureDevOps/BuildDefinition.cs:47-51 | no definition name and no arguments |
| Strings.ContainsIff | src/CommitCollector/CommitCollector.cs:131 | Contains holds exactly when the text occurs at some position |
| Strings.TrimShape | src/CommitCollector/CommitCollector.cs:85 | Trim removes the whitespace at both ends and nothing else |
| Strings.TrimPadded | src/CommitCollector/CommitCollector.cs:85 | a trimmed text between whitespace trims back to itself |
| Strings.SplitJoin | src/Connectors/AzureDevOps/AzureDevOpsCommunicator.cs:87 | splitting what was joined at a separator no part holds gives back the parts |
| Strings.IntToStringRoundTrip | src/Connectors/AzureDevOps/AzureDevOpsCommunicator.cs:120 | an integer formatted in decimal parses back to itself |
| Wrappers.AllOrFirstErrorSuccess | src/CommitCollector/CommitCollector.cs:83-96 | the steps all succeed exactly when the whole does, and then the values are theirs in order |
| Wrappers.AllOrFirstErrorFailure | src/CommitCollector/CommitCollector.cs:83-96 | a failure is the failure of a step all of whose predecessors succeeded |

## Left out

- Console and network I/O are not modelled: the GitHub client, the prompt for the pull request id and its `int.Parse`, the options file, and the coloured console output of `Run` apart from the two tables: the "-----" separators, the blank lines and the heading "Commits that were skipped:" are not produced. The commits and their details are inputs of `Run`, each table is a string result, and `Environment.NewLine` is the parameter `nl`.
- The HTTP client and the request call are not modelled (`CallAsync`, `ExecuteAsync`), nor JSON decoding, the Base64 authorization header or `Dispose`. Each `Get*` method returns the `Query` it would send, and `Communicator.RequestUrl` is its url.
- `GetArtifacts` and `GetArtifactsFromUrl` are not part of this model. The latter builds a regex from runtime strings.
- `ArgumentNullException.ThrowIfNull(options)` cannot fail, since Dafny references are never null. A null cell, header or string is not modelled either; a missing author is an `Option`, and its `NullReferenceException` is a `RunError`.
- Culture-sensitive comparison is modelled by ordinal comparison, with ASCII case folding where the source ignores case. This covers `InvariantCultureIgnoreCase`, `RegexOptions.IgnoreCase`, `StartsWith(string)`, `char.ToLower` and the case-sensitive `Contains(text, StringComparison.InvariantCulture)` of the forbidden-text rule.
- `\d` is taken to match the ASCII digits only. .NET also matches other Unicode decimal digits.
- The `Dictionary<string, string>` of arguments is a sequence of pairs in insertion order. That is its enumeration order when nothing is removed, which no modelled code does.
- MarkdownTable.MarkdownTableBuilder.Row: requires the row to have at most `maxCols` cells. Every caller in the class passes `MaxColumns()`, which bounds every row and the header.
- The `rowBuilder` field of the builder is modelled as a local string in `Row`, since it is reset on every call. The unused `Align` enum is not modelled.
- A commit row and a skipped pair hold strings. The builder's `object[]` rows and `ToString()` of their cells are not modelled.
- `Run` reports the login of the commit's author; it does not resolve approvers or backport chains, and neither does the model. A commit that changes no file is skipped as "All infra files".
- Every length, width and index counts Unicode scalar values (a Dafny `string` is a sequence of them), not the UTF-16 code units that .NET's `string.Length`, the column widths of `ColumnWidth` and the `"{0,-w}"` padding count. Text with characters outside the Basic Multilingual Plane, such as emoji, is therefore measured shorter than .NET measures it, and the model's column widths and padding differ from .NET's for it: with rows "😀" and "ab", .NET gives the column width 2 and does not pad "😀", while the model pads it with one space.
- `WithHeader` and `WithRow` keep the caller's `params` arrays by reference, so a caller that changes such an array later changes the table. The model copies the header and each row as values, and does not capture that aliasing.
- `IntToString` renders an integer with an ASCII '-' and ASCII digits. The source formats build and pipeline ids by string interpolation in the current culture; a culture whose negative sign differs is not modelled.
