# SonarQube AI fix assistant: a Dafny model of its finding filter, prompt builder and command escapes

The extension fetches static-analysis findings from a SonarQube server. It
lets the user narrow them down in a webview and sends a prompt built from the
surviving findings to a coding agent. This project models the logic in that
path and proves what it does:

- **The webview script** (`src/webview/fixBugs.js`):
  - Five facets filter the findings: type, severity, rule, directory and file. The directory facet passes on a substring match.
  - Each facet's boxes show per-value counts, computed with that facet's own checks ignored.
  - The boxes are the distinct values in first-encounter order, stably sorted by descending count, with zero counts hidden.
  - The prompt text groups the surviving findings by file, in first-encounter order, and ends with `Fix these SAST issues`.
  - The page state is a class: findings, surviving subset, `currentFile`, snippet library, text area, buttons and count. Its handlers are initialise, filter, check or remove boxes, insert snippet, save snippet and fix.
- **The `fixBugs` command** (`src/commands/fixBugs.ts`):
  - the grouping loop;
  - the file-item list of its page, with the `onclick` argument escaped;
  - the inline script's `+=` text builder and its `fix()`;
  - the `fix` message handler and its guard;
  - the `cursor-agent` line, whose prompt has `\`, `"`, `$` and backtick escaped.
- **The `getIssues` command** (`src/commands/getIssues.ts`):
  - the no-workspace guard;
  - the `curl` line, whose token and URL have only `"` escaped.

Modules, one per file:

- **Generic helpers:**
  - `Options`: an optional value.
  - `Lists`: filter, `new Set` order, counting.
  - `Text`: split and join, substring, number formatting, JavaScript `trim`, single-character `replace`.
  - `Escaping`: backslash escaping of a character set, and its inverse.
  - `Effects`: the editor effects a handler produces.
- **The webview script:**
  - `Findings`: a finding and the values derived from its component key.
  - `Facets`: the filter.
  - `FacetCounts`: counts and box order.
  - `PromptText`: the prompt texts, labels and saved snippets.
  - `WebviewSession`: the page's state as a class.
- **The commands:** `Grouping` (the grouping dictionary, shared by both files), `FixBugsCommand` and `GetIssuesCommand`.

Semantics made explicit:

- **DOM checkbox state** is a `Selection` of five sets of checked values.
- **Editor and terminal calls** become `Effect` values. A handler returns them instead of performing them.
- **Posted messages** are return values.
- **Line numbers** are `Option<nat>`. A line counts as present (JavaScript-truthy) only when it is given and not zero.
- **Object key order** is a key list kept next to the dictionary. JavaScript keeps insertion order for keys that are not integer-like, and component keys always contain a colon.
- **Component keys** are required to contain a colon wherever the script derives a directory from them. `split(':')[1].split('/')` throws on any other key.

## Model

| member | source | states |
|---|---|---|
| Findings.PathSegment | src/webview/fixBugs.js:64 | Definition of `component.split(':')[1]` on a key with a colon: the second piece of the split. It never holds a colon |
| Findings.PathAfterFirstColon | src/webview/fixBugs.js:161 | Definition of the sent path: the pieces after the first of `split(':')` joined with `:` again, or the key itself when it has no colon |
| Findings.PathSegmentSpec | src/webview/fixBugs.js:64 | `split(':')[1]` starts right after the first colon and runs up to the next colon or the end of the key |
| Findings.DirectoryOf | src/webview/fixBugs.js:64 | The directory value is empty when the path segment has no `/`. Otherwise it is the text before the segment's last `/` |
| Findings.DirectoryOfNested | src/webview/fixBugs.js:129 | `<project>:<dir>/<file>` with colon-free parts has directory `<dir>`, whatever its depth |
| Findings.DirectoryOfTopLevel | src/webview/fixBugs.js:60-66 | `<project>:<file>` has the empty directory |
| Findings.DirectoryInComponent | src/webview/fixBugs.js:89 | A component contains its own directory value |
| Findings.PathAfterFirstColonSpec | src/webview/fixBugs.js:161 | The path `fix` sends is everything after the first colon, later colons included. A key without a colon is sent whole |
| Findings.SecondColon | src/webview/fixBugs.js:158-164 | The sent path keeps text after a second colon. The directory value stops at that colon: `p:a:b/c.ts` gives `a:b/c.ts` and `""` |
| Text.Split | src/webview/fixBugs.js:64 | `split(d)` on a one-character separator: one piece more than there are separators, and no piece holds the separator |
| Text.Join | src/webview/fixBugs.js:161 | Definition of `join(d)`: the pieces with `d` between them, and `""` for no pieces |
| Text.JoinSplit | src/webview/fixBugs.js:161 | Joining the pieces of a split with the same separator gives the text back |
| Text.SplitJoin | src/webview/fixBugs.js:64 | Splitting a join of at least one separator-free piece gives the pieces back |
| Text.JoinAllButLast | src/webview/fixBugs.js:64 | `split(d).slice(0, -1).join(d)` is the text before the last `d`, or `""` when there is no `d` |
| Text.Contains | src/webview/fixBugs.js:89 | Definition of `includes(sub)`: `sub` is a prefix of some suffix |
| Text.ContainsAt | src/webview/fixBugs.js:89 | A piece that occurs at some position is found by `includes` |
| Text.ContainsWitness | src/webview/fixBugs.js:89 | Whatever `includes` finds occurs at some position, so the two readings agree |
| Text.NatToString | src/webview/fixBugs.js:109 | `${n}` for a whole number: a non-empty run of decimal digits that starts with `0` only for 0 |
| Text.NatToStringRoundTrip | src/webview/fixBugs.js:109 | Reading the digits back gives the number |
| Text.Trim | src/webview/fixBugs.js:30 | Definition of `trim()`: leading, then trailing JavaScript white space removed |
| Text.TrimSpec | src/webview/fixBugs.js:30 | `trim()` is a contiguous piece of the input with only white space before and after it, and it neither starts nor ends with white space |
| Text.TrimEmpty | src/webview/fixBugs.js:30-31 | The trimmed text is empty iff every character is JavaScript white space, both directions |
| Text.ReplaceChar | src/commands/fixBugs.ts:32-35 | `replace(/c/g, rep)`: every `c` becomes `rep`, so the length grows by `|rep| - 1` per occurrence |
| Text.ReplaceCharConcat | src/commands/getIssues.ts:60-61 | Replacing distributes over concatenation |
| Lists.Filter | src/webview/fixBugs.js:85 | Definition of `filter(p)`: the elements satisfying `p`, in their original order |
| Lists.FilterSpec | src/webview/fixBugs.js:70 | Every kept element satisfies the test, and each satisfying value is kept as often as it occurs |
| Lists.FilterIsSubseq | src/webview/fixBugs.js:85 | `filter` keeps the original order: the result is a subsequence of the input |
| Lists.Distinct | src/webview/fixBugs.js:133 | `[...new Set(values)]`: the same values as the input, none twice |
| Lists.DistinctFirstEncounter | src/webview/fixBugs.js:133 | `[...new Set(values)]` lists values in the order of their first occurrence |
| Grouping.GroupKeys | src/commands/fixBugs.ts:50-57 | Definition of the dictionary's key list: the distinct components in first-encounter order |
| Grouping.GroupOf | src/commands/fixBugs.ts:50-57 | Definition of one dictionary entry: the findings with that component, in input order |
| Grouping.Groups | src/commands/fixBugs.ts:50-57 | Definition of the dictionary: one entry per key of `GroupKeys` |
| Grouping.GroupByComponent | src/commands/fixBugs.ts:50-57 | The `forEach` loop leaves the key list at the components in first-encounter order, and the dictionary at each component's findings |
| Grouping.GroupKeysExact | src/commands/fixBugs.ts:53-55 | The dictionary has one key per component that occurs, and no other key, and no key twice |
| Grouping.GroupContents | src/commands/fixBugs.ts:56 | A group holds exactly the findings of its component, each as often as in the input, in input order |
| Grouping.GroupSize | src/webview/fixBugs.js:101-105 | A group's size is the number of findings with that component |
| Grouping.GroupSizesSum | src/commands/fixBugs.ts:50-57 | The group sizes add up to the number of findings |
| Facets.FacetValue | src/webview/fixBugs.js:60-66 | Definition of `filterMappings`: type, severity, rule, directory and component of a finding |
| Facets.Passes | src/webview/fixBugs.js:86-91 | Definition of the `issues.filter` callback: the five guards, each passing when its facet has nothing checked |
| Facets.Filtered | src/webview/fixBugs.js:85-92 | Definition of `issues.filter(...)` with that callback |
| Facets.Without | src/webview/fixBugs.js:78-84 | Excluding a facet clears that facet's checked values and keeps the other four facets' values |
| Facets.PassesIff | src/webview/fixBugs.js:85-92 | A finding survives iff every facet has nothing checked or admits it: its value is checked, or for the directory facet some checked directory is a substring of the component |
| Facets.ExcludingIff | src/webview/fixBugs.js:77-93 | `getFilteredIssuesExcluding(f)` keeps a finding iff every facet other than `f` admits it |
| Facets.ExcludingSuperset | src/webview/fixBugs.js:99 | The surviving findings are an order-preserving subsequence of all findings, and of the findings kept when one facet is excluded |
| Facets.NoSelectionKeepsAll | src/webview/fixBugs.js:85-92 | With nothing checked, every finding survives |
| Facets.FilteredWellFormed | src/webview/fixBugs.js:85 | Filtering keeps every component key with a colon |
| Facets.EmptyDirectoryAdmitsAll | src/webview/fixBugs.js:89 | A checked empty directory admits every finding |
| Facets.OwnDirectoryAdmits | src/webview/fixBugs.js:89 | Checking a finding's own directory admits it |
| FacetCounts.Values | src/webview/fixBugs.js:126-130 | Definition of `issues.map(filterMappings[f])` for one facet |
| FacetCounts.FileValuesAreComponents | src/webview/fixBugs.js:130 | The file facet's values are the component keys the grouping is built from |
| FacetCounts.CountForValue | src/webview/fixBugs.js:68-71 | Definition of `getCountForValue`: the number of findings passing every facet but its own whose facet value is the given value |
| FacetCounts.FacetList | src/webview/fixBugs.js:45-58 | Definition of `populateFilters`: the distinct values paired with their counts, stably sorted by descending count, with zero counts dropped |
| FacetCounts.CountIsOccurrences | src/webview/fixBugs.js:68-71 | A value's count is how often it equals the facet value among the findings that pass every facet but its own |
| FacetCounts.CountIgnoresOwnSelection | src/webview/fixBugs.js:69 | Changing the boxes checked in a facet does not change that facet's counts |
| FacetCounts.CountsSum | src/webview/fixBugs.js:68-71 | A facet's counts over its distinct values add up to the number of findings that pass every other facet |
| FacetCounts.NoSelectionCountsSum | src/webview/fixBugs.js:124-134 | With nothing checked, a facet's counts add up to the number of findings |
| FacetCounts.Insert | src/webview/fixBugs.js:48-50 | One insertion step of the sort keeps the entries as a multiset, with the new entry added |
| FacetCounts.SortByCount | src/webview/fixBugs.js:48-50 | The sort is a permutation whose counts never increase along the list |
| FacetCounts.SortStable | src/webview/fixBugs.js:48-50 | Among entries of equal count, the sort keeps the original order |
| FacetCounts.FacetListDescending | src/webview/fixBugs.js:45-58 | The rendered boxes are ordered by descending count |
| FacetCounts.FacetListEntries | src/webview/fixBugs.js:51-57 | A box `(v, c)` exists iff `v` occurs among the findings, `c` is its count, and `c > 0` |
| FacetCounts.FacetListDistinct | src/webview/fixBugs.js:133 | No value gets two boxes |
| FacetCounts.FacetListStable | src/webview/fixBugs.js:133 | Boxes with the same non-zero count appear in first-encounter order |
| PromptText.IssueBlock | src/webview/fixBugs.js:109 | Definition of one finding's rows with an indent: `Issue n:`, `Message:`, `Severity:`, a `Line:` row only for a truthy line, and `Rule:` with a blank line |
| PromptText.IssueBlocks | src/webview/fixBugs.js:108-110 | Definition of `fileIssues.map(...).join('')`: the blocks numbered from 1 in list order |
| PromptText.FileBlock | src/webview/fixBugs.js:106-111 | Definition of one entry's text: the `File: c (n issues)` header, then the indented blocks |
| PromptText.RenderFiles | src/webview/fixBugs.js:106-112 | Definition of `Object.entries(...).map(...).join('')`: the file blocks of the keys in order |
| PromptText.WebviewPrompt | src/webview/fixBugs.js:101-112 | Definition of the webview text: the file blocks of the subset's dictionary, then `Fix these SAST issues` |
| PromptText.InlinePrompt | src/commands/fixBugs.ts:127-135 | Definition of the inline text: unindented blocks, then `Fix these SAST issues` |
| PromptText.EndsWithSuffix | src/webview/fixBugs.js:112 | Both prompt texts end with `Fix these SAST issues` |
| PromptText.EmptyPrompt | src/webview/fixBugs.js:106-112 | The webview text is exactly the closing instruction iff no finding survives |
| PromptText.StartsWithFirstFile | src/webview/fixBugs.js:106-107 | The text opens with the header `File: c (n issues)` of the first survivor's file, where `n` is that file's group size |
| PromptText.MergesFileFindings | src/webview/fixBugs.js:101-112 | For findings of files a, b, a, the text is a's block with both findings, then b's block, then the instruction |
| PromptText.Numbering | src/webview/fixBugs.js:108-110 | The finding at position k of a group is written as `Issue k+1`, right after the blocks before it. This holds for the webview and inline texts alike |
| PromptText.ZeroLineOmitted | src/webview/fixBugs.js:109 | A line number of 0 is written like a missing one, with no `Line:` row |
| PromptText.LineRow | src/commands/fixBugs.ts:132 | A truthy line number inserts exactly `indent + "Line: " + n + "\n"` between the `Severity:` row and the closing `Rule:` row; the rest of the block is the same as without a line |
| PromptText.PromptLabel | src/webview/fixBugs.js:15 | Definition of a snippet's label: `substring(0, 80)` plus `...` when longer than 80 |
| PromptText.LabelShape | src/webview/fixBugs.js:15 | A snippet of at most 80 characters is its own label. A longer one is cut to 80 characters plus `...` |
| PromptText.SavedPrompt | src/webview/fixBugs.js:30-34 | Definition of what `saveCustomPrompt` posts: a line break plus the trimmed input, or nothing when that is empty |
| PromptText.SavedPromptSpec | src/webview/fixBugs.js:28-35 | Nothing is saved iff the input is all white space. Otherwise the saved snippet is a line break followed by the trimmed input |
| WebviewSession.Labels | src/webview/fixBugs.js:14-16 | Definition of the `prompts.map` labels: each snippet's `PromptLabel`, in library order |
| WebviewSession.AllBoxes | src/webview/fixBugs.js:124-136 | Definition of `updateAllFilterCounts`: the `FacetList` of each of the five facets |
| WebviewSession.RenderPrompt | src/webview/fixBugs.js:101-112 | Grouping with the `reduce` and rendering the dictionary's entries yields the webview prompt text of the subset |
| WebviewSession.Session.constructor | src/webview/fixBugs.js:1-5 | The page starts with no findings, no snippets, an empty `currentFile` and nothing checked |
| WebviewSession.Session.LoadPrompts | src/webview/fixBugs.js:7-10 | The library is the defaults followed by the customs, a missing list counting as empty. The labels follow the library and nothing else changes |
| WebviewSession.Session.InsertPrompt | src/webview/fixBugs.js:19-26 | The snippet is appended to the text area only when it exists and is not empty |
| WebviewSession.Session.SaveCustomPrompt | src/webview/fixBugs.js:28-35 | The posted snippet is the saved form of the input. The input field is cleared exactly when something is posted |
| WebviewSession.Session.Filter | src/webview/fixBugs.js:95-122 | The subset is the filter of the findings. The text is its prompt. The buttons are disabled iff the subset is empty and the count is its length. `currentFile` becomes the first survivor's file, or stays unchanged when none survives |
| WebviewSession.Session.Initialize | src/webview/fixBugs.js:37-43 | Takes the findings and the folder, loads the library, and leaves the page filtered as above, `currentFile` included: it stays unchanged when no finding survives |
| WebviewSession.Session.SetChecked | src/webview/fixBugs.js:55 | Checking or unchecking one box changes only that facet's set. The page is then refiltered as above; `currentFile` stays unchanged when no finding survives |
| WebviewSession.Session.RemoveFilter | src/webview/fixBugs.js:151-156 | Unchecking a facet's boxes clears only that facet. The page is then refiltered as above; `currentFile` stays unchanged when no finding survives |
| WebviewSession.Session.Fix | src/webview/fixBugs.js:158-164 | Nothing is posted iff no finding survives. Otherwise the message carries the text, the path after the first colon and the folder. It is `fixWithCursor` iff the agent is `cursor`, `fixWithCopilot` otherwise |
| Escaping.UnescapeEscape | src/commands/fixBugs.ts:31-35 | Removing the backslash before each escaped character restores the text, for any set of escaped characters |
| Escaping.EscapeWellEscaped | src/commands/fixBugs.ts:31-35 | When the backslash is itself escaped, no escaped character is left bare |
| Escaping.ReplaceFirst | src/commands/fixBugs.ts:32 | A global `replace` of one character by backslash plus that character escapes exactly that character |
| Escaping.ReplaceExtends | src/commands/fixBugs.ts:33-35 | A further such `replace` adds its character to the escaped set, provided that character is neither the backslash nor already escaped |
| Escaping.EscapeSubset | src/commands/getIssues.ts:60-61 | Escaping with a smaller and a larger set agree iff none of the extra characters occurs |
| FixBugsCommand.EscapePrompt | src/commands/fixBugs.ts:31-35 | Definition of the four chained `replace` calls: backslash, then `"`, `$` and backtick |
| FixBugsCommand.CdLine | src/commands/fixBugs.ts:29 | Definition of the `cd "<dir>"` line, with the folder unescaped |
| FixBugsCommand.AgentLine | src/commands/fixBugs.ts:37 | Definition of the `cursor-agent` line: the escaped prompt and the unescaped file, each in double quotes |
| FixBugsCommand.RunCursorAgent | src/commands/fixBugs.ts:25-38 | Definition of `runCursorAgent`: the `cd` line, then the agent line, both to the `Cursor Agent` terminal |
| FixBugsCommand.HandleMessage | src/commands/fixBugs.ts:68-78 | Definition of the message handler: nothing for other commands, the error for an empty file, otherwise `runCursorAgent` |
| FixBugsCommand.EscapePromptMap | src/commands/fixBugs.ts:31-35 | The four-step chain is the per-character map: `\`, `"`, `$` and backtick get a backslash and nothing else changes. No escape is doubled |
| FixBugsCommand.EscapePromptLength | src/commands/fixBugs.ts:31-35 | The escaped prompt is longer by the number of `\ " $` and backtick characters |
| FixBugsCommand.EscapePromptRoundTrip | src/commands/fixBugs.ts:31-35 | Dropping the backslash before each escaped character restores the prompt. No special character is left bare |
| FixBugsCommand.BackslashFirst | src/commands/fixBugs.ts:32 | With the backslash replaced last, the escape of `"` would be doubled. The chain as written escapes it once |
| FixBugsCommand.FixGuard | src/commands/fixBugs.ts:70-76 | Only a `fix` message with a non-empty file types into a terminal. One without a file shows `Select a file first` and nothing else. Other messages do nothing |
| FixBugsCommand.AgentReceivesPrompt | src/commands/fixBugs.ts:25-38 | The agent terminal gets `cd "<dir>"`, then `cursor-agent -p "<escaped>" "<file>" --output-format json > sonarai-temp/ai-response.json`. The folder and file are unescaped, and the escaped prompt decodes to the prompt |
| FixBugsCommand.EmptyPathRejected | src/commands/fixBugs.ts:144 | For a key `<project>:`, the inline `fix()` posts an empty path, which the handler turns down |
| FixBugsCommand.EscapeSingleQuote | src/commands/fixBugs.ts:87 | Definition of the escape as written: `file.replace(/'/g, "\\'")`, single quotes only |
| FixBugsCommand.EscapeJsQuoted | src/commands/fixBugs.ts:87 | Definition of the corrected escape: backslashes first, then single quotes |
| FixBugsCommand.SingleQuoteAgrees | src/commands/fixBugs.ts:87 | The `'`-only escape agrees with the corrected escape exactly for names without a backslash |
| FixBugsCommand.BackslashInFileName | src/commands/fixBugs.ts:87 | With the escape as written, the item of file `a\n` calls `showIssues` with `a` followed by a line break |
| FixBugsCommand.JsQuotedRoundTrip | src/commands/fixBugs.ts:87 | With backslashes escaped as well, the `onclick` argument reads back as the file name for every name without a line break |
| FixBugsCommand.ItemArgumentReadsBack | src/commands/fixBugs.ts:87 | With the escape as written, the `onclick` argument reads back as the file name whenever the name has no backslash and no line break |
| FixBugsCommand.FileItem | src/commands/fixBugs.ts:87 | Definition of one item: the name escaped as written inside `showIssues('…')`, the name, and the group size |
| FixBugsCommand.FileItems | src/commands/fixBugs.ts:86-88 | Definition of the item list: the items of the dictionary's keys, in key order, joined |
| FixBugsCommand.ItemsInKeyOrder | src/commands/fixBugs.ts:86-88 | The item list, with the escape as written, has the keys in order. Each item shows its group's size and comes right after the items before it |
| FixBugsCommand.InlineBlock | src/commands/fixBugs.ts:129-133 | The rows appended for one finding form its unindented block |
| FixBugsCommand.BuildInlinePrompt | src/commands/fixBugs.ts:127-135 | The `+=` loop yields the inline text: unindented blocks numbered from 1, no `File:` header, then the closing instruction |
| FixBugsCommand.InlinePage.constructor | src/commands/fixBugs.ts:113-119 | The page starts with no file selected, an empty text area, the button disabled and the folder field at the workspace |
| FixBugsCommand.InlinePage.ShowIssues | src/commands/fixBugs.ts:121-138 | A click selects the name its `onclick` argument decodes to. For a key of the dictionary it shows that file's inline text and enables the button. For any other name the handler stops at `issues[file].forEach`: the text area and the button keep their previous state, and `fix()` then posts the old text with the new name's path |
| FixBugsCommand.InlinePage.Fix | src/commands/fixBugs.ts:140-153 | Nothing is posted iff no file is selected. Otherwise a `fix` message carries the text, the path after the first colon and the folder |
| GetIssuesCommand.EscapeQuotes | src/commands/getIssues.ts:60-61 | Definition of `replace(/"/g, '\\"')` |
| GetIssuesCommand.IssuesFile | src/commands/getIssues.ts:49-54 | Definition of the output path: the folder, then `sonarai-temp/sonar-issues.json` |
| GetIssuesCommand.CurlLine | src/commands/getIssues.ts:63 | Definition of the `curl` line: escaped token with a colon, escaped URL, unescaped output path |
| GetIssuesCommand.HandleMessage | src/commands/getIssues.ts:38-68 | Definition of the `submit` handler: the no-workspace error, or the `curl` line and the info message |
| GetIssuesCommand.EscapeQuotesMap | src/commands/getIssues.ts:60-61 | Only `"` gets a backslash. `\`, `$` and backtick pass through |
| GetIssuesCommand.EscapeQuotesLength | src/commands/getIssues.ts:60-61 | The escaped text is longer by the number of `"` characters |
| GetIssuesCommand.EscapeQuotesRoundTrip | src/commands/getIssues.ts:60-61 | Deleting the backslash right before each `"` restores the token or URL |
| GetIssuesCommand.EscapeQuotesIdentity | src/commands/getIssues.ts:60-61 | A text is unchanged iff it has no `"` |
| GetIssuesCommand.EscapeAsymmetry | src/commands/getIssues.ts:60-61 | The `curl` escape equals the agent-prompt escape iff the text has no `\`, `$` or backtick |
| GetIssuesCommand.DollarLeftBare | src/commands/getIssues.ts:61 | `a$b` passes the `curl` escape unchanged, while the prompt escape writes `a\$b` |
| GetIssuesCommand.SubmitGuard | src/commands/getIssues.ts:40-65 | Without a workspace folder the handler shows `No workspace folder open` and types nothing. With one, it types exactly the `curl` line into the folder's issue file, then shows where the data goes |
| GetIssuesCommand.CurlCarriesCredentials | src/commands/getIssues.ts:63 | The line is `curl -u "<token>:" "<url>" > "<path>"` with the escaped token and URL, each decoding to what was typed. The path is unescaped |

## Findings

| source | as written | input that shows it | evidently intended | confidence | as-written member | corrected member |
|---|---|---|---|---|---|---|
| src/commands/fixBugs.ts:87 | Only single quotes get a backslash before the file name goes into the single-quoted `showIssues('…')` argument. A backslash in the name therefore starts a JavaScript escape | a component `a\n` (backslash, then `n`) reaches `showIssues` as `a` plus a line break. That key is missing from the dictionary, so `issues[file].forEach` throws | escape backslashes before single quotes, so the argument reads back as the name | medium; not executed | FixBugsCommand.BackslashInFileName | FixBugsCommand.JsQuotedRoundTrip |

The item list `FixBugsCommand.FileItems` is modelled with the escape as written. `FixBugsCommand.ItemArgumentReadsBack` states when it still reads back correctly, and `FixBugsCommand.InlinePage.ShowIssues` states what a click on a misread name does.

## Left out

- Terminal and panel management: `getOrCreateTerminal`, the terminal map, the close callbacks, `terminal.show`, and the `panel.dispose()` that closes the form after a submit (src/commands/getIssues.ts:66). Only the text sent to a terminal, and the terminal's name, are modelled.
- Filesystem and JSON I/O:
  - reading `sonar-issues.json` in `fixBugs`;
  - creating `sonarai-temp` in `getIssues`;
  - the whole audit log (`src/utils/auditLog.ts` is not part of this model).
- `path.join` is modelled as joining with `/`, without normalisation.
- The `fixBugs` command's own no-workspace guard is not modelled. It only precedes the file read, which is I/O.
- Webview HTML and DOM effects:
  - the HTML and CSS scaffolding;
  - `focus` and `scrollTop`;
  - showing or hiding the remove-filter buttons;
  - `stopPropagation`;
  - the selected-item highlight;
  - HTML attribute decoding of the item's `onclick`. A `"` or `&` in a file name is not analysed.
- User edits to the text area and the folder field between handlers are not modelled.
- WebviewSession.Session.Filter: the facet boxes are not stored. They are the derived `Session.ShownBoxes()`, which depend only on the findings and the checked values.
- Re-rendering a facet container drops a checked value whose count has fallen to zero. That depends on the DOM rendering order and is not modelled: checked values stay in the `Selection`.
- `filter()` first renders the boxes when the type container is empty. That is a DOM-only step.
- Findings.DirectoryOf: the directory of a key without a colon is not defined. The script throws there, so every operation that derives directories requires keys with a colon. `FacetValue` returns `""` in that unreachable case.
- JavaScript strings are UTF-16. Here a string is a sequence of Unicode characters. `substring(0, 80)` could split a surrogate pair, which the model does not capture.
- `JsQuotedBody` decodes single-character escapes. It does not decode:
  - octal, `\x` and `\u` escapes;
  - line continuations.
- FixBugsCommand.InlinePage.ShowIssues: the `TypeError` that `issues[file].forEach` throws for a name that is not a key is not an error value of the model. The method ends there with the state the page is left in.
- The page's message listener is not modelled as a dispatcher: `initialize` maps to `Session.Initialize` and `customPromptSaved` to `Session.LoadPrompts`.
- The extension's handlers for `fixWithCursor`, `fixWithCopilot` and `saveCustomPrompt` are not part of this model. Neither is `src/extension.ts`, which only registers commands.
- Shell semantics: the model proves facts about the strings sent to the terminal. It does not prove that a real shell reads them as intended.
