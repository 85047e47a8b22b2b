# Front matter and test-source fixes, modelled in Dafny

This project models two text-processing scripts of the repository.

- `local-instances/add_mcp_frontmatter.py` adds YAML front matter to the markdown documents of the MCP server instances (module `Frontmatter`). It first checks whether a document's stripped text already opens with `---`. If it does not, the script derives a header from the file's path, name and content:
  - the project is the path component after `mcp-servers`;
  - the document type, status and priority come from first-match rules over lowercased substrings;
  - the tags are sorted, free of duplicates and cut to eight;
  - the category depends on the project.

  The header is then prepended to the document. The adder keeps `processed`, `skipped` and `errors` counters. It is modelled as a class whose `ProcessFile` method takes the result of reading the file as a parameter.
- `fix-test-errors.py` (under `development/mcp-servers/project-management-mcp-server-project/04-product-under-development/staging/`) rewrites TypeScript test sources (module `FixTests`). It has two passes:
  - The parameter pass works from the `DEFAULT_PARAMS` table. For each call `name({ projectPath: ... })` it collects the default entries whose names do not occur in the call. It splices them in by replacing the text `}})` in the call. A call whose last argument is a flat object has no `}})` and is left as it is. A call that ends in `}})` gets the entries but loses a closing brace (see "## Findings").
  - The null-check pass walks the lines with an "inside a success check" flag. It appends `!` to `result.<property>` on qualifying `expect(` lines.

`Strings` holds the parts of Python's `str` that both scripts use, with Python's semantics:
- `strip()` removes exactly the characters `str.isspace()` accepts;
- `in` is the substring test;
- `replace` works from the left without overlap;
- `split('\n')` and `'\n'.join` are modelled;
- strings are compared by code point.

`Sorting` models `sorted()` of a set of strings. The set that `extract_tags` fills with `add` is kept as its strictly ascending listing, and a lemma proves that a set has only one such listing.

The two regular expressions are modelled as exact scanners:
- `CallMatch`: the `DOTALL` pattern `name\(\{\s*projectPath:.*?\}\)`. The lazy `.*?` stops at the first `})`.
- `BangMatch`: `result\.(\w+)(?!\.|\!)`. When the word is followed by `.` or `!`, the greedy `\w+` gives back one character, so `result.data.x` becomes `result.dat!a.x`.

Source cells in the table below are paths relative to the repository root.

## Model

| member | source | states |
|---|---|---|
| Frontmatter.DetectProject | local-instances/add_mcp_frontmatter.py:29-39 | without an `mcp-servers` component the project is `local-instances`; otherwise it is the component right after the first `mcp-servers`, or `local-instances` when that one is last |
| Frontmatter.HasFrontmatterLeading | local-instances/add_mcp_frontmatter.py:25-27 | the front-matter check succeeds exactly when the text, with its leading whitespace removed, starts with `---`; trailing whitespace never matters |
| Frontmatter.InferType | local-instances/add_mcp_frontmatter.py:41-62 | the type is one of readme/guide/specification/template/reference; it is `readme` exactly when the lowercased name is `readme.md`; `guide` takes precedence over `spec`, and `spec` over every later rule |
| Frontmatter.InferTypeIgnoresContent | local-instances/add_mcp_frontmatter.py:41-62 | the type does not depend on the content argument |
| Frontmatter.ProjectTag | local-instances/add_mcp_frontmatter.py:110-112 | the project tag is the lowercased project name with `-mcp-server` removed and spaces turned into `-` (the `-` to space to `-` round trip cancels out); it holds no upper-case letter and no space |
| Frontmatter.McpTag | local-instances/add_mcp_frontmatter.py:68-70 | `MCP` is a candidate tag exactly when the lowercased project contains `mcp` |
| Frontmatter.AddProjectNameTags | local-instances/add_mcp_frontmatter.py:66-74 | the tag listing after the two project checks is strictly ascending and holds exactly `MCP` (if the project mentions `mcp`) and `mcp-server` (if it mentions `server`) |
| Frontmatter.AddMatchedTags | local-instances/add_mcp_frontmatter.py:91-93 | one loop over a pattern table keeps the listing strictly ascending and adds exactly the tags of the patterns with a keyword in the text |
| Frontmatter.TruncatedListing | local-instances/add_mcp_frontmatter.py:114 | cutting the ascending listing of the tag set to eight gives `sorted(list(tags))[:8]` |
| Frontmatter.TagsSpec | local-instances/add_mcp_frontmatter.py:64-114 | the tags are strictly ascending (so free of repeats); there are as many as candidates when there are at most eight, otherwise exactly eight; every tag is a candidate; all candidates are kept when there are at most eight, otherwise the eight smallest; the project tag is always a candidate |
| Frontmatter.ExtractTags | local-instances/add_mcp_frontmatter.py:64-114 | the loops that fill the set compute exactly the specified tag list, which is strictly ascending and at most eight long |
| Frontmatter.DetermineStatus | local-instances/add_mcp_frontmatter.py:116-135 | the status is draft/completed/in-progress; `draft` exactly when the lowercased name contains `wip` or `draft`, whatever the content; `in-progress` exactly when the name has no `wip`/`draft`, has `template` or `test`, and the lowercased content has neither `complete` nor `production ready` |
| Frontmatter.DeterminePriority | local-instances/add_mcp_frontmatter.py:137-157 | the priority is `high` or `medium`; `high` exactly when the name is `readme.md`, contains installation/setup/troubleshooting, or the type is guide/specification |
| Frontmatter.HeaderFor | local-instances/add_mcp_frontmatter.py:159-172 | every header field lies in its value set; the category is `mcp-servers` exactly when the project contains `mcp-server`, else `tools`; the tags are strictly ascending and at most eight |
| Frontmatter.Render | local-instances/add_mcp_frontmatter.py:174-184 | the rendered front matter opens with the fence line `---` and a line break, and ends with the closing fence line followed by a blank line |
| Frontmatter.FrontmatterDetected | local-instances/add_mcp_frontmatter.py:194-200 | for every path and content, the front matter followed by the content passes the front-matter check |
| Frontmatter.GenerateFrontmatter | local-instances/add_mcp_frontmatter.py:159-185 | the method computes the specified front matter, and prepending it makes the front-matter check succeed |
| Frontmatter.ProcessedIdempotent | local-instances/add_mcp_frontmatter.py:187-200 | content written by processing is skipped when processed again, under any path |
| Frontmatter.FrontmatterAdder.constructor | local-instances/add_mcp_frontmatter.py:17-23 | all three counters start at zero |
| Frontmatter.FrontmatterAdder.ProcessFile | local-instances/add_mcp_frontmatter.py:187-213 | a failed read counts an error; content that already has front matter counts as skipped and nothing is written; other content counts as processed and becomes the front matter followed by the unchanged content; in each of these cases only that one counter goes up, by one |
| Strings.IndexOf | local-instances/add_mcp_frontmatter.py:34-35 | `parts.index(x)`: none exactly when `x` is absent; otherwise the index of an occurrence with none before it |
| Strings.FenceSurvivesStrip | local-instances/add_mcp_frontmatter.py:25-27 | text that starts with `---` still starts with `---` after `strip()` |
| Strings.ReplaceOneChar | local-instances/add_mcp_frontmatter.py:111-112 | `replace` of a one-character string by another is a character-for-character map |
| Strings.Strip | local-instances/add_mcp_frontmatter.py:27 | the stripped text neither starts nor ends with whitespace |
| Strings.LStripSpec | local-instances/add_mcp_frontmatter.py:27 | `lstrip()` keeps a suffix that does not start with whitespace and drops only whitespace |
| Strings.RStripSpec | local-instances/add_mcp_frontmatter.py:27 | `rstrip()` keeps a prefix that does not end with whitespace and drops only whitespace |
| Strings.StripInside | local-instances/add_mcp_frontmatter.py:27 | the stripped text occurs in the original text |
| Strings.Lower | local-instances/add_mcp_frontmatter.py:112 | `lower()` keeps the length and lowers each character on its own |
| Sorting.LessIrreflexive | local-instances/add_mcp_frontmatter.py:114 | no string sorts before itself under the code-point order `sorted()` uses |
| Sorting.LessTransitive | local-instances/add_mcp_frontmatter.py:114 | the code-point order is transitive |
| Sorting.LessTotal | local-instances/add_mcp_frontmatter.py:114 | any two different strings are ordered one way or the other |
| Sorting.Insert | local-instances/add_mcp_frontmatter.py:66-74 | `set.add` on the sorted listing: the result is strictly ascending, its members are the old ones plus the new one, and it grows by one exactly when the element was absent |
| Sorting.SortedOf | local-instances/add_mcp_frontmatter.py:114 | `sorted(list(s))` is strictly ascending, has the members of `s` and is as long as `s` has members |
| Sorting.SortedUnique | local-instances/add_mcp_frontmatter.py:114 | two strictly ascending listings with the same members are equal |
| Sorting.SmallestOfSpec | local-instances/add_mcp_frontmatter.py:114 | the first `n` of the sorted listing are ascending and number exactly `n`, or the whole set when it has at most `n` members; they are drawn from the set, include all of it when it is small enough, and are smaller than every element left out |
| Strings.Find | development/mcp-servers/project-management-mcp-server-project/04-product-under-development/staging/fix-test-errors.py:55 | the end of the lazy `.*?\}\)`: none exactly when there is no occurrence; otherwise an occurrence with none starting before it |
| Strings.Replace | development/mcp-servers/project-management-mcp-server-project/04-product-under-development/staging/fix-test-errors.py:69 | `replace` leaves a string without the pattern unchanged |
| Strings.ReplaceAtEnd | development/mcp-servers/project-management-mcp-server-project/04-product-under-development/staging/fix-test-errors.py:69 | when the only occurrence of the pattern ends the string, `replace` swaps exactly that suffix for the replacement |
| Strings.ReplacePresent | development/mcp-servers/project-management-mcp-server-project/04-product-under-development/staging/fix-test-errors.py:69 | `replace` changes a string that holds the pattern whenever the replacement starts with a different character |
| Strings.ReplaceKeepsCount | development/mcp-servers/project-management-mcp-server-project/04-product-under-development/staging/fix-test-errors.py:69 | `replace` keeps the count of every character that neither the pattern nor the replacement holds |
| Strings.SplitCount | development/mcp-servers/project-management-mcp-server-project/04-product-under-development/staging/fix-test-errors.py:79 | `split('\n')` gives one more piece than there are line breaks |
| Strings.SplitJoin | development/mcp-servers/project-management-mcp-server-project/04-product-under-development/staging/fix-test-errors.py:97 | splitting the `'\n'.join` of line-break-free pieces gives the pieces back |
| Strings.Split | development/mcp-servers/project-management-mcp-server-project/04-product-under-development/staging/fix-test-errors.py:79 | `split` gives at least one piece, and no piece holds the separator |
| Strings.Join | development/mcp-servers/project-management-mcp-server-project/04-product-under-development/staging/fix-test-errors.py:97 | a character that neither the separator nor any piece holds is not in the join |
| Strings.JoinContains | development/mcp-servers/project-management-mcp-server-project/04-product-under-development/staging/fix-test-errors.py:69 | every piece occurs in the join |
| FixTests.CallMatch | development/mcp-servers/project-management-mcp-server-project/04-product-under-development/staging/fix-test-errors.py:55 | a match starts with `name({`, ends with `})` and lies within the text |
| FixTests.CallMatchOf | development/mcp-servers/project-management-mcp-server-project/04-product-under-development/staging/fix-test-errors.py:55 | on `name({ projectPath:` followed by a body, the match ends right after the body's first `})` |
| FixTests.WholeCallStep | development/mcp-servers/project-management-mcp-server-project/04-product-under-development/staging/fix-test-errors.py:55-72 | when the pattern matches the whole content, the pass is `replacer` applied to it, and the call holds `})` only at its end |
| FixTests.SpaceRun | development/mcp-servers/project-management-mcp-server-project/04-product-under-development/staging/fix-test-errors.py:55 | the greedy `\s*`: every character in the run is whitespace and the one after it is not |
| FixTests.MatchClosesOnce | development/mcp-servers/project-management-mcp-server-project/04-product-under-development/staging/fix-test-errors.py:55 | for a function name without `}`, a matched call ends with `})` and holds it nowhere else, because the lazy `.*?` stops at the first one |
| FixTests.LookupIn | development/mcp-servers/project-management-mcp-server-project/04-product-under-development/staging/fix-test-errors.py:51-54 | the lookup fails exactly when no table entry has the name; otherwise it returns the defaults of an entry with that name |
| FixTests.Missing | development/mcp-servers/project-management-mcp-server-project/04-product-under-development/staging/fix-test-errors.py:60-63 | the missing list is empty exactly when every default name occurs in the call, and it is never longer than the defaults |
| FixTests.MissingMembers | development/mcp-servers/project-management-mcp-server-project/04-product-under-development/staging/fix-test-errors.py:60-63 | an entry is in the missing list exactly when it is the `name: value` entry of a default whose name does not occur in the call |
| FixTests.MissingConcat | development/mcp-servers/project-management-mcp-server-project/04-product-under-development/staging/fix-test-errors.py:60-63 | the missing entries of a concatenated table are those of the first part followed by those of the second, so the table's order is kept |
| FixTests.CallReplacement | development/mcp-servers/project-management-mcp-server-project/04-product-under-development/staging/fix-test-errors.py:57-70 | a call that has every default name, or that lacks `}})`, comes back unchanged; the call changes exactly when some default is missing and it contains `}})` |
| FixTests.SingleBraceCallUnchanged | development/mcp-servers/project-management-mcp-server-project/04-product-under-development/staging/fix-test-errors.py:69 | a call with at most one `}` (a flat object literal) is returned unchanged even when defaults are missing, because the search text `}})` holds two |
| FixTests.MatchedCallReplacement | development/mcp-servers/project-management-mcp-server-project/04-product-under-development/staging/fix-test-errors.py:65-70 | on a matched call: when some default is missing and the call ends with `}})`, the result is the call without that suffix followed by `, <missing entries joined by ", "> })`; in every other case it is the call itself |
| FixTests.NamesAfterInsertion | development/mcp-servers/project-management-mcp-server-project/04-product-under-development/staging/fix-test-errors.py:60-70 | keeping a call up to a tail of closing characters and appending the insertion leaves every default name in the text, when names hold no `}` or `)` |
| FixTests.InsertionBraces | development/mcp-servers/project-management-mcp-server-project/04-product-under-development/staging/fix-test-errors.py:69 | the insertion holds exactly one `}` when no default holds one |
| FixTests.CallReplacementCompletes | development/mcp-servers/project-management-mcp-server-project/04-product-under-development/staging/fix-test-errors.py:57-70 | when it fires on a matched call that ends with `}})`, `replacer` puts every default name in the call |
| FixTests.CallReplacementLosesBrace | development/mcp-servers/project-management-mcp-server-project/04-product-under-development/staging/fix-test-errors.py:69 | when it fires, the result holds one `}` fewer than the call, since ` })` replaces `}})` |
| FixTests.BraceLostExample | development/mcp-servers/project-management-mcp-server-project/04-product-under-development/staging/fix-test-errors.py:55-69 | the pattern matches all of `getConversationContext({ projectPath: {x}})`, and the pass turns it into `getConversationContext({ projectPath: {x, contextType: 'overview' })`, leaving the outer `{` unclosed |
| FixTests.FixedCallReplacement | development/mcp-servers/project-management-mcp-server-project/04-product-under-development/staging/fix-test-errors.py:69 | corrected `replacer`: a call that has every default name comes back unchanged |
| FixTests.FixedMatchedCall | development/mcp-servers/project-management-mcp-server-project/04-product-under-development/staging/fix-test-errors.py:69 | on a matched call the corrected replacement is the call without its final `})` followed by the insertion, whenever a default is missing |
| FixTests.FixedCallCompletes | development/mcp-servers/project-management-mcp-server-project/04-product-under-development/staging/fix-test-errors.py:57-70 | the corrected replacement puts every default name in every matched call, flat or nested |
| FixTests.FixedKeepsBraces | development/mcp-servers/project-management-mcp-server-project/04-product-under-development/staging/fix-test-errors.py:69 | the corrected replacement keeps the number of `}` in the call |
| FixTests.Replacer | development/mcp-servers/project-management-mcp-server-project/04-product-under-development/staging/fix-test-errors.py:57-70 | the loop that collects the missing entries yields the specified replacement |
| FixTests.SubstituteCalls | development/mcp-servers/project-management-mcp-server-project/04-product-under-development/staging/fix-test-errors.py:72 | the substitution leaves text without `}})` unchanged |
| FixTests.SubstituteKeepsLines | development/mcp-servers/project-management-mcp-server-project/04-product-under-development/staging/fix-test-errors.py:72 | when the defaults hold no line break, the substitution keeps the number of line breaks |
| FixTests.DefaultParamsNoNewline | development/mcp-servers/project-management-mcp-server-project/04-product-under-development/staging/fix-test-errors.py:11-47 | no name or value in the table holds a line break |
| FixTests.AddMissingParams | development/mcp-servers/project-management-mcp-server-project/04-product-under-development/staging/fix-test-errors.py:49-72 | content is unchanged for a name outside the table and for content without `}})`; the number of line breaks is always kept |
| FixTests.TableNamesPlain | development/mcp-servers/project-management-mcp-server-project/04-product-under-development/staging/fix-test-errors.py:11-47 | no function name in the table holds a `}` |
| FixTests.TableDefaultsPlain | development/mcp-servers/project-management-mcp-server-project/04-product-under-development/staging/fix-test-errors.py:11-47 | for every table entry, no name holds `}` or `)` and no value holds `}`; so `CallReplacementCompletes`, `CallReplacementLosesBrace`, `FixedCallCompletes` and `FixedKeepsBraces` apply to the real table |
| FixTests.AddMissingParamsStep | development/mcp-servers/project-management-mcp-server-project/04-product-under-development/staging/fix-test-errors.py:55-72 | for a table entry, each call the pattern matches holds `})` only at its end and is replaced by its `replacer` result, and the scan resumes after it; where no call matches, the first character is kept |
| FixTests.SingleBraceContentUnchanged | development/mcp-servers/project-management-mcp-server-project/04-product-under-development/staging/fix-test-errors.py:69-72 | content with at most one `}` is never changed |
| FixTests.FlatCallExample | development/mcp-servers/project-management-mcp-server-project/04-product-under-development/staging/fix-test-errors.py:55-72 | the pattern matches all of `suggestNextSteps({ projectPath: p })`, yet the pass leaves it unchanged although both of its defaults are missing |
| FixTests.FlatCallNoDoubleClose | development/mcp-servers/project-management-mcp-server-project/04-product-under-development/staging/fix-test-errors.py:69 | text without `}` followed by the closing `})` holds no `}})` |
| FixTests.ApplyDefaultsKeeps | development/mcp-servers/project-management-mcp-server-project/04-product-under-development/staging/fix-test-errors.py:105-106 | any sequence of parameter passes keeps the number of line breaks and leaves content without `}})` unchanged |
| FixTests.AddAllMissingParams | development/mcp-servers/project-management-mcp-server-project/04-product-under-development/staging/fix-test-errors.py:105-106 | the loop applies the parameter pass once per given name, in order; the file-level pass calls it with the table's names in the table's order |
| FixTests.WordRun | development/mcp-servers/project-management-mcp-server-project/04-product-under-development/staging/fix-test-errors.py:93 | the greedy `\w+`: every character in the run is a word character and the one after it is not |
| FixTests.BangMatch | development/mcp-servers/project-management-mcp-server-project/04-product-under-development/staging/fix-test-errors.py:93 | a match starts with `result.` and its group is non-empty and within the line |
| FixTests.BangMatchSpec | development/mcp-servers/project-management-mcp-server-project/04-product-under-development/staging/fix-test-errors.py:93 | the group is made of word characters and is not followed by `.` or `!`; it is the greedy run or one shorter; the greedy run is taken whenever the look-ahead allows; there is no match only when `result.` is absent, no word follows, or a one-character word is followed by `.` or `!` |
| FixTests.BacktrackExample | development/mcp-servers/project-management-mcp-server-project/04-product-under-development/staging/fix-test-errors.py:93 | `result.data.x` becomes `result.dat!a.x` |
| FixTests.InsertBangsOnlyInserts | development/mcp-servers/project-management-mcp-server-project/04-product-under-development/staging/fix-test-errors.py:93 | deleting every `!` from the substituted line gives the same text as deleting them from the input |
| FixTests.InsertBangsKeepsCount | development/mcp-servers/project-management-mcp-server-project/04-product-under-development/staging/fix-test-errors.py:93 | the substitution keeps the count of every character other than `!` |
| FixTests.UpdateFlag | development/mcp-servers/project-management-mcp-server-project/04-product-under-development/staging/fix-test-errors.py:85-88 | a success-check line always sets the flag; a lone `}` that is not a check always clears it; any other line keeps it |
| FixTests.InsertBangs | development/mcp-servers/project-management-mcp-server-project/04-product-under-development/staging/fix-test-errors.py:93 | a line without `result.` is left unchanged |
| FixTests.InsertBangsAfter | development/mcp-servers/project-management-mcp-server-project/04-product-under-development/staging/fix-test-errors.py:93 | the substitution copies the text before the first `result.` unchanged |
| FixTests.InsertBangsFirst | development/mcp-servers/project-management-mcp-server-project/04-product-under-development/staging/fix-test-errors.py:92-93 | at the first `result.` of a line, a word followed by neither `.` nor `!` gets a `!` right after it, and the substitution goes on with the rest of the line |
| FixTests.InsertBangsExample | development/mcp-servers/project-management-mcp-server-project/04-product-under-development/staging/fix-test-errors.py:76-93 | `expect(result.data).toBe(1)` becomes `expect(result.data!).toBe(1)` |
| FixTests.OpenCheckStep | development/mcp-servers/project-management-mcp-server-project/04-product-under-development/staging/fix-test-errors.py:85-88 | after one more line, an open success check exists exactly when that line is a check, or one was open and the line is not a lone `}` |
| FixTests.FlagAfterIff | development/mcp-servers/project-management-mcp-server-project/04-product-under-development/staging/fix-test-errors.py:81-88 | the flag is set exactly when some line so far is a success check and no later line is a lone `}` that is not itself a check |
| FixTests.RewriteLineOnlyInserts | development/mcp-servers/project-management-mcp-server-project/04-product-under-development/staging/fix-test-errors.py:91-93 | a line is kept verbatim unless the flag is set, it contains `expect(result.` and it holds no `!`; a rewritten line gives back the input once its `!` are deleted; no line break is introduced |
| FixTests.RewriteLine | development/mcp-servers/project-management-mcp-server-project/04-product-under-development/staging/fix-test-errors.py:90-93 | a line changes only when the flag is set, it contains `expect(result.` and it holds no `!` |
| FixTests.NullChecked | development/mcp-servers/project-management-mcp-server-project/04-product-under-development/staging/fix-test-errors.py:79-95 | the null-check pass gives as many output lines as there are input lines |
| FixTests.NullCheckedLines | development/mcp-servers/project-management-mcp-server-project/04-product-under-development/staging/fix-test-errors.py:83-95 | each output line is its input line, or the flag is set after reading that line, the line has `expect(result.` and no `!`, and deleting the output's `!` gives back the input line |
| FixTests.ClosingLineVerbatim | development/mcp-servers/project-management-mcp-server-project/04-product-under-development/staging/fix-test-errors.py:85-91 | a lone `}` that is not a success check is output verbatim, because the flag is updated before the line is considered |
| FixTests.NullCheckLines | development/mcp-servers/project-management-mcp-server-project/04-product-under-development/staging/fix-test-errors.py:80-95 | the loop with its `in_success_block` flag yields the specified output lines |
| FixTests.NullCheckStep | development/mcp-servers/project-management-mcp-server-project/04-product-under-development/staging/fix-test-errors.py:84-95 | one loop iteration: the flag is updated by the set/clear rules before the line is rewritten under the new flag |
| FixTests.NullCheckedJoin | development/mcp-servers/project-management-mcp-server-project/04-product-under-development/staging/fix-test-errors.py:79-97 | after joining, splitting the result gives back exactly the checked lines, so it has as many lines as the input; line `i` of the result gives back line `i` of the input once `!` is deleted; a line that already has a `!` is unchanged |
| FixTests.AddNullChecks | development/mcp-servers/project-management-mcp-server-project/04-product-under-development/staging/fix-test-errors.py:74-97 | the output lines are exactly the checked lines: line `i` is input line `i` rewritten under the flag after lines 0..i (with `AddNullChecksInsertsBang`, a qualifying `expect(result.<word>` line gains `!` after the word); the line count is kept; each line differs from its input only by inserted `!`; lines already holding `!` are untouched |
| FixTests.RewriteLineInsertsBang | development/mcp-servers/project-management-mcp-server-project/04-product-under-development/staging/fix-test-errors.py:91-93 | inside a block, a `!`-free line whose first `result.` follows `expect(` gets `!` after the word there, when the word is followed by neither `.` nor `!` |
| FixTests.NullCheckedInsertsBang | development/mcp-servers/project-management-mcp-server-project/04-product-under-development/staging/fix-test-errors.py:84-95 | while the success-check flag is set, such a line comes out of the pass with `!` right after the word |
| FixTests.AddNullChecksInsertsBang | development/mcp-servers/project-management-mcp-server-project/04-product-under-development/staging/fix-test-errors.py:74-97 | after splitting, checking and joining, output line `i` of such an input line holds `result.<word>!`, and the line count is kept |
| FixTests.FixTestFile | development/mcp-servers/project-management-mcp-server-project/04-product-under-development/staging/fix-test-errors.py:99-112 | the parameter pass for every table name, then the null-check pass, whose output lines are exactly the checked lines of the parameter pass's result; the line count is kept; for content without `}})` every line changes only by inserted `!` |

## Findings

The replacement in `replacer` searches for `'}})'`, a plain string with two closing braces. The replacement text is an f-string, where `}}` stands for a single `}`. The pattern's match always ends with the `})` of the call. So the search text is found only when the last argument object itself ends with `}`.

| source | as written | input that shows it | evidently intended | confidence | as-written member | corrected member |
|---|---|---|---|---|---|---|
| development/mcp-servers/project-management-mcp-server-project/04-product-under-development/staging/fix-test-errors.py:69 | a call whose argument object is flat holds no `}})`, so its missing defaults are never added | `suggestNextSteps({ projectPath: p })`, which the pattern matches whole, comes out unchanged, without `includeDetails` and `maxSuggestions` | the missing entries are spliced in before the final `})` of every matched call | not executed | FixTests.FlatCallExample | FixTests.FixedCallCompletes |
| development/mcp-servers/project-management-mcp-server-project/04-product-under-development/staging/fix-test-errors.py:69 | a call ending in `}})` has that suffix replaced by `, <entries> })`, which drops one of its two `}` | `getConversationContext({ projectPath: {x}})`, which the pattern matches whole, becomes `getConversationContext({ projectPath: {x, contextType: 'overview' })`; the outer object is never closed | the call keeps all its braces and gets the entries before its final `})` | not executed | FixTests.BraceLostExample | FixTests.FixedKeepsBraces |

`FixTests.FixedCallReplacement` searches for `})` instead. On a matched call, that text occurs only at the end, so the corrected replacement is the call without its final `})` followed by the insertion (`FixTests.FixedMatchedCall`). `FixTests.FixedCallCompletes` proves that every default name then occurs in the call. `FixTests.FixedKeepsBraces` proves that the number of `}` is kept. `FixTests.AddMissingParams`, `FixTests.ApplyDefaults` and `FixTests.FixTestFile` keep the replacement as written, because they model what the script does to a test file.

## Left out

- File-system work is not modelled: reading and writing files, `rglob`/`glob` discovery, `find_markdown_files` with its `node_modules` filter, the sorting of `Path` objects, and the `base_dir` field. `process_file` receives what the read returned. `fix_test_file` works on the content string.
- `run` and `main` are not modelled: the `--dry-run` argument, the skip of `conversation-flow-tools.test.ts`, and every `print`, including the summary counts and the final count message.
- Frontmatter.FrontmatterAdder.ProcessFile models only one exception: a failed read, which counts as an error. A failure while writing is not modelled. On success the written content is returned instead of being written.
- Frontmatter.FrontmatterAdder.ProcessFile does not model a failure of the success message. `processed` goes up before the message is printed, and `relative_to` raises for a file outside `base_dir`. The handler then also counts an error, so both `processed` and `errors` go up after the file was written. In the model a successful write raises `processed` only.
- `.lower()` is modelled on ASCII letters only. `.title()` is left out because the `.lower()` that follows it removes its effect on ASCII text.
- FixTests.WordRun treats `\w` as the ASCII class `[A-Za-z0-9_]`. For `str` patterns, Python's `\w` also matches non-ASCII letters and digits.
- Frontmatter.FileName returns the empty string for a path with no components. In the scripts a real path always has a last component.
- Strings.Replace requires a non-empty pattern. Both scripts only replace non-empty literals.
- Frontmatter.Tags, SortedOf and SmallestOf are ghost specifications. The compiled tag list is the one `ExtractTags` builds, and `ExtractTags` is proved equal to them.
- The rest of the repository, including the task-planning MCP servers whose tests `fix-test-errors.py` edits, is not part of this model.
