# fmpd: a Dafny model of the download naming core

fmpd (Facebook Massive Picture Downloader) reads a list of picture ids. For
each id it asks the service for the picture's address, downloads the picture
and saves it under a name computed from a template. This project models the
parts of fmpd that decide what is requested and where each picture is
written, and proves properties about them:

- `strings.dfy` (module `Strings`) holds the string primitives the programs
  rely on:
  - JavaScript `split` and `join`;
  - `padStart`;
  - decimal rendering of an index;
  - JavaScript `trim` and Python `rstrip`, each with its own whitespace set.
- `format_string.dfy` (`FormatString`) models `parseFormatString` (mod.ts).
  - The template is cut at `'`.
  - Parts at even positions, and always the last part, get three
    substitutions in this order:
    1. every `f` becomes the id;
    2. every maximal run of `i` becomes the index, zero-padded to the run's
       length, or nothing at index 1;
    3. every maximal run of `I` becomes the index, zero-padded.
  - The parts are glued back with `'`.
  - The host's date formatter is a parameter, `Renderer`.
- `collision.dfy` (`Collision`) models the loop in `download` (mod.ts) that
  picks a free name. It works against `storage`, the set of paths that
  exist.
- `fetch.ts` has three modelled parts, both in `fetch.dfy` (`Fetch`):
  - The extraction `(?<=url=).*?(?=")`, modelled by position. It comes in a
    JavaScript variant and a Python variant, because the two engines differ
    in which characters the `.` refuses.
  - The `&amp;` unescaping.
  - The home-page check that `fetchRedirect` performs.
- `cookies.dfy` (`Cookies`) models `readCookies` (mod.ts).
- `pipeline.dfy` (`Pipeline`) models the per-id loop of `download`:
  - skip blank and `#` lines;
  - resolve the address;
  - choose the date;
  - resolve the name;
  - create the parent directory and write the file.

  The network, the date parser and the clock are parameters, collected in
  `World`.
- `legacy.dfy` (`Legacy`) models `download.py`, the older script. It has a
  different collision rule: `stamp.jpg`, then `stamp 1.jpg`, `stamp 2.jpg`,
  and so on.

Where the code and its documentation disagree, the model follows the code:

- **The `i` run at the first repeat.** The documentation example at mod.ts:169
  shows the first repeat of `yyyyMMddiii.jpg` named `...001.jpg`, and the
  comment at mod.ts:134-137 describes the same thing. The code renders the
  index itself. The first repeat is index 2, so the name ends `002`
  (`FormatString.SinceRepeatAtSecond`).
- **When the clock date is used.** The clock gives the date only when the
  `last-modified` header is missing (mod.ts:125). A header that does not
  parse yields an invalid date, and that date is still handed to the
  formatter (`World.parseDate` may return `InvalidDate`).
- **A `$` in the id.** The id is inserted as a JavaScript replacement
  string, so `$$`, `$&`, `` $` `` and `$'` in an id are expanded
  (`FormatString.ExpandReplacement`). For an id without `$` the insertion is
  literal (`FormatString.ReplaceIdIsLiteral`).

## Model

| member | source | states |
|---|---|---|
| `Strings.Split` | mod.ts:176 | splitting on one character gives at least one part, and no part holds the separator |
| `Strings.JoinSplit` | mod.ts:176 | joining the parts of a split with the separator gives back the string |
| `Strings.SplitJoin` | mod.ts:208 | splitting the join of separator-free parts gives back the same parts |
| `Strings.JoinSnoc` | mod.ts:189 | a join grows by separator plus part, one part at a time |
| `Strings.JoinEmpty` | mod.ts:214 | with a non-empty separator, a join is empty exactly for no parts or one empty part |
| `Strings.SplitHasTwoParts` | mod.ts:148 | a string holding the separator splits into at least two parts |
| `Strings.PadStart` | mod.ts:185 | the result has length max(length, width), ends with the input, and is filled on the left with the pad; it never cuts |
| `Strings.Decimal` | mod.ts:185 | the index as decimal digits only, with no leading zero except for 0 |
| `Strings.DecimalRoundTrip` | mod.ts:185 | reading the decimal notation back gives the number |
| `Strings.DecimalInjective` | download.py:44 | different numbers have different decimal notations |
| `Strings.TrimStartSpec` | mod.ts:112 | `trimStart` drops exactly the leading JavaScript whitespace: what remains is a suffix of the input that is empty or starts with a non-space |
| `Strings.TrimEndSpec` | download.py:19 | `rstrip` (Python `isspace` set) or the end of `trim` (JavaScript set) drops exactly the trailing whitespace: what remains is a prefix of the input that is empty or ends with a non-space |
| `Strings.TrimNonSpace` | mod.ts:112-113 | a line holding a non-space character anywhere does not trim to the empty string |
| `FormatString.ReplaceIdIsLiteral` | mod.ts:183 | for an id without `$`, the `f` pass replaces every `f` by exactly the id |
| `FormatString.DollarIdIsNotLiteral` | mod.ts:183 | an id `$&` is expanded as a replacement pattern: template `f` stays `f` instead of becoming `$&` |
| `FormatString.ReplaceIdWithoutF` | mod.ts:183 | a part without `f` is unchanged by the `f` pass |
| `FormatString.ReplaceIdFresh` | mod.ts:183 | the `f` pass brings in only characters of the part and of the id |
| `FormatString.RunLength` | mod.ts:185 | the length of the maximal run of a character at the start |
| `FormatString.IndexText` | mod.ts:185-187 | what one run becomes consists of digits only |
| `FormatString.ReplaceRuns` | mod.ts:185-187 | after a run pass no run character (a non-digit) is left |
| `FormatString.ReplaceRunsFresh` | mod.ts:185-187 | a run pass brings in digits only |
| `FormatString.ReplaceRunsWithout` | mod.ts:185-187 | a string without the run character is unchanged |
| `FormatString.ReplaceRunsOfRun` | mod.ts:185 | a maximal run of n characters becomes a single index text of width n |
| `FormatString.ReplaceRunsAppend` | mod.ts:185-187 | a run pass distributes over a concatenation that does not glue two runs together |
| `FormatString.RunLengthAppend` | mod.ts:185-187 | appending text does not change the leading run unless it continues a string that is all run |
| `FormatString.SinceRepeatAtFirstIndex` | mod.ts:185 | at index 1 the `i` pass deletes every `i` and keeps everything else |
| `FormatString.IndexPasses` | mod.ts:185-187 | after the `i` pass and then the `I` pass no `i` or `I` is left |
| `FormatString.IndexPassesOfRun` | mod.ts:185-187 | a part that is one run of n `i` (or `I`) becomes the index text of width n: nothing at index 1 for `i`, else the index padded to n digits |
| `FormatString.Substitute` | mod.ts:182-187 | after the three passes no `i` or `I` is left in a substituted part |
| `FormatString.SubstituteFresh` | mod.ts:182-187 | the passes bring in only the id's characters and digits |
| `FormatString.SubstituteWithoutF` | mod.ts:183-187 | in a part without `f` the id pass does nothing: the result is that of the two index passes |
| `FormatString.SubstituteIdOnly` | mod.ts:182-187 | for an id without `$`, `i` or `I`, a part `f` becomes exactly the id |
| `FormatString.ParsedParts` | mod.ts:181 | part k is substituted when k is even or k is the last part, and left verbatim otherwise |
| `FormatString.Reduce` | mod.ts:177-189 | after at least one part, the accumulator starts with the quote that `slice(1)` removes |
| `FormatString.ReduceIsJoin` | mod.ts:177-190 | the reduction is a quote followed by the parsed parts joined with quotes |
| `FormatString.PatternIsJoin` | mod.ts:176-190 | the pattern handed to the date formatter is the parsed parts joined with `'` |
| `FormatString.PlainTemplateUnchanged` | mod.ts:176-190 | a template without `f`, `i` or `I` reaches the date formatter unchanged |
| `FormatString.PatternParts` | mod.ts:181 | for an id without `'`, the pattern has the template's parts: odd non-last parts verbatim, the others (the last always) substituted |
| `FormatString.StaticTemplate` | mod.ts:175-191 | a template without `i`/`I`, filled with an id without them, names a picture the same at every index |
| `FormatString.PaddedRun` | mod.ts:187 | `III` at index 7 becomes `007` |
| `FormatString.SinceFirstAtFirstIndex` | mod.ts:187 | `I` at index 1 becomes `1` |
| `FormatString.SinceRepeatAtFirst` | mod.ts:185 | a run of `i` of any length at index 1 becomes nothing |
| `FormatString.SinceRepeatAtSecond` | mod.ts:185 | `ii` at index 2, the first repeat, becomes `02` |
| `FormatString.LongIndexNotCut` | mod.ts:185 | `i` at index 12 becomes `12`: no truncation |
| `FormatString.IdBeforeIndex` | mod.ts:183-185 | the id goes in before the index passes, so part `f` with id `i` at index 3 becomes `3` |
| `FormatString.RunsMergeAtFirst` | mod.ts:185-187 | `IiI` at index 1 becomes `01`: the vanished `i` run merges the two `I` runs |
| `FormatString.ThreeParts` | mod.ts:176-190 | a template of three quote-free parts keeps its middle, quoted part verbatim and substitutes the outer two |
| `FormatString.TwoParts` | mod.ts:176-190 | a template of two quote-free parts substitutes both: the second, at an odd position, is the last |
| `FormatString.QuotedParts` | mod.ts:181 | `f'f'f` with an id X (no `$`, `i`, `I`) gives `X'f'X` |
| `FormatString.LastPartSubstituted` | mod.ts:181 | `'f` with an id X (no `$`, `i`, `I`) gives `'X`: the last part is substituted even at an odd position |
| `Collision.ResolveName` | mod.ts:138-146 | the loop stops at the first index whose name is free or repeats the index-1 name; the name it returns is that index's candidate; the number of existence checks is the index, minus one on the static escape |
| `Collision.NewCandidate` | mod.ts:141-145 | under the separation assumption, a candidate other than the index-1 name has not been tried before |
| `Collision.StopsAtUnique` | mod.ts:138-146 | the stopping index is determined by namer, id, date and storage |
| `Collision.StopsOnFreeOrStatic` | mod.ts:141-145 | the chosen name is absent from storage, or it is the index-1 name, which was found taken |
| `Collision.StaticNamerStopsEarly` | mod.ts:144-145 | a namer whose index-2 name equals its index-1 name stops by index 2 |
| `Collision.StaticTemplateStopsEarly` | mod.ts:138-146 | a compiled template without index placeholders (id without `i`/`I`) stops by index 2 |
| `Collision.SecondTakesIndexTwo` | mod.ts:138-146 | with two ids sharing an index-1 name, the first takes index 1 on empty storage and the second then moves to index 2 |
| `Fetch.QuoteAfterSpec` | fetch.ts:11 | the first `"` reachable without a line break, or none when a line break or the end comes first |
| `Fetch.FirstMatchSpec` | fetch.ts:11 | the leftmost position after a `url=` from which a `"` is reachable on the same line, ending at the first such `"`; no earlier position qualifies; none at all when nothing qualifies |
| `Fetch.ExtractSpec` | fetch.ts:11 | the match holds no `"` and no line break; there is none exactly when no `url=` is followed by a `"` on its line |
| `Fetch.RedirectTarget` | fetch.ts:11-17 | no result exactly when the match is missing or is the home-page address (compared before unescaping); otherwise the match unescaped, which is never the home page |
| `Fetch.LegacyRedirectTarget` | download.py:24 | the Python match unescaped, with no home-page check; no result only when the pattern does not match |
| `Fetch.Unescape` | fetch.ts:17 | unescaping never lengthens the text |
| `Fetch.UnescapeWithoutAmp` | fetch.ts:17 | a text without `&` is unchanged |
| `Fetch.UnescapeKeepsAmp` | fetch.ts:17 | the result holds an `&` exactly when the input does |
| `Fetch.UnescapeIsHome` | fetch.ts:13-17 | comparing with the home-page address before or after unescaping gives the same answer |
| `Fetch.UnescapeEscape` | fetch.ts:17 | unescaping undoes escaping every `&` as `&amp;` |
| `Fetch.UnescapeOnce` | fetch.ts:17 | a single pass: `&amp;amp;` becomes `&amp;` |
| `Fetch.HomeIsRejected` | fetch.ts:13-15 | a page whose match is the home-page address gives no address |
| `Fetch.QuoteAfterAgrees` | download.py:24 | where both engines see the same line breaks, they find the same closing quote |
| `Fetch.FirstMatchAgrees` | download.py:24 | where both engines see the same line breaks, they find the same match |
| `Fetch.DialectsAgree` | download.py:24 | on a body without `\r`, U+2028 or U+2029 both scripts extract the same text, and they differ only on the home page |
| `Fetch.CarriageReturnDiffers` | download.py:24 | on `url=a\r"` JavaScript finds no match while Python extracts `a\r` |
| `Cookies.CookieOf` | mod.ts:208-212 | every cookie line yields a pair holding `=` |
| `Cookies.CookiePairs` | mod.ts:202-213 | at most one pair per line, each holding `=` |
| `Cookies.ReadCookies` | mod.ts:199-215 | the header is the pairs of the kept lines, in order, joined with `; ` |
| `Cookies.CookieOfFields` | mod.ts:208-212 | a line of at least two tab-free fields gives its second-to-last field, `=`, and its last field |
| `Cookies.CookieOfNoTab` | mod.ts:212 | a line without a tab gives `undefined=` followed by the line |
| `Cookies.CookiePairsAppend` | mod.ts:202-213 | the pairs of two runs of lines are the pairs of the first run followed by those of the second |
| `Cookies.CookiePairsOfCookieLines` | mod.ts:212 | with no line skipped, pair k is line k's pair: order and duplicate names are kept |
| `Cookies.CookiePairsOfCommentLines` | mod.ts:205-207 | blank and `# ` lines contribute no pair |
| `Cookies.CookiePairsOfCookieLine` | mod.ts:205-212 | a single kept line anywhere makes the list of pairs non-empty |
| `Cookies.HeaderEmpty` | mod.ts:214 | the header is empty exactly when every line is skipped |
| `Cookies.CommentLineSkipped` | mod.ts:205 | a `# ` line gives nothing |
| `Cookies.HashLineKept` | mod.ts:204-205 | a line starting with `#` and then a non-space is not skipped |
| `Cookies.HashCookieKept` | mod.ts:204-212 | a `#HttpOnly_` line is a cookie: `#HttpOnly_` domain, TAB, name, TAB, value (tab-free) gives `name=value` |
| `Pipeline.DirChain` | mod.ts:149 | `ensureDir` makes the directory and every ancestor ending at a `/` exist, and nothing but non-empty prefixes of it |
| `Pipeline.Effect` | mod.ts:149-150 | a write adds its file and directories and removes nothing; skipped and unresolved lines change nothing |
| `Pipeline.Download` | mod.ts:97-157 | one outcome per line, each the one `StepOk` prescribes for the storage the earlier lines left; the final storage is the one they all leave |
| `Pipeline.HistorySteps` | mod.ts:110-155 | the recursive loop invariant gives every line's step |
| `Pipeline.Step` | mod.ts:110-155 | one line: a trimmed blank or `#` line is skipped; an unresolved id is skipped; otherwise the header date (or the clock date, with a warning unless quiet) and the collision loop's name for the untrimmed line, written under its parent directory |
| `Pipeline.StepOkUnique` | mod.ts:110-155 | the outcome of a line is determined by the world, the namer, the flag, the storage and the line |
| `Pipeline.StepEffect` | mod.ts:112-120 | skipped and unresolved lines leave storage unchanged; a write adds exactly its path and the directories of its parent |
| `Pipeline.NoOverwrite` | mod.ts:138-150 | an existing path is written again only through the static-name escape, at index 2 or later |
| `Pipeline.ApplyFootprint` | mod.ts:149-150 | the storage after a run of lines is the storage before plus everything the run wrote |
| `Pipeline.FootprintSnoc` | mod.ts:149-150 | what a run writes grows by what its last line writes |
| `Pipeline.ApplyGrows` | mod.ts:110-155 | storage only grows from line to line |
| `Pipeline.WritesAreDistinct` | mod.ts:138-150 | a path written by one line is not written by a later line unless that later line takes the static-name escape |
| `Pipeline.ParentDirFlat` | mod.ts:148-149 | a name without `/` has the empty parent directory |
| `Pipeline.ParentDirSplit` | mod.ts:148-149 | a name with `/` is its parent directory, a `/`, and a last part without `/` |
| `Legacy.Candidate` | download.py:40-44 | the length of the name tried after a given number of taken names |
| `Legacy.CandidateShape` | download.py:40-44 | the first name is the stamp followed by `.jpg`; the k-th retry is the stamp, a space, k in decimal, `.jpg` |
| `Legacy.FreeName` | download.py:40-46 | the name returned is the first candidate not in the folder, and every earlier candidate is in the folder |
| `Legacy.CandidatesDistinct` | download.py:40-45 | no two attempts try the same name |
| `Legacy.NewCandidate` | download.py:40-45 | the next candidate is not among the earlier ones, which number exactly the count tried |
| `Legacy.NotEarlier` | download.py:40-45 | a candidate never occurs among those before its own number |
| `Legacy.FirstFreeUnique` | download.py:42 | the number of taken names before the free one is determined by the folder |
| `Legacy.LogSnoc` | download.py:17-46 | the log grows by the next line's entry, and the folder by that entry's saved name |
| `Legacy.Run` | download.py:17-46 | one entry per line up to and including the first line whose page has no address; each entry is its line's, given the names the earlier entries saved; the folder is the saved names |
| `Legacy.HandleLine` | download.py:18-46 | the request is the prefix followed by the line without trailing whitespace; no address ends the script; otherwise the picture is saved under the first free candidate |
| `Legacy.LogEntry` | download.py:17-46 | every entry is its line's, and every entry except the last is a save |
| `Legacy.FolderKeeps` | download.py:46 | a name saved earlier is in the folder at every later line |
| `Legacy.SavedNamesDistinct` | download.py:40-46 | the script never overwrites: saved names are pairwise different |
| `Legacy.FolderIsSaved` | download.py:46 | a name is in the folder exactly when some entry saved it |
| `Legacy.HomeIsNotRejected` | download.py:24 | the home-page address is accepted and downloaded |
| `Legacy.FirstCandidates` | download.py:40-44 | for stamp `20160519` the names tried are `20160519.jpg`, `20160519 1.jpg`, ..., `20160519 12.jpg` |

## Left out

- Network access (`fetch`, `fetchFacebook`, curl) is not modelled as I/O.
  - The body a request address serves is `World.page`.
  - A picture's `last-modified` header is `World.lastModified`.
  - A failed request, fatal in both programs, is not modelled.
  - The page and the header are functions of the request address, so two
    lines asking for the same address get the same body and header; a real
    server may answer differently each time.
- The date library is not modelled.
  - `format` is the `Renderer` parameter, including how it treats the quotes
    put back into the pattern.
  - `new Date(header)` is `World.parseDate`.
  - The clock is `World.now`.
  - download.py's `getmtime` and `strftime` are the `stamp` parameter of
    `Legacy.Run`.
- The filesystem is the set of existing path strings.
  - Path normalisation (`.`, `..`, repeated `/`) is not modelled.
  - File contents and the temporary `temp.jpg` are not modelled.
  - `Deno.writeFile` or `ensureDir` failing on an existing path of the wrong
    kind is not modelled.
  - A failing `os.rename` is not modelled.
  - `os.mkdir` failing on an existing folder is not modelled; the folder
    starts empty.
- Reading the id and cookie files and stdin is not modelled: the lines are
  given as a sequence, and `readLines` line splitting is not modelled.
- Command-line parsing, the help text, `Deno.exit`, `asyncIter` and `chain`
  are flag and stream plumbing.
- Console output is not modelled. Only the date-fallback warning is recorded
  (`Outcome.dateWarned`). The always-printed warning for an unresolved id,
  the printed names and download.py's `print` of the request address are
  not.
- JavaScript strings are UTF-16 code units. The model works on Unicode
  characters, so surrogate pairs are not modelled.
- Collision.ResolveName: requires that the candidates from index 2 on never
  repeat one another except by returning to the index-1 name (`Separating`).
  Without this the source loop can run forever, for example when two existing
  names take turns. The model proves termination only under this assumption.
  The assumption also excludes some namers on which the source does stop: if
  the index-2 and index-3 names are equal, differ from the index-1 name and
  are taken, while the index-4 name is free, the source returns the index-4
  name, but such a namer is outside the model.
- Pipeline.Download: requires `Separating` for the compiled template, for
  every id and date, for the same reason.
- Pipeline.Step: requires `Separating` for the namer and the line's id at the
  date the line uses, when the line is neither skipped nor unresolved, for
  the same reason as Collision.ResolveName.
- Legacy.Run: stops at the first line whose page has no address. The script
  raises an error there, and the remaining lines are not read.
- Legacy.Candidate: its own contract states only the length; the shape of
  the name is stated by `Legacy.CandidateShape`.
- Fetch.Unescape: its own contract states only that the text never grows;
  its meaning is stated by the `Unescape*` lemmas beside it.
