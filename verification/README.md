# insight_radar in Dafny

A model of the three pieces of logic inside the insight_radar news-verification app.

- **The reply parser** in `services/geminiService.ts`.
  - `verifySignal` turns the generative model's free-text reply into a `VerificationResult`:
    - the verdict keyword comes from `/VERDICT:\s*(True|…|Developing)/i`;
    - the confidence comes from `/CONFIDENCE:\s*(\d+)/i`;
    - the defaults are `Unconfirmed` and 50;
    - the analysis text is the reply itself;
    - the grounding chunks become `{uri, title}` sources.
  - `getTrendingSignals` cuts a bulleted reply into at most five topic lines. It falls back to a fixed list when the request fails.
- **The state transitions of `App.tsx`**:
  - the verify guard and its success and failure updates;
  - adding and removing watchlist topics;
  - Clear Logs;
  - the three-item dashboard feed;
  - picking a trend;
  - loading the trends.
- **The two pure helpers of `components/SignalCard.tsx`**:
  - the case-insensitive verdict-to-badge table;
  - the display copy of the analysis with `VERDICT:…\n` and `CONFIDENCE:…\n` removed.

The records and enumerations of `types.ts` are datatypes.

## How the model is built

Modules, in dependency order:

- `Wrappers`: `Option` and `Result`.
- `Seqs`: filter, map, take and subsequence.
- `Text`: the JavaScript string built-ins the code relies on.
- `Types`: the records and enumerations of `types.ts`.
- `GeminiService`: the reply parser.
- `App`: the state transitions.
- `SignalCard`: the two card helpers.

Strings are sequences of Dafny characters, which are Unicode scalar values. For the Basic Multilingual Plane that is one character per UTF-16 code unit, the way JavaScript indexes strings. The JavaScript built-ins are modelled as follows:

- `\s` and `trim()` use the ECMAScript WhiteSpace and LineTerminator set.
- `.` excludes the four line terminators.
- The `i` flag folds ASCII letters only. That is exact for these all-ASCII patterns.
- A non-global `match` reports the leftmost position where the pattern matches (`Leftmost`).
- The global `replace` scans from left to right. At each position it deletes a match if one starts there, and otherwise keeps the character (`CleanFrom`).

Some things the program gets from outside are parameters of the model:

- the network exchange: a `Response` with optional text and optional grounding chunks, or a transport failure;
- the random identifiers;
- the timestamps.

An `App.Event` is one settled user action, and `App.Run` replays a sequence of them. `App.Settled` is the invariant between actions:

- nothing is loading;
- every filed result is a well-formed parse;
- no watched topic is blank;
- the trend list has at most five clean phrases.

## Model

| member | source | states |
|---|---|---|
| Types.VerdictsAreFive | types.ts:10 | the verdict type has exactly the five values True, Misleading, False, Unconfirmed and Developing, and they are pairwise distinct |
| Types.EnumerationsAreComplete | types.ts:22-30 | a watch status is monitoring or idle, and a view is one of the four views |
| Text.Or | App.tsx:37 | `a \|\| b` on an optional string: a present, non-empty `a` is the result, and otherwise `b` is |
| Text.Trim | App.tsx:38 | `trim()` is the one slice bordered only by whitespace; it is empty exactly when the string is all whitespace, and otherwise starts and ends with non-whitespace |
| Text.ToLower | components/SignalCard.tsx:12 | lower-casing keeps the length, leaves no upper-case ASCII letter, and changes a character only by moving an upper-case letter to its lower-case partner |
| Text.ToLowerIdempotent | components/SignalCard.tsx:12 | lower-casing twice is lower-casing once |
| Text.Split | services/geminiService.ts:77 | `split('\n')` gives at least one piece, no piece holds the separator, and joining the pieces gives the text back |
| Text.SplitJoin | services/geminiService.ts:77 | splitting the join of separator-free pieces gives the pieces back |
| Text.DecimalRoundTrip | services/geminiService.ts:54 | `parseInt` of the decimal rendering of `n` is `n` |
| GeminiService.Leftmost | services/geminiService.ts:47-48 | the reported position matches, and no earlier position does; when there is none, no position matches |
| GeminiService.KeywordAt | services/geminiService.ts:47 | the verdict group captures text that spells one of the alternatives up to case, taken verbatim from the reply; when it captures nothing, no alternative matches there |
| GeminiService.ParseVerdict | services/geminiService.ts:47-53 | the verdict is the capture at the leftmost match; it is `Unconfirmed` when nothing matches, and always spells a verdict up to case |
| GeminiService.VerdictCaptureAt | services/geminiService.ts:47 | a verdict capture at a position needs the marker there, up to case; it is a verdict spelling that follows the marker after whitespace only |
| GeminiService.ConfidenceDigitsAt | services/geminiService.ts:48 | the confidence capture needs the marker, up to case; it is a non-empty run of ASCII digits after whitespace only, and no digit follows it |
| GeminiService.ConfidenceCaptureAt | services/geminiService.ts:48-54 | a confidence number exists exactly where the digit capture does, and is the `parseInt` value of those digits |
| GeminiService.ParseConfidence | services/geminiService.ts:48-54 | the confidence is the value of the digits at the leftmost match, or 50 when nothing matches |
| GeminiService.ChunksOf | services/geminiService.ts:38 | the chunks are those of the first candidate's grounding metadata when every link of the chain is present, and empty otherwise |
| GeminiService.ToSource | services/geminiService.ts:40-43 | a chunk's source has its uri, or `''` when the uri is missing; its title, or `Source` when the title is missing or empty; the title is never empty |
| GeminiService.ExtractSources | services/geminiService.ts:38-44 | there are no more sources than chunks; each source has a non-empty uri and title and comes from some chunk; every chunk with a uri yields its source |
| GeminiService.AnalysisText | services/geminiService.ts:35 | the analysis is the reply's text when present and non-empty, otherwise the placeholder; it is never empty |
| GeminiService.VerifySignal | services/geminiService.ts:35-58 | a failed exchange is rethrown and nothing else fails; a reply yields the parsed verdict and confidence, the text (or its placeholder) as analysis, the query, category, id and timestamp copied, and well-formed sources |
| GeminiService.MissingTextDefaults | services/geminiService.ts:35-54 | with missing or empty text the analysis is `Unable to generate analysis.`, the verdict `Unconfirmed` and the confidence 50 |
| GeminiService.NoColonDefaults | services/geminiService.ts:47-54 | a reply without a colon holds neither marker, so it gets both defaults |
| GeminiService.KeywordAtFinds | services/geminiService.ts:47 | when only one alternative matches, the group captures that spelling, wherever it sits among the alternatives |
| GeminiService.KeywordAtSpelling | services/geminiService.ts:47 | any case-variant spelling of a verdict is captured exactly as written |
| GeminiService.VerdictCaptureOfLine | services/geminiService.ts:47 | marker, whitespace and a verdict spelling at `p` give that spelling as the capture at `p` |
| GeminiService.VerdictOfFirstMarkerLine | services/geminiService.ts:47-53 | after lines that never mention the marker, a marker line fixes the verdict to its spelling, whatever follows |
| GeminiService.ConfidenceDigitsOfLine | services/geminiService.ts:48 | the capture is the whole digit run that follows the marker and its whitespace |
| GeminiService.ConfidenceOfFirstMarkerLine | services/geminiService.ts:48-54 | after lines without the marker, `CONFIDENCE:` plus whitespace plus the decimal form of `n` gives `n` |
| GeminiService.FalseWithSeventyThree | services/geminiService.ts:47-54 | a reply opening with `VERDICT: False` and `CONFIDENCE: 73` is read as False with confidence 73, whatever follows |
| GeminiService.NoWordBoundary | services/geminiService.ts:47 | `VERDICT: Falsehood` reads as `False` |
| GeminiService.VerdictCaseKept | services/geminiService.ts:53 | `verdict: false` gives `false`, which is not the name of any verdict |
| GeminiService.ConfidenceNotClamped | services/geminiService.ts:54 | `CONFIDENCE: 250` gives 250 |
| GeminiService.ConfidenceWithinPercent | types.ts:11 | the documented range below 100 holds when the leftmost capture has at most two digits |
| GeminiService.NoMetadataNoSources | services/geminiService.ts:38 | missing candidates, metadata or chunks give no sources |
| GeminiService.SourcesInCitationOrder | services/geminiService.ts:38-44 | the sources are a subsequence of the mapped chunks |
| GeminiService.UnusableChunkDropped | services/geminiService.ts:44 | a chunk without a uri is dropped, and the sources on either side of it keep their order |
| GeminiService.EveryCitedChunkKept | services/geminiService.ts:39-44 | when every chunk has a uri, each gives its own source, duplicates included |
| GeminiService.StripMarker | services/geminiService.ts:78 | the result is a suffix of the line; a line without a leading marker is unchanged; otherwise exactly the marker and the whitespace after it go |
| GeminiService.CleanedLinesAreLines | services/geminiService.ts:77-78 | every cleaned line is trimmed and holds no line feed |
| GeminiService.TrendsFromText | services/geminiService.ts:76-80 | the topics are the cleaned lines that pass the length filter, in order, up to five of them: a prefix of the survivors of length min(5, survivors); each is a trimmed single line strictly between 5 and 100 long |
| GeminiService.RejectedLineDropped | services/geminiService.ts:77-80 | a line the length filter rejects between two bulleted lists is dropped, and the topics on either side come back in order, the first five |
| GeminiService.FallbackIsWellFormed | services/geminiService.ts:82 | the fallback is five well-formed trend phrases |
| GeminiService.GetTrendingSignals | services/geminiService.ts:66-84 | a failure or missing text gives exactly the fallback; any text gives its parsed topics; the result is always at most five phrases |
| GeminiService.EmptyTextNoTrends | services/geminiService.ts:76-80 | empty text gives an empty list, not the fallback |
| GeminiService.BulletLineCleans | services/geminiService.ts:78 | a phrase behind a marker of the class and a space cleans back to the phrase |
| GeminiService.CleanedBulletList | services/geminiService.ts:77-78 | each line of a bulleted list cleans back to its topic |
| GeminiService.TrendsOfBulletList | services/geminiService.ts:76-80 | round trip: a bulleted list of well-formed topics, with a bullet the class holds, reads back as its first five topics in order |
| GeminiService.WrittenMarkersKeepBullet | services/geminiService.ts:78 | with the class as written, a line bulleted with U+2022 keeps its bullet |
| GeminiService.ClassesAgreeWithoutOddBullets | services/geminiService.ts:78 | the written and the corrected class give the same topics for any reply none of whose lines starts with `•`, `â`, `€` or `¢` |
| GeminiService.BulletListAsWritten | services/geminiService.ts:76-80 | as written, a U+2022-bulleted list comes back with every bullet in place |
| GeminiService.IntendedMarkersStripBullet | services/geminiService.ts:78 | with the intended class, a U+2022 bullet is stripped |
| GeminiService.IntendedTrendingSignals | services/geminiService.ts:76-82 | the trending call with the intended class: same fallback and bounds, topics parsed with the intended class |
| GeminiService.BulletedTopicC | services/geminiService.ts:76-80 | `• Topic C` reads back as `• Topic C` as written, and as `Topic C` with the intended class |
| App.Initial | App.tsx:12-20 | the app opens on the dashboard with nothing typed, loaded or filed, and with the two seeded topics `1` (monitoring) and `2` (idle) stamped now |
| App.EffectiveQuery | App.tsx:37 | the custom query when it is non-empty, otherwise the typed query |
| App.Verification | App.tsx:42 | the request fails exactly when the exchange does; its result is filed under the effective query and the default category, with the generated id and time, the reply's analysis text, and is well-formed |
| App.HandleVerify | App.tsx:35-51 | a blank effective query changes nothing; a success files the result first, clears the input and opens the verify view, leaving the trends and watchlist alone; a failure only turns loading off; loading is off after either outcome |
| App.VerifiedQueryFiled | App.tsx:37-43 | a delivered reply files one result for the effective query under `General`, with the given id and time, older results unchanged, and the result well-formed |
| App.AddToWatchlist | App.tsx:53-62 | a blank topic changes nothing; any other is prepended once, untrimmed and monitoring, with the old list behind it and nothing else changed |
| App.WithoutId | App.tsx:65 | no kept entry has the id, and every kept entry was in the list |
| App.RemoveFromWatchlist | App.tsx:64-66 | no entry with the id is left; every other entry keeps its multiplicity and relative order; nothing else changes |
| App.RemoveAbsentIsNoop | App.tsx:65 | removing an absent id changes nothing |
| App.RemoveIdempotent | App.tsx:65 | removing twice is removing once |
| App.RemoveUndoesAdd | App.tsx:53-66 | removing a freshly added id undoes the addition when the id was new |
| App.RemovalsCommute | App.tsx:65 | two removals give the same watchlist in either order |
| App.RemovalsCommuteOn | App.tsx:65 | the same, for any list of topics |
| App.ClearLogs | App.tsx:306 | Clear Logs empties the results and changes nothing else |
| App.VerifyAfterClear | App.tsx:306 | after Clear Logs the next verification (App.tsx:43) is the whole history and the whole feed (App.tsx:137) |
| App.Feed | App.tsx:137 | the feed is the first three results, or all of them when there are fewer |
| App.FeedAfterVerify | App.tsx:137 | after a successful verification the feed shows the new result first, then the two newest older ones |
| App.FeedEmptyAfterClear | App.tsx:306 | after Clear Logs the feed is empty |
| App.LoadTrends | App.tsx:23-33 | the trends become the fallback after a failure or missing text, and otherwise the topics of the reply read with the corrected bullet class (see Findings): at most five phrases, and nothing else changes |
| App.SelectTrend | App.tsx:106 | picking a trend puts it in the input and opens the verify view; results, watchlist, trends and loading stay |
| App.InitialIsSettled | App.tsx:12-20 | the opening state satisfies the invariant |
| App.SeedTopicsNonBlank | App.tsx:18-19 | neither seeded topic is blank |
| App.StepKeepsSettled | App.tsx:35-66 | every action keeps the invariant |
| App.SubmitKeepsSettled | App.tsx:35-51 | a verification keeps the invariant whatever the exchange |
| App.FiledResultKeepsSettled | App.tsx:43 | filing a well-formed result keeps the invariant |
| App.Step | App.tsx:12-13 | only a verification and Clear Logs change the results, only the watchlist handlers the watchlist, only the mount effect the trends; navigating (App.tsx:127, 293) sets only the view and typing (App.tsx:167) only the query |
| App.RunKeepsSettled | App.tsx:12-66 | any sequence of actions keeps the invariant |
| App.StepHistory | App.tsx:43 | an action other than Clear Logs keeps the old results as the tail and adds at most one |
| App.HistoryOnlyGrows | App.tsx:43 | without Clear Logs the history only grows at the front, by at most one result per action |
| SignalCard.GetVerdictStyles | components/SignalCard.tsx:11-19 | the neutral badge is given exactly to strings whose lower case is none of the four names; the alert shield exactly to false and misleading |
| SignalCard.StylesIgnoreCase | components/SignalCard.tsx:12 | strings equal up to case get the same badge |
| SignalCard.VerdictStyleAgrees | components/SignalCard.tsx:11-18 | any case-variant of a verdict name gets that verdict's badge from the per-verdict table, Unconfirmed the neutral one |
| SignalCard.ParsedVerdictStyle | components/SignalCard.tsx:21 | every parsed verdict is styled by the verdict it spells |
| SignalCard.UnknownVerdictIsNeutral | components/SignalCard.tsx:17 | a string that spells no verdict gets the neutral badge |
| SignalCard.LineEndSpec | components/SignalCard.tsx:60 | `LineEnd` finds the one `.*\n` starting at a position, if there is one |
| SignalCard.MarkerLineEndSpec | components/SignalCard.tsx:60 | `MarkerLineEnd` finds exactly the matches of the pattern at a position, and the match there is unique |
| SignalCard.CleanFrom | components/SignalCard.tsx:60 | the global replacement from a position on never yields more than the rest of the text |
| SignalCard.CleanAnalysis | components/SignalCard.tsx:60 | the cleaned analysis is never longer than the analysis |
| SignalCard.CleanIsSubsequence | components/SignalCard.tsx:60 | the cleaned text is a subsequence of the text |
| SignalCard.CleanWithoutMatch | components/SignalCard.tsx:60 | with no match from a position on, the rest is kept unchanged |
| SignalCard.CleanWithMatch | components/SignalCard.tsx:60 | a match from a position on makes the rest strictly shorter |
| SignalCard.CleanUnchangedIff | components/SignalCard.tsx:60 | the cleanup leaves the text unchanged exactly when no match exists |
| SignalCard.NoLineFeedUnchanged | components/SignalCard.tsx:60 | text without a line feed, including a marker line at the end of the text, is unchanged |
| SignalCard.CrlfTextUnchanged | components/SignalCard.tsx:60 | text whose every line feed follows a carriage return is unchanged, because `.` stops at the `\r` |
| SignalCard.CleanSplitsAfterLineFeed | components/SignalCard.tsx:60 | the cleanup works line by line: it splits after any line feed |
| SignalCard.CleanSuffix | components/SignalCard.tsx:60 | cleaning a suffix from position `j` is cleaning the whole text from the same character |
| SignalCard.MarkerLineCut | components/SignalCard.tsx:60 | a marker line after a complete line is removed whole, and what is around it is cleaned on its own |
| SignalCard.LeadingMarkerLineCut | components/SignalCard.tsx:60 | a leading marker line is removed whole |
| SignalCard.CleanKeepsUpToMatch | components/SignalCard.tsx:60 | every character before the first position a match starts at is kept |
| SignalCard.CleanCutsFirstMatch | components/SignalCard.tsx:60 | the first match from a position on is cut out through its line feed, and what precedes it is kept |
| SignalCard.LeftmostMatchCut | components/SignalCard.tsx:60 | wherever the leftmost match sits, at a line start or inside a line, the text before it is shown as it is and the match is removed through its line feed |
| SignalCard.MidLineMarkerCut | components/SignalCard.tsx:60 | a marker behind text without `V` or `C` loses itself and the rest of its line, and the text before it stays |
| SignalCard.NumberedVerdictLineCut | components/SignalCard.tsx:60 | `1. VERDICT: True` and its line feed are shown as `1. ` |
| SignalCard.HeaderLinesCut | components/SignalCard.tsx:60 | a reply opening with a verdict line and a confidence line is shown from the explanation on |

## Left out

- The generative-model SDK call, the API key, the system prompt, the temperature and the search tool (services/geminiService.ts:4-33, 68-74) are not modelled. They are a foreign network client, and their returned data is an input (`Exchange`).
- `Math.random` identifiers and `new Date()` timestamps are parameters. This covers services/geminiService.ts:51 and 57, and App.tsx:18-19, 56 and 58.
- The asynchronous order of overlapping verifications is not modelled, and neither is the moment the loading spinner shows.
  - `HandleVerify` takes the settled outcome of its request as a parameter, and `App.Event` records it.
  - The `isLoading := true` set before the request is therefore never observed in a settled state.
- JSX rendering, `components/Sidebar.tsx`, `components/PulseRadar.tsx`, `alert` and `console.error` are not modelled. The same goes for `new URL(...).hostname` (components/SignalCard.tsx:81) and `toLocaleTimeString`. They are UI, timers and platform parsing and formatting.
- `fetchTrends`' catch (App.tsx:28-30) can never run, because `getTrendingSignals` never throws. `LoadTrends` therefore always stores the returned list.
- `parseInt` precision beyond 2^53 is not modelled: the confidence is an unbounded natural number.
- GeminiService.KeepTrend: characters outside the Basic Multilingual Plane count as one character each, not as the two UTF-16 code units JavaScript counts. A Dafny `char` cannot be a surrogate. So the length filter of services/geminiService.ts:79 is modelled exactly only for text inside the Basic Multilingual Plane. For example, JavaScript keeps `ab😀cd` (length 6), and the model drops it (length 5).
- GetVerdictStyles: `toLowerCase` is modelled as ASCII lower-casing.
  - The four-way classification is still exact for every string, because no non-ASCII character lower-cases to a single ASCII letter of `true`, `false`, `misleading` or `developing`.
  - The badge's lower-cased key for non-ASCII text is not modelled.
- ConfidenceWithinPercent: the documented 0-100 range is stated only as a conditional bound, for captures of at most two digits. The parser itself does not enforce the range.
- The bullet class: the code's class does not contain `•`. Its three odd characters are the Windows-1252 reading of the UTF-8 bytes of `•`. `GeminiService.GetTrendingSignals` follows the code; the corrected reading is under Findings.
- App.LoadTrends: the app state stores the trends read with the corrected bullet class (`GeminiService.IntendedTrendingSignals`). App.tsx:26-27 stores what `getTrendingSignals` returns as written. For a reply line `• Topic C`, the program's trends hold `• Topic C` where the model's hold `Topic C`. The two agree whenever no line starts with `•`, `â`, `€` or `¢` (`GeminiService.ClassesAgreeWithoutOddBullets`). The as-written list is `GeminiService.GetTrendingSignals`.

## Findings

| source | as written | input that shows it | evidently intended | confidence | as-written member | corrected member |
|---|---|---|---|---|---|---|
| services/geminiService.ts:78 | the class `[-*â€¢]` holds hyphen, asterisk and U+00E2, U+20AC, U+00A2, the Windows-1252 reading of the UTF-8 bytes of `•` | a reply line `• Topic C` is listed as `• Topic C` | `[-*•]`, so that the line is listed as `Topic C` | not executed | GeminiService.BulletListAsWritten | GeminiService.TrendsOfBulletList |

`GeminiService.GetTrendingSignals` models the call as written, and `GeminiService.BulletedTopicC` shows both readings of the same input. The corrected call is `GeminiService.IntendedTrendingSignals`, and the app state (`App.LoadTrends`) is built on it.
