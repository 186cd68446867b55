# airport-data-js, modelled in Dafny

airport-data-js is a Node.js library of airport records. Each record carries an
IATA code, an ICAO code, a city code, a country code and a continent. This
project models the library's lookup modules and three maintenance scripts, and
proves what they promise:

- **`src/index.js`, the validated lookups** (`lookup.dfy`, module `Lookup`).
  The module holds one dataset that is loaded once. Each of its five lookups
  first checks the argument against an anchored pattern. It then filters the
  dataset in order, and throws "No data found ..." when nothing matches.
  Thrown errors are modelled as a `Result` value.
- **`index.js`, the older lookups** (`legacy_lookup.dfy`, module
  `LegacyLookup`). It has the same guarded load, and five filters that never
  throw. Its continent lookup compares `continent_code`, while `src/index.js`
  compares `continent`.
- **The shared record shape and exact-match filter** (`records.dfy`, module
  `Records`). `airport.<field> === code` is modelled with a `Field` value that
  is either absent or a string.
- **`scripts/check_duplicates.js`** (`duplicates.dfy`, module
  `DuplicateCheck`). The script counts every non-empty IATA and ICAO code. It
  lists at most ten duplicates per family, then "... and N more". It exits
  with 1 exactly when some code is carried by two records. Console output is
  returned as a sequence of `Out`/`Err` lines.
- **`scripts/extract_latest_changelog.js`** (`changelog.dfy`, module
  `Changelog`). The script finds the `## [Unreleased]` / `## [x.y.z]` headers
  with the regular expressions' own semantics: line starts under the `m`
  flag, and non-overlapping `matchAll`. It chooses the version, cuts out and
  trims the latest section, and renders the release-notes template. When
  there is no header, it exits with 1.
- **`scripts/generatebin.js`** (`chunking.dfy`, module `Chunking`). The
  script cuts the dataset into chunks of 500 records, and names the file for
  each chunk.
- **Number rendering** (`text.dfy`, module `Text`). Template literals render
  counts and indices as decimal text.

The JSON, gzip, jsonpack and pako layers are left out. The decoded dataset,
the changelog text and the package version are parameters, and compression is
an opaque function parameter.

## Model

| member | source | states |
|---|---|---|
| Records.Select | src/index.js:23 | the filter keeps exactly the records whose field equals the code, and adds nothing |
| Records.MatchIndices | src/index.js:23 | the reference for the filter: the matching positions, strictly ascending, none missing |
| Records.SelectIsOrderedFilter | src/index.js:23 | the filter result is the records at the matching positions, in dataset order |
| Records.SelectSnoc | src/index.js:23 | filtering one more record appends it exactly when it matches |
| Records.SelectEmptyIff | src/index.js:23-26 | the filter is empty iff no record carries the code |
| Records.TwoRecordsRepeat | scripts/check_duplicates.js:20-29 | two distinct records with the same code make it occur more than once |
| Records.RepeatedHasTwoRecords | scripts/check_duplicates.js:20-29 | a code occurring more than once is carried by two distinct records |
| Records.AfterLoad | index.js:7-13 | a load keeps the current dataset or takes the decoded file, and leaves the dataset empty only when both are empty |
| Records.LoadedStaysLoaded | src/index.js:7-8 | once the dataset is non-empty, later loads leave it unchanged |
| Lookup.ValidateRegex | src/index.js:15-19 | passes iff the value has the pattern's length and every character is in its class; otherwise fails with the given message |
| Lookup.FilterOrThrow | src/index.js:21-28 | format error iff the code does not match; "No data found" + code iff it matches and no record has it; success iff it matches and some record has it, with the non-empty filter result |
| Lookup.Airports.constructor | src/index.js:4-13 | after the module loads, the dataset is the decoded file |
| Lookup.Airports.LoadJSONData | src/index.js:7-13 | a non-empty dataset is kept; an empty one is replaced by the decoded file |
| Lookup.Airports.GetAirportByIata | src/index.js:21-28 | `^[A-Z]{3}$` format error, IATA not-found message, success iff some record has the code, result is exactly the matching records |
| Lookup.Airports.GetAirportByIcao | src/index.js:30-37 | `^[A-Z0-9]{4}$` format error, ICAO not-found message, success iff some record has the code, result is exactly the matching records |
| Lookup.Airports.GetAirportByCityCode | src/index.js:39-46 | `^[A-Z]{3}$` format error, City Code not-found message, success iff some record has the `city_code`, result is exactly the matching records |
| Lookup.Airports.GetAirportByCountryCode | src/index.js:48-55 | `^[A-Z]{2}$` format error, Country Code not-found message, success iff some record has the `country_code`, result is exactly the matching records |
| Lookup.Airports.GetAirportByContinent | src/index.js:57-64 | `^[A-Z]{2}$` format error, Continent Code not-found message, success iff some record has the `continent`, result is exactly the matching records |
| Lookup.DigitsOnlyInIcao | src/index.js:22-40 | a code with a digit is a format error for IATA and city codes, never for a well-formed ICAO code |
| Lookup.FormatErrorIgnoresData | src/index.js:21-23 | a malformed code fails the same way whatever the dataset |
| Lookup.IataResultIsOrderedFilter | src/index.js:23-27 | a successful lookup returns every matching record in dataset order |
| LegacyLookup.Airports.constructor | index.js:4-13 | after the module loads, the dataset is the decoded file |
| LegacyLookup.Airports.LoadJSONData | index.js:7-13 | a non-empty dataset is kept; an empty one is replaced by the decoded file |
| LegacyLookup.Airports.GetAirportByIata | index.js:15-17 | exactly the records whose `iata` equals the argument, each once and in dataset order (the records at the matching positions); never throws |
| LegacyLookup.Airports.GetAirportByIcao | index.js:19-21 | exactly the records whose `icao` equals the argument, each once and in dataset order (the records at the matching positions) |
| LegacyLookup.Airports.GetAirportByCityCode | index.js:23-25 | exactly the records whose `city_code` equals the argument, each once and in dataset order (the records at the matching positions) |
| LegacyLookup.Airports.GetAirportByCountryCode | index.js:27-29 | exactly the records whose `country_code` equals the argument, each once and in dataset order (the records at the matching positions) |
| LegacyLookup.Airports.GetAirportByContinent | index.js:31-33 | exactly the records whose `continent_code` equals the argument, each once and in dataset order (the records at the matching positions) |
| LegacyLookup.ContinentLookupNeedsContinentCode | index.js:32 | on records without `continent_code` the continent lookup finds nothing |
| LegacyLookup.ContinentLookupsDiffer | index.js:32 | a record with `continent` "EU" and no `continent_code` is found by src/index.js and not by index.js |
| DuplicateCheck.CodesInOrder | scripts/check_duplicates.js:20-27 | the counted keys: each non-empty code once, exactly the codes some record carries |
| DuplicateCheck.TallyOf | scripts/check_duplicates.js:20-27 | the keys and the counted codes are the same set |
| DuplicateCheck.TallyOfIsExact | scripts/check_duplicates.js:20-27 | after the loop each non-empty code maps to its number of records, with keys in first-seen order |
| DuplicateCheck.TallyStep | scripts/check_duplicates.js:21-26 | visiting one more record keeps the tally exact |
| DuplicateCheck.EmptyCodeNeverCounted | scripts/check_duplicates.js:21-25 | the truthiness test never counts the empty code |
| DuplicateCheck.Increment | scripts/check_duplicates.js:22 | the code's count rises by one (from 0 when new), other counts are unchanged, and a new code goes to the end of the key order |
| DuplicateCheck.Counted | scripts/check_duplicates.js:21-26 | visiting a record adds one to the count of its code when that code is non-empty, and changes nothing else |
| DuplicateCheck.CountCodes | scripts/check_duplicates.js:17-27 | the loop computes the IATA and ICAO tallies of the whole dataset |
| DuplicateCheck.Duplicates | scripts/check_duplicates.js:29-30 | exactly the entries whose count exceeds one, with their counts (order: `DuplicatesIsOrderedFilter`) |
| DuplicateCheck.DuplicateIndices | scripts/check_duplicates.js:29-30 | the reference for the duplicate list: the key positions whose count exceeds one, ascending, none missing |
| DuplicateCheck.DuplicatesIsOrderedFilter | scripts/check_duplicates.js:29-30 | the duplicate list is the entries at those positions, one by one, in key order |
| DuplicateCheck.DuplicatesAreDistinct | scripts/check_duplicates.js:29-30 | with distinct keys no code is listed twice |
| DuplicateCheck.DuplicatesIffRepeatedCode | scripts/check_duplicates.js:29-30 | the duplicate list of an exact tally is non-empty iff two records share a non-empty code |
| DuplicateCheck.CountedDuplicatesIffRepeatedCode | scripts/check_duplicates.js:20-30 | the counted duplicates are non-empty iff two records share a non-empty code |
| DuplicateCheck.ItemLine | scripts/check_duplicates.js:38 | an entry line shows the code right after the dash and never reads as the "... and N more" line |
| DuplicateCheck.ItemLineCount | scripts/check_duplicates.js:38 | the digits between ": appears " and " times" read back as the entry's count |
| DuplicateCheck.ItemLines | scripts/check_duplicates.js:37-39 | one error line per listed entry, in order |
| DuplicateCheck.MoreLine | scripts/check_duplicates.js:41 | the "... and N more" line, whose digits read back as N |
| DuplicateCheck.MoreLines | scripts/check_duplicates.js:40-42 | the "more" line is written exactly when there are more than ten entries |
| DuplicateCheck.DuplicateReport | scripts/check_duplicates.js:36-42 | a count line, the first ten entries in order, and "... and N more" exactly when more than ten |
| DuplicateCheck.FamilyReport | scripts/check_duplicates.js:34-46 | the unique-code summary, then either the single "no duplicate" line, or exactly the error report for the duplicate list |
| DuplicateCheck.CheckDuplicates | scripts/check_duplicates.js:11-70 | exit 1 iff some non-empty IATA or ICAO code is carried by two records, else 0; the output is the banner, the IATA and ICAO reports for the tallies of the whole dataset, the rule, and the failure or success lines |
| Text.NatToString | scripts/check_duplicates.js:36 | a number renders as a non-empty run of digits without a leading zero |
| Text.NatToStringRoundTrip | scripts/check_duplicates.js:36 | reading the rendered digits back gives the number |
| Changelog.DigitRunEnd | scripts/extract_latest_changelog.js:23 | `\d+` stops at the first non-digit |
| Changelog.VersionEnd | scripts/extract_latest_changelog.js:23 | a `\d+\.\d+\.\d+` match spans at least five characters, only digits and dots (its exact shape: `VersionEndIsVersion`, `VersionEndFinds`) |
| Changelog.DigitRunEndAt | scripts/extract_latest_changelog.js:23 | a greedy `\d+` from a position stops exactly at the first non-digit or the end |
| Changelog.VersionEndIsVersion | scripts/extract_latest_changelog.js:23 | what the version pattern matches is three non-empty digit groups joined by single dots |
| Changelog.VersionEndFinds | scripts/extract_latest_changelog.js:23 | a version not followed by a digit is matched in full |
| Changelog.ParseHeader | scripts/extract_latest_changelog.js:23 | a header match is longer than `## [` and holds no line terminator (which texts are release headers: `ReleaseHeaderIff`) |
| Changelog.ParseReleaseHeader | scripts/extract_latest_changelog.js:23 | `## [`, not `Unreleased]`, then a version closed by `]` is a release header for that version |
| Changelog.NotUnreleased | scripts/extract_latest_changelog.js:23 | text with a digit after `## [` is not the Unreleased header |
| Changelog.ReleaseHeaderText | scripts/extract_latest_changelog.js:23 | a release header for `v` starts with `## [`, `v`, `]`, and `v` is a version |
| Changelog.ReleaseTextIsHeader | scripts/extract_latest_changelog.js:23 | text starting with `## [`, a version and `]` is a release header for that version |
| Changelog.ReleaseHeaderIff | scripts/extract_latest_changelog.js:23 | the pattern matches a release header for `v` iff the text starts with `## [v]` and `v` is three dot-separated digit groups |
| Changelog.MatchAll | scripts/extract_latest_changelog.js:23-24 | the matches are header positions, strictly ascending, and every header from the start position is found |
| Changelog.MatchStep | scripts/extract_latest_changelog.js:23-24 | a match, no header inside it, and the matches after it together are the matches from its start |
| Changelog.NoLineStartInsideHeader | scripts/extract_latest_changelog.js:23-24 | no line starts inside a match, so resuming after it skips no header |
| Changelog.HeadersAreAllHeaderPositions | scripts/extract_latest_changelog.js:23-24 | the matches are exactly the header positions, in ascending order |
| Changelog.ReleaseHeaderFound | scripts/extract_latest_changelog.js:23-24 | every `## [x.y.z]` at a line start is one of the matches |
| Changelog.NoHeadersIff | scripts/extract_latest_changelog.js:24-29 | there are no matches iff no position starts a header |
| Changelog.MatchText | scripts/extract_latest_changelog.js:42 | `matches[0][0]`: the text at the match position, starting with `## [` and holding no line terminator |
| Changelog.FirstUnreleased | scripts/extract_latest_changelog.js:19-20 | the first line start holding `## [Unreleased]`, or none |
| Changelog.UnreleasedIsHeader | scripts/extract_latest_changelog.js:19-23 | an Unreleased match is exactly a header of kind Unreleased |
| Changelog.UnreleasedTestIsFirstHeaderKind | scripts/extract_latest_changelog.js:35 | the index comparison holds iff the first header is Unreleased |
| Changelog.ReleaseHeaderShape | scripts/extract_latest_changelog.js:23 | a release header is `## [`, a version, and `]`, and its match is five characters longer than the version |
| Changelog.ReleaseHeaderVersion | scripts/extract_latest_changelog.js:42-43 | on a release header the bracket pattern always finds its version, so the fallback is never used |
| Changelog.BracketVersion | scripts/extract_latest_changelog.js:42 | a bracketed run of at least five digits and dots, occurring at or after the start; `BracketVersionIsLeftmost` makes it the leftmost match |
| Changelog.BracketAt | scripts/extract_latest_changelog.js:42 | the bracket pattern tried at one position captures only a bracketed run of digits and dots found there |
| Changelog.BracketVersionIsLeftmost | scripts/extract_latest_changelog.js:42 | the search returns the match at the leftmost position where the pattern matches, and `None` only when it matches at no position |
| Changelog.BracketVersionIsVersion | scripts/extract_latest_changelog.js:42 | a captured version is three non-empty digit groups joined by single dots |
| Changelog.DigitRunEndInPrefix | scripts/extract_latest_changelog.js:42 | a digit run ending before the cut ends at the same place in the prefix |
| Changelog.VersionEndInPrefix | scripts/extract_latest_changelog.js:42 | a version ending before the cut is matched the same way in the prefix |
| Changelog.BracketSkip | scripts/extract_latest_changelog.js:42 | the bracket search moves past characters other than `[` |
| Changelog.VersionChoice | scripts/extract_latest_changelog.js:35-44 | the script's branches pick the version `ChosenVersion` names |
| Changelog.ChooseVersion | scripts/extract_latest_changelog.js:32-44 | reports whether the first section is Unreleased, and picks the package version for it, else the first header's version |
| Changelog.LeadingSpaces | scripts/extract_latest_changelog.js:50 | the longest all-white-space prefix |
| Changelog.TrailingSpaces | scripts/extract_latest_changelog.js:50 | the longest all-white-space suffix |
| Changelog.Trim | scripts/extract_latest_changelog.js:50 | the result neither starts nor ends with white space |
| Changelog.TrimRemovesOnlyOuterSpace | scripts/extract_latest_changelog.js:50 | the result is the original minus white space at the two ends only |
| Changelog.TrimIsInfix | scripts/extract_latest_changelog.js:50 | the trimmed text sits in the original right after the leading white space |
| Changelog.TrimDropsTrailingSpace | scripts/extract_latest_changelog.js:50 | everything after the trimmed text is white space |
| Changelog.IndexOf | scripts/extract_latest_changelog.js:53 | the first position of the character |
| Changelog.IndexOfAt | scripts/extract_latest_changelog.js:53 | a position holding the character with none before it is the first |
| Changelog.Split | scripts/extract_latest_changelog.js:53 | at least one line, and no line holds a line feed |
| Changelog.Join | scripts/extract_latest_changelog.js:53 | the joined text starts with the first line, followed by a line feed when more lines follow |
| Changelog.JoinSplit | scripts/extract_latest_changelog.js:53 | joining the split lines gives the text back |
| Changelog.SplitCons | scripts/extract_latest_changelog.js:53 | splitting peels off a first line that has no line feed |
| Changelog.SplitJoin | scripts/extract_latest_changelog.js:61 | splitting joined lines without line feeds gives the lines back |
| Changelog.AfterFirstLine | scripts/extract_latest_changelog.js:53 | what follows the first line feed: a suffix preceded by a line feed and by no earlier one; empty when there is no line feed |
| Changelog.DropFirstLine | scripts/extract_latest_changelog.js:53 | split, slice(1), join removes exactly the first line and its line feed |
| Changelog.FindIndex | scripts/extract_latest_changelog.js:59 | the first line starting with `####`, or -1 when none does |
| Changelog.StripPreamble | scripts/extract_latest_changelog.js:56-63 | the content is unchanged unless the first line starting with `####` exists and is not the first line; then the result starts with `####` |
| Changelog.PreambleStripped | scripts/extract_latest_changelog.js:56-63 | the content is kept unless the first line starting with `####` exists and is not the first line; then the result is the lines from that line on |
| Changelog.ReleaseNotes | scripts/extract_latest_changelog.js:66-77 | the notes open with the title and version, contain the section and the install command for the version |
| Changelog.ExtractSection | scripts/extract_latest_changelog.js:46-63 | the slicing, trimming and line steps give the section text `SectionOf` describes |
| Changelog.ExtractLatestChangelog | scripts/extract_latest_changelog.js:18-80 | exit 1 with the error iff no header exists; otherwise the notes for the chosen version and the latest section |
| Chunking.ChunkPathShape | scripts/generatebin.js:22 | file k is named `./src/airports_chunk_`, the digits of k, `.bin`, and the digits read back as k |
| Chunking.ChunkPathsDistinct | scripts/generatebin.js:22 | distinct chunks are written to distinct files |
| Chunking.ChunkAtContents | scripts/generatebin.js:18 | chunk k holds min(500, n - 500k) records, the ones from index 500k on, in order |
| Chunking.Files | scripts/generatebin.js:22 | one file per chunk |
| Chunking.FilesSnoc | scripts/generatebin.js:22 | the file for the next chunk is appended with the next index |
| Chunking.FlattenSnoc | scripts/generatebin.js:17-18 | appending a chunk extends the concatenation by that chunk |
| Chunking.GenerateChunks | scripts/generatebin.js:17-25 | the chunks concatenate to the input; there are ceil(n/500) of them; chunk k is records [500k, min(n, 500k+500)); file k holds compressed chunk k under `./src/airports_chunk_k.bin` |
| Chunking.ChunkSizes | scripts/generatebin.js:4-18 | every chunk holds 1 to 500 records, all but the last exactly 500, and an empty input gives no chunk |

## Left out

- File reads, `zlib.gunzipSync`, `JSON.parse`, `jsonpack.unpack`, `pako.deflate`, `JSON.stringify`, `fs.existsSync`/`mkdirSync` and `fs.writeFileSync`. These are I/O or foreign code. Decoded data and text are parameters, compression is the function parameter `deflate`, and written files are returned as values.
- `process.exit`: it is modelled as the returned exit code. The trailing newline that `console.log` and `console.error` add is not part of the modelled lines.
- Record properties that are present but not strings (numbers, `null`, objects) are modelled as absent. A non-string property never equals a string argument under `===`. A truthy non-string `iata`/`icao` would be counted by the duplicate checker, and the model does not capture that.
- Non-string lookup arguments are not modelled. In src/index.js `value.match` throws a `TypeError` on them. In index.js a missing argument is `undefined`, and `airport.iata === undefined` then selects every record that lacks the property.
- DuplicateCheck.CountCodes: `Object.entries` lists integer-like keys (such as "1234") first, in ascending numeric order, and the model keeps all keys in first-insertion order. With more than ten duplicates in a family, this order also decides which ten codes are listed and which fall under "... and N more"; the count on each line is not affected.
- DuplicateCheck.CountCodes: a code equal to an inherited `Object.prototype` member name, such as "constructor", starts from that member instead of 0, and the script then miscounts it. The model counts such codes like any other. IATA and ICAO codes are three or four characters, so none of them has such a name.
- Chunking.GenerateChunks: the input array is a value here, so slicing cannot modify it, which matches `Array.prototype.slice`. The size of each compressed file is not modelled.
- The web UI, the tests, the benchmarks and the data-preparation scripts are not part of this model.
