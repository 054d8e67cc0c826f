# URL snapshot archive: capture naming and latest-snapshot index, in Dafny

The system captures web pages into an on-disk archive and publishes an index of the
latest capture of every URL. It has two scripts:

- `scripts/snapshot.js` takes one capture. It checks the URL and picks a timestamp
  identifier. It then chooses a directory name that is free in the archive root
  (`<timestamp>`, then `<timestamp>-dup1`, `-dup2`, ...). It navigates, gates on the
  HTTP status and cleans the page text. It writes `page.html`, `page.txt` and
  `meta.json`, whose `timestamp` field is the directory name.
- `scripts/build-index.js` builds the index. It loads every archive directory whose
  `meta.json` has a string `url` and `timestamp`. It splits each identifier back into
  `base` and `-dup<N>` counter, keeps the newest record per URL, sorts the URLs and
  gives each one a unique slug. It then writes `latest/<slug>.*` artifacts, a JSON
  manifest and an HTML table. An archive with no records gets an empty manifest and a
  placeholder row.

The Dafny modules follow that structure:

| module | file | models |
|---|---|---|
| `Wrappers` | wrappers.dfy | `Option` and `Result` |
| `Decimal` | decimal.dfy | `${n}` for counters and `parseInt(s, 10)` on digit strings |
| `JsText` | jstext.dfy | JavaScript `\s` and line terminators, `slice`, string `<` |
| `FiniteSets` | sets.dfy | two set-size facts the probing loops use for termination |
| `Identifier` | identifier.dfy | `parseTimestampParts` (the regex as written) and the `-dup<N>` names |
| `Selection` | selection.dfy | `pickLatestSnapshots` |
| `Archive` | archive.dfy | `safeReadDir` and `loadSnapshots` over a directory listing |
| `Slug` | slug.dfy | `slugifyUrl` |
| `SlugAllocation` | slugallocation.dfy | `ensureUniqueSlug`, as written and corrected |
| `Manifest` | manifest.dfy | `buildLatestArtifacts`, the table rows of `writeIndexHtml`, `main` |
| `TextNormalization` | normalize.dfy | the text clean-up at `scripts/snapshot.js:127` |
| `Capture` | capture.dfy | `validateUrl`, `getTimestamp`, `ensureUniqueDir`, `takeSnapshot` |
| `RoundTrip` | roundtrip.dfy | capture-side names read back by the index builder |

The filesystem, the browser, the clock and the URL parser become parameters:

- a directory listing (`Option<seq<Dirent>>`; `None` is a missing archive root);
- the set of names in the archive root;
- a `Navigation` outcome;
- the ISO clock string;
- a `protocolOf` function standing for `new URL(s).protocol`;
- a `precedes` comparator standing for `localeCompare`.

Three behaviours of the code as written differ from what its design suggests, and the
model follows the code:

- **Line terminators in identifiers.** The identifier regex `^(.*?)(?:-dup(\d+))?$` has
  no `s` flag, so `.` does not match a line terminator. The match therefore fails, and
  the `{ base: timestamp, duplicate: 0 }` fallback runs, exactly for identifiers that
  contain `\n`, `\r`, U+2028 or U+2029 (`RegexMatchesIffNoLineTerminator`).
- **Whitespace before newlines.** The text clean-up reads as "drop trailing spaces
  before newlines, then collapse 3+ newlines to 2". But `\s` includes `\n`,
  so `/\s+\n/g` already turns every whitespace run that contains a newline into one
  `\n` plus the run's trailing blanks. The `\n{3,}` step then never finds anything
  (`CollapseStepIsInert`).
- **Slug collisions.** Slug collisions are meant to be resolved by a `-<counter>`
  suffix. The loop as written can run forever (see Findings).

## Model

| member | source | states |
|---|---|---|
| Identifier.ParseTimestampParts | scripts/build-index.js:51-57 | the result splits the identifier into a prefix `base` and, when `base` is not the whole identifier, a `-dup<digits>` tail whose value is `duplicate`; otherwise `duplicate` is 0 |
| Identifier.RegexMatchesIffNoLineTerminator | scripts/build-index.js:52-55 | the identifier regex matches if and only if the identifier has no JavaScript line terminator; otherwise the fallback runs |
| Identifier.ParseSplitsAtDupSuffix | scripts/build-index.js:52-56 | the lazy group stops at the first position whose rest is `-dup<digits>`, so such an identifier splits exactly there |
| Identifier.ParseDupName | scripts/build-index.js:51-57 | round trip: `base-dup<k>` built by the capture side parses back to `(base, k)` |
| Identifier.KeyLessTransitive | scripts/build-index.js:72-83 | the (base, duplicate) order the selection compares by is transitive |
| Identifier.KeyLessTotal | scripts/build-index.js:72-83 | any two distinct (base, duplicate) pairs are ordered one way or the other |
| Selection.SupersedesIffNotOlder | scripts/build-index.js:69-83 | the three-way comparison in the loop replaces the kept record exactly when the new identifier is not smaller in the (base, duplicate) order |
| Selection.PickLatest | scripts/build-index.js:59-87 | the map's keys are exactly the input URLs, and each value is an input record filed under its own URL |
| Selection.LatestUpToHoldsChosen | scripts/build-index.js:62-85 | after the first n records the loop's map has an entry for a URL exactly when a reference scan of the URL and identifier columns finds a position for it, and the entry is the record at that position |
| Selection.ChosenIsLatest | scripts/build-index.js:62-85 | the reference scan finds no position exactly when the URL does not occur, and the position it finds holds an identifier no same-URL identifier exceeds, with every later same-URL identifier strictly smaller |
| Selection.PickLatestIsLatest | scripts/build-index.js:59-87 | the record kept for a URL is at a position with no greater same-URL identifier anywhere in the input, and every later same-URL record is strictly smaller (ties go to the last); the lemma returns that position |
| Selection.NewerOfTwoWins | scripts/build-index.js:62-83 | of two records of one URL, the one with the greater identifier is kept, whichever comes first |
| Selection.LatestIsPicked | scripts/build-index.js:59-87 | conversely, a record at a position with no greater same-URL identifier, and only smaller ones after it, is the one kept for its URL |
| Selection.GreaterBaseWins | scripts/build-index.js:72-75 | a record whose base is greater than every other same-URL base is kept, whatever the counters |
| Archive.LoadFrom | scripts/build-index.js:17-49 | at most one record per listing entry, and each record is `{url, timestamp, dirName}` of an entry that is a directory with parseable metadata holding string `url` and `timestamp` |
| Archive.LoadFromAppend | scripts/build-index.js:21-46 | loading goes entry by entry in listing order: the records of a concatenated listing are those of its parts, in order |
| Archive.LoadFromKeepsValid | scripts/build-index.js:21-42 | every entry passing the filter contributes its record |
| Archive.SkipsMetaWithoutStrings | scripts/build-index.js:33-35 | metadata lacking a string `url` or a string `timestamp` contributes nothing |
| Slug.SlugifyUrl | scripts/build-index.js:89-96 | a slug has at most 100 characters, all in `[a-z0-9-]`, never two hyphens in a row and never a leading hyphen |
| Slug.SlugKeepsLettersAndDigits | scripts/build-index.js:89-96 | the slug's letters and digits are a prefix of those of the scheme-less lower-cased URL, and all of them, with no trailing hyphen, when nothing is cut off |
| Slug.CollapseIsSqueezedMask | scripts/build-index.js:93 | the run replacement equals a reference: replace each character outside `[a-z0-9]` by a hyphen, then drop every hyphen that follows a hyphen; so a hyphen stands exactly where a run outside `[a-z0-9]` was, one per run |
| Slug.UntruncatedSlugOfPath | scripts/build-index.js:90-94 | `https://<alnum run>/<c>` slugifies to `<run>-<c>` before truncation |
| Slug.SlugCanEndWithHyphen | scripts/build-index.js:94-95 | trimming runs before the 100-character cut, so a slug can end with a hyphen |
| SlugAllocation.EnsureUniqueSlug | scripts/build-index.js:106-116 | as written: a free base is returned; otherwise the first free `base-<k>` cut to 100 characters, with every earlier candidate taken; the loop never ends exactly when the base and every candidate are taken |
| SlugAllocation.CandidatesRepeat | scripts/build-index.js:110-112 | re-truncation makes the candidates repeat: each one already appears for a counter up to a bound fixed by the base length |
| SlugAllocation.FullLengthBaseNeverResolves | scripts/build-index.js:110-112 | a taken base of 100 characters makes every candidate equal to the base itself, so the loop cannot end |
| SlugAllocation.LongUrlsShareSlug | scripts/build-index.js:89-96 | two URLs `https://<x>/1` and `https://<x>/2` with `x` 100 characters from `[a-z0-9]` get the same slug `x` |
| SlugAllocation.ShortBaseAlwaysResolves | scripts/build-index.js:106-116 | when no candidate the loop could need is truncated, some candidate is free, so the loop ends |
| SlugAllocation.CandidatesAgree | scripts/build-index.js:111 | while nothing is truncated, the corrected candidate is the one the source builds |
| SlugAllocation.CorrectedCandidateCounter | scripts/build-index.js:111 | the counter can be read back from a corrected candidate, so distinct counters give distinct candidates |
| SlugAllocation.ProbeCandidates | scripts/build-index.js:109-113 | the probing loop finds the first counter from 2 whose cut candidate is free, every earlier one being taken, and finds none exactly when every candidate is taken |
| SlugAllocation.FirstFreeCandidateUnique | scripts/build-index.js:109-113 | the first free candidate is unique: two counters that both have every earlier candidate taken and a free candidate of their own are equal |
| SlugAllocation.EnsureUniqueSlugCorrected | scripts/build-index.js:106-116 | corrected: always ends with a slug not yet used, added to the set. A free base is kept. When some cut candidate is free, it returns the source's own answer: the first free `base-<k>` cut to 100 characters. Only when every cut candidate is taken does it fall back to the first free corrected candidate. For a base of at most 100 characters the slug has at most 100 |
| SlugAllocation.SecondSlugGetsTwo | scripts/build-index.js:106-116 | a base that is already used once, and short enough to take a suffix, gets `base-2` |
| SlugAllocation.SlugChoiceUnique | scripts/build-index.js:106-116 | for a given base and set of used slugs, at most one fresh slug fits the allocation rule, so the slug is a function of the two |
| SlugAllocation.SecondSlugCutToHyphen | scripts/build-index.js:110-112 | a 99-character base used once gets `base-`, the source's `-2` candidate cut to 100 characters |
| Manifest.SortUrls | scripts/build-index.js:123 | every URL exactly once, in ascending comparator order |
| Manifest.ArtifactPathsDistinct | scripts/build-index.js:137-140 | entries with different slugs share none of their four artifact paths |
| Manifest.AllocateSlug | scripts/build-index.js:128 | the slug of a URL is fresh and joins the used set. It is the URL's own slug when that is free, otherwise the first free `<own>-<k>` cut to 100 characters with every earlier one taken (the corrected fallback only when all are taken) |
| Manifest.BuildLatestArtifacts | scripts/build-index.js:118-166 | URLs visited in sorted order; one slug allocated per URL even when its artifacts are incomplete; slugs pairwise distinct; each URL's slug is chosen, as `AllocateSlug` states, against the slugs of the URLs before it; an entry exactly for each URL whose latest directory holds all three artifacts, with that record's timestamp; entries in URL order with distinct slugs |
| Manifest.SecondOfSharedSlug | scripts/build-index.js:123-128 | when the first two sorted URLs share a slug short enough to take a suffix, the first gets the slug and the second gets `<slug>-2` |
| Manifest.EnsureTrailingNewline | scripts/build-index.js:148 | the YAML text ends with a newline, extends the input and grows by at most one character; text already ending in a newline is returned unchanged |
| Manifest.TableRows | scripts/build-index.js:171-181 | with entries, one row per entry in manifest order |
| Manifest.PlaceholderIffEmpty | scripts/build-index.js:172-173 | the placeholder row is shown exactly when there are no entries, and then alone |
| Manifest.Build | scripts/build-index.js:223-234 | an empty archive gives an empty manifest and the placeholder; otherwise the entries are the latest record of each URL with complete artifacts, in URL order with distinct slugs, and the rows follow the entries. The sorted URLs and the slug each one was allocated are returned with everything `BuildLatestArtifacts` states about them |
| Manifest.BuildDeterministic | scripts/build-index.js:118-166 | two builds of the same archive with the same comparator publish the same manifest, URL order, slugs and table: the build makes no free choices |
| Manifest.ManifestDeterministic | scripts/build-index.js:118-166 | the URL order, the slug of every URL and the entries are fixed by the latest records, the complete directories and the comparator |
| TextNormalization.MatchAtStart | scripts/snapshot.js:127 | `\s+\n` fails to match at the start exactly when the leading whitespace run has no newline after its first character; a match is all whitespace, at least two characters long, ends in a newline and is the longest, with no newline after it in the run |
| TextNormalization.Trim | scripts/snapshot.js:127 | `trim()` leaves the slice between the leading and the trailing whitespace: empty exactly when the text is all whitespace, otherwise starting and ending with a non-whitespace character |
| TextNormalization.NormalizedShape | scripts/snapshot.js:127 | cleaned text has no whitespace at either end, no whitespace right before a newline and no three newlines in a row |
| TextNormalization.CollapseStepIsInert | scripts/snapshot.js:127 | the `\n{3,}` replacement changes nothing after the `\s+\n` replacement |
| TextNormalization.NormalizeKeepsVisible | scripts/snapshot.js:127 | only whitespace changes: the other characters are kept, in order |
| TextNormalization.NormalizeIdempotent | scripts/snapshot.js:127 | cleaning cleaned text changes nothing |
| Capture.ValidateUrl | scripts/snapshot.js:6-21 | a missing or empty URL, an unparseable URL and a non-http(s) protocol are rejected in that order; the URL passes exactly when it parses with protocol `http:` or `https:` |
| Capture.SanitizeIso | scripts/snapshot.js:27 | every `:` and `.` becomes `-`, other characters are kept, the length is unchanged |
| Capture.SanitizeIsoIdempotent | scripts/snapshot.js:27 | sanitising twice is sanitising once |
| Capture.GetTimestamp | scripts/snapshot.js:23-28 | a non-empty override is used as is; otherwise the clock string with `:` and `.` replaced by `-` |
| Capture.EnsureUniqueDir | scripts/snapshot.js:30-42 | the name is free; it is the base when the base is free, otherwise `base-dup<counter>` with every lower `-dup` name taken |
| Capture.FirstFreeUnique | scripts/snapshot.js:30-42 | the directory name is determined by the archive contents and the base |
| Capture.DupNameInjective | scripts/snapshot.js:37 | different counters give different `-dup` names |
| Capture.TakeSnapshot | scripts/snapshot.js:75-159 | URL, launch, navigation, response, status and page-extraction failures are reported in that order and leave the archive unchanged. A status in [200, 400) with the page read succeeds: it adds one fresh directory with the first free name and writes the page, the cleaned text and metadata. The metadata's timestamp is the directory name, with the response status, the page's user agent and the run id (null when unset or empty) |
| Capture.RepeatedCaptures | tests/duplicate.test.js:42-47 | captures with the same timestamp get `base`, `base-dup1`, `base-dup2` |
| RoundTrip.ParseCaptureName | scripts/build-index.js:51-57 | every capture name of a plain base parses back to the base and its counter |
| RoundTrip.CapturedNameParsesBack | scripts/snapshot.js:30-42 | the directory a capture settles on parses back to its base and final counter, with every lower `-dup` name already taken |
| RoundTrip.LaterCaptureSelected | scripts/build-index.js:81-83 | of two captures of one URL with the same base, the index keeps the one allocated later, whatever the listing order |

## Left out

- Filesystem effects are left out: creating, removing and copying files, and writing
  the manifest JSON, the YAML text and the HTML page. The model returns the values
  that would be written: the `Entry` list, the table rows and the `Captured` record.
- The HTML template text is left out. A table row is a datatype: the placeholder or the
  entry it shows. The source inserts each entry's url and timestamp into its cells
  without HTML escaping (scripts/build-index.js:178), so a URL holding `"` or `<` breaks
  the markup; the model does not render markup and so does not show this.
- `JSON.parse`, `JSON.stringify`, `yaml.dump` and `new URL` are not modelled.
  `JSON.parse` is an input: each listing entry carries its parsed metadata or
  `MetaUnreadable`. `new URL(s).protocol` is the parameter `protocolOf`.
- `localeCompare` is left out: it depends on the ICU locale data. `Manifest.SortUrls`
  takes the comparator as a parameter that must be a strict total order on the URLs,
  so ties under `localeCompare` between distinct strings are not modelled.
- Manifest.BuildLatestArtifacts: the second `JSON.parse` of `meta.json` at line 146
  is assumed to succeed. It reads the file `loadSnapshots` already parsed, so it only
  fails if the file changes between the two reads.
- Manifest.BuildLatestArtifacts: where the source's slug loop ends, the manifest has the
  source's slugs. Where it never ends (see Findings), the model returns the corrected
  fallback slug instead of hanging.
- Playwright is left out: launching, contexts, `onPageReady`, `waitForPageSettled`
  with its timeouts and logger, `page.content`, `navigator.userAgent`, the DOM clone
  and `innerText`. They become the `Navigation` input; a throw from settling, `content`
  or `evaluate` after the status check is the `ExtractionThrew` outcome. Closing the browser in
  `finally` is assumed not to throw: if it did, the source would report an error after the
  files were written, a case `Capture.TakeSnapshot` does not model.
- The clock (`new Date().toISOString()`) and `GITHUB_RUN_ID` are inputs.
- `main` of `scripts/snapshot.js` and its `GITHUB_OUTPUT` lines are left out. They are
  console and file output.
- Concurrent captures into one archive root are not modelled. The check for an
  existing name and the later `mkdir` are not atomic in the source.
- `${n}` for counters of 10^21 and above is modelled as plain decimal digits.
  JavaScript switches to exponent form there, and `parseInt` loses precision above
  2^53. No probing loop reaches such counters.
- Characters are Unicode scalar values, while JavaScript strings are UTF-16 code units.
  `JsText.Less` therefore orders astral characters above U+E000..U+FFFF, where
  JavaScript orders them below. `slice(0, 100)` counts scalar values, not code units.
- `toLowerCase` is modelled for ASCII letters, KELVIN SIGN and LATIN CAPITAL LETTER I
  WITH DOT ABOVE. These are the only characters whose lower case can add a letter in
  `[a-z]`. Every other character stays outside `[a-z0-9]` either way, so the slug does
  not depend on it.

## Findings

| source | as written | input that shows it | evidently intended | confidence | as-written member | corrected member |
|---|---|---|---|---|---|---|
| scripts/build-index.js:110-112 | when the base slug is 100 characters long and already used, `${base}-${counter}`.slice(0, 100) is the base itself for every counter, so `while (used.has(candidate))` never ends | the URLs `https://<x>/1` and `https://<x>/2` with `x` any 100 characters from `[a-z0-9]`: both slugify to `x`, and the second one hangs the index build | collisions are always resolved: when every cut candidate is taken, cut the base so that `-<counter>` survives the 100-character limit, and keep the source's slug wherever its loop ends | not executed | SlugAllocation.EnsureUniqueSlug | SlugAllocation.EnsureUniqueSlugCorrected |

`SlugAllocation.EnsureUniqueSlug` returns `NeverEnds` exactly when every candidate is
taken. `SlugAllocation.FullLengthBaseNeverResolves` proves this happens for any taken
100-character base. `SlugAllocation.LongUrlsShareSlug` shows two URLs that produce
such a base.

The corrected allocator returns the source's slug whenever the source's loop ends. Only
when every cut candidate is taken does it fall back to candidates that keep
`100 - |"-<counter>"|` characters of the base. That fallback always ends, because the
candidates for different counters differ (`SlugAllocation.CorrectedCandidateCounter`).
The two kinds of candidate agree while nothing is truncated (`SlugAllocation.CandidatesAgree`).
`Manifest.AllocateSlug` uses the corrected allocator.
