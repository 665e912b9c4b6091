# nextcloud-version-matrix, modelled in Dafny

nextcloud-version-matrix is a GitHub Action for Nextcloud apps. It reads the app manifest's
`min-version` and `max-version` of Nextcloud server and turns them into CI matrices. It does four
things. It expands the range into a list of server versions. It picks one server branch per
version: `stable<N>` when that branch exists, `master` otherwise. It reads each branch's PHP
support window from that branch's `lib/versioncheck.php`. Then it walks the overall PHP window in
steps of 0.1 and keeps only versions that php.net lists as released.

Two entry points are modelled:

- `src/action.js` (module `Action`, plus the shared modules below) computes every output: versions,
  branches, `ocp-branches`, `php-versions`, `php-min`/`php-max`, `branches-min`/`branches-max` and
  the per-branch `matrix`.
- `index.js` (module `Index`) is a second entry point. It only outputs the versions and the
  deduplicated branches. Here a branch counts as existing when a server release of that version
  is published.

Modules:

- `Wrappers`: `Option`, `Result`, and the errors a run can end with.
- `Decimal`: digit strings, the `${n}` text of an integer, and `toFixed(1)` of a version counted
  in tenths, each with its read-back function.
- `Lists`: `range(from, to)` and `a.filter(onlyUnique)`. Both entry points declare these
  identically (src/action.js:22-24 and 48-50, index.js:11-17).
- `Branches`: the `stable<N>`/`master` decision and the deduplicated branch list.
- `Patterns`: the three regular expressions, as scanners, and `parseFloat`.
- `Action`: version-id decoding, the window, the per-version lookups, the PHP walk and the outputs.
- `Index`: the body of index.js.

Representation choices:

- PHP versions are natural numbers of tenths, so 7.3 is 73.
- Parsed release numbers are exact `real` decimals, so `includes` is exact equality.
- The branch probe, the fetched check code and the fetched releases page are parameters of type
  `int -> bool`, `string -> string` and `string`.
- `Math.min`/`Math.max` of no records, and `branches[0]`/`branches.pop()` of no branches, give
  `None`. That stands for JavaScript's `Infinity`, `-Infinity` and `undefined`.
- An exception that ends a run is an `Err` result: the `RangeError` of `Array(n)`, or reading a
  property of the `null` that a failed `match` returns.
- The PHP walk is a `method` with a `while` loop, because the source loop mutates a counter and
  pushes onto an array. Everything else is expressions and maps in the source, so it is functions.

How the code reads the PHP window:

- Decoding a version id adds the first two digits and the third digit, in tenths, so `80100`
  gives 8.1 and `70406` gives 7.4.
- The `>=` bound is the maximum exactly as decoded.
- Each bound comes from the first match of its one pattern.
- The walk visits every tenth from the minimum to the maximum and keeps the released ones.

## Model

| member | source | states |
|---|---|---|
| Lists.Range | src/action.js:22-24 | Errs exactly when `to - from + 1` is outside what `Array` accepts, so for every `to < from - 1`; otherwise holds `to - from + 1` consecutive integers starting at `from` |
| Lists.RangeMembers | src/action.js:22-24 | A successful range is strictly ascending and holds exactly the integers from `from` to `to` |
| Lists.IndexOf | src/action.js:49 | `indexOf` gives -1 exactly for an absent value, and otherwise a position holding the value with no earlier occurrence |
| Lists.OnlyUnique | src/action.js:48-50 | `onlyUnique` itself: keep an element exactly when its index is the first index of its value (index.js:15-17 is the same function); characterised by Lists.Unique, which is the list it filters to |
| Lists.Unique | src/action.js:48-50 | The filter keeps every input element, adds nothing, has no duplicates, and orders elements by their first occurrence |
| Lists.UniqueMembers | src/action.js:48-50 | The filtered list has exactly the members of the input |
| Lists.UniqueOfDistinct | src/action.js:48-50 | A list without duplicates passes through unchanged |
| Lists.UniqueIdempotent | src/action.js:48-50 | Filtering twice is the same as filtering once |
| Lists.UniqueKeepsAllButOne | src/action.js:84 | When only one value can repeat, every other element survives, in order |
| Lists.LastOfUnique | src/action.js:84 | The last survivor of the filter is `a[k]` when `a[k]` first occurs at `k` and every later element already occurred by `k` |
| Lists.LastOfUniqueRepeated | src/action.js:84 | The same, when every element after `k` equals `a[k]` |
| Decimal.IntToStringRoundTrip | src/action.js:16 | The `${version}` text reads back as the version, negative versions included |
| Decimal.IntToString | src/action.js:16 | The template text `${n}` of an integer; characterised by Decimal.IntToStringRoundTrip |
| Decimal.FormatTenths | src/action.js:78 | `toFixed(1)` text is digits, a dot and one digit |
| Decimal.FormatTenthsRoundTrip | src/action.js:96 | The one-decimal text of a version reads back as the same number of tenths |
| Decimal.FormatTenthsInjective | src/action.js:96 | Distinct versions never get the same one-decimal text |
| Branches.Resolve | src/action.js:14-20 | The branch is `master` exactly when the probe answered no |
| Branches.ResolveRoundTrip | src/action.js:14-20 | A resolved branch names version N exactly when the probe confirmed `stable<N>`; `master` names no version |
| Branches.StableName | src/action.js:16 | `stable${version}` (also index.js:33); characterised by Branches.StableNameInjective and Branches.ResolveRoundTrip |
| Branches.StableNameInjective | src/action.js:16 | Distinct versions never share a `stable<N>` name |
| Branches.StableNamesDistinct | src/action.js:16 | Different versions give different `stable<N>` names |
| Branches.BranchList | index.js:31-37 | One branch per version, in version order, each the resolution of that version's probe |
| Branches.Confirmed | index.js:31-37 | Selects exactly the versions whose probe answered yes |
| Branches.ConfirmedAscending | index.js:31-37 | The confirmed versions of an ascending range stay ascending |
| Branches.StableNames | index.js:33 | Each name reads back as its version, one name per version, in order |
| Branches.BranchListWithoutFallback | index.js:31-37 | With `master` removed, the branch list is the confirmed versions' `stable<N>` names in order |
| Branches.FallbackEmitted | index.js:39 | `master` is emitted exactly when some version was not confirmed |
| Branches.EmittedBranches | index.js:39 | For ascending versions the emitted list has no duplicates, so `master` at most once; `master` appears iff some probe answered no; the rest are the `stable<N>` names in ascending version order |
| Patterns.DigitRun | src/action.js:30 | `\d*` takes the longest digit prefix |
| Patterns.MatchKeyDigits | src/action.js:30 | A match at the start captures one or more digits that directly follow the key and end at a non-digit or the end of text |
| Patterns.FirstMatch | src/action.js:30-31 | A capture always has at least one digit |
| Patterns.FirstMatchLeftmost | src/action.js:30-31 | The search gives null exactly when the pattern matches at no position, and otherwise returns the capture at the leftmost matching position |
| Patterns.FirstMatchAfter | src/action.js:30-31 | Text where the key starts nowhere is skipped by the search |
| Patterns.MatchHeading | src/action.js:44 | A match starts with `<h2>`, captures a `\d+\.\d+\.\d+` release text, is directly followed by `</h2>`, and its length covers exactly the tags and the capture |
| Patterns.TripleShape | src/action.js:44 | What the greedy `\d+\.\d+\.\d+` scan covers is the text of some release: digits, a dot, digits, a dot, digits |
| Patterns.HeadingsAreReleases | src/action.js:44-45 | Every capture of the heading scan, on any text, is such a release text |
| Patterns.TripleLengthOfRelease | src/action.js:44 | `\d+\.\d+\.\d+` covers a whole `X.Y.Z` release text and stops before a following non-digit |
| Patterns.HeadingAtStart | src/action.js:44 | A heading holding a release is captured, and scanning resumes right after it |
| Patterns.HeadingsSkip | src/action.js:44 | Text where no heading match starts is skipped by the scan |
| Patterns.NoHeadingInMarkup | src/action.js:44 | No heading match starts inside markup without `<h2>` when the page ends or a tag follows it |
| Patterns.ReleaseTexts | src/action.js:45 | One version text per section of a releases page, in order |
| Patterns.Headings | src/action.js:44-45 | `matchAll` then `m[1]`, scanning on after each match; characterised by Patterns.HeadingsAreReleases (every capture is a release text), Patterns.HeadingAtStart and Patterns.HeadingsOfReleasesPage (every heading of a releases page is found, in order) |
| Patterns.HeadingsOfReleasesPage | src/action.js:44-45 | On a releases page (markup without `<h2>` before each release heading, and after the last), the scan gives every release's text, in page order |
| Patterns.ParseFloatOfRelease | src/action.js:74-75 | `parseFloat("X.Y.Z")` is X.Y: the patch number is dropped |
| Patterns.ParseFloat | src/action.js:75 | `parseFloat` of text starting with a digit: the value of the longest `\d+(\.\d*)?` prefix; characterised by Patterns.ParseFloatOfRelease |
| Action.ParseVersionId | src/action.js:35-38 | Succeeds exactly when the text starts with three digits, giving ten times the first digit plus the second plus the third, in tenths; otherwise a malformed-id error |
| Action.ParseVersionIdPrefix | src/action.js:36 | Digits after the third never change the result |
| Action.PhpVersionIdTextIsDecimal | src/action.js:35-38 | The five-character text major, `0`, minor, two-digit patch is exactly how PHP's version id of major.minor.patch is written in decimal |
| Action.ParseVersionIdText | src/action.js:35-38 | That text decodes to major.minor in tenths |
| Action.ParseVersionIdOfPhpVersion | src/action.js:35-38 | `PHP_VERSION_ID` of X.Y.Z with one-digit X and Y decodes to X.Y; so `70300` is 7.3, `80100` is 8.1 and `70406` is 7.4 |
| Action.GetSupportedVersions | src/action.js:30-32 | A missing lower comparison is an error; a missing upper comparison is an error; otherwise the window is the decoded first `<` capture and the decoded first `>=` capture, and a malformed capture is an error |
| Action.SupportedVersionsOfCheckCode | src/action.js:30-32 | On code that is exactly the two comparisons, lower first, each followed by `;`, the window is the two decoded ids |
| Action.SupportedVersionsOfEmbeddedChecks | src/action.js:30-32 | On any code holding a lower then an upper comparison, with no earlier start of either pattern and no digit right after either id, the window is the two decoded ids |
| Action.MatchAfterPrefix | src/action.js:30-31 | A key followed by digits is captured after a prefix where the key starts nowhere |
| Action.SupportedVersionsOfPhpVersions | src/action.js:26-38 | On code that is exactly the two comparisons with PHP version ids of major.minor.patch bounds, the window is the two major.minor versions |
| Action.Lookup | src/action.js:65-72 | One version's record succeeds exactly when its resolved branch's check code yields a window; it then holds that window's minimum and maximum and the branch, and otherwise fails with the window's error |
| Action.LookupOfPhpVersions | src/action.js:26-72 | When the branch's check code is exactly the two comparisons with PHP version ids of major.minor.patch bounds, the record holds those two major.minor versions and the resolved branch |
| Action.VersionData | src/action.js:65-73 | Succeeds exactly when every version's lookup does, with one record per version in version order |
| Action.VersionDataFirstError | src/action.js:65-73 | A failed run reports the error of the first failing version, in version order |
| Action.RecordBranches | src/action.js:84 | The records' branches are the branch list of the versions |
| Action.BranchesOf | src/action.js:84 | `versionData.map(data => data.branch)`; characterised by Action.RecordBranches |
| Action.PhpMinsOf | src/action.js:86 | `versionData.map(data => data.phpMin)`; characterised by Action.RecordBounds |
| Action.PhpMaxesOf | src/action.js:87 | `versionData.map(data => data.phpMax)`; characterised by Action.RecordBounds |
| Action.Matrix | src/action.js:77-80 | One row per record, same order, no deduplication; each row's PHP text is the `toFixed(1)` text of the record's minimum, so it reads back as that minimum, and its server version is the record's branch |
| Action.MatrixCoversBranches | src/action.js:77-84 | Every row's server version is an emitted branch, and every emitted branch has a row |
| Action.MinOf | src/action.js:86 | Absent exactly for no values; otherwise one of the values and at most each of them |
| Action.MaxOf | src/action.js:87 | Absent exactly for no values; otherwise one of the values and at least each of them |
| Action.RecordBounds | src/action.js:86-87 | The PHP minimum is one record's minimum and at most every record's minimum; the maximum likewise from above; both are absent exactly when there are no records |
| Action.DevBranches | src/action.js:101 | One `dev-` name per branch, same length and order, each the branch behind the `dev-` prefix |
| Action.FirstBranch | src/action.js:84-105 | `branches-min` is the branch of the lowest version, since deduplication keeps the first branch first |
| Action.First | src/action.js:105 | `branches[0]`, none for no branches; characterised by Action.FirstBranch |
| Action.Last | src/action.js:106 | The value of `branches.pop()`, none for no branches; characterised by Action.LastBranch and Action.LastBranchOfGap |
| Action.LastBranch | src/action.js:84-106 | `branches-max` is the branch of the highest version when the probe confirms exactly a prefix of the versions and the highest version occurs once |
| Action.LastBranchOfGap | src/action.js:84-106 | Without that prefix shape it need not be: with only 28 confirmed among 27, 28 and 29, `branches-max` is `stable28` while 29 resolves to `master` |
| Action.BranchListShape | src/action.js:14-20 | When the probe confirms exactly the first `j` versions, the branch list is their `stable<N>` names followed by `master` for the rest |
| Action.PossiblePhpVersions | src/action.js:75 | The deduplicated parsed headings of the page; characterised by Action.PossibleFromHeadings and Action.ReleasedOnPage |
| Action.ParseFloats | src/action.js:75 | `.map(parseFloat)` over the headings; characterised by Action.PageFloats |
| Action.Released | src/action.js:95 | `includes` of the version's value; characterised by Action.ReleasedOnPage and Action.WalkFacts |
| Action.PageFloats | src/action.js:74-75 | On a releases page with one-digit minors, the i-th parsed value is the i-th section's major.minor |
| Action.PossibleFromHeadings | src/action.js:44-75 | On any fetched page, every possible PHP version is the major.minor value of some release heading on that page |
| Action.ReleasedOnPage | src/action.js:75-95 | On a releases page with one-digit minors, a version counts as released exactly when some section's heading has that major and minor |
| Action.WalkFacts | src/action.js:91-98 | The walk holds exactly the released versions from the minimum to the maximum, both included, in strictly ascending order |
| Action.WalkOnce | src/action.js:91-98 | Each released version within the bounds occurs exactly once; nothing else occurs |
| Action.Walk | src/action.js:91-98 | The versions the loop keeps; characterised by Action.WalkFacts and Action.WalkOnce |
| Action.Formatted | src/action.js:96 | `toFixed(1)` of each kept version; characterised by Action.FormattedIndex |
| Action.FormattedIndex | src/action.js:96 | One one-decimal text per version, in order, the i-th being the i-th version's text |
| Action.PhpWalk | src/action.js:91-98 | The loop pushes the one-decimal text of each version of the walk, in order |
| Action.PhpVersionsExactly | src/action.js:91-98 | The emitted PHP texts are distinct, and a version's text is emitted exactly when the version lies within the bounds and was released |
| Action.Run | src/action.js:63-106 | The run succeeds exactly when the range and every lookup do; a range error or the first failed lookup ends it; otherwise each output is specified: versions, matrix, deduplicated branches, `dev-` branches, PHP bounds, the walk (empty with no records), and the first and last branch |
| Action.RunOutputs | src/action.js:84-106 | On success the PHP bounds exist exactly when the range is non-empty, and the branches are distinct, include `master` exactly when some branch is missing, and list the confirmed `stable<N>` names in version order |
| Index.Run | index.js:28-39 | Errs exactly when the range does; otherwise the versions are the integers from min to max, ascending, and the branches are the per-version branches filtered to first occurrences, so they have no duplicates, include `master` iff some version in the range is unreleased, keep `master` where it first occurs, and list the released versions' `stable<N>` names in ascending order |
| Index.RunBranchOfVersion | index.js:31-39 | Every version's branch, `stable<N>` or `master`, is among the emitted branches |

## Left out

- Network access: `urlExist` probes and the `HttpClient` fetches (src/action.js:8-12, 28-29, 42-43; index.js:7-9). Their answers are parameters. A fetch that fails is not modelled.
- Reading the manifest through `fs`, `DOMParser` and `xpath`, and the `filename` input (src/action.js:54-59; index.js:21-26). The bounds are integer inputs, so an attribute that `parseInt` turns into `NaN` is not modelled.
- `Promise.all` concurrency (src/action.js:65-73; index.js:31-37). Lookups run in version order. JavaScript reports the first rejection in time; the model reports the first failure in version order.
- `core.setOutput`, `core.setFailed`, `console.log` and `JSON.stringify`. Outputs are returned values. The `{include: ...}` wrapper of `matrix`, the one-element arrays of the min/max outputs, and the JSON `null` of an infinite bound are not modelled.
- IEEE floats in `/ 10`, `+= 0.1`, `toFixed` and `parseFloat`. Versions are exact tenths, which is what the source's rounding at src/action.js:94 emulates. The loop test at src/action.js:92 compares the unrounded `version + 0.1` with `phpMax`, so in double arithmetic the sum can overshoot `phpMax` by a rounding error and the top version can be skipped; the model always visits the top version.
- Action.LastBranch: stated only when the probe confirms a prefix of the versions (every confirmed version comes before every unconfirmed one). The source does not guarantee that shape, and for other answers `branches-max` is the branch whose first occurrence comes last, not the highest version's (Action.LastBranchOfGap).
- Action.ReleasedOnPage, Action.PageFloats, Patterns.HeadingsOfReleasesPage: stated for pages made of sections, each markup without `<h2>` followed by a release heading, then closing markup without `<h2>`; a page with an `<h2>` that holds no version is not covered, though Action.PossibleFromHeadings holds on every page. ReleasedOnPage and PageFloats are also stated only for pages whose minor numbers have one digit. With a minor of 10 or more, `parseFloat` values and tenths no longer correspond one to one.
- Patterns.ParseFloat: only text that starts with a digit is modelled. Heading captures always do (Patterns.HeadingsAreReleases), and `parseFloat` is applied to nothing else.
- JavaScript number limits: manifest bounds beyond 2^53, where `i + from` in `range` stops being exact, and the exponent form `1e+21` that `${n}` writes for magnitudes from 10^21 on, are not modelled. Decimal.IntToString and Lists.Range are stated for all integers.
- Regular expressions in general: only the three fixed patterns of the source are modelled, as scanners.
- `branches.pop()` also removes the last branch. Nothing reads the list afterwards, so only the value is modelled.
