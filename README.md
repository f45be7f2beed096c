# zotools core, modelled in Dafny

zotools is a command-line companion for a Zotero library. `sync` downloads
the library through the Zotero web API into a local JSON file. `search`
matches a regular expression against the stored items and records the
matching attachments. This project models the logic inside those commands
and proves what it promises:

- **Bootstrap sync** (`sync.dfy`, `legacy_sync.dfy`). The flat record
  listing is grouped into top-level items that hold their attachments,
  whatever the arrival order. It replaces the stored library, and `Run`
  only does this for a library at version 0. The older command has the
  same grouping loop written inline. It deletes its database and exits
  with status 1 when the fetch or the save fails.
- **API client** (`zotero.dfy`, `decimal.dfy`). The checks of one page
  request run in a fixed order, each with its own error kind, and the
  `more` rule decides whether another page follows. `AllItems` pages
  through the listing 100 records at a time. One HTTP round trip is a
  function from `(start, limit)` to a reply. `strconv.ParseUint` is a
  decimal parser, and its failures carry Go's own error message.
- **Search** (`search.dfy`, `legacy_search.dfy`).
  - Option checks, then the text normalisation: decomposition, removal of
    combining marks, and the Ø/ø/Ł/ł substitution.
  - The per-item matching policy.
  - One result entry per attachment of each match. The concurrent matcher
    jobs give the same entries as the sequential filter-then-expand, up to
    order.
  - The author line printed for each match.
  - A regular expression is an uninterpreted predicate on the normalised
    text, and compiling one is a parameter.
- **Configuration** (`config.dfy`). After decoding, each empty field adds
  its sentinel error, in field order, and the errors print as a bullet
  list.

`records.dfy` holds the stored and remote record types. `store.dfy` holds
the storage handle, whose backing file is reduced to the document it last
received. `strings.dfy` holds `strings.Join` and `strings.Split`, with
their round trips. `wrappers.dfy` holds `Option` and `Result`.

The older `cmd/zotools` files share most code with `internal/`. The
shared functions are modelled once and cited for both places. Where the
two differ, the older variant has its own member: the author line, the
database handle and its run.

## Model

| member | source | states |
|---|---|---|
| Sync.Step | internal/sync/sync.go:80-116 | one turn of the loop touches only the entry under the record's key (the parent key for an attachment); it keeps the attachments gathered there so far and an attachment record appends its own |
| Sync.Group | internal/sync/sync.go:78-117 | the grouping has an entry for exactly the keys some record is filed under |
| Sync.GroupRecords | internal/sync/sync.go:77-117 | the grouping loop builds exactly `Group(records)`, the fold of `Step` over the records; the inline loop of cmd/zotools/sync.go:54-93 is the same |
| Sync.GroupSpec | internal/sync/sync.go:77-117 | one entry per key some record is filed under; it holds all attachments for that key in arrival order, and the fields of the last top-level record with that key, or a placeholder when there is none |
| Sync.GroupKeysMembers | internal/sync/sync.go:80-117 | the keys are exactly the parent keys of attachment records and the own keys of the other records |
| Sync.AttachmentFiled | internal/sync/sync.go:80-94 | every attachment record lands, with its key, version, content type and filename, in the entry of its parent |
| Sync.LateParentKeepsAttachments | internal/sync/sync.go:96-105 | a top-level record arriving after its attachment keeps it and sets the scalar fields; the result is the same as in the other order |
| Sync.PlaceholderEntry | internal/sync/sync.go:91-93 | a parent that never arrives as a top-level record leaves an entry with only its attachments |
| Sync.ItemTypeNeverSet | internal/sync/sync.go:98-114 | the grouping never fills `itemType` |
| Sync.GroupOrderIndependent | internal/sync/sync.go:77-117 | record lists that agree on keys, per-key attachment order and last top-level record group to the same map |
| Sync.ListingCount | internal/sync/sync.go:120-123 | a listing of a map's values has one item per key |
| Sync.ListValues | internal/sync/sync.go:120-123 | the rebuilt item list holds each value of the map exactly once and nothing else, in some order of the keys (the same loop in cmd/zotools/sync.go) |
| Sync.InitSync | internal/sync/sync.go:76-124 | version set to the response's; the items list each value of the grouping once and drop the old ones; search and file untouched |
| Sync.Run | internal/sync/sync.go:55-73 | version 0: fetch, group, persist; a fetch failure kills the process with storage and file untouched; after a good fetch a failed write always kills it, with the file as the failure left it (as it was, without a decodable document after the truncation, or holding the new document when only the close failed); a library with a version is left alone and nothing is fetched or written |
| LegacySync.DB.PersistLibrary | cache/cache.go:72-82 | a successful write appends the library after what the file already held; a failed one appends no document but leaves the file torn when some bytes got out |
| LegacySync.DB.Drop | cache/cache.go:84-90 | a successful removal deletes the file |
| LegacySync.Run | cmd/zotools/sync.go:37-111 | version 0: fetch, group with the shared loop, rebuild items, write; a failed fetch drops the file with the library and file contents untouched; after a good fetch a failed write always drops it, possibly torn; the exit status is 1 exactly when a version-0 library was not both fetched and saved; a library with a version changes nothing |
| LegacySync.ExistingFileExample | cache/cache.go:40-82 | an existing version-0 database file holds two documents after a save |
| Store.Storage.Load | internal/common/storage.go:65-74 | without a file, or with one that does not decode, loading fails and changes nothing; otherwise the document becomes the file's |
| Store.Storage.Persist | internal/common/storage.go:76-86 | a successful write leaves the file holding exactly the document; a failed one leaves it as it was when nothing was written, without a decodable document when the write failed after the truncation, and holding the new document when only the close failed |
| Zotero.ErrorText | internal/zotero/zotero.go:67-72 | the kind's message alone exactly when no cause is wrapped, and always starting with it |
| Zotero.KindText | internal/zotero/zotero.go:82-105 | the status kind's message starts with "received ", every other kind's with "failed to " |
| Zotero.KindTextInjective | internal/zotero/zotero.go:82-105 | distinct error kinds print distinct messages |
| Zotero.Items | internal/zotero/zotero.go:154-201 | success exactly when status 200, both headers parse and the body decodes; `more` is `start + limit < Total-Results` once the status is right; the result carries the records and the version header; a header that does not parse is reported with `strconv.ParseUint`'s own error as the cause |
| Zotero.StatusCheckedFirst | internal/zotero/zotero.go:173-175 | a non-200 status gives `WrongStatus(200, status)`, whatever the headers and body hold |
| Zotero.TotalCheckedBeforeBody | internal/zotero/zotero.go:177-180 | an unparsable total gives `ParseHeader("Total-Results")`, whatever the body and version header hold |
| Zotero.VersionCheckedAfterBody | internal/zotero/zotero.go:186-198 | the version-header error arises exactly when the body decoded and the header does not parse |
| Zotero.MoreExamples | internal/zotero/zotero.go:182 | total 10 with limit 100 gives no more; total 100 with limit 10 gives more |
| Zotero.AllItems | internal/zotero/zotero.go:203-218 | requests at 0, 100, 200, …; every page but the last succeeded with more; the records of the successful pages in order; the last successful page's version; a failing page's error with the records gathered so far |
| Zotero.SinglePageExample | internal/zotero/zotero.go:203-218 | total 10: one request, ten records |
| Zotero.TwoPagesExample | internal/zotero/zotero.go:203-218 | total 200: two requests, twenty records |
| Decimal.ParseUint | internal/zotero/zotero.go:177 | `strconv.ParseUint(s, 10, 64)` accepts exactly the non-empty digit strings below 2^64 |
| Decimal.DigitsFailOnlyByRange | internal/zotero/zotero.go:177-179 | a non-empty digit string fails to parse only by being out of range |
| Decimal.ShortPrefixNotOutOfRange | internal/zotero/zotero.go:177-179 | with fewer than 20 leading digits a failure is a syntax error |
| Decimal.UnescapeEscape | internal/zotero/zotero.go:177-179 | the quoting of the input in the error message reads back as the input |
| Decimal.MissingHeaderError | internal/zotero/zotero.go:177-179 | a missing header fails with `strconv.ParseUint: parsing "": invalid syntax` |
| Decimal.ParseFormat | internal/zotero/zotero.go:177 | a formatted 64-bit value parses back to itself |
| Search.Substitute | internal/search/search.go:177-190 | the substitution changes exactly Ø, ø, Ł and ł, each into an ASCII letter (the same in cmd/zotools/search.go:163-176) |
| Search.Normalize | internal/search/search.go:175-197 | no combining mark and no Ø, ø, Ł or ł survives the normalisation |
| Search.NormalizeAppend | internal/search/search.go:175-197 | the normalisation works character by character |
| Search.NormalizeIsNormalized | internal/search/search.go:175-197 | normalised text has no combining mark, no barred letter and nothing left to decompose |
| Search.NormalizeIdempotent | internal/search/search.go:175-197 | normalising twice is normalising once |
| Search.PlainRun | internal/search/search.go:175-197 | text of ASCII letters and spaces, of any length, passes through unchanged |
| Search.MatchNormalized | internal/search/search.go:194-197 | the pattern is tried on the normalised text only: a text and its normalisation match alike |
| Search.MatchIgnoresAccents | internal/search/search_test.go:17 | any pattern matches "Günter Çedille" exactly when it matches "Gunter Cedille" |
| Search.NormalizeGunterCedille | internal/search/search_test.go:17 | "Günter Çedille" normalises to "Gunter Cedille" |
| Search.NormalizePolish | internal/search/search_test.go:18 | "Jan Mączyński" normalises to "Jan Maczynski" |
| Search.NormalizeUniversity | internal/search/search_test.go:19 | "University of Łódź" normalises to "University of Lodz" |
| Search.NormalizeBarredO | internal/search/search_test.go:20 | "Ø" normalises to "O" |
| Search.NormalizeAcuteO | internal/search/search_test.go:21 | "Ó" normalises to "O" |
| Search.NormalizeUmlauts | internal/search/search_test.go:22 | "ä ñ ö ü ÿ" normalises to "a n o u y" |
| Search.NormalizeRomanNumeral | internal/search/search_test.go:23 | "Henry Ⅷ" normalises to "Henry VIII" |
| Search.MatchAuthors | internal/search/search.go:199-206 | true exactly when some creator's normalised first or last name matches; false for no creators (the same in cmd/zotools/search.go:185-192) |
| Search.MatchItem | internal/search/search.go:156-168 | true exactly when the title matches, or the abstract with `-abs`, or some creator with `-auth` (the same in cmd/zotools/search.go:142-154) |
| Search.JobsAccepted | internal/search/search.go:67-70 | the job count, read back as an `int`, is accepted exactly when it lies between 1 and the number of CPUs |
| Search.PatternText | internal/search/search.go:72-79 | the pattern is `"(?i)" + search` without `-s` and exactly `search` with it |
| Search.Prepare | internal/search/search.go:61-82 | in order: an empty term is a usage error, then the job count, then a pattern that does not compile; otherwise the compiled pattern (the same checks in cmd/zotools/search.go:62-83) |
| Search.Matched | internal/search/search.go:98-110 | the matches are exactly the library items that satisfy `matchItem`: each match is such an item and each such item is a match |
| Search.MatchingIndices | internal/search/search.go:98-110 | the matching positions, in increasing order: a position is listed exactly when its item satisfies `matchItem` |
| Search.MatchedInOrder | internal/search/search.go:98-110 | the `k`-th match is the item at the `k`-th matching position, so matches keep library order and multiplicity |
| Search.MatchAll | internal/search/search.go:98-110 | the matcher jobs run one after the other keep exactly the matching items, in library order |
| Search.Collect | internal/search/search.go:120-137 | the term is the search; one entry per attachment of each match, with key and filename and no content type; the counter equals the number of attachments |
| Search.ExpandCount | internal/search/search.go:128-135 | the number of entries is the sum of the attachment counts |
| Search.ScheduleIndependent | internal/search/search.go:96-147 | however items are dealt to the jobs and their sends interleaved, the printer's entries are those of the sequential filter-then-expand, up to order |
| Search.ExpandPermutation | internal/search/search.go:120-137 | permuting the matched items permutes their entries |
| Search.PrintMatches | internal/search/search.go:118-128 | the printer panics exactly when some match with creators has a first name with an empty word |
| Search.Run | internal/search/search.go:58-154 | failures of the checks or of loading change nothing; a panicking printer ends the run with nothing saved; otherwise the stored search is the term with the entries of the matches, persisted exactly when the write succeeds, and a failed write leaves the file as `Storage.Persist` states |
| Search.InitialsPanic | internal/search/search.go:220-226 | the code as written fails exactly when some space-separated word is empty |
| Search.InitialsAsWritten | internal/search/search.go:220-226 | `authorInitials` as written panics exactly when some space-separated word is empty, and otherwise gives the corrected initials, with a word's first character standing for its first byte |
| Search.TrailingSpacePanics | internal/search/search.go:220-226 | a one-word first name followed by a space makes `authorInitials` fail |
| Search.DoubleSpacePanics | internal/search/search.go:220-226 | two spaces between words make `authorInitials` fail |
| Search.JanTrailingSpacePanics | internal/search/search.go:220-226 | "Jan " makes `authorInitials` fail |
| Search.AuthorInitials | internal/search/search.go:220-226 | the corrected loop computes the initials of the non-empty words, joined by spaces |
| Search.TrailingSpaceIgnored | internal/search/search.go:220-226 | the corrected initials ignore a trailing space |
| Search.InitialsWords | internal/search/search.go:220-226 | the initials split back at spaces into one initial per non-empty word |
| Search.AuthorsToString | internal/search/search.go:208-218 | the author line is the per-creator names joined by ", ", each the initials and a space before the last name when there is a first name |
| Search.AuthorsToStringAsWritten | internal/search/search.go:208-218 | `authorsToString` over `authorInitials` as written panics exactly when some creator's non-empty first name has an empty word, and otherwise gives the corrected line, with a word's first character standing for its first byte |
| Search.AuthorsSplit | internal/search/search.go:208-218 | without commas in the names, the line splits back at commas into one part per creator |
| LegacySearch.AuthorsToString | cmd/zotools/search.go:194-200 | the older author line is "first last" per creator, joined by ", " |
| LegacySearch.AuthorsSplit | cmd/zotools/search.go:194-200 | without commas in the names, the older line splits back into one full name per creator |
| LegacySearch.NoFirstName | cmd/zotools/search.go:194-200 | without a first name the older line keeps a leading space, the newer one does not |
| LegacySearch.Run | cmd/zotools/search.go:60-139 | failed checks or a failed cache load print nothing; otherwise the printed items are the matches |
| Config.LoadConfigReader | internal/common/config.go:60-82 | read and decode errors come first; then it fails exactly when a field is empty, listing one sentinel per empty field in field order; the decoded configuration is returned |
| Config.EmptyObjectExample | internal/common/config.go:69-80 | `{}` yields all three sentinels: key, zotero, storage |
| Config.ErrConfigText | internal/common/config.go:36-42 | the message is the "- "-prefixed error texts joined by newlines |
| Config.ErrConfigLines | internal/common/config.go:36-42 | the message splits back at newlines into one bullet per error |
| Config.SentinelOneLine | internal/common/config.go:22-30 | each sentinel text is one line |
| Strings.Split | internal/search/search.go:222 | `strings.Split` gives at least one part and no part holds the separator |
| Strings.JoinLength | internal/search/search.go:217 | `strings.Join` adds one separator between each pair of neighbours to the parts' lengths |
| Strings.JoinSplit | internal/search/search.go:220-226 | splitting then joining with the same separator gives the string back |
| Strings.SplitJoin | internal/search/search.go:208-226 | joining separator-free parts then splitting gives the parts back |

## Left out

- HTTP requests, `io.ReadAll`, `json.Marshal` and `json.Unmarshal`, and
  file I/O. A round trip is a function from `(start, limit)` to a reply.
  Storage and database files hold documents. Whether a read, write or
  removal succeeds is a parameter.
- Unicode NFKD and the `unicode.Mn` class. The decomposition table lists
  only the characters of the normalisation examples; any other character
  is its own decomposition. Marks are the block U+0300..U+036F.
- `regexp.Compile` and matching: a predicate on strings and a compile
  parameter.
- The goroutines and channels of both search commands. The model runs the
  jobs one after the other; `Search.ScheduleIndependent` covers every
  dealing and interleaving, up to order.
- Printing, colours and `MakePath`.
- `cmd/zotools/sync.go` calls the top-level `github.com/acidghost/zotools/zotero`
  client, whose source is not part of this model; `Zotero.AllItems` of
  `internal/zotero` stands for it.
- `LoadDB` and `LoadConfig`'s file opening. The `-drop` flag and the
  existence test of the newer `sync`. API-key validation (`zotero.New`).
- The `act` dispatcher, the CLI entry point and the test helpers.
- Incremental sync, which the source leaves unwritten.
- Zotero.Items: `start + limit` is summed without the 64-bit `uint` wrap,
  and `Decimal.Uint64Bound` bounds the loop of `Zotero.AllItems`.
- Search.AuthorInitials: takes the first character of a word where
  `n[:1]` takes the first byte, so a non-ASCII initial is not split
  mid-character.
- Search.InitialsAsWritten: the same first character for first byte; only
  its panic condition, an empty word, is exact.
- Search.AuthorsToStringAsWritten: the same first character for first
  byte in the line it gives; its panic condition is exact.
- Decimal.Quote: escapes quotes, backslashes, tabs, newlines and carriage
  returns; the other non-printable characters, which `strconv.Quote`
  writes as backslash escapes, are left as they are.
- Search.AuthorsToString: states the corrected author line; the run
  prints through `Search.AuthorsToStringAsWritten`, which panics as the
  source does.
- Config.LoadConfigReader: a decode error returns an empty configuration,
  not the partly decoded one.

## Findings

| source | as written | input that shows it | evidently intended | confidence | as-written member | corrected member |
|---|---|---|---|---|---|---|
| internal/search/search.go:220-226 | `n[:1]` on every word of `strings.Split(name, " ")`, which panics on an empty word | a creator whose first name is "Jan " or "Jan  Maria" | initials of the non-empty words only | not executed | Search.TrailingSpacePanics | Search.AuthorInitials |
| cache/cache.go:72-82 | `PersistLibrary` writes at the offset where `LoadDB`'s `io.ReadAll` stopped | an existing database file that holds a library at version 0 | replace the file's contents, as `Storage.Persist` does | not executed | LegacySync.ExistingFileExample | Store.Storage.Persist |
