# rsxkcd core, modelled in Dafny

rsxkcd mirrors the xkcd archive into a local SQLite table `comics` and builds a search index
over it. This project models and proves the core of that program:

- `fetch_comic` (src/request.rs) fetches one comic's JSON. It uses the same URL on every
  attempt and gives up after three failed attempts with `MaxAttemptsReached`.
- `populate_db` (src/database.rs) asks for the newest comic to learn the frontier, with 9999
  when that fails. It reads the numbers already stored, then walks `1..=frontier`. It skips
  stored numbers and 404, fetches and saves every other number, and stops at the first
  fetch that fails.
- `save_comic` builds an `INSERT` statement. It doubles every single quote in the text
  fields.
- `comic_to_terms` (src/index.rs) splits the title and transcript on runs of spaces and
  newlines. Each piece is cleaned (alphanumeric characters kept, trimmed, lowercased) and
  stemmed. The stems that are neither empty nor stop words are counted.
- `update_index` computes those counts for every comic that has no terms yet and hands
  them to `save_entries`.

Files:

- `comic.dfy` (`Comics`): the `XkcdComic` record and `U32`.
- `numerals.dfy` (`Numerals`): decimal printing and `parse::<u32>`.
- `request.dfy` (`Request`): URLs and the retry loop.
- `database.dfy` (`Database`): escaping, the `INSERT` and its row, reading the stored
  numbers, and the `populate_db` method with its scan.
- `sync.dfy` (`Sync`): lemmas about what one scan does and what the next scan does.
- `terms.dfy` (`Terms`): splitting, cleaning, stop words and histograms.
- `index.dfy` (`Index`): `comic_to_terms` and `update_index`.

The outside world enters as parameters:

- The remote is `server(url, k)`: what `get_json(url)` answers on attempt `k` of one
  `fetch_comic` call.
- SQLite's verdict on a statement is `execute(statement)`.
- The Porter stemmer is `stem`.
- `load_comics_with_no_terms` is a `LoadResult` value.
- `save_entries` is a function giving the result of each call.

The `comics` table is the `rows` field of a `Connection` object, which `SaveComic` extends
in place.

## Model

| member | source | states |
|---|---|---|
| Numerals.Decimal | src/request.rs:22 | the decimal text of a number is a non-empty run of digits, with a leading `0` only for zero |
| Numerals.DecimalValue | src/request.rs:22 | reading the printed digits back as a decimal number gives the number |
| Numerals.ParseU32 | src/database.rs:75 | a string that parses is non-empty and starts with a digit or `+` |
| Numerals.ParseDecimal | src/database.rs:75 | a number stored by `save_comic` (printed in decimal) parses back with `parse::<u32>` to that same number |
| Numerals.DecimalInjective | src/request.rs:22 | different numbers have different decimal texts |
| Request.ComicUrl | src/request.rs:20-23 | index 0 and only index 0 gives the latest-comic URL; any other index gives `https://xkcd.com/<index>/info.0.json` |
| Request.ComicUrlInjective | src/request.rs:20-23 | two different indices never share a URL |
| Request.FetchComic | src/request.rs:17-44 | the loop asks the same URL on each attempt, between 1 and 3 times. Every attempt before the last one failed. A success returns the last attempt's comic. A failure comes after exactly 3 attempts and carries the index and the third attempt's error. The result equals `FetchOutcome` |
| Request.FetchFrom | src/request.rs:24-43 | a fetch that gives up does so only when the third attempt failed, and its error is `MaxAttemptsReached` with the index and that attempt's error |
| Request.FetchFromSucceeds | src/request.rs:24-43 | from a given attempt on, the fetch succeeds iff some remaining attempt is answered, and then it returns the comic of the first answered attempt |
| Request.FetchFromFails | src/request.rs:27-39 | a failed fetch means every remaining attempt failed, and its error is `MaxAttemptsReached` with the index and the last attempt's error |
| Request.FetchOutcomeSpec | src/request.rs:17-44 | `fetch_comic(index)` succeeds iff one of the three attempts at its URL is answered; on failure the error carries the third attempt's error |
| Database.Escape | src/database.rs:121-131 | escaping lengthens a field by exactly its number of single quotes |
| Database.EscapeRoundTrip | src/database.rs:121-131 | every quote of an escaped field is paired, so it cannot close the SQL literal early, and undoing the doubling restores the field |
| Database.UnescapeRoundTrip | src/database.rs:121-131 | every string whose quotes are paired is the escaping of exactly one string, so escaping is onto the paired strings |
| Database.LiteralKeepsText | src/database.rs:119-131 | each quoted literal of the `INSERT` reads back as exactly the field it was built from, quotes included |
| Database.InsertStatementInjective | src/database.rs:117-132 | the `INSERT` statement determines the comic: different comics give different statements, so no field's text, quotes included, can spill into another column |
| Database.ValuesTextInjective | src/database.rs:119-132 | the VALUES list, each value followed by `, ` or the closing `)`, determines the values |
| Database.RenderThenText | src/database.rs:120-131 | a quoted field or a bare number followed by `,` or `)` ends where its value ends, so the value and what follows are both determined |
| Database.LiteralThenText | src/database.rs:120-131 | a quoted field followed by anything but a quote ends at its closing quote: the field and the rest are determined |
| Database.EscapeThenClose | src/database.rs:121-131 | an escaped field followed by a lone quote is determined, and so is the text from that quote on |
| Database.DecimalThenText | src/database.rs:120-128 | the printed number followed by a non-digit ends at its last digit: the number and the rest are determined |
| Database.SaveComic | src/database.rs:116-137 | a statement that SQLite accepts appends the comic's row; a rejected one leaves the table unchanged (the error is only logged) |
| Database.InsertedRowsStep | src/database.rs:102 | one more `save_comic` call adds that comic's row, and only when its insert succeeds |
| Database.InsertedRowsMembers | src/database.rs:102 | the rows added by a sequence of saves are exactly the rows of the comics whose inserts succeeded |
| Database.NumColumn | src/database.rs:72 | the queried column has one value per row, each that row's `num` |
| Database.Distinct | src/database.rs:72 | `SELECT DISTINCT` keeps every value that occurs, and only those, with no value twice |
| Database.CollectedMembers | src/database.rs:73-79 | for any parser of the column values, a number is collected iff some value parses to it |
| Database.ParsedIdsMembers | src/database.rs:73-79 | a number is collected iff some returned value is non-NULL text that parses as a `u32` to it |
| Database.LoadFoundComics | src/database.rs:68-83 | the loop over the query result collects, in order, the numbers of exactly the values that parse |
| Database.FoundIdsMembers | src/database.rs:68-83 | a number is among the found comics iff some stored row's `num` parses to it |
| Database.FoundAfterInsert | src/database.rs:72-79 | after saving comics, the stored numbers are the old ones plus the numbers of the comics whose inserts succeeded |
| Database.PopulateDb | src/database.rs:57-114 | the frontier is the newest comic's number, or 9999 if that fetch fails. The run requests exactly the ids of the scan and saves exactly its fetched comics, in order. The table gains the rows of the accepted inserts. The closing report is the halting id and error, or the count of stored numbers and of saved comics |
| Database.FrontierSpec | src/database.rs:58-67 | the frontier is the number of the comic that the first answered request for the newest comic returns, and 9999 when all three requests fail |
| Database.RunFrom | src/database.rs:85-101 | a scan of `i..=frontier` requests at most one id per number of the range |
| Database.ScanAndSave | src/database.rs:84-113 | the loop over `1..=frontier` does what the scan specification `RunFrom` prescribes: requests, saves, new table and report |
| Database.FetchedStep | src/database.rs:95-103 | a fetched candidate is requested and saved before the rest of the scan |
| Database.FailedStep | src/database.rs:95-100 | a failed candidate is the last request, and the scan stops there with that error |
| Database.SavedStep | src/database.rs:102 | saving one more comic extends the table by that comic's accepted row |
| Sync.RunRequests | src/database.rs:85-94 | every requested id lies in the scanned range and is neither stored nor 404, and the ids are requested in strictly ascending order |
| Sync.RunLengths | src/database.rs:94-103 | one id is requested per saved comic, plus the failing id when the scan halts |
| Sync.RunFetchedAt | src/database.rs:95-103 | the k-th saved comic is what fetching the k-th requested id returned |
| Sync.RunFetchedOutcomes | src/database.rs:95-103 | every saved comic is what fetching the id requested at the same position returned |
| Sync.RunHaltLast | src/database.rs:95-100 | a halted scan ends with the id it halts at |
| Sync.RunHaltError | src/database.rs:95-100 | the recorded halt error is the error of fetching the halting id |
| Sync.RunFetches | src/database.rs:94-103 | requests, saved comics and the halt agree: each save pairs with its fetch, and a halt is the failing last request |
| Sync.RunCovers | src/database.rs:85-101 | no candidate is passed over: every id in range that is neither stored nor 404 is requested, unless the scan halted below it |
| Sync.RunQuiet | src/database.rs:85-93 | with no candidate in range, the scan requests nothing and does not halt |
| Sync.RunStartsAt | src/database.rs:85-94 | the first request is the smallest candidate |
| Sync.SyncRequests | src/database.rs:57-101 | one `populate_db` call requests only ids in `1..=frontier` that are neither stored nor 404, in ascending order. It requests every such id up to the one it halts at |
| Sync.SyncSaves | src/database.rs:57-103 | one `populate_db` call saves, in order, the comics its successful fetches returned. A halted call ends with the id whose fetch failed |
| Sync.NothingAfterHalt | src/database.rs:95-100 | every id requested before the failing one is smaller than it, so nothing at or above it is fetched |
| Sync.ServesOwnNumbersWithNewest | src/database.rs:58-67 | the premise of the lemmas below leaves index 0 free: a remote that answers the newest comic, numbered 2900, for index 0 satisfies it, with frontier 2900 |
| Sync.SecondRunFetchesNothing | src/database.rs:68-104 | assume the remote serves each comic under its own number. After a call that did not halt and whose inserts all succeeded, a second call requests nothing |
| Sync.NextRunResumesAtHalt | src/database.rs:68-100 | after a call that halted, with its comics stored, the next call's first request is the id it halted at |
| Sync.BelowHaltStored | src/database.rs:68-103 | once a halted call's comics are stored, no candidate remains below the halting id |
| Sync.RunFetchesBelowHalt | src/database.rs:85-103 | a halted scan has fetched a comic for every candidate below the halting id |
| Sync.FetchedBelowHalt | src/database.rs:85-103 | a candidate below the halting id was fetched by the scan |
| Sync.HaltNotStored | src/database.rs:95-103 | the halting id is at least 1 and is still missing from the table after the call's comics are stored |
| Terms.DropSeparators | src/index.rs:24 | drops exactly the leading run of spaces and newlines, leaving a suffix that starts with another character |
| Terms.Split | src/index.rs:156 | a split always yields at least one piece |
| Terms.SplitPiecesHaveNoSeparator | src/index.rs:24 | no piece of the split contains a space or a newline |
| Terms.SplitKeepsText | src/index.rs:156 | the pieces, joined, are the input with every space and newline removed: splitting loses only separators |
| Terms.SplitJoin | src/index.rs:156 | the pieces joined with single spaces are the input with each run of spaces and newlines made one space, so the pieces end exactly at the runs |
| Terms.SplitUnique | src/index.rs:156 | the split is the only list of separator-free pieces whose single-space join is that collapsed input |
| Terms.JoinInjective | src/index.rs:156 | two lists of separator-free pieces with the same single-space join are equal |
| Terms.ToLower | src/index.rs:162 | a lowercased character is not uppercase and is alphanumeric iff the original was |
| Terms.KeepAlphanumericShape | src/index.rs:158-160 | the filter keeps a character iff it is alphanumeric, and never lengthens the token |
| Terms.LowercaseShape | src/index.rs:162 | lowercasing maps each character in place and keeps the length |
| Terms.TrimKeepsAlphanumeric | src/index.rs:161 | trimming an all-alphanumeric token changes nothing |
| Terms.LowercaseKeepsLower | src/index.rs:162 | lowercasing a token with no uppercase letter changes nothing |
| Terms.KeepAllAlphanumeric | src/index.rs:159-160 | filtering an all-alphanumeric token changes nothing |
| Terms.Clean | src/index.rs:157-163 | a cleaned token holds only lowercase alphanumeric characters and is no longer than the token |
| Terms.CleanShape | src/index.rs:157-163 | the trim step never changes anything: cleaning is filtering then lowercasing. Cleaning twice is cleaning once |
| Terms.IsStopWord | src/index.rs:25-153 | every stop word has between 1 and 10 characters, so the empty stem is never a stop word |
| Terms.CountedPrefix | src/index.rs:164-172 | the first `n` tokens contribute at most `n` terms |
| Terms.CountedPrefixStep | src/index.rs:166-172 | a token adds its stem iff the stem is neither empty nor a stop word |
| Terms.HistogramStep | src/index.rs:166-171 | one token raises its stem's count by one (entering at 1) when counted, and leaves the map unchanged otherwise |
| Terms.CountedPrefixKept | src/index.rs:166-171 | no counted term is empty or a stop word |
| Terms.TokenCountZero | src/index.rs:154 | before any token, every term has count 0 |
| Terms.CountedPrefixCountStep | src/index.rs:170-171 | a term's occurrences grow by one exactly when the next token normalises to it |
| Terms.IndexSetStep | src/index.rs:166-171 | a term's token count grows by one exactly when the next token normalises to it |
| Terms.CountMatchesStep | src/index.rs:166-171 | if the term's occurrences match its token count before a token, they match after it |
| Terms.CountedPrefixCount | src/index.rs:164-172 | each term occurs among the counted stems as often as there are tokens that normalise to it |
| Terms.MultisetAppend | src/index.rs:171 | appending a term adds one occurrence of it and of nothing else |
| Terms.HistogramAppend | src/index.rs:171 | counting one more occurrence of a term raises its count by one, entering at 1 |
| Terms.HistogramCounts | src/index.rs:171 | the keys of the histogram are exactly the distinct terms, each mapped to its number of occurrences, at least 1 |
| Terms.HistogramSum | src/index.rs:171 | the counts of the histogram add up to the number of terms counted |
| Index.CountTokens | src/index.rs:154-174 | the loop over the pieces builds the histogram of the counted stems. Every key is a non-empty non-stop-word stem with count at least 1 |
| Index.ComicToTerms | src/index.rs:23-175 | the term map of a comic is the histogram of the counted stems of its title and transcript joined by a space. Every key is a non-empty non-stop-word stem with count at least 1 |
| Index.TermCountsMeaning | src/index.rs:154-174 | a term's count is the number of pieces of the split whose cleaned stem is that term. Every key is non-empty, not a stop word, and counted at least once |
| Index.TermCountsTotal | src/index.rs:156-172 | the counts of a comic add up to at most the number of pieces of the split |
| Index.UpdateIndex | src/index.rs:8-21 | a load failure panics without saving. Otherwise every loaded comic, in order, has its term map computed and passed to `save_entries` exactly once, and a failed save does not stop the loop |

## Left out

- `initialize_db` (opening the file and creating the table) is not modelled: it is setup I/O with no logic beyond panicking on errors.
- src/main.rs, src/search.rs and src/logging.rs are not part of this model. Log calls are dropped, except the closing report of `populate_db` and the save results of `update_index`, which the model returns.
- `get_json` (HTTP and JSON decoding) is the `server` parameter. Its errors are opaque `HttpError` values.
- Request.FetchComic: the attempt number counts from 0 within one call. The model does not capture a remote whose answers change between calls for the same index, except where a lemma takes a second `server`.
- The async runtime is not modelled; the calls are taken in program order.
- The Porter stemmer is the parameter `stem`. No property of the stemmer itself is assumed or proved.
- `load_comics_with_no_terms` and `save_entries` are not part of this model. They enter as a `LoadResult` value and as a function giving each call's result.
- Terms.IsAlphanumeric: Rust's `char::is_alphanumeric`, `trim` and `to_lowercase` are Unicode-aware. The model treats ASCII letters and digits as alphanumeric, ASCII whitespace as trimmable, and lowercases only `A`-`Z`.
- Index.CountTokens: the term counts are unbounded integers, while the source's `i32` counter would overflow past 2^31 - 1 occurrences of one term in one comic.
- Terms.IsStopWord: the stop-word array is modelled as set membership, which is what `contains` decides.
- Database.Distinct: SQLite does not promise an order for `SELECT DISTINCT`. The model takes first-occurrence order, and only membership of the found numbers is used.
- Database.ScanAndSave: the `for` loop over `1..=frontier` is a `while` loop with the same bounds. A frontier of 0 scans nothing, as in the source.
- Sync.SecondRunFetchesNothing, Sync.NextRunResumesAtHalt, Sync.BelowHaltStored and Sync.HaltNotStored require that the remote serve each comic from 1 on under its own number. Index 0 is exempt, since it names the newest comic. The source does not check this.
- The `.unwrap()` on the `SELECT DISTINCT num` query (src/database.rs:82) panics when SQLite reports an error. The model assumes the query succeeds and does not model that panic.
