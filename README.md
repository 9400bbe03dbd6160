# hsync and the message search core, in Dafny

This project models two parts of project-violet:

- **hsync** (`hsync/hsync/Command.cs`) is the command-line database synchroniser.
- **fast-search-rs** (`violet-message-search-core/fast-search-rs/src/message.rs`) is the in-memory search over messages that were OCR'd from gallery pages.

From hsync the model covers five things:

- **Command dispatch.** `Start` picks one action from the parsed options. `ProcessStart` and `ProcessCompress` each produce a sequence of steps.
- **The `_ggg` escaper.** It turns text into the body of a MySQL double-quoted literal. The model proves that the literal reads back as the original text.
- **Building the INSERT statements of `init-server`.** Each one reads back as the rows it was built from.
- **The paged, fail-fast upload loops of `init-server`.** The MySQL server is an oracle: it either executes and commits a statement or throws.
- **The E-Hentai inverse table.** Each key is a 64-bit long, `(id << 40) + token`. The id and token come from an archive URL or a database row. Parsing follows `Convert.ToInt64` in base 10 and base 16, including its error cases.

From the message search the model covers four things:

- **Query normalisation.** This is Hangul disassembly followed by removing Unicode white space.
- **The search.** It filters the messages, scores them, sorts them stably by score and then by OCR correctness, both descending, and takes the top `take`.
- **The message store.** Loading appends to it.
- **The two entry points.** They differ only in the scorer they pass.

Modules:

| file | what it holds |
|---|---|
| `Wrappers.dfy` | `Option` and `Result` |
| `Arith.dfy` | small facts about division and multiplication used by the paging proofs |
| `Paging.dfy` | `LIMIT perLoop OFFSET i` pages of a table, and how they cover it |
| `SqlLiteral.dfy` | `_ggg` and MySQL's reading of a double-quoted literal |
| `ArticleRows.dfy` | the row type, the rendering of `eharticles` and `article_pages` tuples, and a lexer for the VALUES list |
| `InverseIndex.dfy` | 64-bit key packing, `string.Split`, `Convert.ToInt64`, and the two loops that build the inverse table |
| `ServerLoad.dfy` | `_initServerArticlePages`, `_initServerArticles` and `ProcessInitServer` |
| `Dispatch.dfy` | `Start`, `ProcessStart` and `ProcessCompress` |
| `MessageSearch.dfy` | `convert_query`, `search`, the ranking sort and the message store |

## Model

| member | source | states |
|---|---|---|
| SqlLiteral.GggIsCharwise | hsync/hsync/Command.cs:575-579 | The four chained `Replace` calls act as one character-by-character escape: backslash becomes `\\` and quote becomes `\"`. The full-width backslash and quote become the same pairs. |
| SqlLiteral.GggIdentity | hsync/hsync/Command.cs:576-578 | Text without a backslash, a quote or their full-width forms passes through `_ggg` unchanged. |
| SqlLiteral.EscapeRoundTrip | hsync/hsync/Command.cs:578 | The output of `_ggg` is a well-formed literal body: every backslash starts an escape pair and no quote stands alone. MySQL decodes it to the input with the full-width forms folded to ASCII. |
| SqlLiteral.NormalizeIdentity | hsync/hsync/Command.cs:578 | If the text has no full-width backslash or quote, the escape round trip gives back exactly the original text. |
| SqlLiteral.GggFieldRoundTrip | hsync/hsync/Command.cs:609-611 | `"` + `_ggg(x)` + `"` is exactly one MySQL literal. It ends at the quote written after it and decodes to the (folded) text. A null value decodes to the empty string. |
| ArticleRows.ArticleTupleRoundTrip | hsync/hsync/Command.cs:609-611 | An `eharticles` tuple lexes back to the row's fifteen column values, in column order, and consumes exactly the tuple. |
| ArticleRows.InsertArticlesRoundTrip | hsync/hsync/Command.cs:606-611 | A page's INSERT statement starts with the fixed column list. Its VALUES part reads back as the values of the page's rows, one tuple per row, in order. |
| ArticleRows.PagesTupleRoundTrip | hsync/hsync/Command.cs:553-554 | An `article_pages` tuple reads back as the row's Id and Files, as two numbers. |
| ArticleRows.InsertArticlePagesRoundTrip | hsync/hsync/Command.cs:553-554 | For a non-empty table, the `article_pages` statement is its header followed by a VALUES list that reads back as exactly one (Id, Files) pair per row, in table order. The query has no ORDER BY, so that order is SQLite's scan order. |
| Paging.PagesCover | hsync/hsync/Command.cs:592-594 | The pages read by `for (i = 0; i < count; i += perLoop)` with `LIMIT perLoop OFFSET i` concatenate to the whole table, in order. |
| Paging.PagesCount | hsync/hsync/Command.cs:592 | The loop reads ceil(count / perLoop) pages. |
| Paging.CounterStaysInt | hsync/hsync/Command.cs:444 | Up to 2,147,450,000 rows, every `i += perLoop` step stays inside the C# `int` range, so the unbounded counter of the model is exact. |
| Paging.CounterWraps | hsync/hsync/Command.cs:444 | With one row more, the counter passes the guard at 2,147,450,000 and then wraps to a negative value that passes it again. |
| Paging.PageAt | hsync/hsync/Command.cs:592-594 | Page k starts at row k * perLoop. It is non-empty and holds at most perLoop rows. |
| Paging.PagesPrefix | hsync/hsync/Command.cs:592-594 | The first k pages are exactly the first min(k * perLoop, count) rows. |
| InverseIndex.Wrap64 | hsync/hsync/Command.cs:435 | Unchecked long arithmetic always yields a long, and leaves values already in range unchanged. |
| InverseIndex.PackKeyUnpacks | hsync/hsync/Command.cs:435 | For an id below 2^23 and a token below 2^40, `(id << 40) + token` does not wrap and is non-negative. Dividing the key by 2^40 gives the id and the remainder gives the token. |
| InverseIndex.PackKeyInjective | hsync/hsync/Command.cs:453 | Within those bounds, different (id, token) pairs get different keys. |
| InverseIndex.PackKeyTokenSpills | hsync/hsync/Command.cs:434-435 | A token of 2^40 or more is not rejected. It carries into the id bits, so it collides with the key of the next id. |
| InverseIndex.PackKeyIdWraps | hsync/hsync/Command.cs:435 | An id of 2^24 is shifted out entirely, so its key collides with id 0. |
| InverseIndex.PackKeyGoesNegative | hsync/hsync/Command.cs:435 | An id of 2^23 reaches the sign bit, so its key is negative. |
| InverseIndex.SplitCount | hsync/hsync/Command.cs:433-434 | `Split('/')` returns one more part than there are separators. |
| InverseIndex.SplitPieces | hsync/hsync/Command.cs:433-434 | No part returned by `Split('/')` contains the separator. |
| InverseIndex.SplitJoin | hsync/hsync/Command.cs:433-434 | Joining the parts with the separator gives back the URL. |
| InverseIndex.ParseInt64 | hsync/hsync/Command.cs:433 | Base-10 `Convert.ToInt64` either returns a long or fails with a format error or an overflow. |
| InverseIndex.ParseInt64Outcomes | hsync/hsync/Command.cs:433 | After trimming white space and one sign, text with no digits or with a non-digit is a format error. Digits whose signed value is not a long overflow. Otherwise the signed value is returned, and these cases are exhaustive. |
| InverseIndex.ParseIntText | hsync/hsync/Command.cs:433 | The decimal text of any long parses back to that long. |
| InverseIndex.ParseHex64 | hsync/hsync/Command.cs:434 | Base-16 `Convert.ToInt64` returns a long when it succeeds. |
| InverseIndex.ParseHex64Outcomes | hsync/hsync/Command.cs:434 | Base-16 `Convert.ToInt64` has these outcomes. The empty string is out of range and a leading '-' is an argument error. Digits worth 2^64 or more overflow before any trailing junk is looked at. No digits, or junk after them, is a format error. It succeeds exactly when, after an optional '+' and "0x", the rest is all hex digits below 2^64. The value comes back as the long with the same 64 bits. |
| InverseIndex.HexSignBit | hsync/hsync/Command.cs:434 | Hex digits worth from 2^63 up to 2^64 parse to the negative long with the same bits, value - 2^64. |
| InverseIndex.TenDigitToken | hsync/hsync/Command.cs:434-435 | A gallery token of one to ten hex digits parses to its value, which is below 2^40 and so stays clear of the id bits. |
| InverseIndex.ArchiveKey | hsync/hsync/Command.cs:432-435 | The key of one archive URL, when there is one, is a long. |
| InverseIndex.GalleryUrlParts | hsync/hsync/Command.cs:433-434 | In a `scheme//host/g/id/token/` URL, part 4 is the id and part 5 is the token. |
| InverseIndex.GalleryUrlKey | hsync/hsync/Command.cs:430-435 | A well-formed gallery URL `scheme//host/g/id/token/` yields a non-negative key whose quotient by 2^40 is the id and whose remainder is the token, so the key is exactly id * 2^40 + token. |
| InverseIndex.CollectKeysSucceeds | hsync/hsync/Command.cs:430-436 | If no input throws, the index holds the key of every input that has one, in input order. |
| InverseIndex.CollectKeysFails | hsync/hsync/Command.cs:448-454 | The run fails with exactly the exception of the first input that throws. |
| InverseIndex.CollectKeysStops | hsync/hsync/Command.cs:444-455 | Once an input has thrown, the later inputs change nothing. |
| InverseIndex.ArchiveKeysSpec | hsync/hsync/Command.cs:428-436 | If every archive URL parses, the index has one key per gallery, each at its gallery's position. |
| InverseIndex.DatabaseKeysSpec | hsync/hsync/Command.cs:444-455 | The table index succeeds if and only if every non-null EHash parses. On success it holds one key per hashed row, in Id order: `(Id << 40) + hash`. Rows with a null EHash are skipped. |
| InverseIndex.ArchiveIndex | hsync/hsync/Command.cs:426-436 | The archive `foreach` computes the archive index, or stops at the first exception. |
| InverseIndex.DatabaseIndex | hsync/hsync/Command.cs:438-456 | The nested page and row loops compute the table index, or stop at the first exception. |
| ServerLoad.InitServerArticles | hsync/hsync/Command.cs:581-638 | One statement per page is sent. If the server accepts every page, all of them are committed. Otherwise every statement up to the first refusal is sent, the statements before it are committed, and nothing after it is sent. |
| ServerLoad.UploadPages | hsync/hsync/Command.cs:592-622 | The page loop gives the same fail-fast guarantee for any statement builder: every statement up to the first refusal is sent, only the ones before it are committed, and nothing after it is sent. |
| ServerLoad.AbortedKeepsPrefix | hsync/hsync/Command.cs:592-622 | After an abort at page k, the server holds exactly the first k * perLoop rows in Id order. The rows never sent are the rest of the table after page k. |
| ServerLoad.CompletedCoversTable | hsync/hsync/Command.cs:592-613 | A completed upload sends every row exactly once, in ceil(count / perLoop) transactions of at most perLoop rows each. |
| ServerLoad.OutcomeIsFirstRefusal | hsync/hsync/Command.cs:612-622 | The outcome is decided by the first statement the server refuses: the upload aborts there, with exactly the earlier pages committed. |
| ServerLoad.InitServerArticlePages | hsync/hsync/Command.cs:536-573 | One statement is sent. For a non-empty table it reads back as every row's (Id, Files) pair, in order (`ArticleRows.InsertArticlePagesRoundTrip`). It is committed exactly when the server executes it, and a failure is swallowed. |
| ServerLoad.ProcessInitServer | hsync/hsync/Command.cs:530-534 | The page counts are uploaded, then the articles. Once the connection is open and the transaction begun, the article upload runs whatever the server did with the page counts. |
| Dispatch.Dispatch | hsync/hsync/Command.cs:107-175 | The chosen action carries the options its branch passes on. The error branch prints the error message, followed by the help message when there is one. |
| Dispatch.DispatchTakesFirstFlag | hsync/hsync/Command.cs:115-172 | Exactly one branch runs. It is the first in chain order whose option is set, or "nothing to work on" when none is set. |
| Dispatch.StartShadowsLaterOptions | hsync/hsync/Command.cs:140-162 | When start is chosen, changing compress, the table builders, init-server or the error flag does not change the action. |
| Dispatch.DefaultRunsStart | hsync/hsync/Command.cs:69-71 | With every option at its default, `start` (default true) runs a full, non-sync-only synchronisation. |
| Dispatch.SyncOnlyStopsBeforeExtraction | hsync/hsync/Command.cs:266-304 | With sync-only set, ProcessStart creates no database creator and integrates and extracts nothing. |
| Dispatch.StartIsSyncThenCompress | hsync/hsync/Command.cs:239-359 | Without sync-only, ProcessStart is its sync-only run followed by exactly the steps of ProcessCompress. |
| Dispatch.ServerFlushOnlyWhenAsked | hsync/hsync/Command.cs:296-302 | The flush to the server database happens if and only if low-performance mode and use-server are both set. |
| Dispatch.DownloadsOnlyMissing | hsync/hsync/Command.cs:250-260 | A data file is downloaded, from the release URL, if and only if full mode needs it and it is missing. |
| MessageSearch.StripWhitespace | violet-message-search-core/fast-search-rs/src/message.rs:78 | The retained query contains no Unicode white space. |
| MessageSearch.StripKeepsText | violet-message-search-core/fast-search-rs/src/message.rs:78 | Every non-white-space character of the disassembled query is kept as often as it occurs. |
| MessageSearch.StripIdentity | violet-message-search-core/fast-search-rs/src/message.rs:78 | A query without white space is unchanged by `retain`. |
| MessageSearch.ConvertQuery | violet-message-search-core/fast-search-rs/src/message.rs:76-80 | The converted query is the disassembled query with its white space removed. |
| MessageSearch.SortRanked | violet-message-search-core/fast-search-rs/src/message.rs:91-97 | The sort is a permutation of the scored candidates. |
| MessageSearch.SortRankedOrdered | violet-message-search-core/fast-search-rs/src/message.rs:91-97 | Sorted results are ordered by score descending, and by OCR correctness descending among equal scores. |
| MessageSearch.SortRankedStable | violet-message-search-core/fast-search-rs/src/message.rs:91 | The sort is stable: entries with equal score and correctness keep their input order. |
| MessageSearch.Candidates | violet-message-search-core/fast-search-rs/src/message.rs:83-89 | The candidates are exactly the messages the scorer's filter accepts, each paired with its similarity score. |
| MessageSearch.AcceptedFrom | violet-message-search-core/fast-search-rs/src/message.rs:85 | The positions the filter accepts, strictly increasing, every accepted position included and no other. |
| MessageSearch.CandidatesAccepted | violet-message-search-core/fast-search-rs/src/message.rs:83-89 | There is one candidate per accepted message, duplicates included, in store order. The k-th candidate is the k-th accepted message with its similarity. |
| MessageSearch.SearchResults | violet-message-search-core/fast-search-rs/src/message.rs:82-110 | `search` returns min(take, accepted) results. Each is built from an accepted message, with its id, page, correctness and rectangle copied and its score equal to the similarity. The results are ranked. As a multiset they are contained in the records of the candidates, so no candidate is returned more often than it occurs. |
| MessageSearch.SearchTopK | violet-message-search-core/fast-search-rs/src/message.rs:91-101 | Every accepted message that ranks strictly above a returned result is itself returned. |
| MessageSearch.MessageStore.constructor | violet-message-search-core/fast-search-rs/src/message.rs:13 | The store starts empty. |
| MessageSearch.MessageStore.LoadMessages | violet-message-search-core/fast-search-rs/src/message.rs:53-60 | Loading appends the file's messages, in order, after those already held. |
| MessageSearch.MessageStore.SearchStore | violet-message-search-core/fast-search-rs/src/message.rs:82-110 | Searching the store is `search` over the messages it holds, and changes nothing. |
| MessageSearch.MessageStore.SearchQuery | violet-message-search-core/fast-search-rs/src/message.rs:62-74 | `search_similar` and `search_partial_contains` search with the scorer built from the converted query. |
| MessageSearch.LoadKeepsOldMessages | violet-message-search-core/fast-search-rs/src/message.rs:56-59 | After a load the candidates are the old contents' candidates, in their old order, followed by those of the new messages. |

## Left out

- I/O and side effects are not modelled: file existence checks and reads, JSON (de)serialisation, the SQLite queries themselves, `download_data`, console output, `Console.Clear`/`Title`, `PrintHelp`, `PrintVersion` and `Settings.Recover`/`Save`. The SQLite table is a sequence of rows in Id order. Which data files are present is a set parameter.
- The MySQL server is assumed to run with neither `NO_BACKSLASH_ESCAPES` nor `ANSI_QUOTES` in `sql_mode`. The literal reader in `SqlLiteral` is MySQL's reading of a double-quoted string under that mode.
- The MySQL server is a deterministic oracle from statement text to success. Opening the connection, its failure, `Close` and `using` disposal are not modelled. In `_initServerArticles` the early `return` leaves the failed transaction uncommitted, so it never commits; the unreachable `Rollback` after that `return` has no counterpart.
- The printing of the failed page's tuples before that return is not modelled.
- The synchroniser and database-creator classes (`Syncronizer`, `SyncronizerLowPerf`, `DataBaseCreator`, `DataBaseCreatorLowPerf`), `CommandLineParser`, `CommandLineUtil` and `HitomiColumnModel` are not part of this model. Their calls are recorded as steps with their arguments. Which class is constructed is recorded too: the `lowPerf` argument of the `NewSyncronizer` and `NewDataBaseCreator` steps.
- The field types of `HitomiColumnModel` are inferred from their use: Id and Files as 32-bit ints, Published as a nullable date, and ExistOnHitomi as a bool, which interpolation writes as `True` or `False`. The date's fields are unconstrained naturals, so dates `DateTime` cannot hold are allowed, such as year 10000 or month 13. Such a date renders with a five-digit year or a month of 13 instead of being impossible.
- The positional `false` that full mode passes to `DataBaseCreator.ExtractRawDatabase` is not recorded, because its meaning lies in the unmodelled class.
- `Dispatch.StartShadowsLaterOptions`: `start` defaults to true (Command.cs:69). Whether the parser leaves it set when other options are given is decided in `CommandLineParser`, which is not part of this model. The lemma therefore assumes that start was chosen, rather than proving when it is.
- `ProcessRelatedTagTest`, `ProcessCharacterTest` and `ProcessSeriesTest` bodies are not modelled. Dispatch records only which one runs and with what arguments.
- `ProcessCreateDateTimeEstimator` (polynomial regression over floating-point dates) is not modelled.
- The writing of `invtable.json` is not modelled. The model stops at the key list.
- A null archive URL is not modelled. `url` is always a string.
- `Convert.ToInt64`: the model does not cover trailing NUL characters or culture-specific sign symbols in the decimal parse.
- `_ggg`: the UTF-8 encode/decode pair is the identity on Dafny strings, which hold only Unicode scalar values. The effect of unpaired UTF-16 surrogates, which .NET turns into U+FFFD, is not modelled.
- `ArticleRows.ArticleTupleRoundTrip` is weaker than the hoped-for round trip: it requires that EHash holds no backslash or quote. The source interpolates EHash without `_ggg` (Command.cs:610), so such a hash would break the literal.
- `ArticleRows.InsertArticlesRoundTrip` carries the same EHash requirement. It also needs a non-empty page, which every page of the loop is (`Paging.PageAt`).
- `ArticleRows.FormatDateTime` renders Published in the invariant culture: four-digit year, '-' and ':' as literal characters, the Gregorian calendar. In .NET the ':' of a custom format is the current culture's time separator and the calendar is the culture's, so on another culture the text differs. The culture is not modelled.
- `ServerLoad.ProcessInitServer` assumes that `conn.Open()`, `CreateCommand()` and `conn.BeginTransaction()` succeed. They lie outside the `try` (Command.cs:543-546 and 590-599). If one throws in `_initServerArticlePages`, the exception leaves `ProcessInitServer` before the article upload starts. If one throws in `_initServerArticles`, the upload stops there with the earlier pages committed, and the exception leaves `ProcessInitServer`.
- The paging walks (`Paging`, `ServerLoad.UploadPages`, `InverseIndex.DatabaseIndex`) use an unbounded counter. In the source, `count` and the loop counter are C# `int`s (Command.cs:441-444 and 584-592). The paging claims (`Paging.PagesCount`, `ServerLoad.CompletedCoversTable`, `ServerLoad.AbortedKeepsPrefix`) therefore hold only for at most 2,147,450,000 rows (`Paging.CounterStaysInt`). With more rows the counter wraps and the loop goes on with a negative OFFSET (`Paging.CounterWraps`). That case is not modelled.
- The `article_pages` query (Command.cs:539) has no ORDER BY. The model takes its rows in table order, which assumes that SQLite scans the table by its rowid alias `Id`.
- An empty table gives an `article_pages` statement with no tuples. The model sends it like any other, and leaves to the oracle whether the server accepts it.
- Message search: rayon's parallel iteration and the `Mutex`/`LazyLock` around the store are treated as transparent.
- `MessageSearch.MessageStore.SearchQuery` models a fresh search on every call. The result caches (`with_cache_similar`, `with_cache_contains`) are not modelled, and a cached answer may differ from a fresh search. Their key is the converted query alone (message.rs:64, 71). A later call with another `take` may get the first call's result count, and an answer cached before `load_messages` extends the store may miss the new messages.
- `HangulConverter::total_disassembly`, `CachedRatio` and `CachedPartialRatio` are not part of this model. They are function parameters: a disassembly function and a scorer of a filter plus a similarity.
- Scores and correctness are reals, which have no NaN, so the `partial_cmp(..).unwrap()` panic (message.rs:92,95) cannot be modelled.
- `sort_by` is modelled as a stable sort on values rather than in place.
- Reading and deserialising the message file is not modelled, and neither are the panics of `File::open(..).unwrap()` and `from_reader(..).unwrap()`.
