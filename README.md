# Ban database and ladder web pages, modelled in Dafny

This project models two parts of the RenX game-server administration bot.

**The local ban database** (`RenX::BanDatabase`) is a versioned file of ban records. An ordered list of entries mirrors the file in memory. Each entry remembers the file position of its record. Adding a ban writes its record at once, at the end of the file. Deactivating a ban clears the entry's `active` byte in memory and rewrites that byte in place, at the entry's position. It never rewrites the whole file.

`ban_database.dfy` (module `BanDatabase`) models the store as follows:
- The store is the class `Database`. Its fields are `version`, `filename` and `entries`, plus `file`, the backing file's contents.
- The file is an abstract image: the version byte at offset 0, then the records in file order with their start offsets, then the end-of-file offset.
- Record positions strictly increase in file order. The subset type `BanFile` carries this.
- The ghost field `slots` ties each in-memory entry to the file record it mirrors. The invariant `Valid()` says that memory and disk agree, entry by entry and in file order. Every method preserves it.

**The ladder web pages** (`RenX.Ladder.Web`) answer three requests: the ladder page, the search page and the profile page. Each first resolves which ladder database the request names. `ladder_web.dfy` (module `LadderWeb`) models the selection logic and leaves out the HTML:
- which rows a ladder page shows, and the range errors;
- the page buttons;
- which entries a search matches;
- which entry a profile shows, and its neighbours;
- the order of the database selector;
- database-name resolution, and the fallback from a short search to the ladder page.

A rendered row is the ladder entry it came from. A page button is its start offset and page number. A database option is the index of that database in load order. A ladder's linked list is a sequence, and a node pointer is an index into it.

`text.dfy` gives the string library's `equalsi` and `findi` as predicates with ASCII case folding. A Dafny `char` stands for one byte (`char`) of a Jupiter string, so `|q.name|` is the byte count the search page compares with min_search_name_length, and folding only ASCII letters matches case folding of single bytes. `wrappers.dfy` holds `Option` and `Result`.

## Model

| member | source | states |
|---|---|---|
| `BanDatabase.Database.constructor` | RenX.Core/RenX_BanDatabase.h:124 | A new database has no entries and satisfies the memory/disk invariant |
| `BanDatabase.Database.Load` | RenX.Core/RenX_BanDatabase.h:62-69 | A missing file is provisioned with the version byte alone and loads as an empty database with success. An existing file loads its records, with their positions, and its version. A missing file that cannot be created, or an unreadable file, reports false and changes nothing |
| `BanDatabase.Database.Add` | RenX.Core/RenX_BanDatabase.h:71-78 | Exactly one entry is appended at the end, and earlier entries are unchanged. The new entry is active, carries the player's identity, the reason, the length and the time, and is permanent exactly when the length is 0. Its record is in the file when `Add` returns, at the old end of the file, after every earlier entry's position. The file's end moves past the new record and its version is kept |
| `BanDatabase.Database.Write` | RenX.Core/RenX_BanDatabase.h:80-85 | Appends the entry's record to the database file at the end-of-file offset, which becomes its position in the returned copy of the entry. The in-memory entries are unchanged (the entry is taken by value, see "## Left out") and memory/disk agreement is kept |
| `BanDatabase.Database.WriteTo` | RenX.Core/RenX_BanDatabase.h:87-93 | The static write appends the record to the given file at its end, positioned after every record already there. It has no modifies clause and takes the entry by value, so it changes no database's entries; an entry aliased into a database's list is not modelled (see "## Left out") |
| `BanDatabase.Database.Deactivate` | RenX.Core/RenX_BanDatabase.h:95-101 | Returns true exactly when the index addresses an active entry, and the in-memory result is `Deactivated`. The file changes only when the result is true, by rewriting the active byte at that entry's stored position. Memory and disk still agree afterwards |
| `BanDatabase.Deactivated` | RenX.Core/RenX_BanDatabase.h:95-101 | True exactly when the index is in range and that entry is active. On true, that entry's active byte is 0 afterwards; on false, the list is unchanged. The entry at the index is inactive afterwards and differs from before only in its active byte, so `pos` and every other field are kept. No other entry changes |
| `BanDatabase.DeactivateIdempotent` | RenX.Core/RenX_BanDatabase.h:99-101 | A second deactivation of the same index returns false and leaves the entries unchanged |
| `BanDatabase.DeactivateOutOfRange` | RenX.Core/RenX_BanDatabase.h:98-101 | An index past the end returns false and changes nothing |
| `BanDatabase.RewriteActiveAt` | RenX.Core/RenX_BanDatabase.h:50-51 | Seeking to a record's stored position and overwriting the active byte changes that record's active byte and nothing else in the file. Positions are distinct |
| `BanDatabase.Database.GetVersion` | RenX.Core/RenX_BanDatabase.h:103-108 | Returns the database's version and modifies nothing |
| `BanDatabase.Database.GetFileName` | RenX.Core/RenX_BanDatabase.h:110-115 | Returns the file name and modifies nothing |
| `BanDatabase.Database.GetEntries` | RenX.Core/RenX_BanDatabase.h:117-122 | Returns the entries and modifies nothing |
| `LadderWeb.FirstIndex` | src/Plugins/RenX/RenX.Ladder.Web/RenX_Ladder_Web.cpp:411-417 | The first index whose element satisfies the test. No earlier element satisfies it. None means that no element does |
| `LadderWeb.EntryRange` | src/Plugins/RenX/RenX.Ladder.Web/RenX_Ladder_Web.cpp:267-274 | An empty ladder gives "No ladder data". A start at or past the end, or a count of 0, gives "Invalid range". Otherwise the range starts at the index, holds min(count, size - index) rows (at least one) and ends inside the ladder |
| `LadderWeb.EntryRangeAsWritten` | src/Plugins/RenX/RenX.Ladder.Web/RenX_Ladder_Web.cpp:270-274 | The clamp as written, with `index + count` wrapping in size_t. A successful range still starts at the index and holds at least one row |
| `LadderWeb.EntryRangeAsWrittenAgrees` | src/Plugins/RenX/RenX.Ladder.Web/RenX_Ladder_Web.cpp:273-274 | When `index + count` does not wrap, the check as written equals the intended one |
| `LadderWeb.EntryRangeAsWrittenOverruns` | src/Plugins/RenX/RenX.Ladder.Web/RenX_Ladder_Web.cpp:273-274 | On a 2-entry ladder with start 1 and count 2^64-1, the range as written runs past the end, while the intended clamp gives one row |
| `LadderWeb.PagesFromShape` | src/Plugins/RenX/RenX.Ladder.Web/RenX_Ladder_Web.cpp:239-257 | The loop from a given offset emits the least number of buttons covering the rest of the ladder. The offsets step by entries-per-page, the labels step by 1, and every offset is inside the ladder |
| `LadderWeb.PageButtonsShape` | src/Plugins/RenX/RenX.Ladder.Web/RenX_Ladder_Web.cpp:239-257 | There are ceil(entry_count / entries_per_page) buttons. The button at k starts at k * entries_per_page and is labelled k + 1. Every start offset is below entry_count |
| `LadderWeb.PageLoopNeverExits` | src/Plugins/RenX/RenX.Ladder.Web/RenX_Ladder_Web.cpp:239-257 | As written, with entries_per_page 0 and a non-empty ladder, entry_index is still 0 after any number of passes and page_index has grown by one per pass, so the loop condition never becomes false |
| `LadderWeb.ConfiguredSite` | src/Plugins/RenX/RenX.Ladder.Web/RenX_Ladder_Web.cpp:80 | Corrected reading, see "## Findings"; the source keeps a configured 0. The settings read from the configuration keep the databases, the default and min_search_name_length. The page size is always positive and equals a positive configured value. The ladder page can be served exactly when the default database is a loaded one |
| `LadderWeb.GeneratePageButtons` | src/Plugins/RenX/RenX.Ladder.Web/RenX_Ladder_Web.cpp:231-261 | The while loop over `entry_index` and `page_index` produces exactly `PageButtons` |
| `LadderWeb.EntryTable` | src/Plugins/RenX/RenX.Ladder.Web/RenX_Ladder_Web.cpp:265-310 | The errors occur exactly in the cases of the range check. Otherwise the rows are the entries at index .. index + min(count, size - index) - 1, in list order, followed by the page buttons. A positive page size is asked for only when the range is valid, because the errors are returned before the buttons |
| `LadderWeb.GenerateEntryTable` | src/Plugins/RenX/RenX.Ladder.Web/RenX_Ladder_Web.cpp:265-310 | Walking to the start node and then appending one row per node until the clamped count runs out yields `EntryTable` |
| `LadderWeb.MatchingAppend` | src/Plugins/RenX/RenX.Ladder.Web/RenX_Ladder_Web.cpp:366-376 | Visiting one more node adds its row exactly when its name matches |
| `LadderWeb.MatchingExactly` | src/Plugins/RenX/RenX.Ladder.Web/RenX_Ladder_Web.cpp:365-376 | The search rows hold every entry whose most recent name contains the query case-insensitively, as often as the ladder holds it, and nothing else |
| `LadderWeb.SearchTable` | src/Plugins/RenX/RenX.Ladder.Web/RenX_Ladder_Web.cpp:350-358 | The search reports "No ladder data" exactly when the ladder is empty |
| `LadderWeb.GenerateSearchRows` | src/Plugins/RenX/RenX.Ladder.Web/RenX_Ladder_Web.cpp:350-376 | The walk over every node, keeping the matching ones in list order, yields `SearchTable` |
| `LadderWeb.ProfileOf` | src/Plugins/RenX/RenX.Ladder.Web/RenX_Ladder_Web.cpp:401-443 | An empty ladder gives "No ladder data". "Player not found" is given exactly when no entry has the steam id. Otherwise the profile is the first entry with that id. "Previous" is present exactly when a predecessor exists and is that predecessor. "Next" is present exactly when a successor exists and is that successor |
| `LadderWeb.FindProfile` | src/Plugins/RenX/RenX.Ladder.Web/RenX_Ladder_Web.cpp:401-443 | The walk that stops at the first matching node, followed by the neighbour checks, yields `ProfileOf` |
| `LadderWeb.FindDatabase` | src/Plugins/RenX/RenX.Ladder.Web/RenX_Ladder_Web.cpp:483-493 | With no database name the default database is kept. Otherwise the result is the first loaded database whose name equals the requested name case-insensitively, or none if no name matches |
| `LadderWeb.OthersBelowShape` | src/Plugins/RenX/RenX.Ladder.Web/RenX_Ladder_Web.cpp:204-216 | The loop lists the loaded databases other than the current one, in ascending load order, each of them |
| `LadderWeb.SelectorListsEachOnce` | src/Plugins/RenX/RenX.Ladder.Web/RenX_Ladder_Web.cpp:193-216 | The selector is empty exactly when there is neither a current database nor any loaded one. Otherwise the current database comes first, every loaded database appears exactly once, and those after the current one are in load order |
| `LadderWeb.GenerateDatabaseSelector` | src/Plugins/RenX/RenX.Ladder.Web/RenX_Ladder_Web.cpp:187-216 | The for loop over the loaded databases yields `SelectorOptions` |
| `LadderWeb.HandleLadderPage` | src/Plugins/RenX/RenX.Ladder.Web/RenX_Ladder_Web.cpp:470-500 | The no-database page is returned exactly when the requested name resolves to nothing. Otherwise the page shows the entry table of the resolved database, with start 0 and count entries_per_page as defaults. It asks that the default database be a loaded one, and a positive entries_per_page only when the request resolves to a database and names a valid range (`ReachesButtons`) |
| `LadderWeb.ZeroPageSizeDefaultCount` | src/Plugins/RenX/RenX.Ladder.Web/RenX_Ladder_Web.cpp:470-500 | With entries_per_page 0 and no count in the request, the count defaults to 0, so the page buttons are never reached: a resolved ladder page reports "No ladder data" for an empty ladder and "Invalid range" otherwise, and an unresolved name gives the no-database page |
| `LadderWeb.HandleSearchPage` | src/Plugins/RenX/RenX.Ladder.Web/RenX_Ladder_Web.cpp:502-537 | A name shorter than min_search_name_length gives exactly the ladder page for the same request. Otherwise the page holds the search rows of the resolved database. It asks that the default database be a loaded one, and a positive entries_per_page only when the short-name fallback goes on to the page buttons (`ReachesButtons`) |
| `LadderWeb.LongNameSearches` | src/Plugins/RenX/RenX.Ladder.Web/RenX_Ladder_Web.cpp:530-536 | A name of at least min_search_name_length gives the no-database page exactly when the name resolves to nothing, and otherwise the search table of the resolved database, whatever entries_per_page is, 0 included |
| `LadderWeb.HandleProfilePage` | src/Plugins/RenX/RenX.Ladder.Web/RenX_Ladder_Web.cpp:539-568 | Resolves the database, then gives the profile of the requested steam id, which defaults to 0. It asks only that the default database be a loaded one: the profile page does not depend on entries_per_page |

## Left out

- The byte-level codec of ban records and the real `FILE*`/`fpos_t` seeking. The file is an abstract image of records with positions. The length of an encoded record is a parameter (`encodedSize`, at least 1 because a record holds at least its active byte) of `Write`, `WriteTo` and `Add`.
- RenX_BanDatabase.cpp is not part of this model, so behaviour the header does not state is a modelling choice:
  - `Load` replaces the in-memory entries;
  - an active byte other than 0 and 1 counts as inactive (`IsActive` tests for 1), so `Deactivate` refuses such an entry;
  - an unreadable or truncated file is one `Unreadable` case that fails and changes nothing, and so is a missing file that cannot be created;
  - the version byte of an existing file is taken as it is, without a compatibility check;
  - the version written into a provisioned file is a constructor parameter, `formatVersion`.
- I/O failures of `add`, `write` and `deactivate` (disk full, permission lost) are not modelled. `Load` does model a missing file that cannot be created (`Uncreatable`), but a file it creates is assumed to receive its version byte. `add` returns nothing in the header, and the model assumes every write succeeds.
- `time()` is the parameter `now`. The `RenX::Server` collaborator of `add` is left out; disconnecting the banned player belongs to it. `PlayerInfo` is reduced to the four fields an entry copies. `varData` is an opaque ordered list of key/value pairs.
- The global instances `banDatabase`, `defaultBanDatabase` and `pluginInstance` are left out. The plugin's settings and loaded databases are passed in explicitly as a `Site`.
- HTTP route registration and removal, query-string parsing (a request arrives as an already parsed `Query`), template file loading and configuration reads are left out.
- `processTags`, `sanitizeTags`, `String::replace` and the literal HTML text are left out. A row is the entry it renders. `findi` and `equalsi` fold ASCII letters only; each Dafny `char` is one byte of the Jupiter string.
- The format flags that add page and table headers and footers, the search bar (`generate_search`), the selector's hidden `id` field, and the wording of the no-database page (only whether any database is loaded is kept) are left out.
- `generate_search_page` takes a start index and a count but never uses them. The model's search takes neither.
- GeneratePageButtons: requires entries_per_page > 0. The ladder page, and the search page's short-name fallback, ask it only when the request resolves to a database and names a valid range (`ReachesButtons`), because only then is the loop reached; `EntryTable` asks it only for a valid range, and the profile page never. With 0 the source's loop never ends once it is reached (see "## Findings").
- GeneratePageButtons: does not model size_t wrap-around of `entry_index`, which would need more than 2^63 ladder entries. Steam ids in the ladder are unbounded naturals.
- EntryTable, SearchTable and ProfileOf: take the ladder's entry count (`getEntries()`) to be the length of its list.
- Write, WriteTo: the entry is taken by value and its copy, positioned at the end of the file, is returned. The source passes `Entry *`; when that pointer addresses an element of the in-memory list, the write's in-place update of that element's `pos` (and a later `deactivate` seeking to the new position) is not modelled.
- WriteTo: the stream's current position is taken to be its end; the header only says the entry is written to the given stream.

## Findings

| source | as written | input that shows it | evidently intended | confidence | as-written member | corrected member |
|---|---|---|---|---|---|---|
| src/Plugins/RenX/RenX.Ladder.Web/RenX_Ladder_Web.cpp:273-274 | `if (index + count > db->getEntries())` adds in size_t, so a huge `count` wraps the sum and the clamp is skipped | ladder of 2 entries, `start=1`, `count=18446744073709551615`: the sum wraps to 0, count stays 2^64-1, and the row loop follows `node->next` past the last node | clamp whenever `count > size - index`, giving the single row at index 1 | not executed; assumes the query parser accepts the full size_t range | `LadderWeb.EntryRangeAsWrittenOverruns` | `LadderWeb.EntryRange` |
| src/Plugins/RenX/RenX.Ladder.Web/RenX_Ladder_Web.cpp:239-257 | `entry_index += entries_per_page` inside `while (entry_index < entry_count)`, with `EntriesPerPage` read at :80 without a lower bound | `EntriesPerPage=0`, a ladder of 1 entry, a ladder request with `count=1`: the range is valid, then the button loop adds 0 to `entry_index` on every pass and never exits | a page size of 0 refused when the configuration is read (here replaced by the default 50), so the loop always advances | not executed; the intended handling of 0 is inferred | `LadderWeb.PageLoopNeverExits` | `LadderWeb.ConfiguredSite` |
