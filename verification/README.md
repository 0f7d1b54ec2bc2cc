# Billboard and Spotify chart ingestion, modelled in Dafny

The repository collects two years (2020 and 2021) of top songs into SQLite databases in two
variants, and then counts songs per artist.

- **Billboard variant** (`finalproject.py`). Each run of `main` reads a progress cursor from the
  `State` table. It scrapes both year-end chart pages from that position and looks at 25 entries
  per page. Entries missing the artist or the rank label are skipped. Every other entry's artist
  is resolved through `get_or_create_artist_id` against the `ArtistIDs` table. The batches are
  appended to `BillboardTopSongs2020` and `BillboardTopSongs2021`, and the cursor is then moved
  on by 25.
- **Spotify variant** (`new.py`). `get_track_info` flattens a playlist's JSON into
  (artist, track) pairs. `add_artists` inserts at most 12 new artist names per call.
  `add_track` appends at most 25 rows to a year's table, resuming at the table's own
  `MAX(Rank)`. `artists_in_both_years` and `unique_artists` are two set queries over the tables.
- **Statistics** (`calculate_statistics` in `measurement.py`, with a verbatim copy in
  `Visualization.py`). This is a per-year group-by-artist count, inner-joined to the artist
  table.

Every table is a value: a sequence of rows. Every operation is a pure function that returns the
updated database. The modules follow the program:

- `Common`: an optional value, the two chart years, and Python slicing.
- `ArtistRegistry`: one type for two separate artist tables with the same shape: `ArtistIDs` in
  the Billboard database and `Artists` in the Spotify database. Rows are kept in ROWID order,
  with the AUTOINCREMENT counter.
- `Cursor`: the `State` table as an append-only log.
- `Billboard`: the scrape loop and the driver `main`.
- `Spotify`: the JSON flattener, the capped registry filler, the track appender and the two
  queries.
- `Statistics`: the grouped count.

Three behaviours of the code are modelled as written:

- An empty artist name is stored like any other name.
- The Billboard cursor always moves by 25, even when the window held fewer entries.
- The Spotify resume point is the number of rows already written.

The last one means a pair skipped because its artist has no row pulls later pairs into the next
window, and pairs that were already appended are then read again. `Spotify.AddTrackResume`
states this in general, and `Spotify.SkippedPairRereads` exhibits a playlist on which the same
song is appended twice. The same holds for the Billboard rerun after a crash between the table
commit and the cursor write (`Billboard.CrashBeforeCursorDuplicates`). Neither variant
deduplicates rows, and the model does not either.

## Model

| member | source | states |
|---|---|---|
| Cursor.Read | finalproject.py:20-25 | An empty log reads as 0; otherwise the value of the newest row, which is one of the values written. |
| Cursor.Write | finalproject.py:42-46 | Writing appends one row and keeps every earlier row; a read afterwards returns the index just written. |
| Cursor.LatestWins | finalproject.py:22-25 | After any non-empty sequence of writes on any log, a read returns the last value written. |
| ArtistRegistry.Lookup | finalproject.py:90-91 | The SELECT finds nothing exactly when no row carries the name; otherwise it returns the id of a row carrying it. |
| ArtistRegistry.NameOf | measurement.py:25 | Joining on an id finds nothing exactly when no row has that id; otherwise it yields the name of a row with that id. |
| ArtistRegistry.NameOfRow | finalproject.py:64-69 | Because AUTOINCREMENT ids increase, every row is found again by its own id. |
| ArtistRegistry.LookupThenNameOf | finalproject.py:90-98 | The id returned for a name resolves back to that same name. |
| ArtistRegistry.NameOfExtend | finalproject.py:92-96 | Appending rows never changes what an existing id resolves to. |
| ArtistRegistry.Insert | finalproject.py:93-94 | The INSERT adds one row at the end with the next AUTOINCREMENT id, which is larger than every id issued before; ids stay valid. An absent name keeps the names unique. |
| ArtistRegistry.GetOrCreate | finalproject.py:88-98 | The returned id is the one the SELECT finds for the name and resolves back to it. A known name leaves the registry untouched. An unseen name adds exactly one row with a fresh id and keeps all earlier rows. Name uniqueness is preserved. |
| ArtistRegistry.GetOrCreateIdempotent | finalproject.py:90-98 | A second call with the same name returns the same id and adds no row. |
| Billboard.KeptAppend | finalproject.py:126-130 | Skipping incomplete entries distributes over concatenation, so kept entries stay in source order. |
| Billboard.Step | finalproject.py:126-130 | An incomplete entry leaves the batch and the registry exactly as they were. A complete entry adds one row at the end of the batch, whose id is the one the registry's SELECT finds for its artist. Earlier songs and registry rows stay as they were, and ids stay valid. |
| Billboard.StepKeeps | finalproject.py:126-130 | One more entry keeps the earlier songs and registry rows in place. The batch stays equal to the kept entries so far, every row resolves, new registry names are mentioned by kept entries, and names stay unique. |
| Billboard.NormalizeKept | finalproject.py:126-130 | Incomplete entries play no part: normalising a window gives the same batch and registry as normalising only its complete entries. |
| Billboard.Normalize | finalproject.py:120-130 | The scrape loop only appends rows to the registry and keeps its ids valid. |
| Billboard.NormalizeLength | finalproject.py:120-130 | A batch has no more rows than its window has entries. |
| Billboard.NormalizeSound | finalproject.py:123-130 | A batch is exactly the complete entries of its window, in order. Every row's artist id resolves in the registry to that row's artist name. New registry rows are named by kept entries only. Name uniqueness is preserved. |
| Billboard.Window | finalproject.py:120-122 | The window holds at most 25 entries and at most max(0, len(entries) - start) of them. |
| Billboard.ScrapeSongs | finalproject.py:118-131 | The enumerate loop with its break at start + 25 computes exactly the batch of the window. It returns at most 25 rows and at most max(0, len(entries) - start). |
| Billboard.AppendBatch | finalproject.py:164-173 | Appending a batch extends the table's scraped view by exactly the kept entries of the window. |
| Billboard.AppendBatchResolves | finalproject.py:164-174 | A table that resolved before still resolves after a batch is appended, against any later registry. |
| Billboard.MainTrace | finalproject.py:150-177 | The cursor is unchanged after both scrapes and after the table commit. Scraping changes only the registry. The final write sets the cursor to start + 25. |
| Billboard.MainTraceOutcome | finalproject.py:150-177 | The final state of one run keeps registry validity, name uniqueness and referential integrity. Each year table keeps its old rows and gains the kept entries of the window at the shared start index. Every artist row the run adds is named by a complete entry of one of the two windows. |
| Billboard.Main | finalproject.py:133-177 | One run: the cursor moves by 25 whatever was written, both years use the same start index, old rows stay, and each table grows by at most 25 rows, exactly the kept entries of its window. Name uniqueness and referential integrity are preserved. The artist rows added are named by complete entries of the two windows only. |
| Billboard.RunRowsNamed | finalproject.py:150-153 | The artist rows one run adds are named by complete entries of the 2020 window or the 2021 window. |
| Billboard.ExhaustedRunAddsNothing | finalproject.py:150-177 | Once the cursor is past the end of both pages, a run adds no artist row and no song; only the cursor moves. |
| Billboard.Runs | finalproject.py:179-182 | Any number of consecutive runs keeps the registry valid. |
| Billboard.RunExtendsPrefix | finalproject.py:150-177 | One run keeps the resume invariant: if each year table holds exactly the complete entries of its page's positions before the cursor, it still does after the run, whose cursor has moved on by 25. |
| Billboard.RunExtendsYear | finalproject.py:150-177 | The same for one year table: the run appends exactly the complete entries of the window that starts at the cursor. |
| Billboard.RunsStep | finalproject.py:133-182 | Run k + 1 keeps the invariant the first k runs from an empty database established, and leaves the cursor 25 further on. |
| Billboard.RunsExtendPrefix | finalproject.py:133-182 | Any number n of runs from an empty database keeps the resume invariant and leaves the cursor at 25n. |
| Billboard.RunsCoverPrefix | finalproject.py:150-177 | After n runs from an empty database the cursor reads 25n. Each year table holds exactly the complete entries of the page's first 25n positions, in order: none missed, none twice. This assumes every run sees the same pages. The cursor moves by 25 whatever a run read, so a run that gets a shorter page skips those positions for good. |
| Billboard.CrashBeforeCursorDuplicates | finalproject.py:173-177 | If a run stops after the table commit but before the cursor write, the next run appends the same kept entries a second time. |
| Spotify.TrackName | new.py:61-62 | A missing track, or a track without a name, yields 'No Track Name'; otherwise the track's name. |
| Spotify.ItemInfo | new.py:63-65 | An item yields one pair per artist of its track, each with the artist's name (or 'No Artist Name') and the track name. |
| Spotify.GetTrackInfo | new.py:58-66 | A playlist without items yields no pairs; otherwise one pair per listed artist. |
| Spotify.Flatten | new.py:60-65 | The nested loops yield one pair per artist of every item, ArtistTotal in all. Where each pair sits and what it holds is stated by FlattenOrder. |
| Spotify.FlattenAppend | new.py:60-65 | Flattening distributes over concatenation of item lists: the pairs of a longer list extend those of its prefix. |
| Spotify.FlattenOrder | new.py:58-66 | Pairs come in item-then-artist order: position (artists of earlier items) + j holds the pair ItemInfo gives for artist j of item i, with the track-name and artist-name defaults applied. |
| Spotify.NoArtistsNoPairs | new.py:63 | A track with no artists contributes nothing. |
| Spotify.AddArtistsFrom | new.py:101-108 | The loop never changes an existing row and keeps ids valid. Which rows it inserts is stated by AddArtistsFromOrder, and the bound, freshness and coverage by the four lemmas below. |
| Spotify.NewNamesExact | new.py:101-106 | The reference list NewNames holds each artist of the pairs that is not yet known exactly once, and nothing else. |
| Spotify.AddArtistsFromOrder | new.py:101-108 | With `count` names already inserted, the loop inserts exactly the first 12 - count names of NewNames, in pair order, and stops there. |
| Spotify.AddArtistsFromBound | new.py:101-108 | The loop inserts at most 12 - count rows. |
| Spotify.AddArtistsFromFresh | new.py:104-106 | Every inserted name differs from all rows before it. |
| Spotify.AddArtistsFromListed | new.py:101-106 | Every inserted name comes from the pairs. |
| Spotify.AddArtistsFromComplete | new.py:101-108 | If the cap was not reached, every artist of the pairs is present afterwards. |
| Spotify.AddArtists | new.py:97-108 | Existing rows stay as they were, and ids stay valid. |
| Spotify.AddArtistsSound | new.py:97-108 | The rows added are named, in order, by the first 12 distinct artists of the playlist that were not in the table. So at most 12 rows are added, each with a name listed in the playlist and absent before, and name uniqueness is preserved. Below the cap, every listed artist is present afterwards. |
| Spotify.MaxRank | new.py:113-118 | MAX(Rank) is an upper bound of all ranks and attained by some row; an empty table gives 0. |
| Spotify.NewTracks | new.py:120-130 | At most one row per pair. Ranks are consecutive from the given start. Each row's id is the one the SELECT finds for its artist name. |
| Spotify.NewTracksContents | new.py:124-130 | The appended rows are exactly the pairs whose artist has a row, in order; a pair is skipped exactly when its artist has none. |
| Spotify.ConsecutiveMaxRank | new.py:92 | In a table ranked 1..n, MAX(Rank) is n. |
| Spotify.TrackWindow | new.py:120 | The slice `info[max_rank:max_rank + 25]` holds at most 25 pairs. In a table ranked 1..n it starts at pair n (AddTrackResume). |
| Spotify.AddTrack | new.py:110-130 | Old rows stay. At most 25 rows are appended, with ranks continuing after the previous MAX(Rank), each id found for its artist name. |
| Spotify.AddTrackContents | new.py:120-130 | The appended rows are exactly the registered pairs of info[max_rank : max_rank + 25]. |
| Spotify.AddTrackResolves | new.py:124-130 | Every appended row's id refers to an Artists row with that row's name, so referential integrity is kept. |
| Spotify.AddTrackResume | new.py:113-120 | In a table ranked 1..n the window starts at position n. Ranks stay consecutive. The next start moves by the number of rows appended, not the number of pairs read. |
| Spotify.SkippedPairRereads | new.py:113-130 | A concrete playlist whose first artist is unregistered: two runs append the second pair twice. |
| Spotify.Run | new.py:149-155 | The script body only appends to the Artists table and to both Tracks tables. |
| Spotify.FreshHealthy | new.py:90-93 | A new database, with empty Artists and Tracks tables, meets the invariant RunSound preserves. |
| Spotify.RunSound | new.py:149-155 | One run adds at most 24 artists and at most 25 rows per year. It keeps ids valid, names unique, both tables resolving and ranks consecutive. |
| Spotify.ArtistsInBothYears | new.py:132-134 | Every artist in both years has rows in each year's table. |
| Spotify.UniqueArtists | new.py:136-141 | Every artist unique to a year has rows in that year's table. |
| Spotify.UniqueAndBothCover | new.py:132-141 | The artists unique to a year together with the artists of both years are exactly that year's artists. |
| Spotify.QueriesExact | new.py:132-141 | With unique names, both-years is the intersection of the two years and unique-to-y is y's artists minus the other year's; the two results are disjoint. |
| Spotify.RunQueriesExact | new.py:149-158 | After a run from a healthy database, the same identities hold. |
| Statistics.Tally | measurement.py:22-28 | A row the join drops leaves the groups unchanged. A kept row has a group afterwards. At most one group is opened, and existing groups keep their ids in place. |
| Statistics.TallyKeeps | measurement.py:22-28 | Feeding one more row keeps the groups distinct, exact in count and name, and complete for the rows seen so far. |
| Statistics.GroupCounts | measurement.py:22-28 | There are no more groups than rows the join keeps. GroupCountsSound states the groups themselves. |
| Statistics.GroupCountsSound | measurement.py:22-28 | Every group key is distinct. Each count is the number of rows with that ArtistID, which is at least 1. Each name is the registry's. Every joined row has its group. |
| Statistics.SumIsResolvable | measurement.py:23-26 | Rows without a registry row are dropped, so the counts sum to the number of resolvable rows. |
| Statistics.ResolvableAll | measurement.py:25 | When every row resolves, the join drops none. |
| Statistics.CalculateStatistics | measurement.py:17-32 | The result has exactly the keys 2020 and 2021. |
| Statistics.CalculateStatisticsSound | Visualization.py:18-33 | Per year: one pair per ArtistID, each count exact and at least 1, every joined row counted, the sum equal to the joined rows. In a consistent database that is all rows. |

The function computes one value from the database and returns nothing else, so the database is
unchanged by it. One function serves both copies of `calculate_statistics`.

## Left out

- HTTP, HTML parsing and the Spotify API are not modelled. This covers `requests`, BeautifulSoup's `find_next`/`find_previous`, token fetching, the credential encoding and `get_playlist`. Each page is an input sequence of entries with optional artist and rank labels, and each playlist is an input JSON value.
- The "Not Found" string `get_playlist` returns on an exception is not modelled. `.get` on it raises, and the model has no exceptions.
- JSON `null` values are not modelled. Only keys that are present or absent are. In the program a `null` track makes the following `.get` raise, and a `null` artist list makes the loop `for artist in ...` at new.py:63 raise a TypeError.
- SQLite mechanics are not modelled: connections, commits, CREATE TABLE, and text-to-INTEGER affinity for the Billboard rank, which is kept as the scraped text. `INSERT OR IGNORE` never ignores anything here, because neither table has a constraint it could violate.
- Rows inside a group-by result are not ordered: SQL leaves the order unspecified. The model lists groups in first-appearance order.
- Statistics.GroupCountsSound: the result rows carry the ArtistID as the group key, which the program's (name, count) tuples do not.
- Statistics.GroupCountsSound: the join uses the first registry row with an id. Registry ids are a primary key, so there is never more than one.
- File output is not modelled: JSON dumps, `write_artists` and `write_statistics_to_file`.
- Plotting is not modelled: all matplotlib code.
- `unique_artists` for a year other than 2020 or 2021 returns a stale cursor result. The `Year` type makes such a call unrepresentable.
- Spotify ranks: Rank is a natural number assigned as MAX(Rank) + 1. This matches AUTOINCREMENT because the program never deletes a row.
- Cursor values: the cursor holds naturals. It is only ever written with a value read from it plus 25, starting from 0.
- Statistics.CalculateStatistics: the query raises `sqlite3.OperationalError` (no such table) when `BillboardTopSongs2020` or `BillboardTopSongs2021` does not exist yet. That happens before the first run of `main`, or after a run that failed while scraping, because finalproject.py:156-173 creates those tables only after both scrapes. The model's store always holds both tables, so in that state it returns two empty lists instead of the error.
