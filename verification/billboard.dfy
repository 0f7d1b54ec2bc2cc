/** The Billboard pipeline (finalproject.py): scrape a year-end chart page in batches of 25
    entries, resolve each artist through the registry, append the batch to that year's table
    and move the progress cursor. Pages, the registry, the cursor and the two year tables are
    plain values; every operation returns the updated store. */
module Billboard {
  import opened Common
  import opened ArtistRegistry
  import Cursor

  /** One scraped `h3.c-title` entry: the song title and the text of the label elements found
      after it (the artist) and before it (the rank), each possibly absent. */
  datatype Entry = Entry(song: string, artist: Option<string>, rank: Option<string>)

  /** One row of BillboardTopSongs<year>: (Rank, ArtistName, SongName, ArtistID). The rank
      is kept as the scraped text; SQLite's INTEGER affinity is not modelled. */
  datatype Song = Song(rank: string, artistName: string, songName: string, artistId: int)

  /** Entries looked at per run, and the amount the cursor moves per run. */
  const BatchSize: nat := 25

  /** An entry is used only when both label elements were found. */
  predicate Complete(e: Entry) {
    e.artist.Some? && e.rank.Some?
  }

  /** The complete entries of `es`, in order. */
  function Kept(es: seq<Entry>): (r: seq<Entry>)
    ensures |r| <= |es|
    ensures forall k :: 0 <= k < |r| ==> Complete(r[k])
    decreases |es|
  {
    if es == [] then []
    else
      var init := es[..|es| - 1];
      var e := es[|es| - 1];
      Kept(init) + (if Complete(e) then [e] else [])
  }

  lemma {:induction false} KeptAppend(a: seq<Entry>, b: seq<Entry>)
    ensures Kept(a + b) == Kept(a) + Kept(b)
    decreases |b|
  {
    if b == [] {
      assert a + b == a;
    } else {
      var b' := b[..|b| - 1];
      assert (a + b)[..|a + b| - 1] == a + b';
      KeptAppend(a, b');
    }
  }

  /** The scraped view of a stored row. */
  function Strip(s: Song): Entry {
    Entry(s.songName, Some(s.artistName), Some(s.rank))
  }

  function Strips(songs: seq<Song>): (r: seq<Entry>)
    ensures |r| == |songs|
    ensures forall k :: 0 <= k < |r| ==> r[k] == Strip(songs[k])
  {
    seq(|songs|, k requires 0 <= k < |songs| => Strip(songs[k]))
  }

  lemma StripsAppend(a: seq<Song>, b: seq<Song>)
    ensures Strips(a + b) == Strips(a) + Strips(b)
  {
    assert forall k :: 0 <= k < |a + b| ==> Strips(a + b)[k] == (Strips(a) + Strips(b))[k];
  }

  /** Referential integrity of a year table: every row's ArtistID resolves, in the registry,
      to exactly the ArtistName stored beside it. */
  predicate TableResolves(rows: seq<Artist>, table: seq<Song>) {
    forall k :: 0 <= k < |table| ==> NameOf(rows, table[k].artistId) == Some(table[k].artistName)
  }

  lemma TableResolvesExtend(rows: seq<Artist>, rows': seq<Artist>, table: seq<Song>)
    requires rows <= rows' && IdsIncreasing(rows')
    requires TableResolves(rows, table)
    ensures TableResolves(rows', table)
  {
    forall k | 0 <= k < |table|
      ensures NameOf(rows', table[k].artistId) == Some(table[k].artistName)
    {
      NameOfExtend(rows, rows', table[k].artistId);
    }
  }

  /** Some entry of `es` names `name` as its artist. */
  predicate Mentions(es: seq<Entry>, name: string) {
    exists k :: 0 <= k < |es| && es[k].artist == Some(name)
  }

  lemma MentionsExtend(es: seq<Entry>, more: seq<Entry>, name: string)
    requires Mentions(es, name)
    ensures Mentions(es + more, name)
  {
    var k :| 0 <= k < |es| && es[k].artist == Some(name);
    assert (es + more)[k] == es[k];
  }

  lemma MentionsPrepend(es: seq<Entry>, more: seq<Entry>, name: string)
    requires Mentions(more, name)
    ensures Mentions(es + more, name)
  {
    var k :| 0 <= k < |more| && more[k].artist == Some(name);
    assert (es + more)[|es| + k] == more[k];
  }

  /** Every registry row from position `from` on is named by an entry of `es`. */
  predicate NamedFrom(rows: seq<Artist>, from: nat, es: seq<Entry>) {
    forall j :: from <= j < |rows| ==> Mentions(es, rows[j].name)
  }

  /** The songs of one batch and the registry after resolving their artists. */
  datatype Batch = Batch(songs: seq<Song>, reg: Registry)

  /** One pass of the loop body of scrape_songs: an incomplete entry is skipped and leaves
      the registry alone; a complete one is resolved through get_or_create_artist_id and
      yields one row (rank, artist, song, id). */
  function Step(b: Batch, e: Entry): (b': Batch)
    requires Valid(b.reg)
    ensures Valid(b'.reg) && b.reg.rows <= b'.reg.rows && b.songs <= b'.songs
    ensures !Complete(e) ==> b' == b
    ensures Complete(e) ==>
              && |b'.songs| == |b.songs| + 1
              && Lookup(b'.reg.rows, e.artist.value) == Some(b'.songs[|b.songs|].artistId)
  {
    if Complete(e) then
      var res := GetOrCreate(b.reg, e.artist.value);
      Batch(b.songs + [Song(e.rank.value, e.artist.value, e.song, res.id)], res.reg)
    else b
  }

  /** The selection loop of scrape_songs over a window of entries: Step applied to each entry
      in turn. What the batch contains is stated by NormalizeSound. */
  function Normalize(es: seq<Entry>, reg: Registry): (b: Batch)
    requires Valid(reg)
    ensures Valid(b.reg) && reg.rows <= b.reg.rows
    decreases |es|
  {
    if es == [] then Batch([], reg)
    else Step(Normalize(es[..|es| - 1], reg), es[|es| - 1])
  }

  lemma NormalizeSnoc(es: seq<Entry>, e: Entry, reg: Registry)
    requires Valid(reg)
    ensures Normalize(es + [e], reg) == Step(Normalize(es, reg), e)
  {
    assert (es + [e])[..|es|] == es;
  }

  /** One more entry of the page, normalised after the ones before it. The index after `i` is
      passed as `j` so that the caller's loop can step its counter to that same term. */
  lemma NormalizeNext(entries: seq<Entry>, start: nat, i: nat, j: nat, reg: Registry)
    requires Valid(reg) && start <= i < |entries| && j == i + 1
    ensures Normalize(entries[start..j], reg) == Step(Normalize(entries[start..i], reg), entries[i])
  {
    NormalizeSnoc(entries[start..i], entries[i], reg);
    SliceSnoc(entries, start, i);
  }

  /** A batch never has more rows than its window has entries. */
  lemma {:induction false} NormalizeLength(es: seq<Entry>, reg: Registry)
    requires Valid(reg)
    ensures |Normalize(es, reg).songs| <= |es|
    decreases |es|
  {
    if es != [] {
      NormalizeLength(es[..|es| - 1], reg);
    }
  }

  /** A batch holds exactly the complete entries of its window, in order, each with an id that
      resolves to its artist; the registry only gained rows named by those entries, and it
      still has no duplicate names if it had none. */
  lemma {:induction false} NormalizeSound(es: seq<Entry>, reg: Registry)
    requires Valid(reg)
    ensures var b := Normalize(es, reg);
            && Strips(b.songs) == Kept(es)
            && TableResolves(b.reg.rows, b.songs)
            && (forall j :: |reg.rows| <= j < |b.reg.rows| ==> Mentions(Kept(es), b.reg.rows[j].name))
            && (NamesUnique(reg.rows) ==> NamesUnique(b.reg.rows))
  {
    NormalizeHolds(es, reg);
  }

  /** What Normalize keeps for the entries `es` seen so far, starting from `reg`: the batch is the
      complete entries among them, its rows resolve, the registry only grew, by rows named by
      those entries, and it stayed free of duplicate names if it was. */
  predicate BatchHolds(reg: Registry, es: seq<Entry>, b: Batch) {
    && reg.rows <= b.reg.rows
    && Strips(b.songs) == Kept(es)
    && TableResolves(b.reg.rows, b.songs)
    && NamedFrom(b.reg.rows, |reg.rows|, Kept(es))
    && (NamesUnique(reg.rows) ==> NamesUnique(b.reg.rows))
  }

  lemma {:induction false} NormalizeHolds(es: seq<Entry>, reg: Registry)
    requires Valid(reg)
    ensures BatchHolds(reg, es, Normalize(es, reg))
    decreases |es|
  {
    if es != [] {
      var init, e := es[..|es| - 1], es[|es| - 1];
      NormalizeHolds(init, reg);
      StepKeeps(reg, init, e, Normalize(init, reg));
      assert init + [e] == es;
    }
  }

  /** Incomplete entries play no part in a batch: normalising a window gives the same songs
      and the same registry as normalising only its complete entries. */
  lemma {:induction false} NormalizeKept(es: seq<Entry>, reg: Registry)
    requires Valid(reg)
    ensures Normalize(es, reg) == Normalize(Kept(es), reg)
    decreases |es|
  {
    if es != [] {
      var init, e := es[..|es| - 1], es[|es| - 1];
      assert init + [e] == es;
      NormalizeKept(init, reg);
      KeptSnoc(init, e);
      NormalizeSnoc(init, e, reg);
      StepKept(Kept(init), e, reg);
    }
  }

  /** The step of NormalizeKept: one more entry, complete or not, on top of the kept ones. */
  lemma StepKept(kept: seq<Entry>, e: Entry, reg: Registry)
    requires Valid(reg)
    ensures Step(Normalize(kept, reg), e) == Normalize(kept + (if Complete(e) then [e] else []), reg)
  {
    if Complete(e) {
      NormalizeSnoc(kept, e, reg);
    } else {
      assert kept + [] == kept;
    }
  }

  /** What one Step preserves of Normalize's contract. */
  lemma StepKeeps(reg: Registry, init: seq<Entry>, e: Entry, prev: Batch)
    requires Valid(reg) && Valid(prev.reg) && BatchHolds(reg, init, prev)
    ensures prev.reg.rows <= Step(prev, e).reg.rows && prev.songs <= Step(prev, e).songs
    ensures BatchHolds(reg, init + [e], Step(prev, e))
  {
    KeptSnoc(init, e);
    StepStrips(prev, e);
    StepResolves(prev, e);
    StepMentions(reg, init, e, prev);
  }

  lemma KeptSnoc(init: seq<Entry>, e: Entry)
    ensures Kept(init + [e]) == Kept(init) + (if Complete(e) then [e] else [])
  {
    assert (init + [e])[..|init|] == init;
  }

  lemma StepStrips(prev: Batch, e: Entry)
    requires Valid(prev.reg)
    ensures Strips(Step(prev, e).songs) == Strips(prev.songs) + (if Complete(e) then [e] else [])
  {
    if Complete(e) {
      var b := Step(prev, e);
      StripsAppend(prev.songs, [b.songs[|prev.songs|]]);
      assert b.songs == prev.songs + [b.songs[|prev.songs|]];
    }
  }

  lemma StepResolves(prev: Batch, e: Entry)
    requires Valid(prev.reg)
    requires TableResolves(prev.reg.rows, prev.songs)
    ensures TableResolves(Step(prev, e).reg.rows, Step(prev, e).songs)
  {
    if Complete(e) {
      var res := GetOrCreate(prev.reg, e.artist.value);
      TableResolvesExtend(prev.reg.rows, res.reg.rows, prev.songs);
    }
  }

  lemma StepMentions(reg: Registry, init: seq<Entry>, e: Entry, prev: Batch)
    requires Valid(prev.reg) && reg.rows <= prev.reg.rows
    requires forall j :: |reg.rows| <= j < |prev.reg.rows| ==> Mentions(Kept(init), prev.reg.rows[j].name)
    ensures var b := Step(prev, e);
            forall j :: |reg.rows| <= j < |b.reg.rows| ==> Mentions(Kept(init + [e]), b.reg.rows[j].name)
  {
    var b := Step(prev, e);
    KeptSnoc(init, e);
    var kept := Kept(init + [e]);
    forall j | |reg.rows| <= j < |b.reg.rows|
      ensures Mentions(kept, b.reg.rows[j].name)
    {
      if j < |prev.reg.rows| {
        assert b.reg.rows[j] == prev.reg.rows[j];
        MentionsExtend(Kept(init), kept[|Kept(init)|..], b.reg.rows[j].name);
        assert Kept(init) + kept[|Kept(init)|..] == kept;
      } else {
        assert kept[|Kept(init)|] == e;
      }
    }
  }

  /** The window of entries one run looks at: positions start .. start + 24, clipped to the page. */
  function Window(entries: seq<Entry>, start: nat): (w: seq<Entry>)
    ensures |w| <= BatchSize
    ensures |w| <= if start < |entries| then |entries| - start else 0
  {
    Slice(entries, start, BatchSize)
  }

  /** scrape_songs after the page is parsed: walk the entries from `start_index` with the
      position counter of `enumerate`, stop once it reaches `start_index + 25`, and run the
      loop body (Step) on each entry. Its result is the batch Normalize computes on the window. */
  method ScrapeSongs(entries: seq<Entry>, reg: Registry, start: nat) returns (songs: seq<Song>, reg': Registry)
    requires Valid(reg)
    ensures Batch(songs, reg') == Normalize(Window(entries, start), reg)
    ensures |songs| <= BatchSize
    ensures |songs| <= if start < |entries| then |entries| - start else 0
  {
    if start >= |entries| {
      return [], reg;
    }
    var stop := Min(start + BatchSize, |entries|);
    var b := Batch([], reg);
    var i := start;
    while i < stop
      invariant start <= i <= stop
      invariant b == Normalize(entries[start..i], reg)
    {
      var j := i + 1;
      NormalizeNext(entries, start, i, j, reg);
      b := Step(b, entries[i]);
      i := j;
    }
    assert entries[start..i] == Window(entries, start);
    NormalizeLength(Window(entries, start), reg);
    songs, reg' := b.songs, b.reg;
  }

  /** The two year pages of one run. */
  datatype Sources = Sources(page2020: seq<Entry>, page2021: seq<Entry>) {
    function Page(y: Year): seq<Entry> {
      match y
      case Y2020 => page2020
      case Y2021 => page2021
    }
  }

  /** The Billboard database: ArtistIDs, State, BillboardTopSongs2020 and BillboardTopSongs2021. */
  datatype Store = Store(reg: Registry, cursor: Cursor.Log, chart2020: seq<Song>, chart2021: seq<Song>) {
    function Chart(y: Year): seq<Song> {
      match y
      case Y2020 => chart2020
      case Y2021 => chart2021
    }
  }

  /** A database no run has touched yet. */
  const Initial: Store := Store(Empty, [], [], [])

  /** Both year tables satisfy referential integrity. */
  predicate Consistent(st: Store) {
    TableResolves(st.reg.rows, st.chart2020) && TableResolves(st.reg.rows, st.chart2021)
  }

  /** The database as it stands after each step of main that commits: after scraping 2020
      (artist rows commit one by one inside get_or_create_artist_id), after scraping 2021,
      after the inserts into both year tables commit, and after the cursor row is written. */
  datatype Trace = Trace(scraped2020: Store, scraped2021: Store, inserted: Store, advanced: Store)

  /** main, step by step. The cursor stays put until both year tables have been written, and
      the scraping steps touch only the registry. */
  function MainTrace(st: Store, src: Sources): (t: Trace)
    requires Valid(st.reg)
    ensures t.scraped2020.cursor == t.scraped2021.cursor == t.inserted.cursor == st.cursor
    ensures t.scraped2020.chart2020 == t.scraped2021.chart2020 == st.chart2020
    ensures t.scraped2020.chart2021 == t.scraped2021.chart2021 == st.chart2021
    ensures t.advanced.reg == t.inserted.reg == t.scraped2021.reg
    ensures t.advanced.chart2020 == t.inserted.chart2020 && t.advanced.chart2021 == t.inserted.chart2021
    ensures t.advanced.cursor == Cursor.Write(st.cursor, Cursor.Read(st.cursor) + BatchSize)
  {
    var start := Cursor.Read(st.cursor);
    var b2020 := Normalize(Window(src.page2020, start), st.reg);
    var b2021 := Normalize(Window(src.page2021, start), b2020.reg);
    var scraped2020 := st.(reg := b2020.reg);
    var scraped2021 := st.(reg := b2021.reg);
    var inserted := scraped2021.(chart2020 := st.chart2020 + b2020.songs, chart2021 := st.chart2021 + b2021.songs);
    var advanced := inserted.(cursor := Cursor.Write(st.cursor, start + BatchSize));
    Trace(scraped2020, scraped2021, inserted, advanced)
  }

  /** A batch appended to a year table: its rows' scraped view follows the table's, and the
      table grows by at most the window's length. */
  lemma AppendBatch(table: seq<Song>, es: seq<Entry>, reg: Registry)
    requires Valid(reg)
    ensures Strips(table + Normalize(es, reg).songs) == Strips(table) + Kept(es)
    ensures |Normalize(es, reg).songs| <= |es|
  {
    NormalizeSound(es, reg);
    NormalizeLength(es, reg);
    StripsAppend(table, Normalize(es, reg).songs);
  }

  /** A table that resolved before a batch, with the batch appended, resolves against the
      registry the batch (and anything after it) leaves. */
  lemma AppendBatchResolves(table: seq<Song>, es: seq<Entry>, reg: Registry, rows': seq<Artist>)
    requires Valid(reg) && TableResolves(reg.rows, table)
    requires Normalize(es, reg).reg.rows <= rows' && IdsIncreasing(rows')
    ensures TableResolves(rows', table + Normalize(es, reg).songs)
  {
    var b := Normalize(es, reg);
    NormalizeSound(es, reg);
    TableResolvesExtend(reg.rows, rows', table);
    TableResolvesExtend(b.reg.rows, rows', b.songs);
    forall k | 0 <= k < |table + b.songs|
      ensures NameOf(rows', (table + b.songs)[k].artistId) == Some((table + b.songs)[k].artistName)
    {
      if k >= |table| {
        assert (table + b.songs)[k] == b.songs[k - |table|];
      }
    }
  }

  /** The artist rows one run adds are named by complete entries of the two windows it read. */
  lemma RunRowsNamed(st: Store, src: Sources)
    requires Valid(st.reg)
    ensures var start := Cursor.Read(st.cursor);
            NamedFrom(MainTrace(st, src).advanced.reg.rows, |st.reg.rows|,
                      Kept(Window(src.Page(Y2020), start)) + Kept(Window(src.Page(Y2021), start)))
  {
    var start := Cursor.Read(st.cursor);
    var k2020, k2021 := Kept(Window(src.page2020, start)), Kept(Window(src.page2021, start));
    var b2020 := Normalize(Window(src.page2020, start), st.reg);
    var b2021 := Normalize(Window(src.page2021, start), b2020.reg);
    var rows := MainTrace(st, src).advanced.reg.rows;
    assert rows == b2021.reg.rows;
    NormalizeSound(Window(src.page2020, start), st.reg);
    NormalizeSound(Window(src.page2021, start), b2020.reg);
    forall j | |st.reg.rows| <= j < |rows|
      ensures Mentions(k2020 + k2021, rows[j].name)
    {
      if j < |b2020.reg.rows| {
        assert rows[j] == b2020.reg.rows[j];
        MentionsExtend(k2020, k2021, rows[j].name);
      } else {
        MentionsPrepend(k2020, k2021, rows[j].name);
      }
    }
  }

  /** What one run leaves behind, read off the last state of its trace. */
  lemma MainTraceOutcome(st: Store, src: Sources)
    requires Valid(st.reg)
    ensures var st' := MainTrace(st, src).advanced;
            && Valid(st'.reg) && st.reg.rows <= st'.reg.rows
            && (NamesUnique(st.reg.rows) ==> NamesUnique(st'.reg.rows))
            && (Consistent(st) ==> Consistent(st'))
            && (forall y: Year :: st.Chart(y) <= st'.Chart(y))
            && (forall y: Year :: |st'.Chart(y)| <= |st.Chart(y)| + BatchSize)
            && (forall y: Year ::
                  Strips(st'.Chart(y)) == Strips(st.Chart(y)) + Kept(Window(src.Page(y), Cursor.Read(st.cursor))))
            && NamedFrom(st'.reg.rows, |st.reg.rows|, Kept(Window(src.Page(Y2020), Cursor.Read(st.cursor)))
                                                      + Kept(Window(src.Page(Y2021), Cursor.Read(st.cursor))))
  {
    RunRowsNamed(st, src);
    var start := Cursor.Read(st.cursor);
    var w2020, w2021 := Window(src.page2020, start), Window(src.page2021, start);
    var b2020 := Normalize(w2020, st.reg);
    var b2021 := Normalize(w2021, b2020.reg);
    var st' := MainTrace(st, src).advanced;
    assert st'.chart2020 == st.chart2020 + b2020.songs;
    assert st'.chart2021 == st.chart2021 + b2021.songs;
    assert st'.reg == b2021.reg;
    NormalizeSound(w2020, st.reg);
    NormalizeSound(w2021, b2020.reg);
    AppendBatch(st.chart2020, w2020, st.reg);
    AppendBatch(st.chart2021, w2021, b2020.reg);
    if Consistent(st) {
      AppendBatchResolves(st.chart2020, w2020, st.reg, st'.reg.rows);
      TableResolvesExtend(st.reg.rows, b2020.reg.rows, st.chart2021);
      AppendBatchResolves(st.chart2021, w2021, b2020.reg, st'.reg.rows);
    }
  }

  /** One run of main: the final state of its trace. Both years use the same start index, the
      existing rows stay as they are, and the cursor moves by 25 however many rows were written. */
  function Main(st: Store, src: Sources): (st': Store)
    requires Valid(st.reg)
    ensures Valid(st'.reg) && st.reg.rows <= st'.reg.rows
    ensures NamesUnique(st.reg.rows) ==> NamesUnique(st'.reg.rows)
    ensures Consistent(st) ==> Consistent(st')
    ensures Cursor.Read(st'.cursor) == Cursor.Read(st.cursor) + BatchSize
    ensures forall y: Year :: st.Chart(y) <= st'.Chart(y)
    ensures forall y: Year :: |st'.Chart(y)| <= |st.Chart(y)| + BatchSize
    ensures forall y: Year ::
              Strips(st'.Chart(y)) == Strips(st.Chart(y)) + Kept(Window(src.Page(y), Cursor.Read(st.cursor)))
    ensures NamedFrom(st'.reg.rows, |st.reg.rows|, Kept(Window(src.Page(Y2020), Cursor.Read(st.cursor)))
                                                   + Kept(Window(src.Page(Y2021), Cursor.Read(st.cursor))))
  {
    MainTraceOutcome(st, src);
    MainTrace(st, src).advanced
  }

  /** `n` consecutive runs of main over the same pages. Each run is written as the last state
      of its trace, which is what Main returns, so that the unfolding of Runs carries only the
      trace's field equalities. */
  function Runs(st: Store, src: Sources, n: nat): (r: Store)
    requires Valid(st.reg)
    ensures Valid(r.reg)
    decreases n
  {
    if n == 0 then st
    else
      var prev := Runs(st, src, n - 1);
      MainTraceOutcome(prev, src);
      MainTrace(prev, src).advanced
  }

  /** The resume invariant: each year table, read back as scraped entries, is exactly the
      complete entries among the page positions before the cursor. */
  predicate CoversPrefix(st: Store, src: Sources) {
    YearCovers(st, src, Y2020) && YearCovers(st, src, Y2021)
  }

  predicate YearCovers(st: Store, src: Sources, y: Year) {
    Strips(st.Chart(y)) == Kept(Slice(src.Page(y), 0, Cursor.Read(st.cursor)))
  }

  /** One run keeps the resume invariant: it appends the complete entries of the window that
      starts at the cursor and moves the cursor past that window. */
  lemma RunExtendsPrefix(before: Store, src: Sources)
    requires Valid(before.reg) && CoversPrefix(before, src)
    ensures CoversPrefix(Main(before, src), src)
  {
    RunExtendsYear(before, src, Y2020);
    RunExtendsYear(before, src, Y2021);
  }

  /** The same, for one year table. */
  lemma RunExtendsYear(before: Store, src: Sources, y: Year)
    requires Valid(before.reg) && YearCovers(before, src, y)
    ensures YearCovers(Main(before, src), src, y)
  {
    var pos, end := Cursor.Read(before.cursor), Cursor.Read(Main(before, src).cursor);
    KeptAppend(Slice(src.Page(y), 0, pos), Window(src.Page(y), pos));
    SliceTiles(src.Page(y), pos, BatchSize, end);
  }

  /** An empty database satisfies the resume invariant: no rows, cursor 0. */
  lemma InitialCovers(src: Sources)
    ensures CoversPrefix(Initial, src)
  {
    assert Slice(src.page2020, 0, 0) == [] && Slice(src.page2021, 0, 0) == [];
  }

  /** Run k + 1 keeps the invariant the first k runs established, and moves the cursor one
      window further. */
  lemma RunsStep(src: Sources, k: nat)
    requires CoversPrefix(Runs(Initial, src, k), src)
    ensures CoversPrefix(Runs(Initial, src, k + 1), src)
    ensures Cursor.Read(Runs(Initial, src, k + 1).cursor) == Cursor.Read(Runs(Initial, src, k).cursor) + BatchSize
  {
    RunExtendsPrefix(Runs(Initial, src, k), src);
  }

  /** Every number of runs from an empty database keeps the resume invariant, and leaves the
      cursor at 25 per run. */
  lemma RunsExtendPrefix(src: Sources, n: nat)
    ensures CoversPrefix(Runs(Initial, src, n), src)
    ensures Cursor.Read(Runs(Initial, src, n).cursor) == BatchSize * n
  {
    InitialCovers(src);
    var k := 0;
    while k < n
      invariant k <= n
      invariant CoversPrefix(Runs(Initial, src, k), src)
      invariant Cursor.Read(Runs(Initial, src, k).cursor) == BatchSize * k
    {
      RunsStep(src, k);
      k := k + 1;
    }
  }

  /** Resuming works: after n runs from an empty database the cursor stands at 25 * n and each
      year table holds exactly the complete entries among the page's first 25 * n positions,
      in page order, none missed and none twice. */
  lemma RunsCoverPrefix(src: Sources, n: nat)
    ensures Cursor.Read(Runs(Initial, src, n).cursor) == BatchSize * n
    ensures forall y: Year :: Strips(Runs(Initial, src, n).Chart(y)) == Kept(Slice(src.Page(y), 0, BatchSize * n))
  {
    RunsExtendPrefix(src, n);
    forall y: Year
      ensures Strips(Runs(Initial, src, n).Chart(y)) == Kept(Slice(src.Page(y), 0, BatchSize * n))
    {
      CoversYear(Runs(Initial, src, n), src, y);
    }
  }

  /** The resume invariant, read for one year. */
  lemma CoversYear(st: Store, src: Sources, y: Year)
    requires CoversPrefix(st, src)
    ensures YearCovers(st, src, y)
  {
  }

  /** Once the cursor is past the end of both pages, a run reads empty windows: it adds no artist
      and no song, and only the cursor moves on. */
  lemma ExhaustedRunAddsNothing(st: Store, src: Sources)
    requires Valid(st.reg)
    requires Cursor.Read(st.cursor) >= |src.page2020| && Cursor.Read(st.cursor) >= |src.page2021|
    ensures Main(st, src).reg.rows == st.reg.rows
    ensures Main(st, src).chart2020 == st.chart2020 && Main(st, src).chart2021 == st.chart2021
  {
    var st' := Main(st, src);
    var start := Cursor.Read(st.cursor);
    assert Window(src.Page(Y2020), start) == [] && Window(src.Page(Y2021), start) == [];
    assert Kept([]) == [];
    assert |st'.chart2020| == |Strips(st'.chart2020)| == |st.chart2020|;
    assert |st'.chart2021| == |Strips(st'.chart2021)| == |st.chart2021|;
  }

  /** The duplicate risk of a crash between the table commit and the cursor write: the cursor
      still holds the old value, so the next run appends the same complete entries again. */
  lemma CrashBeforeCursorDuplicates(st: Store, src: Sources, y: Year)
    requires Valid(st.reg)
    ensures var rerun := Main(MainTrace(st, src).inserted, src);
            var batch := Kept(Window(src.Page(y), Cursor.Read(st.cursor)));
            Strips(rerun.Chart(y)) == Strips(st.Chart(y)) + batch + batch
  {
    assert MainTrace(st, src).inserted.Chart(y) == Main(st, src).Chart(y);
  }
}
