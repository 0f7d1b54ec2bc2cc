/** The Spotify pipeline (new.py): flatten a playlist's JSON into (artist, track) pairs, fill
    the Artists table at most 12 new names at a time, append at most 25 tracks per run to a
    year's table resuming from the table's own MAX(Rank), and answer two set queries. */
module Spotify {
  import opened Common
  import opened ArtistRegistry

  // ---------------------------------------------------------------------------------------
  // The playlist JSON. A key the API left out is None; `dict.get(key, default)` supplies the
  // default.

  datatype ArtistObject = ArtistObject(name: Option<string>)
  datatype TrackObject = TrackObject(name: Option<string>, artists: Option<seq<ArtistObject>>)
  datatype Item = Item(track: Option<TrackObject>)
  datatype Playlist = Playlist(items: Option<seq<Item>>)

  /** One `{"Artist": ..., "Track": ...}` dictionary of get_track_info's result. */
  datatype TrackInfo = TrackInfo(artist: string, track: string)

  const NoTrackName: string := "No Track Name"
  const NoArtistName: string := "No Artist Name"

  /** `item.get('track', {}).get('name', 'No Track Name')`. */
  function TrackName(item: Item): (r: string)
    ensures item.track.None? ==> r == NoTrackName
    ensures item.track.Some? && item.track.value.name.None? ==> r == NoTrackName
    ensures item.track.Some? && item.track.value.name.Some? ==> r == item.track.value.name.value
  {
    match item.track
    case None => NoTrackName
    case Some(t) => t.name.GetOr(NoTrackName)
  }

  /** `item.get('track', {}).get('artists', [])`. */
  function ArtistsOf(item: Item): seq<ArtistObject> {
    match item.track
    case None => []
    case Some(t) => t.artists.GetOr([])
  }

  /** `artist.get('name', 'No Artist Name')`. */
  function ArtistName(a: ArtistObject): string {
    a.name.GetOr(NoArtistName)
  }

  /** The pairs one item contributes: one per artist of its track, all with the track's name. */
  function ItemInfo(item: Item): (r: seq<TrackInfo>)
    ensures |r| == |ArtistsOf(item)|
    ensures forall j :: 0 <= j < |r| ==> r[j] == TrackInfo(ArtistName(ArtistsOf(item)[j]), TrackName(item))
  {
    seq(|ArtistsOf(item)|, j requires 0 <= j < |ArtistsOf(item)| => TrackInfo(ArtistName(ArtistsOf(item)[j]), TrackName(item)))
  }

  /** How many artists the items list in total. */
  function ArtistTotal(items: seq<Item>): nat
    decreases |items|
  {
    if items == [] then 0 else ArtistTotal(items[..|items| - 1]) + |ArtistsOf(items[|items| - 1])|
  }

  /** The two nested loops of get_track_info over a list of items. */
  function Flatten(items: seq<Item>): (r: seq<TrackInfo>)
    ensures |r| == ArtistTotal(items)
    decreases |items|
  {
    if items == [] then [] else Flatten(items[..|items| - 1]) + ItemInfo(items[|items| - 1])
  }

  /** get_track_info: a playlist without an `items` key yields no pairs. */
  function GetTrackInfo(p: Playlist): (r: seq<TrackInfo>)
    ensures p.items.None? ==> r == []
    ensures p.items.Some? ==> |r| == ArtistTotal(p.items.value)
  {
    Flatten(p.items.GetOr([]))
  }

  lemma {:induction false} FlattenAppend(a: seq<Item>, b: seq<Item>)
    ensures Flatten(a + b) == Flatten(a) + Flatten(b)
    decreases |b|
  {
    if b == [] {
      assert a + b == a;
    } else {
      var b', last := b[..|b| - 1], b[|b| - 1];
      calc {
        Flatten(a + b);
        { InitOfAppend(a, b); }
        Flatten(a + b') + ItemInfo(last);
        { FlattenAppend(a, b'); }
        (Flatten(a) + Flatten(b')) + ItemInfo(last);
        { AppendAssoc(Flatten(a), Flatten(b'), ItemInfo(last)); }
        Flatten(a) + (Flatten(b') + ItemInfo(last));
        Flatten(a) + Flatten(b);
      }
    }
  }

  /** Item-then-artist order: the pair for the j-th artist of item i sits at position
      (artists of the items before i) + j. */
  lemma FlattenOrder(items: seq<Item>, i: int, j: int)
    requires 0 <= i < |items| && 0 <= j < |ArtistsOf(items[i])|
    ensures ArtistTotal(items[..i]) + j < |Flatten(items)|
    ensures Flatten(items)[ArtistTotal(items[..i]) + j] == ItemInfo(items[i])[j]
  {
    var before, item, after := items[..i], items[i], items[i + 1..];
    assert Flatten([item]) == ItemInfo(item) by {
      assert [item][..0] == [];
    }
    calc {
      Flatten(items);
      { SplitAt(items, i); }
      Flatten(before + [item] + after);
      { FlattenAppend(before + [item], after); }
      Flatten(before + [item]) + Flatten(after);
      { FlattenAppend(before, [item]); }
      Flatten(before) + ItemInfo(item) + Flatten(after);
    }
    IndexMiddle(Flatten(before), ItemInfo(item), Flatten(after), j);
  }

  /** A track without artists contributes no pair, so its name never reaches the database. */
  lemma NoArtistsNoPairs(before: seq<Item>, item: Item, after: seq<Item>)
    requires ArtistsOf(item) == []
    ensures Flatten(before + [item] + after) == Flatten(before) + Flatten(after)
  {
    calc {
      Flatten(before + [item] + after);
      { FlattenAppend(before + [item], after); }
      Flatten(before + [item]) + Flatten(after);
      { InitOfAppend(before, [item]); }
      (Flatten(before) + ItemInfo(item)) + Flatten(after);
      { assert ItemInfo(item) == []; assert Flatten(before) + [] == Flatten(before); }
      Flatten(before) + Flatten(after);
    }
  }

  // ---------------------------------------------------------------------------------------
  // add_artists

  /** New names add_artists inserts per call. */
  const MaxNewArtists: nat := 12

  /** Some pair of `info` names `name` as its artist. */
  predicate Lists(info: seq<TrackInfo>, name: string) {
    exists k :: 0 <= k < |info| && info[k].artist == name
  }

  /** The loop of add_artists over `info`, with `count` names already inserted. An artist not in
      the table is inserted and counted; once 12 have been inserted the remaining iterations do
      nothing. A name repeated in `info` is found by the SELECT the second time. */
  function AddArtistsFrom(reg: Registry, info: seq<TrackInfo>, count: nat): (r: Registry)
    requires Valid(reg) && count <= MaxNewArtists
    ensures Valid(r) && reg.rows <= r.rows
    decreases |info|
  {
    if info == [] || count >= MaxNewArtists then reg
    else if Lookup(reg.rows, info[0].artist).Some? then AddArtistsFrom(reg, info[1..], count)
    else AddArtistsFrom(Insert(reg, info[0].artist), info[1..], count + 1)
  }

  /** At most 12 - count rows are added. */
  lemma {:induction false} AddArtistsFromBound(reg: Registry, info: seq<TrackInfo>, count: nat)
    requires Valid(reg) && count <= MaxNewArtists
    ensures |AddArtistsFrom(reg, info, count).rows| <= |reg.rows| + (MaxNewArtists - count)
    decreases |info|
  {
    if info != [] && count < MaxNewArtists {
      var found := Lookup(reg.rows, info[0].artist).Some?;
      var next := if found then reg else Insert(reg, info[0].artist);
      var count' := if found then count else count + 1;
      assert AddArtistsFrom(reg, info, count) == AddArtistsFrom(next, info[1..], count');
      assert |next.rows| == |reg.rows| + (count' - count);
      AddArtistsFromBound(next, info[1..], count');
    }
  }

  /** Every row from position `from` on has a name no earlier row has. */
  predicate FreshFrom(rows: seq<Artist>, from: int) {
    forall i, j :: 0 <= i < j < |rows| && from <= j ==> rows[i].name != rows[j].name
  }

  /** Each added name differs from every row before it: it was not in the table, and it is
      not added twice. */
  lemma {:induction false} AddArtistsFromFresh(reg: Registry, info: seq<TrackInfo>, count: nat)
    requires Valid(reg) && count <= MaxNewArtists
    ensures FreshFrom(AddArtistsFrom(reg, info, count).rows, |reg.rows|)
    decreases |info|
  {
    if info != [] && count < MaxNewArtists {
      var name := info[0].artist;
      var found := Lookup(reg.rows, name).Some?;
      var next := if found then reg else Insert(reg, name);
      var count' := if found then count else count + 1;
      var r := AddArtistsFrom(next, info[1..], count');
      assert AddArtistsFrom(reg, info, count) == r;
      AddArtistsFromFresh(next, info[1..], count');
      assert FreshFrom(r.rows, |next.rows|);
      if !found {
        forall i, j | 0 <= i < j < |r.rows| && |reg.rows| <= j
          ensures r.rows[i].name != r.rows[j].name
        {
          if j == |reg.rows| {
            assert r.rows[j] == next.rows[j] && r.rows[j].name == name;
            assert r.rows[i] == reg.rows[i];
          }
        }
      }
    }
  }

  /** Every row from position `from` on carries a name listed in `info`. */
  predicate ListedFrom(rows: seq<Artist>, from: int, info: seq<TrackInfo>) {
    forall j :: from <= j < |rows| && 0 <= j ==> Lists(info, rows[j].name)
  }

  /** Every added name is one of the artists in `info`. */
  lemma {:induction false} AddArtistsFromListed(reg: Registry, info: seq<TrackInfo>, count: nat)
    requires Valid(reg) && count <= MaxNewArtists
    ensures ListedFrom(AddArtistsFrom(reg, info, count).rows, |reg.rows|, info)
    decreases |info|
  {
    if info == [] || count >= MaxNewArtists {
    } else {
      var r := AddArtistsFrom(reg, info, count);
      var next := if Lookup(reg.rows, info[0].artist).Some? then reg else Insert(reg, info[0].artist);
      var count' := if Lookup(reg.rows, info[0].artist).Some? then count else count + 1;
      assert r == AddArtistsFrom(next, info[1..], count');
      AddArtistsFromListed(next, info[1..], count');
      assert ListedFrom(r.rows, |next.rows|, info[1..]);
      forall j | |reg.rows| <= j < |r.rows|
        ensures Lists(info, r.rows[j].name)
      {
        if j < |next.rows| {
          assert r.rows[j] == next.rows[j] && info[0].artist == r.rows[j].name;
        } else {
          assert Lists(info[1..], r.rows[j].name);
          var k :| 0 <= k < |info[1..]| && info[1..][k].artist == r.rows[j].name;
          assert info[k + 1] == info[1..][k];
        }
      }
    }
  }

  /** When the cap was not reached, every artist of `info` is in the table afterwards. */
  lemma {:induction false} AddArtistsFromComplete(reg: Registry, info: seq<TrackInfo>, count: nat)
    requires Valid(reg) && count <= MaxNewArtists
    ensures var r := AddArtistsFrom(reg, info, count);
            |r.rows| < |reg.rows| + (MaxNewArtists - count) ==> forall k :: 0 <= k < |info| ==> HasName(r.rows, info[k].artist)
    decreases |info|
  {
    var r := AddArtistsFrom(reg, info, count);
    if info == [] || count >= MaxNewArtists {
    } else if |r.rows| < |reg.rows| + (MaxNewArtists - count) {
      var name := info[0].artist;
      var next := if Lookup(reg.rows, name).Some? then reg else Insert(reg, name);
      var count' := if Lookup(reg.rows, name).Some? then count else count + 1;
      assert r == AddArtistsFrom(next, info[1..], count');
      AddArtistsFromComplete(next, info[1..], count');
      assert HasName(next.rows, name) by {
        if Lookup(reg.rows, name).None? {
          assert next.rows[|reg.rows|].name == name;
        }
      }
      HasNameExtend(next.rows, r.rows, name);
      forall k | 0 <= k < |info|
        ensures HasName(r.rows, info[k].artist)
      {
        if k > 0 {
          assert info[k] == info[1..][k - 1];
        }
      }
    }
  }

  /** The artists of `info` that are not in `seen`, each once, in order of first appearance:
      what the loop of add_artists would insert if it had no cap. */
  function NewNames(seen: seq<string>, info: seq<TrackInfo>): seq<string>
    decreases |info|
  {
    if info == [] then []
    else if info[0].artist in seen then NewNames(seen, info[1..])
    else [info[0].artist] + NewNames(seen + [info[0].artist], info[1..])
  }

  /** No name occurs twice. */
  predicate Distinct(names: seq<string>) {
    forall i, j :: 0 <= i < j < |names| ==> names[i] != names[j]
  }

  /** Every name is listed in `info` and absent from `seen`, and every artist of `info` is in
      `seen` or among the names. */
  predicate NewNamesOf(names: seq<string>, seen: seq<string>, info: seq<TrackInfo>) {
    && (forall k :: 0 <= k < |names| ==> names[k] !in seen && Lists(info, names[k]))
    && (forall k :: 0 <= k < |info| ==> info[k].artist in seen || info[k].artist in names)
  }

  /** NewNames lists exactly the artists of `info` outside `seen`, each once. */
  lemma {:induction false} NewNamesExact(seen: seq<string>, info: seq<TrackInfo>)
    ensures Distinct(NewNames(seen, info)) && NewNamesOf(NewNames(seen, info), seen, info)
    decreases |info|
  {
    if info != [] {
      var a, rest := info[0].artist, info[1..];
      if a in seen {
        NewNamesExact(seen, rest);
        ListsTail(info);
      } else {
        var tail := NewNames(seen + [a], rest);
        NewNamesExact(seen + [a], rest);
        assert NewNames(seen, info) == [a] + tail;
        ListsTail(info);
        assert Lists(info, a) by { assert info[0].artist == a; }
      }
    }
  }

  /** A name listed by the pairs after the first is listed by all of them. */
  lemma ListsTail(info: seq<TrackInfo>)
    requires info != []
    ensures forall name :: Lists(info[1..], name) ==> Lists(info, name)
    ensures forall k :: 0 < k < |info| ==> info[k] == info[1..][k - 1]
  {
    forall name | Lists(info[1..], name)
      ensures Lists(info, name)
    {
      var k :| 0 <= k < |info[1..]| && info[1..][k].artist == name;
      assert info[k + 1] == info[1..][k];
    }
  }

  /** The rows `r` has beyond `reg` are named, in order, by the first `cap` names NewNames
      lists for `info` against the names already in `reg`. */
  predicate InsertsFirst(reg: Registry, r: Registry, info: seq<TrackInfo>, cap: nat) {
    |reg.rows| <= |r.rows| && Names(r.rows)[|reg.rows|..] == Slice(NewNames(Names(reg.rows), info), 0, cap)
  }

  /** The loop inserts, in order, the first 12 - count of the names NewNames lists for the
      names already in the table. */
  lemma {:induction false} AddArtistsFromOrder(reg: Registry, info: seq<TrackInfo>, count: nat)
    requires Valid(reg) && count <= MaxNewArtists
    ensures InsertsFirst(reg, AddArtistsFrom(reg, info, count), info, MaxNewArtists - count)
    decreases |info|
  {
    if info != [] && count < MaxNewArtists {
      var a := info[0].artist;
      var found := Lookup(reg.rows, a).Some?;
      var next := if found then reg else Insert(reg, a);
      var count' := if found then count else count + 1;
      var r := AddArtistsFrom(next, info[1..], count');
      assert AddArtistsFrom(reg, info, count) == r;
      AddArtistsFromOrder(next, info[1..], count');
      if found {
        SkippedFirst(reg, r, info, MaxNewArtists - count);
      } else {
        InsertedFirst(reg, a, next, r, info, count);
      }
    }
  }

  /** The step of AddArtistsFromOrder for a name the table has: nothing is inserted for it. */
  lemma SkippedFirst(reg: Registry, r: Registry, info: seq<TrackInfo>, cap: nat)
    requires info != [] && HasName(reg.rows, info[0].artist)
    requires InsertsFirst(reg, r, info[1..], cap)
    ensures InsertsFirst(reg, r, info, cap)
  {
    NamesHasName(reg.rows, info[0].artist);
  }

  /** The step of AddArtistsFromOrder for a name the table lacks: it is inserted first, and the
      rest of the loop inserts the first names after it. */
  lemma InsertedFirst(reg: Registry, a: string, next: Registry, r: Registry, info: seq<TrackInfo>, count: nat)
    requires Valid(reg) && count < MaxNewArtists && info != [] && info[0].artist == a
    requires !HasName(reg.rows, a) && next == Insert(reg, a) && next.rows <= r.rows
    requires InsertsFirst(next, r, info[1..], MaxNewArtists - (count + 1))
    ensures InsertsFirst(reg, r, info, MaxNewArtists - count)
  {
    NamesHasName(reg.rows, a);
    assert Names(next.rows) == Names(reg.rows) + [a];
    var tail := NewNames(Names(reg.rows) + [a], info[1..]);
    assert NewNames(Names(reg.rows), info) == [a] + tail;
    SliceCons(a, tail, MaxNewArtists - (count + 1), MaxNewArtists - count);
    assert Names(r.rows)[|reg.rows|..] == [a] + Names(r.rows)[|next.rows|..] by {
      assert r.rows[|reg.rows|] == next.rows[|reg.rows|];
    }
  }

  /** add_artists: the loop over get_track_info's pairs, starting from a count of 0. */
  function AddArtists(reg: Registry, p: Playlist): (r: Registry)
    requires Valid(reg)
    ensures Valid(r) && reg.rows <= r.rows
  {
    AddArtistsFrom(reg, GetTrackInfo(p), 0)
  }

  /** add_artists inserts at most 12 rows, only names listed in the playlist and not yet in the
      table, each once; so a table without duplicate names keeps none. The names inserted are
      the first 12 of the playlist's unregistered artists, in pair order. When fewer than 12
      were inserted, every artist of the playlist is in the table afterwards. */
  lemma AddArtistsSound(reg: Registry, p: Playlist)
    requires Valid(reg)
    ensures var r := AddArtists(reg, p);
            && |r.rows| <= |reg.rows| + MaxNewArtists
            && (forall j :: |reg.rows| <= j < |r.rows| ==> !HasName(reg.rows, r.rows[j].name))
            && (forall j :: |reg.rows| <= j < |r.rows| ==> Lists(GetTrackInfo(p), r.rows[j].name))
            && (NamesUnique(reg.rows) ==> NamesUnique(r.rows))
            && Names(r.rows)[|reg.rows|..] == Slice(NewNames(Names(reg.rows), GetTrackInfo(p)), 0, MaxNewArtists)
            && (|r.rows| < |reg.rows| + MaxNewArtists ==>
                  forall k :: 0 <= k < |GetTrackInfo(p)| ==> HasName(r.rows, GetTrackInfo(p)[k].artist))
  {
    var r := AddArtists(reg, p);
    var info := GetTrackInfo(p);
    AddArtistsFromBound(reg, info, 0);
    AddArtistsFromFresh(reg, info, 0);
    AddArtistsFromListed(reg, info, 0);
    AddArtistsFromComplete(reg, info, 0);
    AddArtistsFromOrder(reg, info, 0);
    forall j | |reg.rows| <= j < |r.rows|
      ensures !HasName(reg.rows, r.rows[j].name)
    {
      forall i | 0 <= i < |reg.rows|
        ensures reg.rows[i].name != r.rows[j].name
      {
        assert r.rows[i] == reg.rows[i];
      }
    }
    if NamesUnique(reg.rows) {
      assert forall i, j :: 0 <= i < j < |r.rows| ==> r.rows[i].name != r.rows[j].name;
    }
  }

  // ---------------------------------------------------------------------------------------
  // add_track

  /** One row of Tracks_<year>: (Rank, Artist_name, Song_name, id). Rank is the table's
      INTEGER PRIMARY KEY AUTOINCREMENT column. */
  datatype Track = Track(rank: nat, artistName: string, songName: string, artistId: int)

  /** Pairs add_track looks at per run. */
  const TracksPerRun: nat := 25

  /** `SELECT MAX(Rank)`, with a NULL result (an empty table) read as 0. */
  function MaxRank(table: seq<Track>): (m: nat)
    ensures forall k :: 0 <= k < |table| ==> table[k].rank <= m
    ensures table == [] ==> m == 0
    ensures table != [] ==> exists k :: 0 <= k < |table| && table[k].rank == m
    decreases |table|
  {
    if table == [] then 0
    else
      var init := table[..|table| - 1];
      var m := MaxRank(init);
      assert forall k :: 0 <= k < |init| ==> table[k] == init[k];
      if table[|table| - 1].rank >= m then table[|table| - 1].rank else m
  }

  /** The rows the loop of add_track appends for `window`, the first taking rank `next`: a pair
      whose artist the SELECT finds becomes one row with that id and the next AUTOINCREMENT rank;
      any other pair is skipped. */
  function NewTracks(rows: seq<Artist>, window: seq<TrackInfo>, next: nat): (r: seq<Track>)
    ensures |r| <= |window|
    ensures forall k :: 0 <= k < |r| ==> r[k].rank == next + k
    ensures forall k :: 0 <= k < |r| ==> Lookup(rows, r[k].artistName) == Some(r[k].artistId)
    decreases |window|
  {
    if window == [] then []
    else
      match Lookup(rows, window[0].artist)
      case Some(id) => [Track(next, window[0].artist, window[0].track, id)] + NewTracks(rows, window[1..], next + 1)
      case None => NewTracks(rows, window[1..], next)
  }

  /** The pairs of `window` whose artist has a row, in order. */
  function Registered(rows: seq<Artist>, window: seq<TrackInfo>): (r: seq<TrackInfo>)
    ensures |r| <= |window|
    ensures forall k :: 0 <= k < |r| ==> HasName(rows, r[k].artist)
    decreases |window|
  {
    if window == [] then []
    else (if HasName(rows, window[0].artist) then [window[0]] else []) + Registered(rows, window[1..])
  }

  /** The (artist, song) view of a stored row. */
  function InfoOf(t: Track): TrackInfo {
    TrackInfo(t.artistName, t.songName)
  }

  function Infos(tracks: seq<Track>): (r: seq<TrackInfo>)
    ensures |r| == |tracks|
    ensures forall k :: 0 <= k < |r| ==> r[k] == InfoOf(tracks[k])
  {
    seq(|tracks|, k requires 0 <= k < |tracks| => InfoOf(tracks[k]))
  }

  /** The rows appended are exactly the registered pairs of the window, in order: a pair is
      skipped if and only if its artist has no row. */
  lemma {:induction false} NewTracksContents(rows: seq<Artist>, window: seq<TrackInfo>, next: nat)
    ensures Infos(NewTracks(rows, window, next)) == Registered(rows, window)
    decreases |window|
  {
    if window != [] {
      var w := window[0];
      var next' := if HasName(rows, w.artist) then next + 1 else next;
      NewTracksContents(rows, window[1..], next');
      var rest := NewTracks(rows, window[1..], next');
      match Lookup(rows, w.artist)
      case Some(id) =>
        assert NewTracks(rows, window, next) == [Track(next, w.artist, w.track, id)] + rest;
        InfosCons(Track(next, w.artist, w.track, id), rest);
      case None =>
        assert NewTracks(rows, window, next) == rest;
    }
  }

  lemma InfosCons(t: Track, rest: seq<Track>)
    ensures Infos([t] + rest) == [InfoOf(t)] + Infos(rest)
  {
  }

  /** Referential integrity of a Tracks table: each row's id names, in Artists, the artist
      stored beside it. */
  predicate TracksResolve(rows: seq<Artist>, table: seq<Track>) {
    forall k :: 0 <= k < |table| ==> NameOf(rows, table[k].artistId) == Some(table[k].artistName)
  }

  /** Ranks 1, 2, 3, ... in row order: what AUTOINCREMENT hands out to a table that only ever
      receives inserts. */
  predicate Consecutive(table: seq<Track>) {
    forall k :: 0 <= k < |table| ==> table[k].rank == k + 1
  }

  /** In such a table MAX(Rank) is the number of rows. */
  lemma ConsecutiveMaxRank(table: seq<Track>)
    requires Consecutive(table)
    ensures MaxRank(table) == |table|
  {
    if table != [] {
      assert table[|table| - 1].rank == |table|;
    }
  }

  /** The pairs `info[max_rank : max_rank + 25]` add_track reads. */
  function TrackWindow(table: seq<Track>, p: Playlist): (w: seq<TrackInfo>)
    ensures |w| <= TracksPerRun
  {
    Slice(GetTrackInfo(p), MaxRank(table), TracksPerRun)
  }

  /** add_track: read MAX(Rank), take the pairs `info[max_rank : max_rank + 25]` and append a row
      for each one whose artist is in Artists, ranks continuing after the previous maximum. */
  function AddTrack(table: seq<Track>, reg: Registry, p: Playlist): (r: seq<Track>)
    ensures table <= r && |r| <= |table| + TracksPerRun
    ensures forall k :: |table| <= k < |r| ==> r[k].rank == MaxRank(table) + 1 + (k - |table|)
    ensures forall k :: |table| <= k < |r| ==> Lookup(reg.rows, r[k].artistName) == Some(r[k].artistId)
  {
    table + NewTracks(reg.rows, TrackWindow(table, p), MaxRank(table) + 1)
  }

  /** add_track appends exactly the registered pairs of its window, in order. */
  lemma AddTrackContents(table: seq<Track>, reg: Registry, p: Playlist)
    ensures var r := AddTrack(table, reg, p);
            Infos(r[|table|..]) == Registered(reg.rows, TrackWindow(table, p))
  {
    var added := NewTracks(reg.rows, TrackWindow(table, p), MaxRank(table) + 1);
    NewTracksContents(reg.rows, TrackWindow(table, p), MaxRank(table) + 1);
    DropAppend(table, added);
  }

  /** Appended rows resolve through their id to their artist, so a table whose rows resolved
      still does. */
  lemma AddTrackResolves(table: seq<Track>, reg: Registry, p: Playlist)
    requires Valid(reg) && TracksResolve(reg.rows, table)
    ensures TracksResolve(reg.rows, AddTrack(table, reg, p))
  {
    var r := AddTrack(table, reg, p);
    forall k | 0 <= k < |r|
      ensures NameOf(reg.rows, r[k].artistId) == Some(r[k].artistName)
    {
      if k >= |table| {
        LookupThenNameOf(reg.rows, r[k].artistName);
      } else {
        assert r[k] == table[k];
      }
    }
  }

  /** The resume point is the number of rows written, not the number of pairs consumed: in a
      table with ranks 1 .. n the next window starts at position n, and each run moves it on
      by the number of rows it appended. Pairs skipped for want of an artist therefore pull
      later pairs into the next window, which reads them again. */
  lemma AddTrackResume(table: seq<Track>, reg: Registry, p: Playlist)
    requires Consecutive(table)
    ensures TrackWindow(table, p) == Slice(GetTrackInfo(p), |table|, TracksPerRun)
    ensures Consecutive(AddTrack(table, reg, p))
    ensures MaxRank(AddTrack(table, reg, p)) == |table| + |Registered(reg.rows, TrackWindow(table, p))|
  {
    ConsecutiveMaxRank(table);
    var r := AddTrack(table, reg, p);
    forall k | 0 <= k < |r|
      ensures r[k].rank == k + 1
    {
      if k < |table| {
        assert r[k] == table[k];
      }
    }
    ConsecutiveMaxRank(r);
    AddTrackContents(table, reg, p);
    assert |Infos(r[|table|..])| == |r| - |table|;
  }

  /** The registry and playlist of the example below: only artist B has a row, and the
      playlist lists a track by A before a track by B. */
  const DemoRegistry := Registry([Artist(1, "B")], 2)
  const DemoPlaylist := Playlist(Some([
                          Item(Some(TrackObject(Some("x"), Some([ArtistObject(Some("A"))])))),
                          Item(Some(TrackObject(Some("y"), Some([ArtistObject(Some("B"))]))))]))

  lemma DemoPairs()
    ensures GetTrackInfo(DemoPlaylist) == [TrackInfo("A", "x"), TrackInfo("B", "y")]
  {
    var a := Item(Some(TrackObject(Some("x"), Some([ArtistObject(Some("A"))]))));
    var b := Item(Some(TrackObject(Some("y"), Some([ArtistObject(Some("B"))]))));
    assert [a, b][..1] == [a];
    assert [a][..0] == [];
    assert ItemInfo(a) == [TrackInfo("A", "x")] && ItemInfo(b) == [TrackInfo("B", "y")];
    assert Flatten([a]) == [TrackInfo("A", "x")];
  }

  /** The first run skips the pair by A and appends the pair by B with rank 1. */
  lemma DemoFirstRun()
    ensures AddTrack([], DemoRegistry, DemoPlaylist) == [Track(1, "B", "y", 1)]
  {
    var info := [TrackInfo("A", "x"), TrackInfo("B", "y")];
    DemoPairs();
    assert Lookup(DemoRegistry.rows, "A") == None by {
      assert DemoRegistry.rows[0].name != "A";
    }
    assert Slice(info, 0, TracksPerRun) == info;
    assert info[1..][1..] == [];
    assert NewTracks(DemoRegistry.rows, info, 1) == NewTracks(DemoRegistry.rows, info[1..], 1);
  }

  /** The second run's window starts at position 1, the number of rows already written. */
  lemma DemoSecondWindow()
    ensures TrackWindow([Track(1, "B", "y", 1)], DemoPlaylist) == [TrackInfo("B", "y")]
  {
    var info := [TrackInfo("A", "x"), TrackInfo("B", "y")];
    DemoPairs();
    assert MaxRank([Track(1, "B", "y", 1)]) == 1;
    assert Slice(info, 1, TracksPerRun) == info[1..] == [TrackInfo("B", "y")];
  }

  /** B has a row, so its pair becomes a track row with the next rank. */
  lemma DemoSecondTracks()
    ensures NewTracks(DemoRegistry.rows, [TrackInfo("B", "y")], MaxRank([Track(1, "B", "y", 1)]) + 1)
            == [Track(2, "B", "y", 1)]
  {
    assert MaxRank([Track(1, "B", "y", 1)]) + 1 == 2;
    assert Lookup(DemoRegistry.rows, "B") == Some(1);
    assert [TrackInfo("B", "y")][1..] == [];
  }

  /** The second run appends the pair by B again, with rank 2. */
  lemma DemoSecondRun()
    ensures AddTrack([Track(1, "B", "y", 1)], DemoRegistry, DemoPlaylist)
            == [Track(1, "B", "y", 1), Track(2, "B", "y", 1)]
  {
    DemoSecondWindow();
    DemoSecondTracks();
  }

  /** Two add_track runs over a playlist whose first artist has no row: the first run skips that
      pair and appends the second; the second run's window starts at position 1 (one row
      written) and appends the second pair again. */
  lemma SkippedPairRereads()
    ensures AddTrack(AddTrack([], DemoRegistry, DemoPlaylist), DemoRegistry, DemoPlaylist)
            == [Track(1, "B", "y", 1), Track(2, "B", "y", 1)]
  {
    DemoFirstRun();
    DemoSecondRun();
  }

  // ---------------------------------------------------------------------------------------
  // The database, one run of the script, and the two queries

  /** The Spotify database: Artists, Tracks_2020 and Tracks_2021. */
  datatype SpotifyStore = SpotifyStore(reg: Registry, tracks2020: seq<Track>, tracks2021: seq<Track>) {
    function Tracks(y: Year): seq<Track> {
      match y
      case Y2020 => tracks2020
      case Y2021 => tracks2021
    }
  }

  /** A database no run has touched yet. */
  const Fresh: SpotifyStore := SpotifyStore(Empty, [], [])

  /** What every run keeps: AUTOINCREMENT ids, no duplicate artist names, both Tracks tables
      resolving and ranked 1, 2, 3, ... */
  predicate Healthy(st: SpotifyStore) {
    && Valid(st.reg)
    && NamesUnique(st.reg.rows)
    && TracksResolve(st.reg.rows, st.tracks2020) && TracksResolve(st.reg.rows, st.tracks2021)
    && Consecutive(st.tracks2020) && Consecutive(st.tracks2021)
  }

  /** A database no run has touched yet is healthy, so every run sequence starts from one. */
  lemma FreshHealthy()
    ensures Healthy(Fresh)
  {
  }

  /** The script body: add_artists for 2021 then 2020, then add_track for Tracks_2021 and
      Tracks_2020, all against the registry both add_artists calls leave. */
  function Run(st: SpotifyStore, p2020: Playlist, p2021: Playlist): (st': SpotifyStore)
    requires Valid(st.reg)
    ensures Valid(st'.reg) && st.reg.rows <= st'.reg.rows
    ensures st.tracks2020 <= st'.tracks2020 && st.tracks2021 <= st'.tracks2021
  {
    var reg := AddArtists(AddArtists(st.reg, p2021), p2020);
    SpotifyStore(reg, AddTrack(st.tracks2020, reg, p2020), AddTrack(st.tracks2021, reg, p2021))
  }

  /** One run adds at most 24 artists and 25 rows per year, and keeps the database healthy. */
  lemma RunSound(st: SpotifyStore, p2020: Playlist, p2021: Playlist)
    requires Valid(st.reg)
    ensures var st' := Run(st, p2020, p2021);
            && |st'.reg.rows| <= |st.reg.rows| + 2 * MaxNewArtists
            && |st'.tracks2020| <= |st.tracks2020| + TracksPerRun
            && |st'.tracks2021| <= |st.tracks2021| + TracksPerRun
            && (Healthy(st) ==> Healthy(st'))
  {
    var reg1 := AddArtists(st.reg, p2021);
    var reg := AddArtists(reg1, p2020);
    AddArtistsSound(st.reg, p2021);
    AddArtistsSound(reg1, p2020);
    if Healthy(st) {
      TracksResolveExtend(st.reg.rows, reg.rows, st.tracks2020);
      TracksResolveExtend(st.reg.rows, reg.rows, st.tracks2021);
      AddTrackResolves(st.tracks2020, reg, p2020);
      AddTrackResolves(st.tracks2021, reg, p2021);
      AddTrackResume(st.tracks2020, reg, p2020);
      AddTrackResume(st.tracks2021, reg, p2021);
    }
  }

  lemma TracksResolveExtend(rows: seq<Artist>, rows': seq<Artist>, table: seq<Track>)
    requires rows <= rows' && IdsIncreasing(rows')
    requires TracksResolve(rows, table)
    ensures TracksResolve(rows', table)
  {
    forall k | 0 <= k < |table|
      ensures NameOf(rows', table[k].artistId) == Some(table[k].artistName)
    {
      NameOfExtend(rows, rows', table[k].artistId);
    }
  }

  /** The ids a Tracks table refers to. */
  function IdsIn(table: seq<Track>): set<int> {
    set k | 0 <= k < |table| :: table[k].artistId
  }

  /** The distinct names of the artists with a row in year `y`'s table (the join of Artists with
      Tracks_<y>). */
  function ArtistsIn(st: SpotifyStore, y: Year): set<string> {
    set i | 0 <= i < |st.reg.rows| && st.reg.rows[i].id in IdsIn(st.Tracks(y)) :: st.reg.rows[i].name
  }

  /** artists_in_both_years: the distinct names of Artists rows whose id is joined by both
      Tracks tables. */
  function ArtistsInBothYears(st: SpotifyStore): (r: set<string>)
    ensures r <= ArtistsIn(st, Y2020) * ArtistsIn(st, Y2021)
  {
    var rows := st.reg.rows;
    set i | 0 <= i < |rows| && rows[i].id in IdsIn(st.tracks2020) && rows[i].id in IdsIn(st.tracks2021) :: rows[i].name
  }

  /** unique_artists(year): the distinct names of Artists rows joined by that year's table whose
      id is NOT IN the other year's table. */
  function UniqueArtists(st: SpotifyStore, y: Year): (r: set<string>)
    ensures r <= ArtistsIn(st, y)
  {
    var rows := st.reg.rows;
    set i | 0 <= i < |rows| && rows[i].id in IdsIn(st.Tracks(y)) && rows[i].id !in IdsIn(st.Tracks(y.Other())) :: rows[i].name
  }

  /** Every artist of a year is either in both years or unique to that year. */
  lemma UniqueAndBothCover(st: SpotifyStore, y: Year)
    ensures UniqueArtists(st, y) + ArtistsInBothYears(st) == ArtistsIn(st, y)
  {
    var rows := st.reg.rows;
    forall n | n in ArtistsIn(st, y)
      ensures n in UniqueArtists(st, y) + ArtistsInBothYears(st)
    {
      var i :| 0 <= i < |rows| && rows[i].id in IdsIn(st.Tracks(y)) && rows[i].name == n;
      if rows[i].id in IdsIn(st.Tracks(y.Other())) {
        assert n in ArtistsInBothYears(st) by {
          assert y == Y2020 || y == Y2021;
        }
      } else {
        assert n in UniqueArtists(st, y);
      }
    }
    assert ArtistsInBothYears(st) <= ArtistsIn(st, y);
  }

  /** With one row per name, a name stands for a single id: the row a name comes from is the
      only row carrying it. */
  lemma SameNameSameRow(rows: seq<Artist>, i: int, j: int)
    requires NamesUnique(rows) && 0 <= i < |rows| && 0 <= j < |rows|
    requires rows[i].name == rows[j].name
    ensures i == j
  {
  }

  /** With one row per name, the unique artists of a year and the artists of both years do not
      overlap, both-years is exactly the intersection of the two years, and unique-to-y is
      exactly y's artists minus the other year's. */
  lemma QueriesExact(st: SpotifyStore, y: Year)
    requires NamesUnique(st.reg.rows)
    ensures UniqueArtists(st, y) * ArtistsInBothYears(st) == {}
    ensures ArtistsInBothYears(st) == ArtistsIn(st, Y2020) * ArtistsIn(st, Y2021)
    ensures UniqueArtists(st, y) == ArtistsIn(st, y) - ArtistsIn(st, y.Other())
  {
    var rows := st.reg.rows;
    forall n | n in ArtistsIn(st, Y2020) * ArtistsIn(st, Y2021)
      ensures n in ArtistsInBothYears(st)
    {
      var i :| 0 <= i < |rows| && rows[i].id in IdsIn(st.tracks2020) && rows[i].name == n;
      var j :| 0 <= j < |rows| && rows[j].id in IdsIn(st.tracks2021) && rows[j].name == n;
      SameNameSameRow(rows, i, j);
    }
    forall n | n in UniqueArtists(st, y)
      ensures n !in ArtistsIn(st, y.Other())
    {
      var i :| 0 <= i < |rows| && rows[i].id in IdsIn(st.Tracks(y)) && rows[i].id !in IdsIn(st.Tracks(y.Other())) && rows[i].name == n;
    }
    UniqueAndBothCover(st, y);
    assert ArtistsInBothYears(st) <= ArtistsIn(st, y.Other()) by {
      assert y.Other() == Y2020 || y.Other() == Y2021;
    }
  }

  /** After a run from a healthy database the queries are still exact: artists_in_both_years is
      the intersection of the two years and unique_artists(y) is y's artists minus the other
      year's, the two never overlapping. */
  lemma RunQueriesExact(st: SpotifyStore, p2020: Playlist, p2021: Playlist, y: Year)
    requires Healthy(st)
    ensures var st' := Run(st, p2020, p2021);
            && UniqueArtists(st', y) * ArtistsInBothYears(st') == {}
            && ArtistsInBothYears(st') == ArtistsIn(st', Y2020) * ArtistsIn(st', Y2021)
            && UniqueArtists(st', y) == ArtistsIn(st', y) - ArtistsIn(st', y.Other())
  {
    RunSound(st, p2020, p2021);
    QueriesExact(Run(st, p2020, p2021), y);
  }
}
