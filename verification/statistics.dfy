/** calculate_statistics (measurement.py, and the identical copy in Visualization.py): for each
    year, `SELECT ArtistIDs.ArtistName, COUNT(*) FROM BillboardTopSongs<year> JOIN ArtistIDs ON
    ... GROUP BY ArtistID`, over the Billboard database. The grouping is modelled as one pass
    that keeps a running tally per artist id; the lemmas tie the tally to the declarative
    meaning of the query. */
module Statistics {
  import opened Common
  import opened ArtistRegistry
  import opened Billboard

  /** One result row: the group key ArtistID (the program's tuple carries only the name and
      the count), the joined ArtistName and COUNT(*). */
  datatype ArtistCount = ArtistCount(artistId: int, name: string, count: nat)

  /** How many rows of `table` carry `id`. */
  function CountId(table: seq<Song>, id: int): nat
    decreases |table|
  {
    if table == [] then 0
    else CountId(table[..|table| - 1], id) + (if table[|table| - 1].artistId == id then 1 else 0)
  }

  /** The rows the inner join keeps: those whose ArtistID has a registry row. */
  function Resolvable(rows: seq<Artist>, table: seq<Song>): (r: seq<Song>)
    ensures |r| <= |table|
    ensures forall k :: 0 <= k < |r| ==> NameOf(rows, r[k].artistId).Some?
    decreases |table|
  {
    if table == [] then []
    else
      var last := table[|table| - 1];
      Resolvable(rows, table[..|table| - 1]) + (if NameOf(rows, last.artistId).Some? then [last] else [])
  }

  predicate HasGroup(groups: seq<ArtistCount>, id: int) {
    exists k :: 0 <= k < |groups| && groups[k].artistId == id
  }

  /** One more row of the group `id`. */
  function Bump(groups: seq<ArtistCount>, id: int): (r: seq<ArtistCount>)
    ensures |r| == |groups|
    ensures forall k :: 0 <= k < |r| ==> r[k].artistId == groups[k].artistId && r[k].name == groups[k].name
    ensures forall k :: 0 <= k < |r| ==> r[k].count == groups[k].count + (if groups[k].artistId == id then 1 else 0)
  {
    seq(|groups|, k requires 0 <= k < |groups| =>
      if groups[k].artistId == id then groups[k].(count := groups[k].count + 1) else groups[k])
  }

  /** Feed one song row to the aggregation: a row the join drops changes nothing; otherwise its
      group is bumped, or opened with a count of 1 and the registry's name. */
  function Tally(rows: seq<Artist>, groups: seq<ArtistCount>, s: Song): (r: seq<ArtistCount>)
    ensures NameOf(rows, s.artistId).None? ==> r == groups
    ensures NameOf(rows, s.artistId).Some? ==> HasGroup(r, s.artistId)
    ensures |groups| <= |r| <= |groups| + 1
    ensures forall k :: 0 <= k < |groups| ==> r[k].artistId == groups[k].artistId
  {
    match NameOf(rows, s.artistId)
    case None => groups
    case Some(name) =>
      if HasGroup(groups, s.artistId) then
        var r := Bump(groups, s.artistId);
        assert HasGroup(r, s.artistId) by {
          var k :| 0 <= k < |groups| && groups[k].artistId == s.artistId;
          assert r[k].artistId == s.artistId;
        }
        r
      else
        var r := groups + [ArtistCount(s.artistId, name, 1)];
        assert r[|groups|].artistId == s.artistId;
        r
  }

  /** The grouped counts of one year table, groups in order of first appearance. */
  function GroupCounts(rows: seq<Artist>, table: seq<Song>): (r: seq<ArtistCount>)
    ensures |r| <= |Resolvable(rows, table)|
    decreases |table|
  {
    if table == [] then []
    else Tally(rows, GroupCounts(rows, table[..|table| - 1]), table[|table| - 1])
  }

  predicate DistinctIds(groups: seq<ArtistCount>) {
    forall i, j :: 0 <= i < j < |groups| ==> groups[i].artistId != groups[j].artistId
  }

  /** Each group's count is the number of rows carrying its id, at least 1, and its name is the
      registry's name for that id. */
  predicate GroupsExact(rows: seq<Artist>, table: seq<Song>, groups: seq<ArtistCount>) {
    forall k :: 0 <= k < |groups| ==>
      && groups[k].count == CountId(table, groups[k].artistId)
      && groups[k].count >= 1
      && NameOf(rows, groups[k].artistId) == Some(groups[k].name)
  }

  /** Every id the join keeps has a group. */
  predicate GroupsComplete(rows: seq<Artist>, table: seq<Song>, groups: seq<ArtistCount>) {
    forall k :: 0 <= k < |table| && NameOf(rows, table[k].artistId).Some? ==> HasGroup(groups, table[k].artistId)
  }

  lemma CountIdSnoc(init: seq<Song>, s: Song, id: int)
    ensures CountId(init + [s], id) == CountId(init, id) + (if s.artistId == id then 1 else 0)
  {
    assert (init + [s])[..|init|] == init;
  }

  lemma ResolvableSnoc(rows: seq<Artist>, init: seq<Song>, s: Song)
    ensures Resolvable(rows, init + [s]) == Resolvable(rows, init) + (if NameOf(rows, s.artistId).Some? then [s] else [])
  {
    assert (init + [s])[..|init|] == init;
  }

  lemma GroupCountsSnoc(rows: seq<Artist>, init: seq<Song>, s: Song)
    ensures GroupCounts(rows, init + [s]) == Tally(rows, GroupCounts(rows, init), s)
  {
    assert (init + [s])[..|init|] == init;
  }

  /** An id with no group has no row among those the groups were built from. */
  lemma NoGroupNoRows(rows: seq<Artist>, table: seq<Song>, groups: seq<ArtistCount>, id: int)
    requires GroupsComplete(rows, table, groups)
    requires NameOf(rows, id).Some? && !HasGroup(groups, id)
    ensures CountId(table, id) == 0
    decreases |table|
  {
    if table != [] {
      var init := table[..|table| - 1];
      assert GroupsComplete(rows, init, groups) by {
        forall k | 0 <= k < |init| && NameOf(rows, init[k].artistId).Some?
          ensures HasGroup(groups, init[k].artistId)
        {
          assert init[k] == table[k];
        }
      }
      NoGroupNoRows(rows, init, groups, id);
    }
  }

  /** The three group invariants of a tally over `table`. */
  predicate GroupsHold(rows: seq<Artist>, table: seq<Song>, groups: seq<ArtistCount>) {
    DistinctIds(groups) && GroupsExact(rows, table, groups) && GroupsComplete(rows, table, groups)
  }

  lemma CountIdSnocAll(init: seq<Song>, s: Song)
    ensures forall id :: CountId(init + [s], id) == CountId(init, id) + (if s.artistId == id then 1 else 0)
  {
    forall id | true
      ensures CountId(init + [s], id) == CountId(init, id) + (if s.artistId == id then 1 else 0)
    {
      CountIdSnoc(init, s, id);
    }
  }

  /** A row whose id has no registry row leaves the groups as they are. */
  lemma TallySkipKeeps(rows: seq<Artist>, init: seq<Song>, g: seq<ArtistCount>, s: Song)
    requires GroupsHold(rows, init, g) && NameOf(rows, s.artistId).None?
    ensures GroupsHold(rows, init + [s], Tally(rows, g, s))
  {
    CountIdSnocAll(init, s);
    assert forall k :: 0 <= k < |init| ==> (init + [s])[k] == init[k];
  }

  /** A row whose id already has a group raises that group's count by one. */
  lemma TallyBumpKeeps(rows: seq<Artist>, init: seq<Song>, g: seq<ArtistCount>, s: Song)
    requires GroupsHold(rows, init, g) && NameOf(rows, s.artistId).Some? && HasGroup(g, s.artistId)
    ensures GroupsHold(rows, init + [s], Tally(rows, g, s))
  {
    var table, g' := init + [s], Tally(rows, g, s);
    CountIdSnocAll(init, s);
    assert table[|init|] == s;
    forall k | 0 <= k < |table| && NameOf(rows, table[k].artistId).Some?
      ensures HasGroup(g', table[k].artistId)
    {
      var id := table[k].artistId;
      if k < |init| {
        assert table[k] == init[k];
      }
      var j :| 0 <= j < |g| && g[j].artistId == id;
      assert g'[j].artistId == id;
    }
  }

  /** A row with a registry row but no group yet opens a group with count 1. */
  lemma TallyNewKeeps(rows: seq<Artist>, init: seq<Song>, g: seq<ArtistCount>, s: Song)
    requires GroupsHold(rows, init, g) && NameOf(rows, s.artistId).Some? && !HasGroup(g, s.artistId)
    ensures GroupsHold(rows, init + [s], Tally(rows, g, s))
  {
    var table, g' := init + [s], Tally(rows, g, s);
    CountIdSnocAll(init, s);
    NoGroupNoRows(rows, init, g, s.artistId);
    assert table[|init|] == s;
    assert g'[|g|].artistId == s.artistId;
    forall k | 0 <= k < |table| && NameOf(rows, table[k].artistId).Some?
      ensures HasGroup(g', table[k].artistId)
    {
      if k < |init| {
        assert table[k] == init[k];
        var j :| 0 <= j < |g| && g[j].artistId == init[k].artistId;
        assert g'[j] == g[j];
      }
    }
  }

  /** What one Tally keeps of the three group invariants. */
  lemma TallyKeeps(rows: seq<Artist>, init: seq<Song>, s: Song)
    requires GroupsHold(rows, init, GroupCounts(rows, init))
    ensures GroupsHold(rows, init + [s], GroupCounts(rows, init + [s]))
  {
    var g := GroupCounts(rows, init);
    GroupCountsSnoc(rows, init, s);
    if NameOf(rows, s.artistId).None? {
      TallySkipKeeps(rows, init, g, s);
    } else if HasGroup(g, s.artistId) {
      TallyBumpKeeps(rows, init, g, s);
    } else {
      TallyNewKeeps(rows, init, g, s);
    }
  }

  /** The tally computes the query: distinct group keys, each count the number of rows with that
      ArtistID (so at least 1), each name the registry's, and a group for every joined row. */
  lemma {:induction false} GroupCountsSound(rows: seq<Artist>, table: seq<Song>)
    ensures var g := GroupCounts(rows, table);
            DistinctIds(g) && GroupsExact(rows, table, g) && GroupsComplete(rows, table, g)
    decreases |table|
  {
    if table != [] {
      var init := table[..|table| - 1];
      GroupCountsSound(rows, init);
      TallyKeeps(rows, init, table[|table| - 1]);
      assert init + [table[|table| - 1]] == table;
    }
  }

  function SumCounts(groups: seq<ArtistCount>): nat
    decreases |groups|
  {
    if groups == [] then 0 else SumCounts(groups[..|groups| - 1]) + groups[|groups| - 1].count
  }

  lemma {:induction false} SumCountsBump(groups: seq<ArtistCount>, id: int)
    requires DistinctIds(groups) && HasGroup(groups, id)
    ensures SumCounts(Bump(groups, id)) == SumCounts(groups) + 1
    decreases |groups|
  {
    var n := |groups|;
    var b := Bump(groups, id);
    var init := groups[..n - 1];
    assert b[..n - 1] == Bump(init, id);
    if groups[n - 1].artistId == id {
      assert !HasGroup(init, id);
      assert SumCounts(Bump(init, id)) == SumCounts(init) by {
        BumpAbsent(init, id);
      }
    } else {
      assert HasGroup(init, id) by {
        var k :| 0 <= k < n && groups[k].artistId == id;
        assert init[k] == groups[k];
      }
      SumCountsBump(init, id);
    }
  }

  /** Bumping an id no group has changes nothing. */
  lemma BumpAbsent(groups: seq<ArtistCount>, id: int)
    requires !HasGroup(groups, id)
    ensures Bump(groups, id) == groups
  {
    assert forall k :: 0 <= k < |groups| ==> Bump(groups, id)[k] == groups[k];
  }

  lemma SumCountsSnoc(groups: seq<ArtistCount>, a: ArtistCount)
    ensures SumCounts(groups + [a]) == SumCounts(groups) + a.count
  {
    assert (groups + [a])[..|groups|] == groups;
  }

  /** The inner join drops exactly the unresolvable rows: the counts add up to the number of
      rows whose ArtistID has a registry row. */
  lemma {:induction false} SumIsResolvable(rows: seq<Artist>, table: seq<Song>)
    ensures SumCounts(GroupCounts(rows, table)) == |Resolvable(rows, table)|
    decreases |table|
  {
    if table != [] {
      var init, s := table[..|table| - 1], table[|table| - 1];
      var g := GroupCounts(rows, init);
      SumIsResolvable(rows, init);
      GroupCountsSound(rows, init);
      if NameOf(rows, s.artistId).Some? {
        if HasGroup(g, s.artistId) {
          SumCountsBump(g, s.artistId);
        } else {
          SumCountsSnoc(g, ArtistCount(s.artistId, NameOf(rows, s.artistId).value, 1));
        }
      }
    }
  }

  /** calculate_statistics: one grouped count per year, keyed by the two chart years. */
  function CalculateStatistics(st: Store): (stats: map<Year, seq<ArtistCount>>)
    ensures stats.Keys == {Y2020, Y2021}
  {
    map[Y2020 := GroupCounts(st.reg.rows, st.chart2020), Y2021 := GroupCounts(st.reg.rows, st.chart2021)]
  }

  /** Per year: one pair per ArtistID, each count the number of that year's rows with the id and
      at least 1, every joined row counted, and the counts summing to the joined rows. In a
      database whose tables resolve (which every run of main keeps), that is every row. */
  lemma CalculateStatisticsSound(st: Store, y: Year)
    ensures var g := CalculateStatistics(st)[y];
            && DistinctIds(g)
            && GroupsExact(st.reg.rows, st.Chart(y), g)
            && GroupsComplete(st.reg.rows, st.Chart(y), g)
            && SumCounts(g) == |Resolvable(st.reg.rows, st.Chart(y))|
            && (Consistent(st) ==> SumCounts(g) == |st.Chart(y)|)
  {
    var rows, table := st.reg.rows, st.Chart(y);
    assert CalculateStatistics(st)[y] == GroupCounts(rows, table);
    GroupCountsSound(rows, table);
    SumIsResolvable(rows, table);
    if Consistent(st) {
      assert TableResolves(rows, table);
      ResolvableAll(rows, table);
    }
  }

  /** When every row resolves, the join keeps them all. */
  lemma {:induction false} ResolvableAll(rows: seq<Artist>, table: seq<Song>)
    requires TableResolves(rows, table)
    ensures Resolvable(rows, table) == table
    decreases |table|
  {
    if table != [] {
      var init := table[..|table| - 1];
      assert TableResolves(rows, init) by {
        assert forall k :: 0 <= k < |init| ==> init[k] == table[k];
      }
      ResolvableAll(rows, init);
      assert init + [table[|table| - 1]] == table;
    }
  }
}
