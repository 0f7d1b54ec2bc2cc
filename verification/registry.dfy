/** The artist table shared by both pipelines: `ArtistIDs(ArtistID INTEGER PRIMARY KEY
    AUTOINCREMENT, ArtistName TEXT)` in the Billboard database and `Artists(id INTEGER PRIMARY KEY
    AUTOINCREMENT, Artist_name TEXT)` in the Spotify one. The schema has no UNIQUE constraint on
    the name, so name uniqueness is an invariant the writers must keep, not one the store enforces. */
module ArtistRegistry {
  import opened Common

  /** One row of the artist table. */
  datatype Artist = Artist(id: int, name: string)

  /** The rows in ROWID order, and the id AUTOINCREMENT will hand out next. */
  datatype Registry = Registry(rows: seq<Artist>, nextId: int)

  /** A freshly created table: AUTOINCREMENT starts at 1. */
  const Empty: Registry := Registry([], 1)

  predicate IdsIncreasing(rows: seq<Artist>) {
    forall i, j :: 0 <= i < j < |rows| ==> rows[i].id < rows[j].id
  }

  /** What the PRIMARY KEY AUTOINCREMENT column guarantees: ids are positive, issued in
      increasing order, and every issued id is below the counter, so none is ever reused. */
  predicate Valid(reg: Registry) {
    && reg.nextId >= 1
    && IdsIncreasing(reg.rows)
    && forall i :: 0 <= i < |reg.rows| ==> 1 <= reg.rows[i].id < reg.nextId
  }

  /** No two rows share a name. */
  predicate NamesUnique(rows: seq<Artist>) {
    forall i, j :: 0 <= i < j < |rows| ==> rows[i].name != rows[j].name
  }

  predicate HasName(rows: seq<Artist>, name: string) {
    exists i :: 0 <= i < |rows| && rows[i].name == name
  }

  /** `SELECT id FROM <artists> WHERE name = ?` followed by `fetchone()`: the id of the first
      row carrying `name`, if any. */
  function Lookup(rows: seq<Artist>, name: string): (r: Option<int>)
    ensures r.None? <==> !HasName(rows, name)
    ensures r.Some? ==> exists i :: 0 <= i < |rows| && rows[i].name == name && rows[i].id == r.value
  {
    if rows == [] then None
    else if rows[0].name == name then Some(rows[0].id)
    else
      var r := Lookup(rows[1..], name);
      assert HasName(rows, name) ==> HasName(rows[1..], name) by {
        if HasName(rows, name) {
          var i :| 0 <= i < |rows| && rows[i].name == name;
          assert rows[1..][i - 1] == rows[i];
        }
      }
      assert r.Some? ==> exists i :: 0 <= i < |rows| && rows[i].name == name && rows[i].id == r.value by {
        if r.Some? {
          var i :| 0 <= i < |rows[1..]| && rows[1..][i].name == name && rows[1..][i].id == r.value;
          assert rows[i + 1] == rows[1..][i];
        }
      }
      r
  }

  /** The join side of the registry: the name of the first row whose id is `id`, if any. */
  function NameOf(rows: seq<Artist>, id: int): (r: Option<string>)
    ensures r.None? <==> forall i :: 0 <= i < |rows| ==> rows[i].id != id
    ensures r.Some? ==> exists i :: 0 <= i < |rows| && rows[i].id == id && rows[i].name == r.value
  {
    if rows == [] then None
    else if rows[0].id == id then Some(rows[0].name)
    else
      var r := NameOf(rows[1..], id);
      assert r.None? ==> forall i :: 0 <= i < |rows| ==> rows[i].id != id by {
        if r.None? {
          forall i | 0 <= i < |rows| ensures rows[i].id != id {
            if i > 0 { assert rows[i] == rows[1..][i - 1]; }
          }
        }
      }
      assert r.Some? ==> exists i :: 0 <= i < |rows| && rows[i].id == id && rows[i].name == r.value by {
        if r.Some? {
          var i :| 0 <= i < |rows[1..]| && rows[1..][i].id == id && rows[1..][i].name == r.value;
          assert rows[i + 1] == rows[1..][i];
        }
      }
      r
  }

  /** With increasing ids, every row is found again by its id. */
  lemma NameOfRow(rows: seq<Artist>, i: int)
    requires IdsIncreasing(rows)
    requires 0 <= i < |rows|
    ensures NameOf(rows, rows[i].id) == Some(rows[i].name)
  {
    var r := NameOf(rows, rows[i].id);
    var j :| 0 <= j < |rows| && rows[j].id == rows[i].id && rows[j].name == r.value;
    assert j == i;
  }

  /** A name found by Lookup resolves back to the same name through its id. */
  lemma LookupThenNameOf(rows: seq<Artist>, name: string)
    requires IdsIncreasing(rows)
    requires Lookup(rows, name).Some?
    ensures NameOf(rows, Lookup(rows, name).value) == Some(name)
  {
    var i :| 0 <= i < |rows| && rows[i].name == name && rows[i].id == Lookup(rows, name).value;
    NameOfRow(rows, i);
  }

  /** Appending rows (with fresh ids) never changes what an existing id resolves to. */
  lemma NameOfExtend(rows: seq<Artist>, rows': seq<Artist>, id: int)
    requires rows <= rows' && IdsIncreasing(rows')
    requires NameOf(rows, id).Some?
    ensures NameOf(rows', id) == NameOf(rows, id)
  {
    var i :| 0 <= i < |rows| && rows[i].id == id && rows[i].name == NameOf(rows, id).value;
    assert rows'[i] == rows[i];
    NameOfRow(rows', i);
  }

  /** Appending rows never removes a name. */
  lemma HasNameExtend(rows: seq<Artist>, rows': seq<Artist>, name: string)
    requires rows <= rows'
    requires HasName(rows, name)
    ensures HasName(rows', name)
  {
    var i :| 0 <= i < |rows| && rows[i].name == name;
    assert rows'[i] == rows[i];
  }

  /** The names of the rows, in ROWID order. */
  function Names(rows: seq<Artist>): (r: seq<string>)
    ensures |r| == |rows| && forall i :: 0 <= i < |rows| ==> r[i] == rows[i].name
  {
    seq(|rows|, i requires 0 <= i < |rows| => rows[i].name)
  }

  lemma NamesHasName(rows: seq<Artist>, name: string)
    ensures name in Names(rows) <==> HasName(rows, name)
  {
    if HasName(rows, name) {
      var i :| 0 <= i < |rows| && rows[i].name == name;
      assert Names(rows)[i] == name;
    }
  }

  /** `INSERT INTO <artists> (name) VALUES (?)`: one row with the next AUTOINCREMENT id. */
  function Insert(reg: Registry, name: string): (r: Registry)
    requires Valid(reg)
    ensures Valid(r)
    ensures reg.rows <= r.rows && |r.rows| == |reg.rows| + 1
    ensures r.rows[|reg.rows|] == Artist(reg.nextId, name)
    ensures forall i :: 0 <= i < |reg.rows| ==> reg.rows[i].id < r.rows[|reg.rows|].id
    ensures !HasName(reg.rows, name) && NamesUnique(reg.rows) ==> NamesUnique(r.rows)
  {
    Registry(reg.rows + [Artist(reg.nextId, name)], reg.nextId + 1)
  }

  /** The outcome of get_or_create_artist_id: the registry afterwards and the id returned. */
  datatype Resolved = Resolved(reg: Registry, id: int)

  /** get_or_create_artist_id: return the id of the row named `name`, inserting one first
      (and selecting it again) when there is none. Empty names are stored like any other. */
  function GetOrCreate(reg: Registry, name: string): (res: Resolved)
    requires Valid(reg)
    ensures Valid(res.reg)
    ensures reg.rows <= res.reg.rows
    ensures Lookup(res.reg.rows, name) == Some(res.id)
    ensures NameOf(res.reg.rows, res.id) == Some(name)
    ensures HasName(reg.rows, name) ==> res.reg == reg
    ensures !HasName(reg.rows, name) ==>
              && res.reg.rows == reg.rows + [Artist(res.id, name)]
              && forall i :: 0 <= i < |reg.rows| ==> reg.rows[i].id < res.id
    ensures NamesUnique(reg.rows) ==> NamesUnique(res.reg.rows)
  {
    match Lookup(reg.rows, name)
    case Some(id) =>
      LookupThenNameOf(reg.rows, name);
      Resolved(reg, id)
    case None =>
      var reg' := Insert(reg, name);
      assert reg'.rows[|reg.rows|].name == name;
      var id := Lookup(reg'.rows, name).value;
      assert id == reg.nextId by {
        var i :| 0 <= i < |reg'.rows| && reg'.rows[i].name == name && reg'.rows[i].id == id;
      }
      LookupThenNameOf(reg'.rows, name);
      Resolved(reg', id)
  }

  /** Asking twice for the same name returns the same id and adds nothing the second time. */
  lemma GetOrCreateIdempotent(reg: Registry, name: string)
    requires Valid(reg)
    ensures GetOrCreate(GetOrCreate(reg, name).reg, name) == GetOrCreate(reg, name)
  {
    var first := GetOrCreate(reg, name);
    assert HasName(first.reg.rows, name);
  }
}
