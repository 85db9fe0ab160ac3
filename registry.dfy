/**
 The target registry: the `checks` table, keyed by an auto-incremented id and
 unique by URL. Models `insert_check` and `select_all_checks` in main.py over
 an in-memory table instead of SQLite.
 */
module Registry {

  import opened Wrappers

  /** One row of the `checks` table. */
  datatype Check = Check(id: int, url: string, createdAt: string)

  /** The table: its rows in id order, and the id the next insertion receives. */
  datatype Table = Table(rows: seq<Check>, nextId: int)

  /**
   The table's invariant: ids are positive, strictly increasing in row order
   and below `nextId`; no URL appears twice.
   */
  ghost predicate TableValid(t: Table) {
    && 1 <= t.nextId
    && (forall i :: 0 <= i < |t.rows| ==> 1 <= t.rows[i].id < t.nextId)
    && (forall i, j :: 0 <= i < j < |t.rows| ==> t.rows[i].id < t.rows[j].id)
    && (forall i, j :: 0 <= i < j < |t.rows| ==> t.rows[i].url != t.rows[j].url)
  }

  /** `SELECT id FROM checks WHERE url = ?`: the id of the row holding `url`, if any. */
  function IdOf(rows: seq<Check>, url: string): (r: Option<int>)
    ensures r.None? <==> forall i :: 0 <= i < |rows| ==> rows[i].url != url
    ensures r.Some? ==> exists i :: 0 <= i < |rows| && rows[i].url == url && rows[i].id == r.value
  {
    if rows == [] then
      None
    else if rows[0].url == url then
      Some(rows[0].id)
    else
      var r := IdOf(rows[1..], url);
      assert forall i :: 1 <= i < |rows| ==> rows[i] == rows[1..][i - 1];
      r
  }

  /**
   `insert_check` on a table value: a known URL yields its existing id and
   leaves the table as it was; a new URL is appended under the next id.
   */
  function Upsert(t: Table, url: string, createdAt: string): (r: (Table, int))
    ensures t.rows <= r.0.rows
    ensures exists i :: 0 <= i < |r.0.rows| && r.0.rows[i].url == url && r.0.rows[i].id == r.1
    ensures (exists i :: 0 <= i < |t.rows| && t.rows[i].url == url) ==> r.0 == t
    ensures (forall i :: 0 <= i < |t.rows| ==> t.rows[i].url != url) ==>
      && r.0.rows == t.rows + [Check(t.nextId, url, createdAt)]
      && r.0.nextId == t.nextId + 1
      && r.1 == t.nextId
  {
    match IdOf(t.rows, url)
    case Some(id) => (t, id)
    case None =>
      var rows := t.rows + [Check(t.nextId, url, createdAt)];
      assert rows[|t.rows|].url == url;
      (Table(rows, t.nextId + 1), t.nextId)
  }

  /**
   Registration keeps the invariant, never changes or drops an existing row,
   and afterwards `url` is registered under the returned id.
   */
  lemma UpsertValid(t: Table, url: string, createdAt: string)
    requires TableValid(t)
    ensures var (t', id) := Upsert(t, url, createdAt);
      && TableValid(t')
      && t.rows <= t'.rows
      && IdOf(t'.rows, url) == Some(id)
  {
    var (t', id) := Upsert(t, url, createdAt);
    match IdOf(t.rows, url)
    case Some(_) =>
    case None =>
      var n := |t.rows|;
      assert t'.rows[n] == Check(t.nextId, url, createdAt);
      assert forall i :: 0 <= i < n ==> t'.rows[i] == t.rows[i];
      UniqueUrlLookup(t'.rows, n, url);
  }

  /** In a table with unique URLs, the lookup finds the one row holding the URL. */
  lemma {:induction false} UniqueUrlLookup(rows: seq<Check>, k: int, url: string)
    requires 0 <= k < |rows| && rows[k].url == url
    requires forall i, j :: 0 <= i < j < |rows| ==> rows[i].url != rows[j].url
    ensures IdOf(rows, url) == Some(rows[k].id)
  {
    if k > 0 {
      assert rows[0].url != url;
      assert forall i, j :: 0 <= i < j < |rows[1..]| ==> rows[1..][i] == rows[i + 1] && rows[1..][j] == rows[j + 1];
      UniqueUrlLookup(rows[1..], k - 1, url);
    }
  }

  /** Registering the same URL twice returns the same id and adds nothing the second time. */
  lemma UpsertIdempotent(t: Table, url: string, c1: string, c2: string)
    requires TableValid(t)
    ensures var (t1, id1) := Upsert(t, url, c1);
      var (t2, id2) := Upsert(t1, url, c2);
      t2 == t1 && id2 == id1
  {
    UpsertValid(t, url, c1);
  }

  /** A new URL adds exactly one row; a known one adds none. */
  lemma UpsertSize(t: Table, url: string, createdAt: string)
    ensures var (t', _) := Upsert(t, url, createdAt);
      |t'.rows| == |t.rows| + (if IdOf(t.rows, url).Some? then 0 else 1)
  {
  }

  /** The `checks` table held in memory. */
  class Registry {
    var rows: seq<Check>
    var nextId: int

    /** The table as a value. */
    function Snapshot(): Table
      reads this
    {
      Table(rows, nextId)
    }

    ghost predicate Valid()
      reads this
    {
      TableValid(Snapshot())
    }

    /** An empty table whose first id is 1, as SQLite's AUTOINCREMENT starts. */
    constructor ()
      ensures Valid() && rows == [] && nextId == 1
    {
      rows := [];
      nextId := 1;
    }

    /**
     `insert_check`: try to insert `url`; when the URL is already present
     (the UNIQUE constraint fires), return the existing row's id instead.
     */
    method Insert(url: string, createdAt: string) returns (id: int)
      requires Valid()
      modifies this
      ensures Valid()
      ensures (Snapshot(), id) == Upsert(old(Snapshot()), url, createdAt)
      ensures IdOf(rows, url) == Some(id)
      ensures old(rows) <= rows
    {
      ghost var before := Snapshot();
      UpsertValid(before, url, createdAt);
      var existing := IdOf(rows, url);
      if existing.Some? {
        id := existing.value;
      } else {
        id := nextId;
        rows := rows + [Check(id, url, createdAt)];
        nextId := nextId + 1;
      }
      assert (Snapshot(), id) == Upsert(before, url, createdAt);
    }

    /** `select_all_checks`: every row, in ascending id order. */
    method SelectAll() returns (all: seq<Check>)
      requires Valid()
      ensures all == rows
      ensures forall i, j :: 0 <= i < j < |all| ==> all[i].id < all[j].id
    {
      all := rows;
    }
  }

}
