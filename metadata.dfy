/**
 * Metadata: `load_metadata` keys the rows of the metadata CSV by their
 * `filename` cell, and `enrich_results_with_metadata` copies the matching
 * row's cells into each analysis record, in place.
 */
module Metadata {
  import opened Records

  /** A row of the metadata CSV: column name to cell text. */
  type Row = map<string, string>

  /** `item.get("filename", "")`. */
  function RowName(row: Row): string {
    if "filename" in row then row["filename"] else ""
  }

  // ---------------------------------------------------------------------
  // load_metadata

  /** The dictionary built from `rows`: a later row with the same name replaces an earlier one. */
  function Keyed(rows: seq<Row>): map<string, Row>
    decreases |rows|
  {
    if rows == [] then map[]
    else
      var m := Keyed(rows[..|rows| - 1]);
      var last := rows[|rows| - 1];
      if RowName(last) != "" then m[RowName(last) := last] else m
  }

  /** The loop of `load_metadata` over the rows read from the file. */
  method KeyRows(rows: seq<Row>) returns (metadata: map<string, Row>)
    ensures metadata == Keyed(rows)
  {
    metadata := map[];
    var i := 0;
    while i < |rows|
      invariant 0 <= i <= |rows|
      invariant metadata == Keyed(rows[..i])
    {
      var item := rows[i];
      var filename := RowName(item);
      if filename != "" {
        metadata := metadata[filename := item];
      }
      assert rows[..i + 1][..i] == rows[..i];
      i := i + 1;
    }
    assert rows[..i] == rows;
  }

  /** The keys are exactly the non-empty names that occur in the rows. */
  lemma {:induction false} KeyedDomain(rows: seq<Row>)
    ensures forall f :: f in Keyed(rows) <==> f != "" && exists i :: 0 <= i < |rows| && RowName(rows[i]) == f
    decreases |rows|
  {
    if rows != [] {
      var init := rows[..|rows| - 1];
      var last := rows[|rows| - 1];
      KeyedDomain(init);
      var m := Keyed(rows);
      assert m == if RowName(last) != "" then Keyed(init)[RowName(last) := last] else Keyed(init);
      forall f ensures f in m <==> f != "" && exists i :: 0 <= i < |rows| && RowName(rows[i]) == f {
        if f == "" {
          assert f !in Keyed(init);
        } else if RowName(last) == f {
          assert RowName(rows[|rows| - 1]) == f;
        } else {
          if exists i :: 0 <= i < |rows| && RowName(rows[i]) == f {
            var i :| 0 <= i < |rows| && RowName(rows[i]) == f;
            assert init[i] == rows[i];
          }
          if exists i :: 0 <= i < |init| && RowName(init[i]) == f {
            var i :| 0 <= i < |init| && RowName(init[i]) == f;
            assert init[i] == rows[i];
          }
        }
      }
    }
  }

  /** Each key maps to the last row carrying that name. */
  lemma {:induction false} KeyedLast(rows: seq<Row>)
    ensures forall f :: f in Keyed(rows) ==>
      exists i :: (0 <= i < |rows| && rows[i] == Keyed(rows)[f] && RowName(rows[i]) == f
        && forall j :: i < j < |rows| ==> RowName(rows[j]) != f)
    decreases |rows|
  {
    if rows != [] {
      var init := rows[..|rows| - 1];
      var last := rows[|rows| - 1];
      KeyedLast(init);
      KeyedDomain(rows);
      var m := Keyed(rows);
      assert m == if RowName(last) != "" then Keyed(init)[RowName(last) := last] else Keyed(init);
      forall f | f in m
        ensures exists i :: (0 <= i < |rows| && rows[i] == m[f] && RowName(rows[i]) == f
          && forall j :: i < j < |rows| ==> RowName(rows[j]) != f)
      {
        if RowName(last) != "" && RowName(last) == f {
          var i := |rows| - 1;
          assert rows[i] == last == m[f] && RowName(rows[i]) == f;
        } else {
          var i :| 0 <= i < |init| && init[i] == Keyed(init)[f] && RowName(init[i]) == f
            && forall j :: i < j < |init| ==> RowName(init[j]) != f;
          assert rows[i] == init[i] == m[f];
          forall j | i < j < |rows| ensures RowName(rows[j]) != f {
            if j < |init| {
              assert rows[j] == init[j];
            } else {
              assert rows[j] == last && f != "";
            }
          }
        }
      }
    }
  }

  /** Every metadata entry built from rows carries its own key in its `filename` column. */
  lemma KeyedNames(rows: seq<Row>, f: string)
    requires f in Keyed(rows)
    ensures "filename" in Keyed(rows)[f] && Keyed(rows)[f]["filename"] == f
  {
    KeyedLast(rows);
  }

  // ---------------------------------------------------------------------
  // enrich_results_with_metadata

  /** A metadata row as record columns (the cells are strings). */
  function RowFields(row: Row): (r: Fields)
    ensures r.Keys == row.Keys
    ensures forall k :: k in row ==> r[k] == Str(row[k])
  {
    map k | k in row :: Str(row[k])
  }

  /**
   * The metadata key a record is looked up under: `result.get("filename", "")`.
   * A value that is not a string equals no key.
   */
  predicate HasEntry(r: Fields, metadata: map<string, Row>) {
    if "filename" !in r then "" in metadata
    else r["filename"].Str? && r["filename"].s in metadata
  }

  function Entry(r: Fields, metadata: map<string, Row>): Row
    requires HasEntry(r, metadata)
  {
    if "filename" !in r then metadata[""] else metadata[r["filename"].s]
  }

  /**
   * `result.update(metadata[filename])` when the record's name is a key:
   * every metadata column is set, overwriting, and every other column kept;
   * a record without an entry is unchanged.
   */
  function EnrichOne(r: Fields, metadata: map<string, Row>): (e: Fields)
    ensures !HasEntry(r, metadata) ==> e == r
    ensures HasEntry(r, metadata) ==>
      && e.Keys == r.Keys + Entry(r, metadata).Keys
      && (forall k :: k in Entry(r, metadata) ==> e[k] == Str(Entry(r, metadata)[k]))
      && (forall k :: k in r && k !in Entry(r, metadata) ==> e[k] == r[k])
  {
    if HasEntry(r, metadata) then r + RowFields(Entry(r, metadata)) else r
  }

  /**
   * `enrich_results_with_metadata`: nothing changes for empty metadata;
   * otherwise each record, in its place, is enriched with its entry.
   */
  method EnrichWithMetadata(results: array<Fields>, metadata: map<string, Row>)
    modifies results
    ensures metadata == map[] ==> results[..] == old(results[..])
    ensures forall i :: 0 <= i < results.Length ==> results[i] == EnrichOne(old(results[i]), metadata)
  {
    if metadata == map[] {
      return;
    }
    var i := 0;
    while i < results.Length
      invariant 0 <= i <= results.Length
      invariant forall j :: 0 <= j < i ==> results[j] == EnrichOne(old(results[j]), metadata)
      invariant forall j :: i <= j < results.Length ==> results[j] == old(results[j])
    {
      results[i] := EnrichOne(results[i], metadata);
      i := i + 1;
    }
  }

  /** Enriching twice with metadata loaded from rows is enriching once. */
  lemma EnrichIdempotent(r: Fields, rows: seq<Row>)
    ensures EnrichOne(EnrichOne(r, Keyed(rows)), Keyed(rows)) == EnrichOne(r, Keyed(rows))
  {
    var m := Keyed(rows);
    var e := EnrichOne(r, m);
    if HasEntry(r, m) {
      var f := if "filename" !in r then "" else r["filename"].s;
      assert Entry(r, m) == m[f];
      KeyedNames(rows, f);
      assert e["filename"] == Str(f);
      assert HasEntry(e, m) && Entry(e, m) == m[f];
      assert e + RowFields(m[f]) == e;
    }
  }

  /** Empty metadata leaves every record as it is. */
  lemma EnrichEmpty(r: Fields)
    ensures EnrichOne(r, map[]) == r
  {
  }
}
