/** Moving rows from display paths to canonical paths (crates/catalog/src/lib.rs 285-339). */
module LegacyPaths {
  import opened Common
  import opened SkillTable

  /** The canonical path of a path, if it can be resolved. */
  type Canonicalize = string -> Option<string>

  /** What resolves, resolves to a path that resolves to itself. */
  ghost predicate Idempotent(canon: Canonicalize) {
    forall p :: canon(p).Some? ==> canon(canon(p).value) == canon(p)
  }

  function Canonical(canon: Canonicalize, row: Row): Row {
    row.(path := canon(row.path).GetOr(row.path))
  }

  predicate Legacy(canon: Canonicalize, row: Row) {
    canon(row.path).Some? && canon(row.path).value != row.path
  }

  ghost function LegacyIds(canon: Canonicalize, rows: map<string, Row>): set<string> {
    set id | id in rows && Legacy(canon, rows[id])
  }

  /** The places of the rows once their paths are canonical. */
  ghost function CanonicalPlaces(canon: Canonicalize, rows: map<string, Row>): set<Place> {
    set id | id in rows :: PlaceOf(Canonical(canon, rows[id]))
  }

  lemma HasPlace(canon: Canonicalize, rows: map<string, Row>, id: string)
    requires id in rows
    ensures PlaceOf(Canonical(canon, rows[id])) in CanonicalPlaces(canon, rows)
  {
  }

  /** The rows `ids` are dealt with: gone or at their canonical path; the others are as they were. */
  ghost predicate Migrated(canon: Canonicalize, before: map<string, Row>, rows: map<string, Row>, ids: set<string>) {
    && rows.Keys <= before.Keys
    && (forall id :: id in before && (id !in ids || !Legacy(canon, before[id])) ==>
        id in rows && rows[id] == before[id])
    && (forall id :: id in rows && id in ids ==> rows[id] == Canonical(canon, before[id]))
  }

  class Catalog {
    var rows: map<string, Row>

    constructor (initial: map<string, Row>)
      ensures rows == initial
    {
      rows := initial;
    }

    /** One row: drop it if its canonical place is taken, move it otherwise. */
    method CanonicalizeRow(canon: Canonicalize, id: string) returns (fixed: nat)
      requires Idempotent(canon) && UniquePlaces(rows) && id in rows
      modifies this
      ensures UniquePlaces(rows)
      ensures CanonicalPlaces(canon, rows) == CanonicalPlaces(canon, old(rows))
      ensures rows - {id} == old(rows) - {id}
      ensures id in rows ==> rows[id] == Canonical(canon, old(rows)[id])
      ensures id !in rows ==> Legacy(canon, old(rows)[id])
      ensures fixed == if Legacy(canon, old(rows)[id]) then 1 else 0
    {
      var row := rows[id];
      var canonical := canon(row.path);
      if canonical.None? || canonical.value == row.path {
        return 0;
      }
      var conflict := HolderOf(rows, Place(row.agent, row.scope, canonical.value));
      if conflict.Some? {
        if conflict.value != id {
          MergeKeepsPlaces(canon, rows, id, conflict.value);
          rows := rows - {id};
          fixed := 1;
        } else {
          assert false;
        }
      } else {
        MoveKeepsPlaces(canon, rows, id);
        rows := rows[id := row.(path := canonical.value)];
        fixed := 1;
      }
    }

    /** All rows; the database may fail at any of them. */
    method CanonicalizeLegacyPaths(
      canon: Canonicalize, order: seq<string>, failsAt: Option<nat>) returns (fixed: Option<nat>)
      requires Idempotent(canon) && UniquePlaces(rows) && Enumerates(order, rows.Keys)
      modifies this
      ensures UniquePlaces(rows)
      ensures CanonicalPlaces(canon, rows) == CanonicalPlaces(canon, old(rows))
      ensures exists done :: done <= old(rows).Keys && Migrated(canon, old(rows), rows, done)
      ensures fixed.None? <==> failsAt.Some? && failsAt.value < |order|
      ensures fixed.Some? ==> Migrated(canon, old(rows), rows, old(rows).Keys)
      ensures fixed.Some? ==> LegacyIds(canon, rows) == {} && fixed.value == |LegacyIds(canon, old(rows))|
    {
      var count := 0;
      ghost var done := {};
      for i := 0 to |order|
        invariant failsAt.Some? ==> failsAt.value >= i
        invariant forall k :: 0 <= k < |order| ==> (order[k] in done <==> k < i)
        invariant UniquePlaces(rows) && CanonicalPlaces(canon, rows) == CanonicalPlaces(canon, old(rows))
        invariant done <= old(rows).Keys && Migrated(canon, old(rows), rows, done)
        invariant count == |LegacyAmong(canon, old(rows), done)|
      {
        if failsAt == Some(i) {
          return None;
        }
        ghost var before := rows;
        assert order[i] in old(rows).Keys;
        var more := CanonicalizeRow(canon, order[i]);
        NextMigrated(canon, old(rows), before, rows, done, order[i]);
        count, done := count + more, done + {order[i]};
      }
      assert done == old(rows).Keys;
      NothingLegacyLeft(canon, old(rows), rows);
      fixed := Some(count);
    }
  }

  lemma NothingLegacyLeft(canon: Canonicalize, first: map<string, Row>, rows: map<string, Row>)
    requires Idempotent(canon) && Migrated(canon, first, rows, first.Keys)
    ensures LegacyIds(canon, rows) == {} && LegacyAmong(canon, first, first.Keys) == LegacyIds(canon, first)
    ensures LegacyIds(canon, first) == {} ==> rows == first
  {
    if LegacyIds(canon, first) == {} {
      forall id | id in first ensures id in rows && rows[id] == first[id] {
        assert id !in LegacyIds(canon, first);
      }
      assert rows.Keys == first.Keys;
    }
  }

  ghost function LegacyAmong(canon: Canonicalize, rows: map<string, Row>, ids: set<string>): set<string> {
    set id | id in ids && id in rows && Legacy(canon, rows[id])
  }

  lemma MergeKeepsPlaces(canon: Canonicalize, rows: map<string, Row>, id: string, holder: string)
    requires Idempotent(canon) && id in rows && holder in rows && holder != id && Legacy(canon, rows[id])
    requires PlaceOf(rows[holder]) == PlaceOf(Canonical(canon, rows[id]))
    ensures CanonicalPlaces(canon, rows - {id}) == CanonicalPlaces(canon, rows)
  {
    forall p ensures p in CanonicalPlaces(canon, rows - {id}) <==> p in CanonicalPlaces(canon, rows) {
      if p in CanonicalPlaces(canon, rows) {
        var other :| other in rows && p == PlaceOf(Canonical(canon, rows[other]));
        HasPlace(canon, rows - {id}, if other == id then holder else other);
      }
    }
  }

  lemma MoveKeepsPlaces(canon: Canonicalize, rows: map<string, Row>, id: string)
    requires Idempotent(canon) && id in rows && Legacy(canon, rows[id])
    ensures CanonicalPlaces(canon, rows[id := Canonical(canon, rows[id])]) == CanonicalPlaces(canon, rows)
  {
    var after := rows[id := Canonical(canon, rows[id])];
    assert Canonical(canon, after[id]) == Canonical(canon, rows[id]);
    forall p ensures p in CanonicalPlaces(canon, after) <==> p in CanonicalPlaces(canon, rows) {
      if p in CanonicalPlaces(canon, rows) {
        var other :| other in rows && p == PlaceOf(Canonical(canon, rows[other]));
        HasPlace(canon, after, other);
      }
    }
  }

  lemma SameElsewhere(before: map<string, Row>, rows: map<string, Row>, id: string, other: string)
    requires rows - {id} == before - {id} && other != id
    ensures other in rows <==> other in before
    ensures other in rows ==> rows[other] == before[other]
  {
    assert other in rows <==> other in rows - {id};
    assert other in before <==> other in before - {id};
    if other in rows {
      assert (rows - {id})[other] == rows[other] && (before - {id})[other] == before[other];
    }
  }

  lemma NextMigrated(
    canon: Canonicalize, first: map<string, Row>, before: map<string, Row>, rows: map<string, Row>,
    done: set<string>, id: string)
    requires id in first && id in before && id !in done && Migrated(canon, first, before, done)
    requires rows - {id} == before - {id}
    requires id in rows ==> rows[id] == Canonical(canon, before[id])
    requires id !in rows ==> Legacy(canon, before[id])
    ensures Migrated(canon, first, rows, done + {id})
    ensures |LegacyAmong(canon, first, done + {id})| ==
            |LegacyAmong(canon, first, done)| + if Legacy(canon, before[id]) then 1 else 0
  {
    forall other | other != id
      ensures (other in rows <==> other in before) && (other in rows ==> rows[other] == before[other])
    {
      SameElsewhere(before, rows, id, other);
    }
    OneMoreLegacy(canon, first, done, id);
  }

  lemma OneMoreLegacy(canon: Canonicalize, first: map<string, Row>, done: set<string>, id: string)
    requires id in first && id !in done
    ensures |LegacyAmong(canon, first, done + {id})| ==
            |LegacyAmong(canon, first, done)| + if Legacy(canon, first[id]) then 1 else 0
  {
    assert LegacyAmong(canon, first, done + {id}) ==
           LegacyAmong(canon, first, done) + if Legacy(canon, first[id]) then {id} else {};
  }

  /** Every group of rows with one canonical place ends with exactly one row, at that place. */
  lemma OneRowPerPlace(canon: Canonicalize, before: map<string, Row>, after: map<string, Row>, id: string)
    requires UniquePlaces(after) && LegacyIds(canon, after) == {} &&
             CanonicalPlaces(canon, after) == CanonicalPlaces(canon, before)
    requires id in before
    ensures exists kept :: Holds(after, PlaceOf(Canonical(canon, before[id])), kept) &&
              forall other :: Holds(after, PlaceOf(Canonical(canon, before[id])), other) ==> other == kept
  {
    HasPlace(canon, before, id);
    var kept :| kept in after && PlaceOf(Canonical(canon, after[kept])) == PlaceOf(Canonical(canon, before[id]));
    assert kept !in LegacyIds(canon, after);
    assert Canonical(canon, after[kept]) == after[kept];
    assert Holds(after, PlaceOf(Canonical(canon, before[id])), kept);
  }

  /** A second run finds nothing to fix and changes nothing, in whatever order the rows are selected. */
  method RunTwice(
    catalog: Catalog, canon: Canonicalize, select: map<string, Row> -> seq<string>)
    returns (first: Option<nat>, second: Option<nat>)
    requires Idempotent(canon) && UniquePlaces(catalog.rows)
    requires forall rows :: Enumerates(select(rows), rows.Keys)
    modifies catalog
    ensures first == Some(|LegacyIds(canon, old(catalog.rows))|) && second == Some(0)
    ensures Migrated(canon, old(catalog.rows), catalog.rows, old(catalog.rows).Keys)
  {
    first := catalog.CanonicalizeLegacyPaths(canon, select(catalog.rows), None);
    ghost var once := catalog.rows;
    second := catalog.CanonicalizeLegacyPaths(canon, select(catalog.rows), None);
    NothingLegacyLeft(canon, once, catalog.rows);
  }
}
