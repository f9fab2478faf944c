/** The table of skill instances (crates/catalog/src/migrations/0001_initial.sql 1-23). */
module SkillTable {
  import opened Common

  const TOOL_GLOBAL := "tool-global"
  const AGENT_GLOBAL := "agent-global"
  const AGENT_PROJECT := "agent-project"
  const MISSING := "missing"

  /** A row without its id; `content` stands for name, body, fingerprint and the other scanned columns. */
  datatype Row = Row(
    agent: string, scope: string, path: string, projectRoot: Option<string>, state: string, enabled: bool,
    content: string, firstSeen: int, lastSeen: int)

  datatype Place = Place(agent: string, scope: string, path: string)

  function PlaceOf(row: Row): Place {
    Place(row.agent, row.scope, row.path)
  }

  /** `UNIQUE (agent, scope, path)`. */
  ghost predicate UniquePlaces(rows: map<string, Row>) {
    forall a, b :: a in rows && b in rows && PlaceOf(rows[a]) == PlaceOf(rows[b]) ==> a == b
  }

  ghost predicate Holds(rows: map<string, Row>, place: Place, id: string) {
    id in rows && PlaceOf(rows[id]) == place
  }

  /** `SELECT id ... WHERE agent = ? AND scope = ? AND path = ?`. */
  function HolderOf(rows: map<string, Row>, place: Place): (r: Option<string>)
    requires UniquePlaces(rows)
    ensures r.Some? ==> Holds(rows, place, r.value)
    ensures r.None? ==> forall id :: id in rows ==> PlaceOf(rows[id]) != place
  {
    if exists id :: id in rows && PlaceOf(rows[id]) == place then
      var id :| id in rows && PlaceOf(rows[id]) == place;
      Some(id)
    else None
  }

  /** The rows in some order, as a query without `ORDER BY` returns them. */
  ghost predicate Enumerates(order: seq<string>, ids: set<string>) {
    && (forall i, j :: 0 <= i < j < |order| ==> order[i] != order[j])
    && (forall id :: id in order <==> id in ids)
  }
}
