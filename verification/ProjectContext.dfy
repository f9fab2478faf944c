/** The active project and the recently used ones (crates/service/src/project_context.rs 81-132, 304-341). */
module ProjectContext {
  import opened Common

  const MAX_RECENT: nat := 12

  datatype Context = Context(id: string, root: string, isActive: bool, validationError: Option<string>)

  function Ids(recent: seq<Context>): seq<string> {
    seq(|recent|, i requires 0 <= i < |recent| => recent[i].id)
  }

  ghost predicate Distinct(ids: seq<string>) {
    forall i, j :: 0 <= i < j < |ids| ==> ids[i] != ids[j]
  }

  function Without(ids: seq<string>, id: string): seq<string> {
    if ids == [] then [] else Without(ids[..|ids| - 1], id) + if ids[|ids| - 1] == id then [] else [ids[|ids| - 1]]
  }

  function First(ids: seq<string>, n: nat): seq<string> {
    if |ids| <= n then ids else ids[..n]
  }

  // ----- most recently used -----------------------------------------------------------------

  /** All ids ever used, the most recently used first. */
  function MostRecent(used: seq<string>): seq<string> {
    if used == [] then [] else [used[|used| - 1]] + Without(MostRecent(used[..|used| - 1]), used[|used| - 1])
  }

  /** The last time an id was used. */
  function LastUse(used: seq<string>, id: string): (i: int)
    ensures -1 <= i < |used| && (i >= 0 <==> id in used) && (i >= 0 ==> used[i] == id)
    ensures forall k :: i < k < |used| ==> used[k] != id
  {
    if used == [] then -1 else if used[|used| - 1] == id then |used| - 1 else LastUse(used[..|used| - 1], id)
  }

  ghost predicate Descending(ids: seq<string>, used: seq<string>) {
    forall i, j :: 0 <= i < j < |ids| ==> LastUse(used, ids[i]) > LastUse(used, ids[j])
  }

  ghost predicate ByLastUse(ids: seq<string>, used: seq<string>) {
    (forall id :: id in ids <==> id in used) && Descending(ids, used)
  }

  lemma {:induction false} WithoutMembers(ids: seq<string>, id: string)
    ensures forall x :: x in Without(ids, id) <==> x in ids && x != id
  {
    if ids != [] {
      WithoutMembers(ids[..|ids| - 1], id);
      assert ids == ids[..|ids| - 1] + [ids[|ids| - 1]];
    }
  }

  lemma LastIsLeast(ids: seq<string>, last: string, used: seq<string>, x: string)
    requires Descending(ids + [last], used) && x in ids
    ensures LastUse(used, x) > LastUse(used, last)
  {
    var k :| 0 <= k < |ids| && ids[k] == x;
    assert (ids + [last])[k] == x && (ids + [last])[|ids|] == last;
  }

  lemma DescendingPrefix(ids: seq<string>, used: seq<string>, n: nat)
    requires Descending(ids, used) && n <= |ids|
    ensures Descending(ids[..n], used)
  {
  }

  lemma {:induction false} WithoutKeepsOrder(ids: seq<string>, id: string, used: seq<string>)
    requires Descending(ids, used)
    ensures Descending(Without(ids, id), used)
  {
    if ids != [] {
      var fewer, last := ids[..|ids| - 1], ids[|ids| - 1];
      var rest := Without(fewer, id);
      DescendingPrefix(ids, used, |ids| - 1);
      WithoutKeepsOrder(fewer, id, used);
      WithoutMembers(fewer, id);
      assert ids == fewer + [last];
      forall i | 0 <= i < |rest| ensures LastUse(used, rest[i]) > LastUse(used, last) {
        assert rest[i] in rest;
        LastIsLeast(fewer, last, used, rest[i]);
      }
    }
  }

  /** The list holds exactly the ids used, each once, by their last use. */
  lemma {:induction false} MostRecentIsByLastUse(used: seq<string>)
    ensures ByLastUse(MostRecent(used), used) && Distinct(MostRecent(used))
  {
    if used != [] {
      var earlier, last := used[..|used| - 1], used[|used| - 1];
      MostRecentIsByLastUse(earlier);
      WithoutKeepsOrder(MostRecent(earlier), last, earlier);
      WithoutMembers(MostRecent(earlier), last);
      MoveToFront(Without(MostRecent(earlier), last), earlier, last);
      assert used == earlier + [last];
    }
  }

  lemma MoveToFront(rest: seq<string>, earlier: seq<string>, last: string)
    requires Descending(rest, earlier) && forall x :: x in rest <==> x in earlier && x != last
    ensures ByLastUse([last] + rest, earlier + [last]) && Distinct([last] + rest)
  {
    var used, ids := earlier + [last], [last] + rest;
    assert used[..|earlier|] == earlier && LastUse(used, last) == |earlier|;
    forall i | 0 <= i < |rest| ensures LastUse(used, rest[i]) == LastUse(earlier, rest[i]) {
      assert rest[i] in rest;
    }
    DescendingIsDistinct(rest, earlier);
  }

  lemma DescendingIsDistinct(ids: seq<string>, used: seq<string>)
    requires Descending(ids, used)
    ensures Distinct(ids)
  {
  }

  lemma {:induction false} WithoutLength(ids: seq<string>, id: string)
    requires Distinct(ids)
    ensures |Without(ids, id)| == |ids| - if id in ids then 1 else 0
    ensures Distinct(Without(ids, id)) && forall x :: x in Without(ids, id) <==> x in ids && x != id
  {
    if ids != [] {
      var fewer, last := ids[..|ids| - 1], ids[|ids| - 1];
      WithoutLength(fewer, id);
      assert ids == fewer + [last] && last !in fewer;
    }
  }

  lemma {:induction false} WithoutPrefix(ids: seq<string>, id: string, n: nat)
    requires n <= |ids|
    ensures Without(ids[..n], id) <= Without(ids, id)
  {
    if n < |ids| {
      WithoutPrefix(ids[..|ids| - 1], id, n);
      assert ids[..|ids| - 1][..n] == ids[..n];
    } else {
      assert ids[..n] == ids;
    }
  }

  /** Cutting the list to `n` before an id moves to the front loses nothing of the first `n` after it. */
  lemma CuttingEarlyIsCuttingLate(ids: seq<string>, id: string, n: nat)
    requires Distinct(ids) && n >= 1
    ensures First([id] + Without(First(ids, n), id), n) == First([id] + Without(ids, id), n)
  {
    if |ids| > n {
      WithoutPrefix(ids, id, n);
      WithoutLength(ids[..n], id);
      var few, all := Without(ids[..n], id), Without(ids, id);
      assert |few| >= n - 1;
      assert ([id] + few)[..n] == ([id] + all)[..n];
    }
  }

  // ----- the store --------------------------------------------------------------------------

  /** Each operation and whether the store can be saved after it. */
  datatype Operation =
    | SetActive(context: Context, saves: bool)
    | ClearActive(saves: bool)
    | RemoveRecent(id: string, saves: bool)
    | ClearRecent(saves: bool)

  /** Stored flags follow the active project, and no validation outcome is stored. */
  ghost predicate Flagged(active: Option<Context>, recent: seq<Context>) {
    && (active.Some? ==> active.value.isActive && active.value.validationError == None)
    && forall i :: 0 <= i < |recent| ==>
         recent[i].validationError == None && (recent[i].isActive <==> active.Some? && active.value.id == recent[i].id)
  }

  class Store {
    var active: Option<Context>
    var recent: seq<Context>

    ghost predicate Valid()
      reads this
    {
      Distinct(Ids(recent)) && |recent| <= MAX_RECENT && Flagged(active, recent)
    }

    constructor ()
      ensures Valid() && active == None && recent == []
    {
      active, recent := None, [];
    }

    /** Sets the flags of all contexts; their ids and roots stay. */
    method Normalize()
      modifies this
      ensures Flagged(active, recent) && Ids(recent) == Ids(old(recent))
      ensures active.Some? <==> old(active).Some?
      ensures active.Some? ==> active.value.id == old(active).value.id && active.value.root == old(active).value.root
      ensures forall i :: 0 <= i < |recent| ==> recent[i].root == old(recent)[i].root
      ensures old(Flagged(active, recent)) ==> active == old(active) && recent == old(recent)
    {
      var activeId := if active.Some? then Some(active.value.id) else None;
      if active.Some? {
        active := Some(active.value.(isActive := true, validationError := None));
      }
      ghost var before := recent;
      for i := 0 to |recent|
        invariant active == if old(active).Some? then
                              Some(old(active).value.(isActive := true, validationError := None))
                            else None
        invariant |recent| == |before|
        invariant forall k :: 0 <= k < i ==>
                  recent[k] == before[k].(isActive := activeId == Some(before[k].id), validationError := None)
        invariant forall k :: i <= k < |recent| ==> recent[k] == before[k]
      {
        recent := recent[i := recent[i].(isActive := activeId == Some(recent[i].id), validationError := None)];
      }
    }

    /** Drops the contexts with an id, keeping the order of the others. */
    method RetainOthers(id: string)
      requires Distinct(Ids(recent))
      modifies this`recent
      ensures Ids(recent) == Without(Ids(old(recent)), id)
      ensures forall c :: c in recent <==> c in old(recent) && c.id != id
    {
      var kept := [];
      for i := 0 to |recent|
        invariant recent == old(recent)
        invariant Ids(kept) == Without(Ids(recent)[..i], id)
        invariant forall c :: c in kept <==> c in recent[..i] && c.id != id
      {
        assert Ids(recent)[..i + 1][..i] == Ids(recent)[..i];
        assert recent[..i + 1] == recent[..i] + [recent[i]];
        if recent[i].id != id {
          kept := kept + [recent[i]];
        }
      }
      assert Ids(recent)[..|recent|] == Ids(recent) && recent[..|recent|] == recent;
      recent := kept;
    }

    /** Makes a project the first of the recent ones and cuts the list. */
    method PutFirst(context: Context)
      requires Distinct(Ids(recent)) && |recent| <= MAX_RECENT
      modifies this`recent
      ensures Ids(recent) == First([context.id] + Without(Ids(old(recent)), context.id), MAX_RECENT)
      ensures recent != [] && recent[0] == context
      ensures Distinct(Ids(recent)) && |recent| <= MAX_RECENT
    {
      WithoutLength(Ids(recent), context.id);
      RetainOthers(context.id);
      assert |recent| == |Ids(recent)|;
      recent := [context] + recent;
      assert Ids(recent) == [context.id] + Without(Ids(old(recent)), context.id);
      if |recent| > MAX_RECENT {
        assert Ids(recent[..MAX_RECENT]) == Ids(recent)[..MAX_RECENT];
        recent := recent[..MAX_RECENT];
      }
    }

    /** The project becomes active and the most recent one; a store that cannot be saved stays as it was. */
    method SetProjectContext(context: Context, saves: bool) returns (ok: bool)
      requires Valid()
      modifies this
      ensures Valid() && ok == saves
      ensures !ok ==> active == old(active) && recent == old(recent)
      ensures ok ==> active == Some(context.(isActive := true, validationError := None))
      ensures ok ==> Ids(recent) == First([context.id] + Without(Ids(old(recent)), context.id), MAX_RECENT)
      ensures ok ==> recent[0] == active.value
    {
      var stored := (active, recent);
      Normalize();
      assert |recent| == |Ids(recent)| && |old(recent)| == |Ids(old(recent))|;
      active := Some(context.(isActive := true));
      PutFirst(context.(isActive := true));
      ghost var cut := recent;
      Normalize();
      assert |recent| == |Ids(recent)| && |cut| == |Ids(cut)| && Ids(cut)[0] == context.id;
      if !saves {
        active, recent := stored.0, stored.1;
      }
      ok := saves;
    }

    method ClearProjectContext(saves: bool) returns (ok: bool)
      requires Valid()
      modifies this
      ensures Valid() && ok == saves
      ensures active == (if ok then None else old(active)) && Ids(recent) == Ids(old(recent))
      ensures !ok ==> recent == old(recent)
    {
      var stored := (active, recent);
      Normalize();
      active := None;
      ghost var before := recent;
      for i := 0 to |recent|
        invariant active == None && |recent| == |before|
        invariant forall k :: 0 <= k < i ==> recent[k] == before[k].(isActive := false, validationError := None)
        invariant forall k :: i <= k < |recent| ==> recent[k] == before[k]
      {
        recent := recent[i := recent[i].(isActive := false, validationError := None)];
      }
      assert Ids(recent) == Ids(before);
      if !saves {
        active, recent := stored.0, stored.1;
      }
      ok := saves;
    }

    /** Forgets a recent project; the active one stays active even then. */
    method RemoveRecentProjectContext(rawId: string, saves: bool) returns (ok: bool)
      requires Valid()
      modifies this
      ensures Valid() && ok == (Trim(rawId) != "" && saves)
      ensures active == old(active)
      ensures Ids(recent) == if ok then Without(Ids(old(recent)), Trim(rawId)) else Ids(old(recent))
    {
      var id := Trim(rawId);
      if id == "" {
        return false;
      }
      var stored := (active, recent);
      Normalize();
      RetainOthers(id);
      WithoutLength(Ids(old(recent)), id);
      assert |recent| == |Ids(recent)| && |old(recent)| == |Ids(old(recent))|;
      Normalize();
      if !saves {
        active, recent := stored.0, stored.1;
      }
      ok := saves;
    }

    method ClearRecentProjectContexts(saves: bool) returns (ok: bool)
      requires Valid()
      modifies this
      ensures Valid() && ok == saves && active == old(active)
      ensures recent == if ok then [] else old(recent)
    {
      var stored := (active, recent);
      Normalize();
      recent := [];
      Normalize();
      if !saves {
        active, recent := stored.0, stored.1;
      }
      ok := saves;
    }

    method Apply(operation: Operation)
      requires Valid()
      modifies this
      ensures Valid()
      ensures ActiveId(active) == ActiveNext(ActiveId(old(active)), operation)
      ensures Ids(recent) == RecentNext(Ids(old(recent)), operation)
    {
      match operation {
        case SetActive(context, saves) => var _ := SetProjectContext(context, saves);
        case ClearActive(saves) => var _ := ClearProjectContext(saves);
        case RemoveRecent(id, saves) => var _ := RemoveRecentProjectContext(id, saves);
        case ClearRecent(saves) => var _ := ClearRecentProjectContexts(saves);
      }
    }

    /** A run from the empty store; operations that cannot be saved have no effect. */
    method Replay(operations: seq<Operation>)
      requires Valid() && active == None && recent == []
      modifies this
      ensures Valid() && ActiveId(active) == ActiveAfter(operations) && Ids(recent) == RecentAfter(operations)
      ensures NothingRemoved(operations) ==> Ids(recent) == First(MostRecent(UsedIn(operations)), MAX_RECENT)
    {
      for i := 0 to |operations|
        invariant Valid() && ActiveId(active) == ActiveAfter(operations[..i])
        invariant Ids(recent) == RecentAfter(operations[..i])
      {
        assert operations[..i + 1][..i] == operations[..i];
        Apply(operations[i]);
      }
      assert operations[..|operations|] == operations;
      RecentIsMostRecent(operations);
    }
  }

  // ----- runs -------------------------------------------------------------------------------

  /** No single recent project is forgotten. */
  ghost predicate NothingRemoved(operations: seq<Operation>) {
    forall i :: 0 <= i < |operations| && operations[i].RemoveRecent? && operations[i].saves ==>
      Trim(operations[i].id) == ""
  }

  /** The projects used since the list was last emptied. */
  function UsedIn(operations: seq<Operation>): seq<string> {
    if operations == [] then []
    else UsedNext(UsedIn(operations[..|operations| - 1]), operations[|operations| - 1])
  }

  function UsedNext(used: seq<string>, operation: Operation): seq<string> {
    if !operation.saves then used
    else
      match operation
      case SetActive(context, _) => used + [context.id]
      case ClearRecent(_) => []
      case _ => used
  }

  function ActiveAfter(operations: seq<Operation>): Option<string> {
    if operations == [] then None
    else ActiveNext(ActiveAfter(operations[..|operations| - 1]), operations[|operations| - 1])
  }

  function ActiveNext(active: Option<string>, operation: Operation): Option<string> {
    if !operation.saves then active
    else
      match operation
      case SetActive(context, _) => Some(context.id)
      case ClearActive(_) => None
      case _ => active
  }

  function ActiveId(active: Option<Context>): Option<string> {
    match active case Some(context) => Some(context.id) case None => None
  }

  function RecentNext(ids: seq<string>, operation: Operation): seq<string> {
    if !operation.saves then ids
    else
      match operation
      case SetActive(context, _) => First([context.id] + Without(ids, context.id), MAX_RECENT)
      case ClearActive(_) => ids
      case RemoveRecent(id, _) => if Trim(id) == "" then ids else Without(ids, Trim(id))
      case ClearRecent(_) => []
  }

  function RecentAfter(operations: seq<Operation>): seq<string> {
    if operations == [] then []
    else RecentNext(RecentAfter(operations[..|operations| - 1]), operations[|operations| - 1])
  }

  /** Without removals the list is cut from the ids used, most recently used first. */
  lemma {:induction false} RecentIsMostRecent(operations: seq<Operation>)
    ensures NothingRemoved(operations) ==> RecentAfter(operations) == First(MostRecent(UsedIn(operations)), MAX_RECENT)
  {
    if operations != [] {
      var earlier, last := operations[..|operations| - 1], operations[|operations| - 1];
      RecentIsMostRecent(earlier);
      if last.SetActive? {
        SetMovesToFront(UsedIn(earlier), last.context.id);
      }
    }
  }

  lemma SetMovesToFront(used: seq<string>, id: string)
    ensures First(MostRecent(used + [id]), MAX_RECENT) ==
            First([id] + Without(First(MostRecent(used), MAX_RECENT), id), MAX_RECENT)
  {
    assert (used + [id])[..|used|] == used;
    MostRecentIsByLastUse(used);
    CuttingEarlyIsCuttingLate(MostRecent(used), id, MAX_RECENT);
  }
}
