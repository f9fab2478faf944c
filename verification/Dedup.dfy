/** One record per place (crates/catalog/src/mapping.rs 196-261). */
module Dedup {
  import opened Common

  datatype Identity = Identity(agent: string, scope: string, path: string)

  datatype Record = Record(identity: Identity, state: string, content: string)

  datatype SkillState = Loaded | Disabled | Shadowed | Broken | Missing

  function CatalogStateRank(state: string): nat {
    if state == "loaded" || state == "disabled" then 0
    else if state == "broken" then 1
    else if state == "shadowed" then 2
    else if state == "missing" then 3
    else 4
  }

  function StateText(state: SkillState): string {
    match state
    case Loaded => "loaded"
    case Disabled => "disabled"
    case Shadowed => "shadowed"
    case Broken => "broken"
    case Missing => "missing"
  }

  function SkillStateRank(state: SkillState): nat {
    match state
    case Loaded => 0
    case Disabled => 0
    case Broken => 1
    case Shadowed => 2
    case Missing => 3
  }

  /** Records and instances are ranked alike, and a text that is no state ranks last. */
  lemma RanksAgree(state: SkillState, text: string)
    ensures CatalogStateRank(StateText(state)) == SkillStateRank(state)
    ensures CatalogStateRank(text) <= 4 && (CatalogStateRank(text) == 4 <==> forall s :: StateText(s) != text)
  {
    var known := [StateText(Loaded), StateText(Disabled), StateText(Broken), StateText(Shadowed), StateText(Missing)];
    assert forall s :: StateText(s) in known;
    if CatalogStateRank(text) < 4 {
      assert text in known;
    }
  }

  // ----- specification ----------------------------------------------------------------------

  /** Record `i` is the earliest one of the best rank among the records of its identity. */
  ghost predicate IsBest(records: seq<Record>, rank: Record -> nat, i: nat)
    requires i < |records|
  {
    forall j :: 0 <= j < |records| && records[j].identity == records[i].identity ==>
      rank(records[i]) < rank(records[j]) || (rank(records[i]) == rank(records[j]) && i <= j)
  }

  ghost predicate IsFirst(records: seq<Record>, i: nat)
    requires i < |records|
  {
    forall j :: 0 <= j < i ==> records[j].identity != records[i].identity
  }

  /**
   * `first[k]` is where the k-th identity occurs first and `best[k]` where its kept record is: the result lists the
   * identities in the order of their first occurrence, each with its earliest record of the best rank.
   */
  ghost predicate IsDedupBy(
    records: seq<Record>, rank: Record -> nat, kept: seq<Record>, first: seq<nat>, best: seq<nat>)
  {
    && |first| == |best| == |kept|
    && (forall k :: 0 <= k < |kept| ==> IsKept(records, rank, kept[k], first[k], best[k]))
    && (forall k, l :: 0 <= k < l < |kept| ==> first[k] < first[l])
    && AllListed(records, kept)
  }

  /** `r` is the best record of its identity, which occurs first at `first`. */
  ghost predicate IsKept(records: seq<Record>, rank: Record -> nat, r: Record, first: nat, best: nat) {
    && first < |records| && records[first].identity == r.identity && IsFirst(records, first)
    && best < |records| && records[best] == r && IsBest(records, rank, best)
  }

  ghost predicate AllListed(records: seq<Record>, kept: seq<Record>) {
    forall i :: 0 <= i < |records| ==> Listed(kept, records[i].identity)
  }

  ghost predicate Listed(kept: seq<Record>, identity: Identity) {
    exists k :: 0 <= k < |kept| && kept[k].identity == identity
  }

  ghost predicate IsDedup(records: seq<Record>, rank: Record -> nat, kept: seq<Record>) {
    exists first, best :: IsDedupBy(records, rank, kept, first, best)
  }

  // ----- the loop ---------------------------------------------------------------------------

  /** The index knows the position of every identity kept so far. */
  ghost predicate Indexed(index: map<Identity, nat>, kept: seq<Record>) {
    && (forall k :: 0 <= k < |kept| ==> kept[k].identity in index && index[kept[k].identity] == k)
    && (forall x :: x in index ==> index[x] < |kept| && kept[index[x]].identity == x)
  }

  method DedupRecords(records: seq<Record>, rank: Record -> nat) returns (kept: seq<Record>)
    ensures IsDedup(records, rank, kept)
  {
    var index: map<Identity, nat> := map[];
    kept := [];
    ghost var first: seq<nat>, best: seq<nat> := [], [];
    for i := 0 to |records|
      invariant Indexed(index, kept)
      invariant IsDedupBy(records[..i], rank, kept, first, best)
    {
      var record := records[i];
      assert records[..i + 1] == records[..i] + [record];
      if record.identity in index {
        var k := index[record.identity];
        if rank(record) < rank(kept[k]) {
          BetterRecord(records[..i], rank, kept, first, best, record, k);
          StillIndexed(index, kept, record, k);
          kept, best := kept[k := record], best[k := i];
        } else {
          NoBetterRecord(records[..i], rank, kept, first, best, record, k);
        }
        continue;
      }
      NotIndexed(index, kept, record);
      NewIdentity(records[..i], rank, kept, first, best, record);
      index := index[record.identity := |kept|];
      kept, first, best := kept + [record], first + [i], best + [i];
    }
    assert records[..|records|] == records;
  }

  lemma StillIndexed(index: map<Identity, nat>, kept: seq<Record>, record: Record, k: nat)
    requires Indexed(index, kept) && k < |kept| && kept[k].identity == record.identity
    ensures Indexed(index, kept[k := record])
  {
  }

  lemma NotIndexed(index: map<Identity, nat>, kept: seq<Record>, record: Record)
    requires Indexed(index, kept) && record.identity !in index
    ensures forall k :: 0 <= k < |kept| ==> kept[k].identity != record.identity
    ensures Indexed(index[record.identity := |kept|], kept + [record])
  {
  }

  method DedupSkillRecords(records: seq<Record>) returns (kept: seq<Record>)
    ensures IsDedup(records, RecordRank(), kept)
  {
    kept := DedupRecords(records, RecordRank());
  }

  function RecordRank(): Record -> nat {
    (r: Record) => CatalogStateRank(r.state)
  }

  lemma DistinctIdentities(
    records: seq<Record>, rank: Record -> nat, kept: seq<Record>, first: seq<nat>, best: seq<nat>, k: nat, l: nat)
    requires IsDedupBy(records, rank, kept, first, best) && k < |kept| && l < |kept| && k != l
    ensures kept[k].identity != kept[l].identity
  {
    assert IsKept(records, rank, kept[k], first[k], best[k]) && IsKept(records, rank, kept[l], first[l], best[l]);
    assert k < l ==> first[k] < first[l];
    assert l < k ==> first[l] < first[k];
  }

  lemma StillKept(records: seq<Record>, rank: Record -> nat, r: Record, first: nat, best: nat, record: Record)
    requires IsKept(records, rank, r, first, best)
    requires r.identity == record.identity ==> rank(r) <= rank(record)
    ensures IsKept(records + [record], rank, r, first, best)
  {
    var more := records + [record];
    assert forall j :: 0 <= j < |records| ==> more[j] == records[j];
  }

  lemma BetterIsKept(records: seq<Record>, rank: Record -> nat, r: Record, first: nat, best: nat, record: Record)
    requires IsKept(records, rank, r, first, best) && r.identity == record.identity && rank(record) < rank(r)
    ensures IsKept(records + [record], rank, record, first, |records|)
  {
    var more := records + [record];
    assert forall j :: 0 <= j < |records| ==> more[j] == records[j];
  }

  lemma NewIsKept(records: seq<Record>, rank: Record -> nat, record: Record)
    requires forall i :: 0 <= i < |records| ==> records[i].identity != record.identity
    ensures IsKept(records + [record], rank, record, |records|, |records|)
  {
    var more := records + [record];
    assert forall j :: 0 <= j < |records| ==> more[j] == records[j];
  }

  lemma StillListed(kept: seq<Record>, changed: seq<Record>, identity: Identity)
    requires Listed(kept, identity) && |kept| <= |changed|
    requires forall k :: 0 <= k < |kept| ==> changed[k].identity == kept[k].identity
    ensures Listed(changed, identity)
  {
    var k :| 0 <= k < |kept| && kept[k].identity == identity;
    assert changed[k].identity == identity;
  }

  /** `changed` lists what `kept` lists, and the next record at index `k`. */
  lemma StillAllListed(records: seq<Record>, kept: seq<Record>, changed: seq<Record>, record: Record, k: nat)
    requires AllListed(records, kept) && |kept| <= |changed|
    requires forall l :: 0 <= l < |kept| ==> changed[l].identity == kept[l].identity
    requires k < |changed| && changed[k].identity == record.identity
    ensures AllListed(records + [record], changed)
  {
    var more := records + [record];
    forall i | 0 <= i < |more| ensures Listed(changed, more[i].identity) {
      if i < |records| {
        StillListed(kept, changed, records[i].identity);
      }
    }
  }

  lemma BetterRecord(
    records: seq<Record>, rank: Record -> nat, kept: seq<Record>, first: seq<nat>, best: seq<nat>, record: Record,
    k: nat)
    requires IsDedupBy(records, rank, kept, first, best) && k < |kept|
    requires kept[k].identity == record.identity && rank(record) < rank(kept[k])
    ensures IsDedupBy(records + [record], rank, kept[k := record], first, best[k := |records|])
  {
    forall l | 0 <= l < |kept| && l != k ensures IsKept(records + [record], rank, kept[l], first[l], best[l]) {
      DistinctIdentities(records, rank, kept, first, best, k, l);
      StillKept(records, rank, kept[l], first[l], best[l], record);
    }
    BetterIsKept(records, rank, kept[k], first[k], best[k], record);
    StillAllListed(records, kept, kept[k := record], record, k);
  }

  lemma NoBetterRecord(
    records: seq<Record>, rank: Record -> nat, kept: seq<Record>, first: seq<nat>, best: seq<nat>, record: Record,
    k: nat)
    requires IsDedupBy(records, rank, kept, first, best) && k < |kept|
    requires kept[k].identity == record.identity && rank(record) >= rank(kept[k])
    ensures IsDedupBy(records + [record], rank, kept, first, best)
  {
    forall l | 0 <= l < |kept| ensures IsKept(records + [record], rank, kept[l], first[l], best[l]) {
      if l != k {
        DistinctIdentities(records, rank, kept, first, best, k, l);
      }
      StillKept(records, rank, kept[l], first[l], best[l], record);
    }
    StillAllListed(records, kept, kept, record, k);
  }

  lemma NewIdentity(
    records: seq<Record>, rank: Record -> nat, kept: seq<Record>, first: seq<nat>, best: seq<nat>, record: Record)
    requires IsDedupBy(records, rank, kept, first, best)
    requires forall k :: 0 <= k < |kept| ==> kept[k].identity != record.identity
    ensures IsDedupBy(records + [record], rank, kept + [record], first + [|records|], best + [|records|])
  {
    forall i | 0 <= i < |records| ensures records[i].identity != record.identity {
      assert Listed(kept, records[i].identity);
    }
    NewIsKept(records, rank, record);
    forall l | 0 <= l < |kept| ensures IsKept(records + [record], rank, kept[l], first[l], best[l]) {
      StillKept(records, rank, kept[l], first[l], best[l], record);
    }
    StillAllListed(records, kept, kept + [record], record, |kept|);
  }

  // ----- consequences -----------------------------------------------------------------------

  /** The places of first occurrence are determined: they are all of them, in order. */
  lemma FirstsAreAll(
    records: seq<Record>, rank: Record -> nat, kept: seq<Record>, first: seq<nat>, best: seq<nat>, i: nat)
    requires IsDedupBy(records, rank, kept, first, best) && i < |records| && IsFirst(records, i)
    ensures i in first
  {
    assert Listed(kept, records[i].identity);
    var k :| 0 <= k < |kept| && kept[k].identity == records[i].identity;
    assert IsKept(records, rank, kept[k], first[k], best[k]);
    assert first[k] == i;
  }

  lemma FirstIsMember(s: seq<nat>)
    ensures s == [] || s[0] in s
  {
  }

  lemma {:induction false} AscendingListsAgree(a: seq<nat>, b: seq<nat>)
    requires forall k, l :: 0 <= k < l < |a| ==> a[k] < a[l]
    requires forall k, l :: 0 <= k < l < |b| ==> b[k] < b[l]
    requires forall x :: x in a <==> x in b
    ensures a == b
  {
    FirstIsMember(a);
    FirstIsMember(b);
    if a != [] && b != [] {
      assert a[0] in b && b[0] in a;
      var i :| 0 <= i < |b| && b[i] == a[0];
      var j :| 0 <= j < |a| && a[j] == b[0];
      assert a[0] == b[0];
      assert a == [a[0]] + a[1..] && b == [b[0]] + b[1..];
      forall x ensures x in a[1..] <==> x in b[1..] {
        assert x in a[1..] ==> x in a && x > a[0];
        assert x in b[1..] ==> x in b && x > b[0];
      }
      AscendingListsAgree(a[1..], b[1..]);
    }
  }

  /** The specification has one result, so the loop is deterministic up to it. */
  lemma DedupIsUnique(records: seq<Record>, rank: Record -> nat, a: seq<Record>, b: seq<Record>)
    requires IsDedup(records, rank, a) && IsDedup(records, rank, b)
    ensures a == b
  {
    var firstA, bestA :| IsDedupBy(records, rank, a, firstA, bestA);
    var firstB, bestB :| IsDedupBy(records, rank, b, firstB, bestB);
    forall x ensures x in firstA <==> x in firstB {
      if x in firstA {
        FirstsAreAll(records, rank, b, firstB, bestB, x);
      }
      if x in firstB {
        FirstsAreAll(records, rank, a, firstA, bestA, x);
      }
    }
    AscendingListsAgree(firstA, firstB);
    forall k | 0 <= k < |a| ensures a[k] == b[k] {
      assert IsKept(records, rank, a[k], firstA[k], bestA[k]) && IsKept(records, rank, b[k], firstB[k], bestB[k]);
      assert bestA[k] == bestB[k];
    }
  }

  /** Nothing happens to records that are already one per identity. */
  lemma DistinctIsItsOwnDedup(records: seq<Record>, rank: Record -> nat)
    requires forall i, j :: 0 <= i < j < |records| ==> records[i].identity != records[j].identity
    ensures IsDedup(records, rank, records)
  {
    var all: seq<nat> := seq(|records|, i => i);
    forall i | 0 <= i < |records|
      ensures Listed(records, records[i].identity) && IsKept(records, rank, records[i], i, i)
    {
    }
    assert IsDedupBy(records, rank, records, all, all);
  }

  /** Deduplicating twice is deduplicating once. */
  lemma DedupIsIdempotent(records: seq<Record>, rank: Record -> nat, once: seq<Record>, twice: seq<Record>)
    requires IsDedup(records, rank, once) && IsDedup(once, rank, twice)
    ensures twice == once
  {
    var first, best :| IsDedupBy(records, rank, once, first, best);
    forall i, j | 0 <= i < j < |once| ensures once[i].identity != once[j].identity {
      DistinctIdentities(records, rank, once, first, best, i, j);
    }
    DistinctIsItsOwnDedup(once, rank);
    DedupIsUnique(once, rank, once, twice);
  }
}
