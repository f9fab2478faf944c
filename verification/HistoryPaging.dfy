/**
 * Keyset pages over the event and snapshot histories
 * (crates/catalog/src/queries.rs 260-278, 633-812, 827-833; crates/service/src/service_host.rs 1702-1850).
 */
module HistoryPaging {
  import opened Common
  import opened HexCursor
  import Decimal

  /** Row numbers of events and textual ids of snapshots; the database orders numbers before texts. */
  datatype Id = Number(value: Int64) | Text(text: string)

  datatype Key = Key(time: Int64, id: Id)

  datatype Row = Row(key: Key, payload: string)

  // ----- order ------------------------------------------------------------------------------

  predicate IdLess(a: Id, b: Id) {
    match (a, b)
    case (Number(m), Number(n)) => m < n
    case (Number(_), Text(_)) => true
    case (Text(_), Number(_)) => false
    case (Text(s), Text(t)) => TextLess(s, t)
  }

  /** `a` comes later than `b` in `ORDER BY time DESC, id DESC`. */
  predicate After(a: Key, b: Key) {
    a.time < b.time || (a.time == b.time && IdLess(a.id, b.id))
  }

  lemma KeyOrder(a: Key, b: Key)
    ensures !After(a, a) && !(After(a, b) && After(b, a)) && (After(a, b) || After(b, a) || a == b)
  {
    if a.id.Text? && b.id.Text? {
      TextOrder(a.id.text, b.id.text);
    }
    if a.id.Text? {
      TextOrder(a.id.text, a.id.text);
    }
  }

  lemma KeyTransitive(a: Key, b: Key, c: Key)
    requires After(a, b) && After(b, c)
    ensures After(a, c)
  {
    if a.id.Text? && b.id.Text? && c.id.Text? && a.time == b.time == c.time {
      TextTransitive(a.id.text, b.id.text, c.id.text);
    }
  }

  // ----- listings ---------------------------------------------------------------------------

  ghost predicate DistinctIds(rows: seq<Row>) {
    forall i, j :: 0 <= i < j < |rows| ==> rows[i].key.id != rows[j].key.id
  }

  ghost predicate Ordered(rows: seq<Row>) {
    forall i, j :: 0 <= i < j < |rows| ==> After(rows[j].key, rows[i].key)
  }

  function Insert(x: Row, sorted: seq<Row>): seq<Row> {
    if sorted == [] || After(sorted[0].key, x.key) then [x] + sorted
    else [sorted[0]] + Insert(x, sorted[1..])
  }

  /** `ORDER BY time DESC, id DESC`. */
  function Listing(rows: seq<Row>): seq<Row> {
    if rows == [] then [] else Insert(rows[0], Listing(rows[1..]))
  }

  lemma {:induction false} InsertKeepsRows(x: Row, sorted: seq<Row>)
    ensures multiset(Insert(x, sorted)) == multiset(sorted) + multiset{x}
    ensures forall y :: y in Insert(x, sorted) ==> y == x || y in sorted
  {
    if sorted != [] && !After(sorted[0].key, x.key) {
      InsertKeepsRows(x, sorted[1..]);
      assert sorted == [sorted[0]] + sorted[1..];
    }
  }

  lemma {:induction false} InsertKeepsOrder(x: Row, sorted: seq<Row>)
    requires Ordered(sorted) && forall y :: y in sorted ==> y.key.id != x.key.id
    ensures Ordered(Insert(x, sorted))
  {
    if sorted == [] {
    } else if After(sorted[0].key, x.key) {
      forall j | 1 <= j < |sorted| ensures After(sorted[j].key, x.key) {
        KeyTransitive(sorted[j].key, sorted[0].key, x.key);
      }
    } else {
      InsertKeepsOrder(x, sorted[1..]);
      InsertKeepsRows(x, sorted[1..]);
      KeyOrder(x.key, sorted[0].key);
    }
  }

  lemma {:induction false} ListingIsSorted(rows: seq<Row>)
    requires DistinctIds(rows)
    ensures Ordered(Listing(rows)) && multiset(Listing(rows)) == multiset(rows)
  {
    if rows != [] {
      ListingIsSorted(rows[1..]);
      assert rows == [rows[0]] + rows[1..];
      forall y | y in Listing(rows[1..]) ensures y.key.id != rows[0].key.id {
        assert y in multiset(rows[1..]);
      }
      InsertKeepsOrder(rows[0], Listing(rows[1..]));
      InsertKeepsRows(rows[0], Listing(rows[1..]));
    }
  }

  lemma SameFirst(a: seq<Row>, b: seq<Row>)
    requires Ordered(a) && Ordered(b) && multiset(a) == multiset(b) && a != [] && b != []
    ensures a[0] == b[0]
  {
    assert a[0] in multiset(b) && b[0] in multiset(a);
    var i :| 0 <= i < |b| && b[i] == a[0];
    var j :| 0 <= j < |a| && a[j] == b[0];
    KeyOrder(a[0].key, b[0].key);
  }

  lemma RestRows(a: seq<Row>)
    requires a != []
    ensures multiset(a[1..]) == multiset(a) - multiset{a[0]}
  {
    assert a == [a[0]] + a[1..];
  }

  /** Only one arrangement of given rows is ordered. */
  lemma {:induction false} OrderIsUnique(a: seq<Row>, b: seq<Row>)
    requires Ordered(a) && Ordered(b) && multiset(a) == multiset(b)
    ensures a == b
  {
    assert |multiset(a)| == |a| && |multiset(b)| == |b|;
    if a != [] {
      SameFirst(a, b);
      RestRows(a);
      RestRows(b);
      OrderIsUnique(a[1..], b[1..]);
      assert a == [a[0]] + a[1..] && b == [b[0]] + b[1..];
    }
  }

  // ----- pages of the catalog ---------------------------------------------------------------

  predicate IsBefore(before: Option<Key>, row: Row) {
    before.None? || After(row.key, before.value)
  }

  /** `WHERE ?2 IS NULL OR time < ?2 OR (time = ?2 AND id < ?3)`. */
  function Where(before: Option<Key>, rows: seq<Row>): seq<Row> {
    if rows == [] then [] else (if IsBefore(before, rows[0]) then [rows[0]] else []) + Where(before, rows[1..])
  }

  /** One row more than asked for, saturating. */
  function FetchLimit(limit: nat): nat {
    var more := if limit >= USIZE_MAX then USIZE_MAX else limit + 1;
    if more > I64_MAX then I64_MAX else more
  }

  function Take(rows: seq<Row>, n: nat): seq<Row> {
    if |rows| <= n then rows else rows[..n]
  }

  function CatalogPage(rows: seq<Row>, before: Option<Key>, limit: nat): seq<Row> {
    Take(Listing(Where(before, rows)), FetchLimit(limit))
  }

  lemma {:induction false} WhereCounts(before: Option<Key>, rows: seq<Row>, x: Row)
    ensures multiset(Where(before, rows))[x] == if IsBefore(before, x) then multiset(rows)[x] else 0
  {
    if rows != [] {
      WhereCounts(before, rows[1..], x);
      assert rows == [rows[0]] + rows[1..];
    }
  }

  lemma {:induction false} WhereKeepsIds(before: Option<Key>, rows: seq<Row>)
    requires DistinctIds(rows)
    ensures DistinctIds(Where(before, rows))
  {
    if rows != [] {
      WhereKeepsIds(before, rows[1..]);
      var rest := Where(before, rows[1..]);
      forall y | y in rest ensures y.key.id != rows[0].key.id {
        WhereCounts(before, rows[1..], y);
        assert y in multiset(rest) && y in multiset(rows[1..]);
      }
    }
  }

  /** The place that a cursor after the first `m` rows stands for. */
  function PlaceAfter(listing: seq<Row>, m: nat): Option<Key>
    requires m <= |listing|
  {
    if m == 0 then None else Some(listing[m - 1].key)
  }

  lemma BeforeMeansFollowing(listing: seq<Row>, m: nat, k: nat)
    requires Ordered(listing) && m <= |listing| && k < |listing|
    ensures IsBefore(PlaceAfter(listing, m), listing[k]) <==> m <= k
  {
    if m > 0 {
      KeyOrder(listing[k].key, listing[m - 1].key);
    }
  }

  lemma RestIsWhere(rows: seq<Row>, all: seq<Row>, m: nat)
    requires Ordered(all) && multiset(all) == multiset(rows) && m <= |all|
    ensures multiset(all[m..]) == multiset(Where(PlaceAfter(all, m), rows))
  {
    forall x ensures multiset(all[m..])[x] == multiset(Where(PlaceAfter(all, m), rows))[x] {
      WhereCounts(PlaceAfter(all, m), rows, x);
      RestCounts(all, m, x);
    }
  }

  /** The rows past a place, listed, are the rest of the whole listing. */
  lemma ListingPastPlace(rows: seq<Row>, m: nat)
    requires DistinctIds(rows) && m <= |Listing(rows)|
    ensures Listing(Where(PlaceAfter(Listing(rows), m), rows)) == Listing(rows)[m..]
  {
    var all := Listing(rows);
    var past := Where(PlaceAfter(all, m), rows);
    ListingIsSorted(rows);
    WhereKeepsIds(PlaceAfter(all, m), rows);
    ListingIsSorted(past);
    RestIsWhere(rows, all, m);
    OrderIsUnique(Listing(past), all[m..]);
  }

  lemma PlaceSeparates(all: seq<Row>, m: nat)
    requires Ordered(all) && m <= |all|
    ensures forall x :: x in all[..m] ==> !IsBefore(PlaceAfter(all, m), x)
    ensures forall x :: x in all[m..] ==> IsBefore(PlaceAfter(all, m), x)
  {
    forall x | x in all[..m] ensures !IsBefore(PlaceAfter(all, m), x) {
      var k :| 0 <= k < m && all[k] == x;
      BeforeMeansFollowing(all, m, k);
    }
    forall x | x in all[m..] ensures IsBefore(PlaceAfter(all, m), x) {
      var k :| m <= k < |all| && all[k] == x;
      BeforeMeansFollowing(all, m, k);
    }
  }

  lemma RestCounts(all: seq<Row>, m: nat, x: Row)
    requires Ordered(all) && m <= |all|
    ensures multiset(all[m..])[x] == if IsBefore(PlaceAfter(all, m), x) then multiset(all)[x] else 0
  {
    PlaceSeparates(all, m);
    assert all == all[..m] + all[m..];
    assert multiset(all) == multiset(all[..m]) + multiset(all[m..]);
    assert x in all[..m] <==> multiset(all[..m])[x] > 0;
    assert x in all[m..] <==> multiset(all[m..])[x] > 0;
  }

  lemma ListingLength(rows: seq<Row>)
    requires DistinctIds(rows)
    ensures |Listing(rows)| == |rows|
  {
    ListingIsSorted(rows);
    assert |Listing(rows)| == |multiset(Listing(rows))| == |rows|;
  }

  // ----- revisions --------------------------------------------------------------------------

  function Keys(rows: seq<Row>): seq<Key> {
    seq(|rows|, i requires 0 <= i < |rows| => rows[i].key)
  }

  /** The two histories with pages. */
  datatype Kind = Events | Snapshots

  function Operation(kind: Kind): string {
    match kind
    case Events => "skill.listEventsPage"
    case Snapshots => "snapshot.listAgentConfigPage"
  }

  /** Events have row numbers, snapshots have texts. */
  predicate HasId(kind: Kind, id: Id) {
    match kind case Events => id.Number? case Snapshots => id.Text?
  }

  ghost predicate AllOf(kind: Kind, rows: seq<Row>) {
    forall row :: row in rows ==> HasId(kind, row.key.id)
  }

  /** How a cursor carries an id. */
  function ShowId(id: Id): string {
    match id case Number(value) => Decimal.Print(value) case Text(text) => text
  }

  function ParseId(kind: Kind, text: string): Option<Id> {
    match kind
    case Events => (match Decimal.Parse(text) case Some(value) => Some(Number(value)) case None => None)
    case Snapshots => Some(Text(text))
  }

  /** Either history reads back the ids it shows, and no others than its own. */
  lemma IdsReadBack(kind: Kind, id: Id)
    ensures ParseId(kind, ShowId(id)) == Some(id) <==> HasId(kind, id)
  {
    if id.Number? {
      Decimal.PrintedParses(id.value);
    }
  }

  /** What the pages of one history share. */
  datatype History = History(
    kind: Kind, serialise: seq<Key> -> string, hash: string -> string,
    write: Cursor -> seq<Byte>, read: seq<Byte> -> Option<Cursor>)

  /** Key lists of one history are written without loss. */
  ghost predicate Serialises(serialise: seq<Key> -> string) {
    forall kind, a, b :: KeysOf(kind, a) && KeysOf(kind, b) && serialise(a) == serialise(b) ==> a == b
  }

  ghost predicate KeysOf(kind: Kind, keys: seq<Key>) {
    forall key :: key in keys ==> HasId(kind, key.id)
  }

  /** Key lists and cursors are written without loss, and revisions are told apart. */
  ghost predicate Faithful(h: History) {
    Serialises(h.serialise) && CollisionFree(h.hash) && ReadsBack(h.write, h.read)
  }

  function SourceRevision(h: History, rows: seq<Row>): string {
    "sha256:" + h.hash(Operation(h.kind) + ['\0'] + h.serialise(Keys(Listing(rows))))
  }

  lemma {:induction false} ListedAreRows(rows: seq<Row>)
    ensures forall row :: row in Listing(rows) ==> row in rows
  {
    if rows != [] {
      ListedAreRows(rows[1..]);
      InsertKeepsRows(rows[0], Listing(rows[1..]));
    }
  }

  lemma ListedKeysOf(kind: Kind, rows: seq<Row>)
    requires AllOf(kind, rows)
    ensures KeysOf(kind, Keys(Listing(rows)))
  {
    ListedAreRows(rows);
    forall key | key in Keys(Listing(rows)) ensures HasId(kind, key.id) {
      var i :| 0 <= i < |Listing(rows)| && Listing(rows)[i].key == key;
      assert Listing(rows)[i] in Listing(rows);
    }
  }

  lemma DomainsDiffer(k: Kind, l: Kind, p: string, q: string)
    requires Operation(k) + ['\0'] + p == Operation(l) + ['\0'] + q
    ensures k == l && p == q
  {
    FieldsDetermined(Operation(k), p, Operation(l), q, '\0');
    assert |Operation(Events)| != |Operation(Snapshots)|;
  }

  /** Revisions agree exactly when the histories and their key lists do. */
  lemma RevisionIdentifiesKeys(h: History, g: History, a: seq<Row>, b: seq<Row>)
    requires Serialises(h.serialise) && CollisionFree(h.hash) && h.hash == g.hash && h.serialise == g.serialise
    requires AllOf(h.kind, a) && AllOf(g.kind, b)
    ensures SourceRevision(h, a) == SourceRevision(g, b) <==>
            h.kind == g.kind && Keys(Listing(a)) == Keys(Listing(b))
  {
    ListedKeysOf(h.kind, a);
    ListedKeysOf(g.kind, b);
    var p, q := h.serialise(Keys(Listing(a))), g.serialise(Keys(Listing(b)));
    if SourceRevision(h, a) == SourceRevision(g, b) {
      var x, y := h.hash(Operation(h.kind) + ['\0'] + p), g.hash(Operation(g.kind) + ['\0'] + q);
      assert x == ("sha256:" + x)[7..] && y == ("sha256:" + y)[7..];
      DomainsDiffer(h.kind, g.kind, p, q);
    }
  }

  // ----- pages of the service ---------------------------------------------------------------

  datatype PageError = BadCursor(error: CursorError) | BadId | SourceChanged

  datatype Page = Page(records: seq<Row>, sourceRevision: string, total: nat, nextCursor: Option<string>)

  function ClampLimit(limit: Option<nat>): nat {
    var n := limit.GetOr(100);
    if n < 1 then 1 else if n > 100 then 100 else n
  }

  function RevisionAccepted(requested: Option<string>, ofCursor: Option<string>, current: string): bool {
    !(requested.Some? && requested.value != current) && !(ofCursor.Some? && ofCursor.value != current)
  }

  function PlaceOf(h: History, c: Cursor): Option<Key> {
    match ParseId(h.kind, c.stableId)
    case None => None
    case Some(id) => Some(Key(c.sortValue, id))
  }

  function CursorFor(h: History, digest: string, revision: string, last: Key): string {
    var id := ShowId(last.id);
    Encoded(Cursor(1, Operation(h.kind), digest, revision, last.time, id, None, None, None, None, None), h.write)
  }

  /** The page and the cursor to the next one. */
  function PageFrom(h: History, rows: seq<Row>, digest: string, limit: nat, before: Option<Key>): Page
    requires limit >= 1
  {
    Trimmed(h, CatalogPage(rows, before, limit), SourceRevision(h, rows), |rows|, digest, limit)
  }

  function Trimmed(h: History, fetched: seq<Row>, revision: string, total: nat, digest: string, limit: nat): Page
    requires limit >= 1
  {
    var more := |fetched| > limit;
    var records := if more then fetched[..limit] else fetched;
    Page(records, revision, total, if more then Some(CursorFor(h, digest, revision, records[limit - 1].key)) else None)
  }

  /** One request: the rows of the query, its digest, and what the client sent. */
  function RequestPage(
    h: History, rows: seq<Row>, digest: string, limit: Option<nat>, cursor: Option<string>, requested: Option<string>)
    : Result<Page, PageError>
  {
    match cursor
    case None =>
      if !RevisionAccepted(requested, None, SourceRevision(h, rows)) then Err(SourceChanged)
      else Ok(PageFrom(h, rows, digest, ClampLimit(limit), None))
    case Some(text) =>
      match DecodeCursor(text, Operation(h.kind), digest, h.read)
      case Err(e) => Err(BadCursor(e))
      case Ok(c) =>
        var place := PlaceOf(h, c);
        if place.None? then Err(BadId)
        else if !RevisionAccepted(requested, Some(c.sourceRevision), SourceRevision(h, rows)) then Err(SourceChanged)
        else Ok(PageFrom(h, rows, digest, ClampLimit(limit), place))
  }

  /** The cursor that a client holds after `m` rows of a listing; none at the start. */
  function CursorAfter(h: History, rows: seq<Row>, digest: string, m: nat): Option<string>
    requires m <= |Listing(rows)|
  {
    if m == 0 then None else Some(CursorFor(h, digest, SourceRevision(h, rows), Listing(rows)[m - 1].key))
  }

  function Min(a: nat, b: nat): nat {
    if a < b then a else b
  }

  lemma Stretch(h: History, all: seq<Row>, revision: string, digest: string, limit: nat, m: nat)
    requires m <= |all| && limit >= 1
    ensures
      var page := Trimmed(h, Take(all[m..], limit + 1), revision, |all|, digest, limit);
      && page.records == all[m..Min(m + limit, |all|)]
      && page.nextCursor ==
         (if m + limit < |all| then Some(CursorFor(h, digest, revision, all[m + limit - 1].key)) else None)
  {
    var fetched := Take(all[m..], limit + 1);
    if m + limit < |all| {
      assert fetched[..limit] == all[m..m + limit];
    }
  }

  lemma FetchedRows(rows: seq<Row>, limit: nat, m: nat)
    requires DistinctIds(rows) && m <= |Listing(rows)| && limit < I64_MAX
    ensures CatalogPage(rows, PlaceAfter(Listing(rows), m), limit) == Take(Listing(rows)[m..], limit + 1)
  {
    ListingPastPlace(rows, m);
  }

  /** The page past the first `m` rows is the next stretch of the listing. */
  lemma PageIsStretch(h: History, rows: seq<Row>, digest: string, limit: nat, m: nat)
    requires DistinctIds(rows) && m <= |Listing(rows)| && 1 <= limit <= 100
    ensures Continues(h, rows, digest, limit, m, PageFrom(h, rows, digest, limit, PlaceAfter(Listing(rows), m)))
  {
    FetchedRows(rows, limit, m);
    ListingLength(rows);
    Stretch(h, Listing(rows), SourceRevision(h, rows), digest, limit, m);
  }

  /** What a client gets that has read `m` rows of the history. */
  ghost predicate Continues(h: History, rows: seq<Row>, digest: string, limit: nat, m: nat, page: Page) {
    var all := Listing(rows);
    && m <= |all| && page.records == all[m..Min(m + limit, |all|)]
    && page.sourceRevision == SourceRevision(h, rows) && page.total == |all|
    && page.nextCursor == (if m + limit < |all| then CursorAfter(h, rows, digest, m + limit) else None)
  }

  lemma CursorAfterDecodes(h: History, rows: seq<Row>, digest: string, m: nat)
    requires Faithful(h) && AllOf(h.kind, rows) && 0 < m <= |Listing(rows)|
    ensures
      var decoded := DecodeCursor(CursorAfter(h, rows, digest, m).value, Operation(h.kind), digest, h.read);
      && decoded.Ok? && decoded.value.sourceRevision == SourceRevision(h, rows)
      && PlaceOf(h, decoded.value) == PlaceAfter(Listing(rows), m)
  {
    var last := Listing(rows)[m - 1].key;
    var c := Cursor(
      1, Operation(h.kind), digest, SourceRevision(h, rows), last.time, ShowId(last.id), None, None, None, None, None);
    CursorRoundTrip(c, Operation(h.kind), digest, h.write, h.read);
    ListedAreRows(rows);
    assert Listing(rows)[m - 1] in Listing(rows);
    IdsReadBack(h.kind, last.id);
  }

  lemma SameKeysSamePlace(a: seq<Row>, b: seq<Row>, m: nat)
    requires Keys(a) == Keys(b) && m <= |a|
    ensures |a| == |b| && PlaceAfter(a, m) == PlaceAfter(b, m)
  {
    assert |Keys(a)| == |a| && |Keys(b)| == |b|;
    if m > 0 {
      assert Keys(a)[m - 1] == a[m - 1].key && Keys(b)[m - 1] == b[m - 1].key;
    }
  }

  /**
   * A request with the cursor of an earlier state is answered with the next stretch of the present listing when
   * the key list is still the same, and is refused as changed otherwise.
   */
  lemma CursorContinues(
    h: History, earlier: seq<Row>, now: seq<Row>, digest: string, limit: Option<nat>, m: nat, requested: Option<string>)
    requires Faithful(h) && AllOf(h.kind, earlier) && AllOf(h.kind, now)
    requires DistinctIds(earlier) && DistinctIds(now) && 0 < m <= |Listing(earlier)|
    requires requested == None || requested == Some(SourceRevision(h, earlier))
    ensures
      var answer := RequestPage(h, now, digest, limit, CursorAfter(h, earlier, digest, m), requested);
      if Keys(Listing(earlier)) == Keys(Listing(now)) then
        answer.Ok? && Continues(h, now, digest, ClampLimit(limit), m, answer.value)
      else answer == Err(SourceChanged)
  {
    RevisionIdentifiesKeys(h, h, earlier, now);
    CursorAfterDecodes(h, earlier, digest, m);
    if Keys(Listing(earlier)) == Keys(Listing(now)) {
      SameKeysSamePlace(Listing(earlier), Listing(now), m);
      PageIsStretch(h, now, digest, ClampLimit(limit), m);
    }
  }

  /** A first request is refused only for a revision that is not the present one. */
  lemma FirstPage(h: History, rows: seq<Row>, digest: string, limit: Option<nat>, requested: Option<string>)
    requires DistinctIds(rows)
    ensures
      var answer := RequestPage(h, rows, digest, limit, None, requested);
      if requested == None || requested == Some(SourceRevision(h, rows)) then
        answer.Ok? && Continues(h, rows, digest, ClampLimit(limit), 0, answer.value)
      else answer == Err(SourceChanged)
  {
    PageIsStretch(h, rows, digest, ClampLimit(limit), 0);
  }

  method FetchNext(
    h: History, rows: seq<Row>, digest: string, limit: Option<nat>, ghost m: nat, cursor: Option<string>,
    revision: Option<string>)
    returns (page: Page)
    requires Faithful(h) && AllOf(h.kind, rows) && DistinctIds(rows) && m <= |Listing(rows)|
    requires cursor == CursorAfter(h, rows, digest, m)
    requires revision == None || revision == Some(SourceRevision(h, rows))
    ensures Continues(h, rows, digest, ClampLimit(limit), m, page)
  {
    if m > 0 {
      CursorContinues(h, rows, rows, digest, limit, m, revision);
    } else {
      FirstPage(h, rows, digest, limit, revision);
    }
    page := RequestPage(h, rows, digest, limit, cursor, revision).value;
  }

  function Concat(pages: seq<seq<Row>>): seq<Row> {
    if pages == [] then [] else Concat(pages[..|pages| - 1]) + pages[|pages| - 1]
  }

  /** Full pages up to row `m`. */
  ghost predicate FullPages(all: seq<Row>, pages: seq<seq<Row>>, limit: nat, m: nat) {
    && m <= |all| && Concat(pages) == all[..m] && m == |pages| * limit
    && forall i :: 0 <= i < |pages| ==> |pages[i]| == limit
  }

  lemma AddPage(all: seq<Row>, pages: seq<seq<Row>>, limit: nat, m: nat, page: seq<Row>)
    requires FullPages(all, pages, limit, m) && page == all[m..Min(m + limit, |all|)]
    ensures Concat(pages + [page]) == all[..Min(m + limit, |all|)]
    ensures m + limit <= |all| ==> FullPages(all, pages + [page], limit, m + limit)
  {
    var n := Min(m + limit, |all|);
    assert (pages + [page])[..|pages|] == pages;
    assert all[..n] == all[..m] + all[m..n];
    assert (|pages| + 1) * limit == |pages| * limit + limit;
  }

  /** The whole listing, cut into as few pages of at most `limit` rows as it takes, all but the last full. */
  ghost predicate Paginates(all: seq<Row>, pages: seq<seq<Row>>, limit: nat)
    requires limit >= 1
  {
    && Concat(pages) == all
    && (if all == [] then |pages| == 1 else (|pages| - 1) * limit < |all| <= |pages| * limit)
    && forall i :: 0 <= i < |pages| - 1 ==> |pages[i]| == limit
  }

  lemma LastPage(all: seq<Row>, pages: seq<seq<Row>>, limit: nat, m: nat)
    requires limit >= 1 && FullPages(all, pages, limit, m) && |all| <= m + limit && (m < |all| || all == [])
    ensures Paginates(all, pages + [all[m..]], limit)
  {
    AddPage(all, pages, limit, m, all[m..]);
    assert (|pages| + 1) * limit == |pages| * limit + limit;
  }

  /** What the client knows after reading `m` rows of a history that goes on. */
  ghost predicate Reading(
    h: History, rows: seq<Row>, digest: string, limit: nat, pages: seq<seq<Row>>, cursor: Option<string>,
    revision: Option<string>, m: nat)
  {
    && FullPages(Listing(rows), pages, limit, m) && (m < |Listing(rows)| || m == 0)
    && cursor == CursorAfter(h, rows, digest, m)
    && (revision == None || revision == Some(SourceRevision(h, rows)))
  }

  lemma ReadingGoesOn(
    h: History, rows: seq<Row>, digest: string, limit: nat, pages: seq<seq<Row>>, cursor: Option<string>,
    revision: Option<string>,
    m: nat, page: Page)
    requires limit >= 1 && Reading(h, rows, digest, limit, pages, cursor, revision, m)
    requires Continues(h, rows, digest, limit, m, page)
    ensures if page.nextCursor == None then Paginates(Listing(rows), pages + [page.records], limit)
            else
              Reading(h, rows, digest, limit, pages + [page.records], page.nextCursor, Some(page.sourceRevision),
                      m + limit) &&
                 m + limit < |Listing(rows)|
  {
    AddPage(Listing(rows), pages, limit, m, page.records);
    if page.nextCursor == None {
      LastPage(Listing(rows), pages, limit, m);
    }
  }

  /** A client that follows the cursors of an unchanged history reads every row once, in order. */
  method ReadAll(h: History, rows: seq<Row>, digest: string, limit: Option<nat>) returns (pages: seq<seq<Row>>)
    requires Faithful(h) && AllOf(h.kind, rows) && DistinctIds(rows)
    ensures Paginates(Listing(rows), pages, ClampLimit(limit))
  {
    ghost var m := 0;
    var cursor, revision := None, None;
    pages := [];
    while true
      invariant Reading(h, rows, digest, ClampLimit(limit), pages, cursor, revision, m)
      decreases |Listing(rows)| - m
    {
      var page := FetchNext(h, rows, digest, limit, m, cursor, revision);
      ReadingGoesOn(h, rows, digest, ClampLimit(limit), pages, cursor, revision, m, page);
      pages := pages + [page.records];
      if page.nextCursor == None {
        return;
      }
      cursor, revision, m := page.nextCursor, Some(page.sourceRevision), m + ClampLimit(limit);
    }
  }
}
