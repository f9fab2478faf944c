/** Name collisions between skill instances (crates/ai-core/src/lib.rs 224-393). */
module ConflictGroups {
  import opened Common

  const NATIVE := "native"
  const NATIVE_PLUS_PLUGIN := "native-plus-plugin"

  datatype SkillState = Loaded | Disabled | Shadowed | Broken | Missing

  datatype Instance = Instance(
    id: string, definition: string, name: string, agent: string, path: string,
    state: SkillState, enabled: bool, fingerprint: string)

  /** The names of the supported agents. */
  const AGENTS := {"tool-global", "claude-code", "codex", "pi", "hermes", "openclaw", "opencode"}

  /** Every writer of an instance derives its definition from its name. */
  ghost predicate Scanned(all: seq<Instance>, hash: string -> string) {
    forall x :: x in all ==> x.definition == DefinitionId(x.name, hash) && x.agent in AGENTS
  }

  function DefinitionId(name: string, hash: string -> string): string {
    hash(AsciiLowered(name))
  }

  lemma ScannedHaveNoColons(all: seq<Instance>, hash: string -> string)
    requires Scanned(all, hash) && IdealHash(hash)
    ensures forall x :: x in all ==> ':' !in x.definition && ':' !in x.agent
  {
  }

  /** The runtime namespace of each visible instance; without one, every instance is native. */
  type Namespaces = Option<map<string, string>>

  /** Instances of one definition that one agent's runtime would confuse. */
  datatype Bucket = Bucket(definition: string, agent: string, namespace: string)

  datatype Conflict = Conflict(bucket: Bucket, members: seq<Instance>)

  function NamespaceOf(namespaces: Namespaces, x: Instance): Option<string> {
    if !x.state.Loaded? || !x.enabled then None
    else if namespaces == None then Some(NATIVE)
    else if x.id in namespaces.value then Some(namespaces.value[x.id])
    else None
  }

  // ----- specification ----------------------------------------------------------------------

  ghost predicate HasNative(all: seq<Instance>, namespaces: Namespaces, definition: string, agent: string) {
    exists x :: x in all && x.definition == definition && x.agent == agent && NamespaceOf(namespaces, x) == Some(NATIVE)
  }

  ghost predicate HasPlugin(all: seq<Instance>, namespaces: Namespaces, definition: string, agent: string) {
    exists x :: x in all && x.definition == definition && x.agent == agent &&
      NamespaceOf(namespaces, x).Some? && NamespaceOf(namespaces, x) != Some(NATIVE)
  }

  /** Own namespace, or the merged bucket when native and plugin instances coexist. */
  ghost function BucketOf(all: seq<Instance>, namespaces: Namespaces, x: Instance): Option<Bucket> {
    match NamespaceOf(namespaces, x)
    case None => None
    case Some(n) =>
      var mixed := HasNative(all, namespaces, x.definition, x.agent) &&
        HasPlugin(all, namespaces, x.definition, x.agent);
      Some(Bucket(x.definition, x.agent, if mixed then NATIVE_PLUS_PLUGIN else n))
  }

  ghost predicate Collides(all: seq<Instance>, namespaces: Namespaces, b: Bucket) {
    exists x, y :: x in all && y in all && x.path != y.path &&
      BucketOf(all, namespaces, x) == Some(b) && BucketOf(all, namespaces, y) == Some(b)
  }

  /** `members` are the instances of bucket `b`, each as often as it was given. */
  ghost predicate FillsBucket(all: seq<Instance>, namespaces: Namespaces, b: Bucket, members: seq<Instance>) {
    forall x :: multiset(members)[x] == if BucketOf(all, namespaces, x) == Some(b) then multiset(all)[x] else 0
  }

  ghost predicate CoversBucket(conflicts: seq<Conflict>, b: Bucket) {
    exists i :: 0 <= i < |conflicts| && conflicts[i].bucket == b
  }

  /** Exactly the colliding buckets that satisfy `wanted`, once each, with all their instances. */
  ghost predicate IsGrouping(
    all: seq<Instance>, namespaces: Namespaces, wanted: Bucket -> bool, conflicts: seq<Conflict>)
  {
    && (forall i :: 0 <= i < |conflicts| ==>
          && wanted(conflicts[i].bucket) && Collides(all, namespaces, conflicts[i].bucket)
          && FillsBucket(all, namespaces, conflicts[i].bucket, conflicts[i].members))
    && (forall i, j :: 0 <= i < j < |conflicts| ==> conflicts[i].bucket != conflicts[j].bucket)
    && (forall b :: wanted(b) && Collides(all, namespaces, b) ==> CoversBucket(conflicts, b))
  }

  ghost predicate OfDefinition(group: seq<Instance>, definition: string) {
    forall x :: x in group ==> x.definition == definition
  }

  // ----- one agent --------------------------------------------------------------------------

  predicate HasDistinctPaths(members: seq<Instance>) {
    |members| > 1 && |set x | x in members :: x.path| > 1
  }

  lemma DistinctPathsMeaning(members: seq<Instance>)
    ensures HasDistinctPaths(members) <==> exists x, y :: x in members && y in members && x.path != y.path
  {
    var paths := set x | x in members :: x.path;
    if HasDistinctPaths(members) {
      var p :| p in paths;
      assert |paths - {p}| == |paths| - 1;
      var q :| q in paths - {p};
    }
    if x, y :| x in members && y in members && x.path != y.path {
      SubsetSmaller({x.path, y.path}, paths);
      assert |members| > 1 by {
        var i, j :| 0 <= i < |members| && 0 <= j < |members| && members[i] == x && members[j] == y;
      }
    }
  }

  lemma {:induction false} SubsetSmaller(a: set<string>, b: set<string>)
    requires a <= b
    ensures |a| <= |b|
  {
    if a != {} {
      var x :| x in a;
      SubsetSmaller(a - {x}, b - {x});
    }
  }

  /** `members` are the group's instances of an agent that satisfy `p`, each as often as it occurs. */
  ghost predicate Selects(group: seq<Instance>, p: Instance -> bool, members: seq<Instance>) {
    forall x :: multiset(members)[x] == if p(x) then multiset(group)[x] else 0
  }

  ghost function InNamespace(namespaces: Namespaces, agent: string, n: string): Instance -> bool {
    (x: Instance) => x.agent == agent && NamespaceOf(namespaces, x) == Some(n)
  }

  /** The namespaces of one agent, each with its instances. */
  ghost predicate ByNamespace(
    group: seq<Instance>, namespaces: Namespaces, agent: string, table: map<string, seq<Instance>>)
  {
    && (forall n :: n in table ==> table[n] != [] && Selects(group, InNamespace(namespaces, agent, n), table[n]))
    && (forall x :: x in group && x.agent == agent && NamespaceOf(namespaces, x).Some? ==>
          NamespaceOf(namespaces, x).value in table)
  }

  ghost predicate ByAgent(
    group: seq<Instance>, namespaces: Namespaces, table: map<string, map<string, seq<Instance>>>)
  {
    && (forall a :: a in table ==> ByNamespace(group, namespaces, a, table[a]))
    && (forall x :: x in group && NamespaceOf(namespaces, x).Some? ==> x.agent in table)
  }

  lemma SelectsMembers(group: seq<Instance>, p: Instance -> bool, members: seq<Instance>, x: Instance)
    requires Selects(group, p, members)
    ensures x in members <==> x in group && p(x)
  {
    assert x in members <==> multiset(members)[x] > 0;
    assert x in group <==> multiset(group)[x] > 0;
  }

  method GroupByAgent(
    group: seq<Instance>, namespaces: Namespaces) returns (table: map<string, map<string, seq<Instance>>>)
    ensures ByAgent(group, namespaces, table)
  {
    table := map[];
    for i := 0 to |group|
      invariant ByAgent(group[..i], namespaces, table)
    {
      var x := group[i];
      assert group[..i + 1] == group[..i] + [x];
      AddKeepsTable(group[..i], namespaces, table, x);
      var namespace := NamespaceOf(namespaces, x);
      if namespace.Some? {
        var inner := if x.agent in table then table[x.agent] else map[];
        table := table[x.agent := AddTo(inner, namespace.value, x)];
      }
    }
    assert group[..|group|] == group;
  }

  lemma SelectsAdd(group: seq<Instance>, p: Instance -> bool, members: seq<Instance>, x: Instance)
    requires Selects(group, p, members)
    ensures Selects(group + [x], p, if p(x) then members + [x] else members)
  {
    assert multiset(group + [x]) == multiset(group) + multiset{x};
    assert multiset(members + [x]) == multiset(members) + multiset{x};
  }

  lemma SelectsNothing(group: seq<Instance>, p: Instance -> bool)
    requires forall x :: x in group ==> !p(x)
    ensures Selects(group, p, [])
  {
    var nothing: seq<Instance> := [];
    forall x ensures multiset(nothing)[x] == if p(x) then multiset(group)[x] else 0 {
      assert x in group <==> multiset(group)[x] > 0;
    }
  }

  function AddTo(inner: map<string, seq<Instance>>, n: string, x: Instance): map<string, seq<Instance>> {
    inner[n := (if n in inner then inner[n] else []) + [x]]
  }

  /** A table that the next instance does not belong to stays as it is. */
  lemma OtherKeepsNamespaces(
    group: seq<Instance>, namespaces: Namespaces, agent: string, inner: map<string, seq<Instance>>, x: Instance)
    requires ByNamespace(group, namespaces, agent, inner)
    requires x.agent != agent || NamespaceOf(namespaces, x) == None
    ensures ByNamespace(group + [x], namespaces, agent, inner)
  {
    forall m | m in inner ensures Selects(group + [x], InNamespace(namespaces, agent, m), inner[m]) {
      SelectsAdd(group, InNamespace(namespaces, agent, m), inner[m], x);
    }
  }

  lemma AddKeepsNamespaces(
    group: seq<Instance>, namespaces: Namespaces, agent: string, inner: map<string, seq<Instance>>, x: Instance,
    n: string)
    requires ByNamespace(group, namespaces, agent, inner)
    requires x.agent == agent && NamespaceOf(namespaces, x) == Some(n)
    ensures ByNamespace(group + [x], namespaces, agent, AddTo(inner, n, x))
  {
    var after := AddTo(inner, n, x);
    forall m | m in after ensures after[m] != [] && Selects(group + [x], InNamespace(namespaces, agent, m), after[m]) {
      var p := InNamespace(namespaces, agent, m);
      if m !in inner {
        SelectsNothing(group, p);
      }
      SelectsAdd(group, p, if m in inner then inner[m] else [], x);
    }
  }

  function AddToAgent(table: map<string, map<string, seq<Instance>>>, namespaces: Namespaces, x: Instance)
    : map<string, map<string, seq<Instance>>>
  {
    match NamespaceOf(namespaces, x)
    case None => table
    case Some(n) => table[x.agent := AddTo(if x.agent in table then table[x.agent] else map[], n, x)]
  }

  lemma AddKeepsTable(
    group: seq<Instance>, namespaces: Namespaces, table: map<string, map<string, seq<Instance>>>, x: Instance)
    requires ByAgent(group, namespaces, table)
    ensures ByAgent(group + [x], namespaces, AddToAgent(table, namespaces, x))
  {
    var inner := if x.agent in table then table[x.agent] else map[];
    if NamespaceOf(namespaces, x).Some? {
      AddKeepsNamespaces(group, namespaces, x.agent, inner, x, NamespaceOf(namespaces, x).value);
    }
    forall a | a in table && (a != x.agent || NamespaceOf(namespaces, x) == None)
      ensures ByNamespace(group + [x], namespaces, a, table[a])
    {
      OtherKeepsNamespaces(group, namespaces, a, table[a], x);
    }
  }

  lemma FilledBucketCollides(all: seq<Instance>, namespaces: Namespaces, b: Bucket, members: seq<Instance>)
    requires FillsBucket(all, namespaces, b, members)
    ensures Collides(all, namespaces, b) <==> HasDistinctPaths(members)
    ensures forall x :: x in members <==> x in all && BucketOf(all, namespaces, x) == Some(b)
  {
    forall x ensures x in members <==> x in all && BucketOf(all, namespaces, x) == Some(b) {
      assert x in members <==> multiset(members)[x] > 0;
      assert x in all <==> multiset(all)[x] > 0;
    }
    DistinctPathsMeaning(members);
  }

  /** Recording a further bucket if it collides. */
  function Record(conflicts: seq<Conflict>, b: Bucket, members: seq<Instance>): seq<Conflict> {
    if HasDistinctPaths(members) then conflicts + [Conflict(b, members)] else conflicts
  }

  lemma CoversJoined(c1: seq<Conflict>, c2: seq<Conflict>, b: Bucket)
    requires CoversBucket(c1, b) || CoversBucket(c2, b)
    ensures CoversBucket(c1 + c2, b)
  {
    var c := c1 + c2;
    if CoversBucket(c1, b) {
      var i :| 0 <= i < |c1| && c1[i].bucket == b;
      assert c[i].bucket == b;
    } else {
      var i :| 0 <= i < |c2| && c2[i].bucket == b;
      assert c[|c1| + i].bucket == b;
    }
  }

  lemma JoinGroupings(
    all: seq<Instance>, namespaces: Namespaces, w1: Bucket -> bool, w2: Bucket -> bool, either: Bucket -> bool,
    c1: seq<Conflict>, c2: seq<Conflict>)
    requires IsGrouping(all, namespaces, w1, c1) && IsGrouping(all, namespaces, w2, c2)
    requires forall b :: (either(b) <==> w1(b) || w2(b)) && !(w1(b) && w2(b))
    ensures IsGrouping(all, namespaces, either, c1 + c2)
  {
    forall b | either(b) && Collides(all, namespaces, b) ensures CoversBucket(c1 + c2, b) {
      assert w1(b) ==> CoversBucket(c1, b);
      CoversJoined(c1, c2, b);
    }
  }

  ghost function Only(b: Bucket): Bucket -> bool {
    (c: Bucket) => c == b
  }

  lemma OneBucket(all: seq<Instance>, namespaces: Namespaces, b: Bucket, members: seq<Instance>)
    requires FillsBucket(all, namespaces, b, members)
    ensures IsGrouping(all, namespaces, Only(b), Record([], b, members))
  {
    FilledBucketCollides(all, namespaces, b, members);
    if HasDistinctPaths(members) {
      assert Record([], b, members)[0].bucket == b;
    }
  }

  lemma RecordKeepsGrouping(
    all: seq<Instance>, namespaces: Namespaces, wanted: Bucket -> bool, more: Bucket -> bool,
    conflicts: seq<Conflict>, b: Bucket, members: seq<Instance>)
    requires IsGrouping(all, namespaces, wanted, conflicts) && !wanted(b)
    requires FillsBucket(all, namespaces, b, members)
    requires forall c :: more(c) <==> wanted(c) || c == b
    ensures IsGrouping(all, namespaces, more, Record(conflicts, b, members))
  {
    OneBucket(all, namespaces, b, members);
    JoinGroupings(all, namespaces, wanted, Only(b), more, conflicts, Record([], b, members));
    assert Record(conflicts, b, members) == conflicts + Record([], b, members);
  }

  /** Only the buckets that collide matter. */
  lemma SameGrouping(
    all: seq<Instance>, namespaces: Namespaces, wanted: Bucket -> bool, other: Bucket -> bool, conflicts: seq<Conflict>)
    requires IsGrouping(all, namespaces, wanted, conflicts)
    requires forall b :: Collides(all, namespaces, b) ==> (wanted(b) <==> other(b))
    ensures IsGrouping(all, namespaces, other, conflicts)
  {
  }

  ghost function OfAgent(definition: string, agent: string): Bucket -> bool {
    (b: Bucket) => b.definition == definition && b.agent == agent
  }

  ghost function OfAgentIn(definition: string, agent: string, done: set<string>): Bucket -> bool {
    (b: Bucket) => b.definition == definition && b.agent == agent && b.namespace in done
  }

  lemma TableShowsMixture(
    group: seq<Instance>, namespaces: Namespaces, definition: string, agent: string, table: map<string, seq<Instance>>)
    requires OfDefinition(group, definition) && ByNamespace(group, namespaces, agent, table)
    ensures HasNative(group, namespaces, definition, agent) <==> NATIVE in table
    ensures HasPlugin(group, namespaces, definition, agent) <==> table - {NATIVE} != map[]
  {
    forall n | n in table
      ensures exists x ::
                x in group && x.definition == definition && x.agent == agent && NamespaceOf(namespaces, x) == Some(n)
    {
      SelectsMembers(group, InNamespace(namespaces, agent, n), table[n], table[n][0]);
    }
    if table - {NATIVE} != map[] {
      var n :| n in table - {NATIVE};
      assert n in table;
    }
    if HasPlugin(group, namespaces, definition, agent) {
      var x :| x in group && x.definition == definition && x.agent == agent &&
               NamespaceOf(namespaces, x).Some? && NamespaceOf(namespaces, x) != Some(NATIVE);
      assert NamespaceOf(namespaces, x).value in table - {NATIVE};
    }
  }

  /** Without a mixture, the namespaces are the buckets. */
  lemma NamespaceFillsBucket(
    group: seq<Instance>, namespaces: Namespaces, definition: string, agent: string, n: string, members: seq<Instance>)
    requires OfDefinition(group, definition)
    requires !(HasNative(group, namespaces, definition, agent) && HasPlugin(group, namespaces, definition, agent))
    requires Selects(group, InNamespace(namespaces, agent, n), members)
    ensures FillsBucket(group, namespaces, Bucket(definition, agent, n), members)
  {
    forall x
      ensures multiset(members)[x] ==
              if BucketOf(group, namespaces, x) == Some(Bucket(definition, agent, n)) then multiset(group)[x] else 0
    {
      assert x in group <==> multiset(group)[x] > 0;
    }
  }

  ghost function InNamespaces(namespaces: Namespaces, agent: string, done: set<string>): Instance -> bool {
    (x: Instance) => x.agent == agent && NamespaceOf(namespaces, x).Some? && NamespaceOf(namespaces, x).value in done
  }

  /** With a mixture, all namespaces of the agent together are the bucket. */
  lemma AllFillBucket(
    group: seq<Instance>, namespaces: Namespaces, definition: string, agent: string,
    table: map<string, seq<Instance>>, members: seq<Instance>)
    requires OfDefinition(group, definition) && ByNamespace(group, namespaces, agent, table)
    requires HasNative(group, namespaces, definition, agent) && HasPlugin(group, namespaces, definition, agent)
    requires Selects(group, InNamespaces(namespaces, agent, table.Keys), members)
    ensures FillsBucket(group, namespaces, Bucket(definition, agent, NATIVE_PLUS_PLUGIN), members)
  {
    forall x ensures multiset(members)[x] ==
      if BucketOf(group, namespaces, x) == Some(Bucket(definition, agent, NATIVE_PLUS_PLUGIN)) then
        multiset(group)[x]
      else 0
    {
      assert x in group <==> multiset(group)[x] > 0;
    }
  }

  lemma SelectsUnion(
    group: seq<Instance>, p: Instance -> bool, q: Instance -> bool, either: Instance -> bool, a: seq<Instance>,
    b: seq<Instance>)
    requires Selects(group, p, a) && Selects(group, q, b)
    requires forall x :: (either(x) <==> p(x) || q(x)) && !(p(x) && q(x))
    ensures Selects(group, either, a + b)
  {
    assert multiset(a + b) == multiset(a) + multiset(b);
  }

  /** The native instances followed by those of every other namespace. */
  method MergeNamespaces(
    ghost group: seq<Instance>, ghost namespaces: Namespaces, ghost agent: string, table: map<string, seq<Instance>>)
    returns (members: seq<Instance>)
    requires ByNamespace(group, namespaces, agent, table) && NATIVE in table
    ensures Selects(group, InNamespaces(namespaces, agent, table.Keys), members)
  {
    members := table[NATIVE];
    var pending := table.Keys - {NATIVE};
    while pending != {}
      invariant pending <= table.Keys && NATIVE !in pending
      invariant Selects(group, InNamespaces(namespaces, agent, table.Keys - pending), members)
    {
      var n :| n in pending;
      SelectsUnion(group, InNamespaces(namespaces, agent, table.Keys - pending), InNamespace(namespaces, agent, n),
                   InNamespaces(namespaces, agent, table.Keys - (pending - {n})), members, table[n]);
      members := members + table[n];
      pending := pending - {n};
    }
    assert table.Keys - {} == table.Keys;
  }

  method MergedCollision(
    ghost group: seq<Instance>, ghost namespaces: Namespaces, definition: string, agent: string,
    table: map<string, seq<Instance>>)
    returns (conflicts: seq<Conflict>)
    requires OfDefinition(group, definition) && ByNamespace(group, namespaces, agent, table)
    requires NATIVE in table && HasNative(group, namespaces, definition, agent) &&
             HasPlugin(group, namespaces, definition, agent)
    ensures IsGrouping(group, namespaces, OfAgent(definition, agent), conflicts)
  {
    var members := MergeNamespaces(group, namespaces, agent, table);
    AllFillBucket(group, namespaces, definition, agent, table, members);
    var merged := Bucket(definition, agent, NATIVE_PLUS_PLUGIN);
    conflicts := Record([], merged, members);
    ghost var only := OfAgentIn(definition, agent, {NATIVE_PLUS_PLUGIN});
    RecordKeepsGrouping(group, namespaces, OfAgentIn(definition, agent, {}), only, [], merged, members);
    SameGrouping(group, namespaces, only, OfAgent(definition, agent), conflicts);
  }

  lemma NativeOrNothing(group: seq<Instance>, namespaces: Namespaces, agent: string, table: map<string, seq<Instance>>)
    requires ByNamespace(group, namespaces, agent, table)
    ensures Selects(group, InNamespace(namespaces, agent, NATIVE), if NATIVE in table then table[NATIVE] else [])
  {
    if NATIVE !in table {
      SelectsNothing(group, InNamespace(namespaces, agent, NATIVE));
    }
  }

  method SeparateCollisions(
    ghost group: seq<Instance>, ghost namespaces: Namespaces, definition: string, agent: string,
    table: map<string, seq<Instance>>)
    returns (conflicts: seq<Conflict>)
    requires OfDefinition(group, definition) && ByNamespace(group, namespaces, agent, table)
    requires !(HasNative(group, namespaces, definition, agent) && HasPlugin(group, namespaces, definition, agent))
    ensures IsGrouping(group, namespaces, OfAgent(definition, agent), conflicts)
  {
    var native := if NATIVE in table then table[NATIVE] else [];
    NativeOrNothing(group, namespaces, agent, table);
    NamespaceFillsBucket(group, namespaces, definition, agent, NATIVE, native);
    conflicts := Record([], Bucket(definition, agent, NATIVE), native);
    ghost var done := {NATIVE};
    RecordKeepsGrouping(group, namespaces, OfAgentIn(definition, agent, {}), OfAgentIn(definition, agent, done), [],
                        Bucket(definition, agent, NATIVE), native);
    var pending := table.Keys - {NATIVE};
    while pending != {}
      invariant pending <= table.Keys && done == {NATIVE} + (table.Keys - pending) && pending !! done
      invariant IsGrouping(group, namespaces, OfAgentIn(definition, agent, done), conflicts)
    {
      var n :| n in pending;
      NamespaceFillsBucket(group, namespaces, definition, agent, n, table[n]);
      RecordKeepsGrouping(group, namespaces, OfAgentIn(definition, agent, done),
        OfAgentIn(definition, agent, done + {n}), conflicts,
                          Bucket(definition, agent, n), table[n]);
      conflicts := Record(conflicts, Bucket(definition, agent, n), table[n]);
      pending, done := pending - {n}, done + {n};
    }
    AllNamespacesDone(group, namespaces, definition, agent, table, done, conflicts);
  }

  lemma AllNamespacesDone(
    group: seq<Instance>, namespaces: Namespaces, definition: string, agent: string, table: map<string, seq<Instance>>,
    done: set<string>, conflicts: seq<Conflict>)
    requires ByNamespace(group, namespaces, agent, table) && table.Keys <= done
    requires !(HasNative(group, namespaces, definition, agent) && HasPlugin(group, namespaces, definition, agent))
    requires IsGrouping(group, namespaces, OfAgentIn(definition, agent, done), conflicts)
    ensures IsGrouping(group, namespaces, OfAgent(definition, agent), conflicts)
  {
    SameGrouping(group, namespaces, OfAgentIn(definition, agent, done), OfAgent(definition, agent), conflicts);
  }

  /** The colliding buckets of one agent. */
  method CollisionsOfAgent(
    ghost group: seq<Instance>, ghost namespaces: Namespaces, definition: string, agent: string,
    table: map<string, seq<Instance>>)
    returns (conflicts: seq<Conflict>)
    requires OfDefinition(group, definition) && ByNamespace(group, namespaces, agent, table)
    ensures IsGrouping(group, namespaces, OfAgent(definition, agent), conflicts)
  {
    TableShowsMixture(group, namespaces, definition, agent, table);
    if NATIVE in table && table - {NATIVE} != map[] {
      conflicts := MergedCollision(group, namespaces, definition, agent, table);
    } else {
      conflicts := SeparateCollisions(group, namespaces, definition, agent, table);
    }
  }

  // ----- one definition ---------------------------------------------------------------------

  ghost function OfAgents(definition: string, done: set<string>): Bucket -> bool {
    (b: Bucket) => b.definition == definition && b.agent in done
  }

  ghost function Of(definition: string): Bucket -> bool {
    (b: Bucket) => b.definition == definition
  }

  method RuntimeNameCollisionGroups(group: seq<Instance>, namespaces: Namespaces, definition: string)
    returns (conflicts: seq<Conflict>)
    requires OfDefinition(group, definition)
    ensures IsGrouping(group, namespaces, Of(definition), conflicts)
  {
    var table := GroupByAgent(group, namespaces);
    conflicts := [];
    ghost var done := {};
    var pending := table.Keys;
    while pending != {}
      invariant pending <= table.Keys && done == table.Keys - pending
      invariant IsGrouping(group, namespaces, OfAgents(definition, done), conflicts)
    {
      var agent :| agent in pending;
      var more := CollisionsOfAgent(group, namespaces, definition, agent, table[agent]);
      JoinGroupings(group, namespaces, OfAgents(definition, done), OfAgent(definition, agent),
                    OfAgents(definition, done + {agent}), conflicts, more);
      conflicts := conflicts + more;
      pending, done := pending - {agent}, done + {agent};
    }
    SameGrouping(group, namespaces, OfAgents(definition, done), Of(definition), conflicts);
  }

  // ----- the whole report -------------------------------------------------------------------

  datatype Severity = Warn | Info

  datatype DefinitionSummary = DefinitionSummary(
    id: string, canonicalName: string, instances: seq<string>, activeInstance: string, hasMultipleInstances: bool,
    hasConflict: bool)

  datatype Finding = Finding(
    instanceId: string, definitionId: string, severity: Severity, agent: string, locations: nat)

  function HasContentDrift(members: seq<Instance>): bool {
    |set x | x in members && x.fingerprint != "" :: x.fingerprint| > 1
  }

  function Reason(members: seq<Instance>): string {
    if HasContentDrift(members) then "content-drift" else "name-collision"
  }

  function ConflictId(c: Conflict): string {
    c.bucket.definition + ":" + (c.bucket.agent + ":" + IdTail(c))
  }

  function IdTail(c: Conflict): string {
    if c.bucket.namespace == NATIVE || c.bucket.namespace == NATIVE_PLUS_PLUGIN then Reason(c.members)
    else c.bucket.namespace + ":" + Reason(c.members)
  }

  function FindingFor(c: Conflict, x: Instance): Finding {
    Finding(
      x.id, c.bucket.definition, if HasContentDrift(c.members) then Warn else Info, c.bucket.agent, |c.members|)
  }

  function FindingsOfConflict(c: Conflict, n: nat): seq<Finding>
    requires n <= |c.members|
  {
    seq(n, i requires 0 <= i < n => FindingFor(c, c.members[i]))
  }

  /** One finding for each member of each conflict, in order. */
  function FindingsFor(conflicts: seq<Conflict>): seq<Finding> {
    if conflicts == [] then []
    else
      var earlier, c := conflicts[..|conflicts| - 1], conflicts[|conflicts| - 1];
      FindingsFor(earlier) + FindingsOfConflict(c, |c.members|)
  }

  ghost function Defines(definition: string): Instance -> bool {
    (x: Instance) => x.definition == definition
  }

  /** The instances that satisfy `p`, in their order. */
  ghost function Filtered(all: seq<Instance>, p: Instance -> bool): seq<Instance> {
    if all == [] then []
    else
      var earlier, last := all[..|all| - 1], all[|all| - 1];
      Filtered(earlier, p) + if p(last) then [last] else []
  }

  lemma {:induction false} FilteredSelects(all: seq<Instance>, p: Instance -> bool)
    ensures Selects(all, p, Filtered(all, p))
  {
    if all == [] {
      SelectsNothing(all, p);
    } else {
      var earlier, last := all[..|all| - 1], all[|all| - 1];
      FilteredSelects(earlier, p);
      SelectsAdd(earlier, p, Filtered(earlier, p), last);
      assert all == earlier + [last];
    }
  }

  lemma FilteredNext(all: seq<Instance>, p: Instance -> bool, x: Instance)
    ensures Filtered(all + [x], p) == if p(x) then Filtered(all, p) + [x] else Filtered(all, p)
  {
    assert (all + [x])[..|all|] == all;
  }

  lemma NothingFiltered(all: seq<Instance>, p: Instance -> bool)
    requires forall x :: x in all ==> !p(x)
    ensures Filtered(all, p) == []
  {
    FilteredSelects(all, p);
    if Filtered(all, p) != [] {
      SelectsMembers(all, p, Filtered(all, p), Filtered(all, p)[0]);
    }
  }

  ghost predicate ByDefinition(all: seq<Instance>, table: map<string, seq<Instance>>) {
    && (forall d :: d in table ==> table[d] != [] && table[d] == Filtered(all, Defines(d)))
    && (forall x :: x in all ==> x.definition in table)
  }

  lemma AddKeepsDefinitions(all: seq<Instance>, table: map<string, seq<Instance>>, x: Instance)
    requires ByDefinition(all, table)
    ensures ByDefinition(all + [x], AddTo(table, x.definition, x))
  {
    var after := AddTo(table, x.definition, x);
    forall d | d in after ensures after[d] != [] && after[d] == Filtered(all + [x], Defines(d)) {
      if d !in table {
        NothingFiltered(all, Defines(d));
      }
      FilteredNext(all, Defines(d), x);
    }
  }

  method GroupByDefinition(all: seq<Instance>) returns (table: map<string, seq<Instance>>)
    ensures ByDefinition(all, table)
  {
    table := map[];
    for i := 0 to |all|
      invariant ByDefinition(all[..i], table)
    {
      var x := all[i];
      AddKeepsDefinitions(all[..i], table, x);
      table := AddTo(table, x.definition, x);
      assert all[..i + 1] == all[..i] + [x];
    }
    assert all[..|all|] == all;
  }

  lemma SameBuckets(all: seq<Instance>, namespaces: Namespaces, definition: string, group: seq<Instance>, x: Instance)
    requires Selects(all, Defines(definition), group) && x.definition == definition
    ensures BucketOf(group, namespaces, x) == BucketOf(all, namespaces, x)
  {
    forall y ensures y in group <==> y in all && y.definition == definition {
      SelectsMembers(all, Defines(definition), group, y);
    }
  }

  /** Whether instances of one definition collide does not depend on the other definitions. */
  lemma DefinitionsAreIndependent(
    all: seq<Instance>, namespaces: Namespaces, definition: string, group: seq<Instance>, conflicts: seq<Conflict>)
    requires Selects(all, Defines(definition), group)
    requires IsGrouping(group, namespaces, Of(definition), conflicts)
    ensures IsGrouping(all, namespaces, Of(definition), conflicts)
  {
    forall x: Instance
      ensures x.definition == definition ==> BucketOf(group, namespaces, x) == BucketOf(all, namespaces, x)
    {
      if x.definition == definition {
        SameBuckets(all, namespaces, definition, group, x);
      }
    }
    forall x: Instance ensures x in group <==> x in all && x.definition == definition {
      SelectsMembers(all, Defines(definition), group, x);
    }
    forall b: Bucket | b.definition == definition
      ensures Collides(group, namespaces, b) <==> Collides(all, namespaces, b)
    {
    }
    forall i | 0 <= i < |conflicts| ensures FillsBucket(all, namespaces, conflicts[i].bucket, conflicts[i].members) {
      assert FillsBucket(group, namespaces, conflicts[i].bucket, conflicts[i].members);
    }
  }

  ghost predicate SummaryRight(all: seq<Instance>, namespaces: Namespaces, d: DefinitionSummary, group: seq<Instance>) {
    && group == Filtered(all, Defines(d.id))
    && group != [] && d.canonicalName == group[0].name
    && d.instances == seq(|group|, i requires 0 <= i < |group| => group[i].id)
    && (d.hasMultipleInstances <==> |group| > 1)
    && (d.hasConflict <==> exists b: Bucket :: b.definition == d.id && Collides(all, namespaces, b))
    && (exists i :: 0 <= i < |group| && d.activeInstance == group[i].id && IsActive(group, i))
  }

  /** The first loaded and enabled instance, or the first one if there is none. */
  ghost predicate IsActive(group: seq<Instance>, i: nat)
    requires i < |group|
  {
    if exists k :: 0 <= k < |group| && group[k].state.Loaded? && group[k].enabled then
      && group[i].state.Loaded? && group[i].enabled
      && (forall k :: 0 <= k < i ==> !(group[k].state.Loaded? && group[k].enabled))
    else i == 0
  }

  method ActiveInstance(group: seq<Instance>) returns (i: nat)
    requires group != []
    ensures i < |group| && IsActive(group, i)
  {
    i := 0;
    while i < |group| && !(group[i].state.Loaded? && group[i].enabled)
      invariant i <= |group|
      invariant forall k :: 0 <= k < i ==> !(group[k].state.Loaded? && group[k].enabled)
    {
      i := i + 1;
    }
    if i == |group| {
      i := 0;
    }
  }

  ghost function Any(): Bucket -> bool {
    (b: Bucket) => true
  }

  ghost function OfDefinitions(done: set<string>): Bucket -> bool {
    (b: Bucket) => b.definition in done
  }

  method SummariseDefinition(ghost all: seq<Instance>, namespaces: Namespaces, definition: string, group: seq<Instance>)
    returns (summary: DefinitionSummary, conflicts: seq<Conflict>)
    requires group == Filtered(all, Defines(definition)) && group != []
    ensures summary.id == definition && SummaryRight(all, namespaces, summary, group)
    ensures IsGrouping(all, namespaces, Of(definition), conflicts)
  {
    FilteredSelects(all, Defines(definition));
    forall x | x in group ensures x.definition == definition {
      SelectsMembers(all, Defines(definition), group, x);
    }
    conflicts := RuntimeNameCollisionGroups(group, namespaces, definition);
    DefinitionsAreIndependent(all, namespaces, definition, group, conflicts);
    var active := ActiveInstance(group);
    summary := DefinitionSummary(
      definition, group[0].name, seq(|group|, i requires 0 <= i < |group| => group[i].id), group[active].id,
      |group| > 1, conflicts != []);
    assert conflicts != [] ==> Of(definition)(conflicts[0].bucket) && Collides(all, namespaces, conflicts[0].bucket);
    assert forall b: Bucket :: b.definition == definition && Collides(all, namespaces, b) ==>
      CoversBucket(conflicts, b);
  }

  /** One right summary for each of the definitions. */
  ghost predicate Summarises(
    all: seq<Instance>, namespaces: Namespaces, ids: set<string>, definitions: seq<DefinitionSummary>,
    table: map<string, seq<Instance>>)
  {
    && ids <= table.Keys
    && (forall i :: 0 <= i < |definitions| ==>
          definitions[i].id in ids && SummaryRight(all, namespaces, definitions[i], table[definitions[i].id]))
    && (forall i, j :: 0 <= i < j < |definitions| ==> definitions[i].id != definitions[j].id)
    && (forall d :: d in ids ==> HasSummary(definitions, d))
  }

  ghost predicate HasSummary(definitions: seq<DefinitionSummary>, d: string) {
    exists i :: 0 <= i < |definitions| && definitions[i].id == d
  }

  lemma NextSummary(
    all: seq<Instance>, namespaces: Namespaces, ids: set<string>, definitions: seq<DefinitionSummary>,
    table: map<string, seq<Instance>>,
    next: DefinitionSummary)
    requires Summarises(all, namespaces, ids, definitions, table)
    requires next.id in table.Keys - ids && SummaryRight(all, namespaces, next, table[next.id])
    ensures Summarises(all, namespaces, ids + {next.id}, definitions + [next], table)
  {
    var after := definitions + [next];
    forall d | d in ids + {next.id} ensures HasSummary(after, d) {
      if d == next.id {
        assert after[|definitions|].id == d;
      } else {
        assert HasSummary(definitions, d);
        var i :| 0 <= i < |definitions| && definitions[i].id == d;
        assert after[i].id == d;
      }
    }
  }

  datatype Report = Report(definitions: seq<DefinitionSummary>, conflicts: seq<Conflict>, findings: seq<Finding>)

  /** The report on some of the definitions. */
  ghost predicate Reports(
    all: seq<Instance>, namespaces: Namespaces, ids: set<string>, report: Report, table: map<string, seq<Instance>>)
  {
    && Summarises(all, namespaces, ids, report.definitions, table)
    && IsGrouping(all, namespaces, OfDefinitions(ids), report.conflicts)
    && report.findings == FindingsFor(report.conflicts)
  }

  method AppendDefinition(
    ghost all: seq<Instance>, namespaces: Namespaces, ghost done: set<string>, report: Report,
    table: map<string, seq<Instance>>, d: string)
    returns (longer: Report)
    requires d in table.Keys - done && table[d] != [] && table[d] == Filtered(all, Defines(d))
    requires Reports(all, namespaces, done, report, table)
    ensures Reports(all, namespaces, done + {d}, longer, table)
  {
    var summary, more := SummariseDefinition(all, namespaces, d, table[d]);
    NextSummary(all, namespaces, done, report.definitions, table, summary);
    AddDefinition(all, namespaces, done, d, report.conflicts, more);
    var moreFindings := FindingsOf(more);
    FindingsForConcat(report.conflicts, more);
    longer := Report(report.definitions + [summary], report.conflicts + more, report.findings + moreFindings);
  }

  /**
   * Every definition once with all its instances, every colliding bucket once with all its members,
   * and one finding for each member of each conflict.
   */
  ghost predicate IsReport(
    all: seq<Instance>, namespaces: Namespaces, report: Report, table: map<string, seq<Instance>>)
  {
    && ByDefinition(all, table) && Summarises(all, namespaces, table.Keys, report.definitions, table)
    && IsGrouping(all, namespaces, Any(), report.conflicts)
    && report.findings == FindingsFor(report.conflicts)
  }

  lemma NothingReported(all: seq<Instance>, namespaces: Namespaces, table: map<string, seq<Instance>>)
    ensures Reports(all, namespaces, {}, Report([], [], []), table)
  {
  }

  /** Definitions, conflicts and findings of a list of instances. */
  method AppendNameCollisionResults(all: seq<Instance>, namespaces: Namespaces)
    returns (report: Report, table: map<string, seq<Instance>>)
    ensures IsReport(all, namespaces, report, table)
  {
    table := GroupByDefinition(all);
    report := Report([], [], []);
    NothingReported(all, namespaces, table);
    ghost var done := {};
    var pending := table.Keys;
    while pending != {}
      invariant pending <= table.Keys && done == table.Keys - pending
      invariant Reports(all, namespaces, done, report, table)
    {
      var d :| d in pending;
      report := AppendDefinition(all, namespaces, done, report, table, d);
      pending, done := pending - {d}, done + {d};
    }
    AllDefinitionsDone(all, namespaces, done, table, report);
  }

  lemma AddDefinition(
    all: seq<Instance>, namespaces: Namespaces, done: set<string>, d: string, conflicts: seq<Conflict>,
    more: seq<Conflict>)
    requires d !in done
    requires IsGrouping(all, namespaces, OfDefinitions(done), conflicts) && IsGrouping(all, namespaces, Of(d), more)
    ensures IsGrouping(all, namespaces, OfDefinitions(done + {d}), conflicts + more)
  {
    JoinGroupings(all, namespaces, OfDefinitions(done), Of(d), OfDefinitions(done + {d}), conflicts, more);
  }

  lemma AllDefinitionsDone(
    all: seq<Instance>, namespaces: Namespaces, done: set<string>, table: map<string, seq<Instance>>, report: Report)
    requires ByDefinition(all, table) && done == table.Keys
    requires Reports(all, namespaces, done, report, table)
    ensures IsReport(all, namespaces, report, table)
  {
    AllBucketsDone(all, namespaces, done, table, report.conflicts);
  }

  lemma AllBucketsDone(
    all: seq<Instance>, namespaces: Namespaces, done: set<string>, table: map<string, seq<Instance>>,
    conflicts: seq<Conflict>)
    requires forall x :: x in all ==> x.definition in table
    requires done == table.Keys
    requires IsGrouping(all, namespaces, OfDefinitions(done), conflicts)
    ensures IsGrouping(all, namespaces, Any(), conflicts)
  {
    SameGrouping(all, namespaces, OfDefinitions(done), Any(), conflicts);
  }

  method FindingsOf(conflicts: seq<Conflict>) returns (findings: seq<Finding>)
    ensures findings == FindingsFor(conflicts)
  {
    findings := [];
    for i := 0 to |conflicts|
      invariant findings == FindingsFor(conflicts[..i])
    {
      var c := conflicts[i];
      ghost var before := findings;
      for k := 0 to |c.members|
        invariant findings == before + FindingsOfConflict(c, k)
      {
        findings := findings + [FindingFor(c, c.members[k])];
      }
      assert conflicts[..i + 1][..i] == conflicts[..i];
    }
    assert conflicts[..|conflicts|] == conflicts;
  }

  lemma {:induction false} FindingsForConcat(a: seq<Conflict>, b: seq<Conflict>)
    ensures FindingsFor(a + b) == FindingsFor(a) + FindingsFor(b)
    decreases |b|
  {
    if b == [] {
      assert a + b == a;
    } else {
      var c := b[|b| - 1];
      FindingsForConcat(a, b[..|b| - 1]);
      assert (a + b)[..|a + b| - 1] == a + b[..|b| - 1] && (a + b)[|a + b| - 1] == c;
      AppendAssociates(FindingsFor(a), FindingsFor(b[..|b| - 1]), FindingsOfConflict(c, |c.members|));
    }
  }

  lemma AppendAssociates(x: seq<Finding>, y: seq<Finding>, z: seq<Finding>)
    ensures x + (y + z) == x + y + z
  {
  }

  // ----- what the report says ---------------------------------------------------------------

  ghost predicate ShareGroup(conflicts: seq<Conflict>, x: Instance, y: Instance) {
    exists i :: 0 <= i < |conflicts| && x in conflicts[i].members && y in conflicts[i].members
  }

  /** Two instances are reported together iff they have the same bucket and it holds two paths. */
  lemma ReportedTogether(all: seq<Instance>, namespaces: Namespaces, conflicts: seq<Conflict>, x: Instance, y: Instance)
    requires IsGrouping(all, namespaces, Any(), conflicts) && x in all && y in all
    ensures ShareGroup(conflicts, x, y) <==>
            && BucketOf(all, namespaces, x).Some? && BucketOf(all, namespaces, x) == BucketOf(all, namespaces, y)
            && Collides(all, namespaces, BucketOf(all, namespaces, x).value)
  {
    forall i | 0 <= i < |conflicts|
      ensures forall z :: z in conflicts[i].members <==>
              z in all && BucketOf(all, namespaces, z) == Some(conflicts[i].bucket)
    {
      FilledBucketCollides(all, namespaces, conflicts[i].bucket, conflicts[i].members);
    }
    if BucketOf(all, namespaces, x).Some? && BucketOf(all, namespaces, x) == BucketOf(all, namespaces, y) &&
       Collides(all, namespaces, BucketOf(all, namespaces, x).value) {
      var b := BucketOf(all, namespaces, x).value;
      assert Any()(b);
      assert CoversBucket(conflicts, b);
    }
  }

  /**
   * Two visible instances at different paths are reported together iff they share definition and agent and
   * either share the namespace or live beside a native instance of that definition and agent.
   */
  lemma DifferentPathsReportedTogether(
    all: seq<Instance>, namespaces: Namespaces, conflicts: seq<Conflict>, x: Instance, y: Instance)
    requires IsGrouping(all, namespaces, Any(), conflicts) && x in all && y in all && x.path != y.path
    requires NamespaceOf(namespaces, x).Some? && NamespaceOf(namespaces, y).Some?
    ensures ShareGroup(conflicts, x, y) <==>
            && x.definition == y.definition && x.agent == y.agent
            && (NamespaceOf(namespaces, x) == NamespaceOf(namespaces, y) ||
                HasNative(all, namespaces, x.definition, x.agent))
  {
    ReportedTogether(all, namespaces, conflicts, x, y);
  }

  lemma InOneGroupAtMost(
    all: seq<Instance>, namespaces: Namespaces, conflicts: seq<Conflict>, x: Instance, i: nat, j: nat)
    requires IsGrouping(all, namespaces, Any(), conflicts)
    requires i < |conflicts| && j < |conflicts| && x in conflicts[i].members && x in conflicts[j].members
    ensures i == j
  {
    FilledBucketCollides(all, namespaces, conflicts[i].bucket, conflicts[i].members);
    FilledBucketCollides(all, namespaces, conflicts[j].bucket, conflicts[j].members);
  }

  /** Reordering the instances gives the same groups. */
  lemma OrderDoesNotMatter(
    a: seq<Instance>, b: seq<Instance>, namespaces: Namespaces, ofA: seq<Conflict>, ofB: seq<Conflict>, i: nat)
    requires multiset(a) == multiset(b) && i < |ofA|
    requires IsGrouping(a, namespaces, Any(), ofA) && IsGrouping(b, namespaces, Any(), ofB)
    ensures exists j :: 0 <= j < |ofB| && ofB[j].bucket == ofA[i].bucket &&
            multiset(ofB[j].members) == multiset(ofA[i].members)
  {
    forall x ensures x in a <==> x in b {
      assert x in a <==> multiset(a)[x] > 0;
      assert x in b <==> multiset(b)[x] > 0;
    }
    forall x: Instance ensures BucketOf(a, namespaces, x) == BucketOf(b, namespaces, x) {
    }
    var bucket := ofA[i].bucket;
    assert Any()(bucket) && Collides(b, namespaces, bucket);
    assert CoversBucket(ofB, bucket);
    var j :| 0 <= j < |ofB| && ofB[j].bucket == bucket;
    SameMembers(a, b, namespaces, bucket, ofA[i].members, ofB[j].members);
  }

  lemma SameMembers(
    a: seq<Instance>, b: seq<Instance>, namespaces: Namespaces, bucket: Bucket, inA: seq<Instance>, inB: seq<Instance>)
    requires multiset(a) == multiset(b)
    requires forall x: Instance :: BucketOf(a, namespaces, x) == BucketOf(b, namespaces, x)
    requires FillsBucket(a, namespaces, bucket, inA) && FillsBucket(b, namespaces, bucket, inB)
    ensures multiset(inA) == multiset(inB)
  {
    forall x ensures multiset(inA)[x] == multiset(inB)[x] {
      assert BucketOf(a, namespaces, x) == BucketOf(b, namespaces, x);
    }
  }

  /** How many members the conflicts before the i-th have. */
  function MembersBefore(conflicts: seq<Conflict>, i: nat): nat
    requires i <= |conflicts|
  {
    if i == 0 then 0 else MembersBefore(conflicts, i - 1) + |conflicts[i - 1].members|
  }

  lemma {:induction false} MembersBeforePrefix(conflicts: seq<Conflict>, i: nat, n: nat)
    requires i <= n <= |conflicts|
    ensures MembersBefore(conflicts[..n], i) == MembersBefore(conflicts, i)
  {
    if i > 0 {
      MembersBeforePrefix(conflicts, i - 1, n);
    }
  }

  lemma {:induction false} FindingCount(conflicts: seq<Conflict>)
    ensures |FindingsFor(conflicts)| == MembersBefore(conflicts, |conflicts|)
  {
    if conflicts != [] {
      var n := |conflicts| - 1;
      FindingCount(conflicts[..n]);
      MembersBeforePrefix(conflicts, n, n);
    }
  }

  /** The findings are the pairs of a conflict and one of its members, in order. */
  lemma {:induction false} FindingsAreMemberships(conflicts: seq<Conflict>, i: nat, k: nat)
    requires i < |conflicts| && k < |conflicts[i].members|
    ensures |FindingsFor(conflicts)| == MembersBefore(conflicts, |conflicts|)
    ensures MembersBefore(conflicts, i) + k < |FindingsFor(conflicts)|
    ensures FindingsFor(conflicts)[MembersBefore(conflicts, i) + k] == FindingFor(conflicts[i], conflicts[i].members[k])
  {
    var n := |conflicts| - 1;
    FindingCount(conflicts);
    FindingCount(conflicts[..n]);
    MembersBeforePrefix(conflicts, n, n);
    if i < n {
      FindingsAreMemberships(conflicts[..n], i, k);
      MembersBeforePrefix(conflicts, i, n);
    }
  }

  lemma ReasonsDiffer(a: seq<Instance>, b: seq<Instance>)
    ensures ':' !in Reason(a)
    ensures EndsWithChar(Reason(a), 't') || EndsWithChar(Reason(a), 'n')
    ensures EndsWithChar(Reason(a), 't') && EndsWithChar(Reason(b), 't') ==> Reason(a) == Reason(b)
    ensures EndsWithChar(Reason(a), 'n') && EndsWithChar(Reason(b), 'n') ==> Reason(a) == Reason(b)
  {
  }

  lemma TailsDiffer(c: Conflict, d: Conflict)
    requires IdTail(c) == IdTail(d)
    ensures c.bucket.namespace == d.bucket.namespace ||
            (c.bucket.namespace in {NATIVE, NATIVE_PLUS_PLUGIN} && d.bucket.namespace in {NATIVE, NATIVE_PLUS_PLUGIN})
  {
    var m, n := c.bucket.namespace, d.bucket.namespace;
    ReasonsDiffer(c.members, d.members);
    ReasonsDiffer(d.members, c.members);
    if m !in {NATIVE, NATIVE_PLUS_PLUGIN} && n !in {NATIVE, NATIVE_PLUS_PLUGIN} {
      var s, t := m + ":" + Reason(c.members), n + ":" + Reason(d.members);
      assert s == t;
      assert s[|s| - 1] == Reason(c.members)[|Reason(c.members)| - 1] &&
        t[|t| - 1] == Reason(d.members)[|Reason(d.members)| - 1];
      assert Reason(c.members) == Reason(d.members);
      assert m == s[..|m|] && n == t[..|n|];
    } else {
      HasColon(m, Reason(c.members));
      HasColon(n, Reason(d.members));
    }
  }

  lemma HasColon(m: string, r: string)
    ensures ':' in m + ":" + r
  {
    assert (m + ":" + r)[|m|] == ':';
  }

  /** Conflicts are told apart by their ids when definition and agent identifiers contain no colon. */
  lemma ConflictIdsAreDistinct(all: seq<Instance>, namespaces: Namespaces, conflicts: seq<Conflict>, i: nat, j: nat)
    requires IsGrouping(all, namespaces, Any(), conflicts) && i < |conflicts| && j < |conflicts|
    requires forall x :: x in all ==> ':' !in x.definition && ':' !in x.agent
    requires ConflictId(conflicts[i]) == ConflictId(conflicts[j])
    ensures i == j
  {
    var c, d := conflicts[i], conflicts[j];
    assert Collides(all, namespaces, c.bucket) && Collides(all, namespaces, d.bucket);
    FieldsDetermined(
      c.bucket.definition, c.bucket.agent + ":" + IdTail(c), d.bucket.definition, d.bucket.agent + ":" + IdTail(d),
      ':');
    FieldsDetermined(c.bucket.agent, IdTail(c), d.bucket.agent, IdTail(d), ':');
    TailsDiffer(c, d);
    assert c.bucket == d.bucket;
  }
}
