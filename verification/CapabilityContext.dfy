/** The capability projection of a task, and the independent validator that must accept it. */
module CapabilityContext {
  import opened Prelude
  import opened CapabilityGraph

  const SCHEMA := "W7TP_CAPABILITY_CONTEXT_PROJECTION/1.0"
  const REF_PREFIX := "capability:"
  const DYNAMIC_CONTEXT := "CAP_INTERNAL_DYNAMIC_CONTEXT_V1"
  const NOT_GRANTED := "NOT_GRANTED_BY_CONTEXT"
  const NOT_REOBSERVED := "NOT_REOBSERVED"
  const FOUNDER_ONLY := "FOUNDER_ONLY"
  const SEMANTICS := "8_IN_1_SINGLE_DYNAMIC_STATE_FIELD"
  const UNRESOLVED := "HOLD_REQUIRED_CAPABILITY_UNRESOLVED"
  const BOUND := "BOUND_REGISTERED_CAPABILITY_CONTEXT"

  const REQUIRED_CLASSES: set<string> := {
    "CLAW", "LLM", "STATIC_PULL", "DYNAMIC_CONTEXT", "NODE_COMPUTE", "ORIGIN_CELL", "GST", "NVR_READ"
  }

  /** `^CAP_INTERNAL_[A-Z0-9_]+_V1$`, matched against the whole string. */
  predicate ValidId(s: string) {
    && |s| >= 17 && s[..13] == "CAP_INTERNAL_" && s[|s| - 3..] == "_V1"
    && forall k :: 13 <= k < |s| - 3 ==> 'A' <= s[k] <= 'Z' || '0' <= s[k] <= '9' || s[k] == '_'
  }

  predicate Distinct(l: seq<string>) {
    forall i, j :: 0 <= i < j < |l| ==> l[i] != l[j]
  }

  function Elements(l: seq<string>): set<string> {
    set c | c in l
  }

  // ----- sorted lists of ids ------------------------------------------------------------

  predicate Ascending(l: seq<string>) {
    forall i, j :: 0 <= i < j < |l| ==> LexLess(l[i], l[j])
  }

  /** `l` is `sorted(s)`. */
  predicate SortedListOf(l: seq<string>, s: set<string>) {
    Ascending(l) && Elements(l) == s
  }

  lemma {:induction false} SortedListIsUnique(l: seq<string>, m: seq<string>, s: set<string>)
    requires SortedListOf(l, s) && SortedListOf(m, s)
    ensures l == m
    decreases |l|
  {
    if l == [] {
      NoElements(l);
      NoElements(m);
    } else {
      assert l[0] in Elements(m) && m != [];
      assert m[0] in Elements(l);
      HeadIsLeast(l, m[0]);
      HeadIsLeast(m, l[0]);
      if l[0] != m[0] {
        LexAsymmetric(l[0], m[0]);
      }
      TailElements(l);
      TailElements(m);
      SortedListIsUnique(l[1..], m[1..], s - {l[0]});
    }
  }

  lemma NoElements(l: seq<string>)
    ensures Elements(l) == {} <==> l == []
  {
    if l != [] {
      assert l[0] in Elements(l);
    }
  }

  lemma HeadIsLeast(l: seq<string>, c: string)
    requires Ascending(l) && c in l
    ensures c == l[0] || LexLess(l[0], c)
  {
  }

  lemma TailElements(l: seq<string>)
    requires Ascending(l) && l != []
    ensures Elements(l[1..]) == Elements(l) - {l[0]} && Ascending(l[1..])
  {
    forall c | c in l[1..]
      ensures c != l[0]
    {
      var k :| 0 <= k < |l[1..]| && l[1..][k] == c;
      LexAsymmetric(l[0], l[k + 1]);
    }
  }

  function InsertId(c: string, l: seq<string>): (r: seq<string>)
    requires Ascending(l) && c !in l
    ensures Ascending(r) && Elements(r) == Elements(l) + {c}
  {
    if l == [] then [c]
    else if LexLess(c, l[0]) then
      BelowHead(c, l);
      [c] + l
    else
      LexTotal(c, l[0]);
      TailElements(l);
      var rest := InsertId(c, l[1..]);
      AboveHead(l[0], l, c, rest);
      [l[0]] + rest
  }

  lemma BelowHead(c: string, l: seq<string>)
    requires Ascending(l) && l != [] && LexLess(c, l[0])
    ensures Ascending([c] + l)
  {
    forall k | 0 <= k < |l|
      ensures LexLess(c, l[k])
    {
      if k > 0 {
        LexTransitive(c, l[0], l[k]);
      }
    }
  }

  lemma AboveHead(h: string, l: seq<string>, c: string, rest: seq<string>)
    requires Ascending(l) && l != [] && h == l[0] && LexLess(h, c)
    requires Ascending(rest) && Elements(rest) == Elements(l[1..]) + {c}
    ensures Ascending([h] + rest)
  {
    forall k | 0 <= k < |rest|
      ensures LexLess(h, rest[k])
    {
      assert rest[k] in Elements(rest);
      if rest[k] != c {
        var j :| 0 <= j < |l[1..]| && l[1..][j] == rest[k];
        assert rest[k] == l[j + 1];
      }
    }
  }

  method SortIds(s: set<string>) returns (l: seq<string>)
    ensures SortedListOf(l, s)
  {
    l := [];
    var rest := s;
    while rest != {}
      invariant rest <= s && SortedListOf(l, s - rest)
      decreases rest
    {
      var c :| c in rest;
      assert c !in Elements(l);
      l := InsertId(c, l);
      rest := rest - {c};
    }
    assert s - rest == s;
  }

  // ----- registry, task, projection --------------------------------------------------------

  datatype Row = Row(id: string, cls: string, sourceRefs: seq<string>, requires_: seq<string>)

  datatype Task = Task(id: string, requested: seq<string>, sourceRefs: set<string>)

  datatype Entry = Entry(id: string, ref: string, cls: string, requires_: seq<string>, selected: bool,
                         authorization: string, readiness: string)

  datatype Frame = Frame(providerAuthority: bool, founder: string, semantics: string)

  datatype Projection = Projection(
    schema: string, taskRef: string, state: string, frame: Frame, catalogue: seq<Entry>, count: nat,
    required: seq<string>, missing: seq<string>, registryComplete: bool, allTechnologies: bool, authorization: string)

  /** The projection with the hash stored beside it. */
  datatype Signed = Signed(value: Projection, hash: string)

  function Ids(rows: seq<Row>): (l: seq<string>)
    ensures |l| == |rows|
  {
    seq(|rows|, i requires 0 <= i < |rows| => rows[i].id)
  }

  function Classes(rows: seq<Row>): (l: seq<string>)
    ensures |l| == |rows|
  {
    seq(|rows|, i requires 0 <= i < |rows| => rows[i].cls)
  }

  /** The last row with an id: the one a dictionary keyed by id keeps. */
  function RowOf(rows: seq<Row>, c: string): (r: Row)
    requires exists i :: 0 <= i < |rows| && rows[i].id == c
    ensures r in rows && r.id == c
  {
    if rows[|rows| - 1].id == c then rows[|rows| - 1] else RowOf(rows[..|rows| - 1], c)
  }

  /** The dictionary from ids to declared dependencies. */
  function GraphOf(rows: seq<Row>): Graph {
    map c | c in Elements(Ids(rows)) :: RowOf(rows, c).requires_
  }

  lemma GraphHasRows(rows: seq<Row>)
    ensures GraphOf(rows).Keys == Elements(Ids(rows))
    ensures Distinct(Ids(rows)) ==> forall r :: r in rows ==> r.id in GraphOf(rows) && GraphOf(rows)[r.id] == r.requires_
  {
    forall r | r in rows
      ensures r.id in Elements(Ids(rows)) && (Distinct(Ids(rows)) ==> RowOf(rows, r.id) == r)
    {
      var k :| 0 <= k < |rows| && rows[k] == r;
      assert Ids(rows)[k] == r.id;
      var q := RowOf(rows, r.id);
      var j :| 0 <= j < |rows| && rows[j] == q;
      assert Ids(rows)[j] == r.id;
    }
  }

  /** What a successful registry load guarantees. */
  predicate LoadedRegistry(rows: seq<Row>) {
    && Distinct(Ids(rows)) && (forall c :: c in Ids(rows) ==> ValidId(c))
    && Distinct(Classes(rows)) && Elements(Classes(rows)) == REQUIRED_CLASSES
    && AllKnown(GraphOf(rows))
  }

  predicate ValidRequest(task: Task) {
    Distinct(task.requested) && forall c :: c in task.requested ==> ValidId(c)
  }

  /** Requested ids, the dynamic context, and every row one of whose sources the task names. */
  function Seeds(task: Task, rows: seq<Row>): set<string> {
    Elements(task.requested) + {DYNAMIC_CONTEXT}
    + set r | r in rows && (exists x :: x in task.sourceRefs && x in r.sourceRefs) :: r.id
  }

  function EntryOf(r: Row, required: set<string>): Entry {
    Entry(r.id, REF_PREFIX + r.id, r.cls, r.requires_, r.id in required, NOT_GRANTED, NOT_REOBSERVED)
  }

  function InsertRow(r: Row, l: seq<Row>): (m: seq<Row>)
    ensures |m| == |l| + 1
  {
    if l == [] || !LexLess(l[0].id, r.id) then [r] + l else [l[0]] + InsertRow(r, l[1..])
  }

  /** `sorted(rows, key=id)`. */
  function SortRows(rows: seq<Row>): (m: seq<Row>)
    ensures |m| == |rows|
  {
    if rows == [] then [] else InsertRow(rows[0], SortRows(rows[1..]))
  }

  function Catalogue(rows: seq<Row>, required: set<string>): (c: seq<Entry>)
    ensures |c| == |rows|
  {
    var sorted := SortRows(rows);
    seq(|sorted|, i requires 0 <= i < |sorted| => EntryOf(sorted[i], required))
  }

  /**
   * What the builder promises: its requirement list is the sorted least closure of the seeds under
   * the declared dependencies, its missing list the sorted part of that closure without a row.
   */
  ghost predicate Built(hash: Projection -> string, task: Task, rows: seq<Row>, s: Signed) {
    var required, missing := s.value.required, s.value.missing;
    && LeastClosure(GraphOf(rows), Seeds(task, rows), Elements(required))
    && Ascending(required)
    && SortedListOf(missing, Elements(required) - Elements(Ids(rows)))
    && s == Signed(ProjectionOf(task, rows, Elements(required), required, missing), hash(s.value))
  }

  method BuildProjection(hash: Projection -> string, task: Task, rows: seq<Row>) returns (s: Signed)
    ensures Built(hash, task, rows, s)
  {
    hide SortRows, Seeds, GraphOf, LeastClosure;
    var required := Close(GraphOf(rows), Seeds(task, rows));
    var missing := SortIds(required - Elements(Ids(rows)));
    var sorted := SortIds(required);
    var value := ProjectionOf(task, rows, required, sorted, missing);
    s := Signed(value, hash(value));
  }

  function ProjectionOf(task: Task, rows: seq<Row>, required: set<string>, sorted: seq<string>, missing: seq<string>): Projection {
    Projection(
      SCHEMA, "task:" + task.id, if missing == [] then BOUND else UNRESOLVED, Frame(false, FOUNDER_ONLY, SEMANTICS),
      Catalogue(rows, required), |rows|, sorted, missing, true, false, NOT_GRANTED)
  }

  // ----- the validator -------------------------------------------------------------------------

  datatype Rejection =
    | SchemaInvalid | HashMismatch | TaskMismatch | CatalogueIncomplete | CatalogueInvalid | ReferenceOmitted
    | RequirementsInvalid | AuthorityEscalation | CoverageMismatch | ReferenceMismatch | DependencyOmitted | Overclaim

  function EntryIds(c: seq<Entry>): (l: seq<string>)
    ensures |l| == |c|
  {
    seq(|c|, i requires 0 <= i < |c| => c[i].id)
  }

  function EntryClasses(c: seq<Entry>): (l: seq<string>)
    ensures |l| == |c|
  {
    seq(|c|, i requires 0 <= i < |c| => c[i].cls)
  }

  /** The checks the validator makes row by row; the first failing one is reported. */
  function CheckRows(c: seq<Entry>, required: seq<string>): Option<Rejection> {
    if c == [] then None
    else if c[0].ref != REF_PREFIX + c[0].id then Some(ReferenceMismatch)
    else if c[0].id in required && !(forall d :: d in c[0].requires_ ==> d in required) then Some(DependencyOmitted)
    else if c[0].authorization != NOT_GRANTED || c[0].readiness != NOT_REOBSERVED then Some(AuthorityEscalation)
    else CheckRows(c[1..], required)
  }

  ghost function Validate(hash: Projection -> string, s: Signed, taskRef: string, refs: Option<set<string>>): Option<Rejection> {
    var p := s.value;
    var ids := EntryIds(p.catalogue);
    var missing := Elements(p.required) - Elements(ids);
    if p.schema != SCHEMA then Some(SchemaInvalid)
    else if s.hash != hash(p) then Some(HashMismatch)
    else if p.taskRef != taskRef then Some(TaskMismatch)
    else if p.count != |p.catalogue| then Some(CatalogueIncomplete)
    else if exists c :: c in ids && !ValidId(c) then Some(CatalogueInvalid)
    else if !Distinct(ids) || Elements(EntryClasses(p.catalogue)) != REQUIRED_CLASSES || |p.catalogue| != |REQUIRED_CLASSES| then
      Some(CatalogueIncomplete)
    else if refs.Some? && exists c :: c in ids && REF_PREFIX + c !in refs.value then Some(ReferenceOmitted)
    else if (exists c :: c in p.required && !ValidId(c)) || !Distinct(p.required) then Some(RequirementsInvalid)
    else if p.frame.providerAuthority || p.frame.founder != FOUNDER_ONLY || p.frame.semantics != SEMANTICS then
      Some(AuthorityEscalation)
    else if !SortedListOf(p.missing, missing) then Some(CoverageMismatch)
    else if CheckRows(p.catalogue, p.required).Some? then CheckRows(p.catalogue, p.required)
    else if p.state != (if missing == {} then BOUND else UNRESOLVED) || !p.registryComplete || p.allTechnologies
            || p.authorization != NOT_GRANTED then
      Some(Overclaim)
    else None
  }

  /** The dependencies the catalogue declares for each of its ids. */
  predicate ClosedInCatalogue(c: seq<Entry>, required: seq<string>) {
    forall e, d :: e in c && e.id in required && d in e.requires_ ==> d in required
  }

  lemma {:induction false} CheckRowsMeans(c: seq<Entry>, required: seq<string>)
    ensures CheckRows(c, required) == None ==> ClosedInCatalogue(c, required)
    ensures ClosedInCatalogue(c, required)
            && (forall e :: e in c ==> e.ref == REF_PREFIX + e.id && e.authorization == NOT_GRANTED && e.readiness == NOT_REOBSERVED)
            ==> CheckRows(c, required) == None
  {
    if c != [] {
      CheckRowsMeans(c[1..], required);
    }
  }

  /** The validator accepts only dependency-closed requirements with exact coverage. */
  lemma AcceptedIsClosed(hash: Projection -> string, s: Signed, taskRef: string, refs: Option<set<string>>)
    requires Validate(hash, s, taskRef, refs) == None
    ensures ClosedInCatalogue(s.value.catalogue, s.value.required)
    ensures SortedListOf(s.value.missing, Elements(s.value.required) - Elements(EntryIds(s.value.catalogue)))
    ensures s.value.state == BOUND <==> forall c :: c in s.value.required ==> c in EntryIds(s.value.catalogue)
  {
    hide ValidId, SortedListOf, Distinct, EntryIds, EntryClasses, CheckRows, ClosedInCatalogue, Elements;
    CheckRowsMeans(s.value.catalogue, s.value.required);
    NothingMissing(s.value.required, EntryIds(s.value.catalogue));
  }

  lemma NothingMissing(a: seq<string>, b: seq<string>)
    ensures Elements(a) - Elements(b) == {} <==> forall c :: c in a ==> c in b
  {
    if Elements(a) - Elements(b) == {} {
      forall c | c in a
        ensures c in b
      {
        assert c in Elements(a) && c !in Elements(a) - Elements(b);
      }
    }
  }

  // ----- agreement --------------------------------------------------------------------------------

  predicate RowsAscend(l: seq<Row>) {
    Ascending(Ids(l))
  }

  lemma {:induction false} InsertRowSorts(r: Row, l: seq<Row>)
    requires RowsAscend(l) && r.id !in Ids(l)
    ensures RowsAscend(InsertRow(r, l))
    ensures forall x :: x in InsertRow(r, l) <==> x == r || x in l
  {
    hide LexLess;
    if l == [] {
      assert InsertRow(r, l) == [r];
    } else if !LexLess(l[0].id, r.id) {
      LexTotal(l[0].id, r.id);
      assert Ids(l)[0] == l[0].id;
      BelowHead(r.id, Ids(l));
      assert Ids([r] + l) == [r.id] + Ids(l);
    } else {
      assert Ids(l[1..]) == Ids(l)[1..];
      InsertRowSorts(r, l[1..]);
      var rest := InsertRow(r, l[1..]);
      forall k | 0 <= k < |rest|
        ensures LexLess(l[0].id, rest[k].id)
      {
        assert rest[k] in rest;
        if rest[k] != r {
          var j :| 0 <= j < |l[1..]| && l[1..][j] == rest[k];
          assert Ids(l)[j + 1] == rest[k].id && Ids(l)[0] == l[0].id;
        }
      }
      var all := Ids([l[0]] + rest);
      assert all == [l[0].id] + Ids(rest);
    }
  }

  lemma {:induction false} SortRowsSorts(rows: seq<Row>)
    requires Distinct(Ids(rows))
    ensures RowsAscend(SortRows(rows))
    ensures forall x :: x in SortRows(rows) <==> x in rows
  {
    if rows != [] {
      assert Ids(rows[1..]) == Ids(rows)[1..];
      SortRowsSorts(rows[1..]);
      forall x | x in rows[1..]
        ensures x.id != rows[0].id
      {
        var k :| 0 <= k < |rows[1..]| && rows[1..][k] == x;
        assert Ids(rows)[k + 1] == x.id && Ids(rows)[0] == rows[0].id;
      }
      var sorted := SortRows(rows[1..]);
      forall k | 0 <= k < |sorted|
        ensures Ids(sorted)[k] != rows[0].id
      {
        assert sorted[k] in sorted;
      }
      InsertRowSorts(rows[0], sorted);
    }
  }

  lemma AscendingIsDistinct(l: seq<string>)
    requires Ascending(l)
    ensures Distinct(l)
  {
    forall i, j | 0 <= i < j < |l|
      ensures l[i] != l[j]
    {
      LexAsymmetric(l[i], l[j]);
    }
  }

  lemma {:induction false} DistinctSize(l: seq<string>)
    requires Distinct(l)
    ensures |Elements(l)| == |l|
  {
    if l != [] {
      DistinctSize(l[1..]);
      assert Elements(l) == Elements(l[1..]) + {l[0]};
      assert l[0] !in Elements(l[1..]);
    }
  }

  /** The catalogue lists every registered row once. */
  lemma CatalogueIsComplete(rows: seq<Row>, required: set<string>)
    requires LoadedRegistry(rows)
    ensures var c := Catalogue(rows, required);
            && Distinct(EntryIds(c)) && Elements(EntryIds(c)) == Elements(Ids(rows))
            && Elements(EntryClasses(c)) == REQUIRED_CLASSES && |c| == |REQUIRED_CLASSES|
            && (forall e :: e in c ==> exists r :: r in rows && e == EntryOf(r, required))
  {
    hide ValidId, AllKnown, GraphOf, SortRows;
    var c, sorted := Catalogue(rows, required), SortRows(rows);
    SortRowsSorts(rows);
    assert EntryIds(c) == Ids(sorted) && EntryClasses(c) == Classes(sorted);
    AscendingIsDistinct(Ids(sorted));
    SameMembers(rows, sorted);
    DistinctSize(Classes(rows));
    forall e | e in c
      ensures exists r :: r in rows && e == EntryOf(r, required)
    {
      var k :| 0 <= k < |c| && c[k] == e;
      assert sorted[k] in sorted && e == EntryOf(sorted[k], required);
    }
  }

  lemma SameMembers(rows: seq<Row>, sorted: seq<Row>)
    requires forall x :: x in sorted <==> x in rows
    ensures Elements(Ids(rows)) == Elements(Ids(sorted)) && Elements(Classes(rows)) == Elements(Classes(sorted))
  {
    RowFields(rows);
    RowFields(sorted);
  }

  lemma RowFields(rows: seq<Row>)
    ensures forall c :: c in Ids(rows) <==> exists r :: r in rows && r.id == c
    ensures forall c :: c in Classes(rows) <==> exists r :: r in rows && r.cls == c
  {
    RowIds(rows);
    RowClasses(rows);
  }

  lemma RowIds(rows: seq<Row>)
    ensures forall c :: c in Ids(rows) <==> exists r :: r in rows && r.id == c
  {
    forall k | 0 <= k < |rows|
      ensures Ids(rows)[k] == rows[k].id && rows[k] in rows
    {
    }
    forall r | r in rows
      ensures r.id in Ids(rows)
    {
      var k :| 0 <= k < |rows| && rows[k] == r;
      assert Ids(rows)[k] == r.id;
    }
  }

  lemma RowClasses(rows: seq<Row>)
    ensures forall c :: c in Classes(rows) <==> exists r :: r in rows && r.cls == c
  {
    forall k | 0 <= k < |rows|
      ensures Classes(rows)[k] == rows[k].cls && rows[k] in rows
    {
    }
    forall r | r in rows
      ensures r.cls in Classes(rows)
    {
      var k :| 0 <= k < |rows| && rows[k] == r;
      assert Classes(rows)[k] == r.cls;
    }
  }

  lemma DynamicContextIsValid()
    ensures ValidId(DYNAMIC_CONTEXT)
  {
    var s := DYNAMIC_CONTEXT;
    assert s[..13] == "CAP_INTERNAL_";
    assert s[|s| - 3..] == "_V1";
  }

  /** Everything in the closure is a well-formed id; only requested ids can be unregistered. */
  lemma ClosureIdsAreValid(task: Task, rows: seq<Row>, closure: set<string>)
    requires LoadedRegistry(rows) && ValidRequest(task)
    requires LeastClosure(GraphOf(rows), Seeds(task, rows), closure)
    ensures forall c :: c in closure ==> ValidId(c)
    ensures closure - Elements(Ids(rows)) <= Elements(task.requested) + {DYNAMIC_CONTEXT}
  {
    hide ValidId, LeastClosure, GraphOf, Seeds, Ids, Classes, Distinct;
    MissingAreSeeds(GraphOf(rows), Seeds(task, rows), closure);
    GraphHasRows(rows);
    DynamicContextIsValid();
    SeedsAre(task, rows);
    forall c | c in closure
      ensures c in task.requested || c == DYNAMIC_CONTEXT || c in Ids(rows)
    {
      assert c in Elements(task.requested) + {DYNAMIC_CONTEXT} + Elements(Ids(rows));
    }
  }

  lemma SeedsAre(task: Task, rows: seq<Row>)
    ensures Seeds(task, rows) <= Elements(task.requested) + {DYNAMIC_CONTEXT} + Elements(Ids(rows))
  {
    RowIds(rows);
  }

  /**
   * Whatever the task asks for, the projection built from a loaded registry is accepted by the
   * validator, under the task's own reference and any superset of the catalogue's references.
   */
  lemma BuiltIsAccepted(hash: Projection -> string, task: Task, rows: seq<Row>, s: Signed, refs: Option<set<string>>)
    requires LoadedRegistry(rows) && ValidRequest(task) && Built(hash, task, rows, s)
    requires refs.Some? ==> forall c :: c in Ids(rows) ==> REF_PREFIX + c in refs.value
    ensures Validate(hash, s, "task:" + task.id, refs) == None
  {
    hide ValidId, Seeds, GraphOf, Catalogue, Ids, LexLess, Distinct, Classes;
    var p := s.value;
    var closure := Elements(p.required);
    CatalogueIsComplete(rows, closure);
    ClosureIdsAreValid(task, rows, closure);
    AscendingIsDistinct(p.required);
    RequiredIsClosed(rows, closure, p.required);
    CheckRowsMeans(p.catalogue, p.required);
    IdsOfCatalogue(rows, closure);
    NoElements(p.missing);
  }

  lemma IdsOfCatalogue(rows: seq<Row>, required: set<string>)
    requires LoadedRegistry(rows)
    ensures forall c :: c in EntryIds(Catalogue(rows, required)) <==> c in Ids(rows)
  {
    CatalogueIsComplete(rows, required);
    assert forall c :: c in Elements(Ids(rows)) <==> c in Ids(rows);
    assert forall c :: c in Elements(EntryIds(Catalogue(rows, required))) <==> c in EntryIds(Catalogue(rows, required));
  }

  lemma RequiredIsClosed(rows: seq<Row>, closure: set<string>, required: seq<string>)
    requires LoadedRegistry(rows) && Closed(GraphOf(rows), closure) && Elements(required) == closure
    ensures ClosedInCatalogue(Catalogue(rows, closure), required)
  {
    hide Catalogue;
    CatalogueIsComplete(rows, closure);
    GraphHasRows(rows);
    forall e, d | e in Catalogue(rows, closure) && e.id in required && d in e.requires_
      ensures d in required
    {
      var r :| r in rows && e == EntryOf(r, closure);
      assert r.id in closure && d in GraphOf(rows)[r.id];
      assert d in closure;
    }
  }

  // ----- what the validator accepts, and what the builder says ----------------------------------------

  predicate IdCharacter(ch: char) {
    'A' <= ch <= 'Z' || '0' <= ch <= '9' || ch == '_'
  }

  /** An id is the prefix, at least one capital, digit or underscore, and the suffix. */
  lemma ValidIdIff(s: string)
    ensures ValidId(s) <==>
              exists m: string :: m != "" && s == "CAP_INTERNAL_" + m + "_V1" && forall ch :: ch in m ==> IdCharacter(ch)
  {
    if ValidId(s) {
      var m := s[13..|s| - 3];
      assert s == s[..13] + m + s[|s| - 3..];
      forall ch | ch in m
        ensures IdCharacter(ch)
      {
        var k :| 0 <= k < |m| && m[k] == ch;
        assert s[13 + k] == ch;
      }
      assert m != "" && s == "CAP_INTERNAL_" + m + "_V1";
    }
    if m: string :| m != "" && s == "CAP_INTERNAL_" + m + "_V1" && forall ch :: ch in m ==> IdCharacter(ch) {
      assert s[..13] == "CAP_INTERNAL_" && s[|s| - 3..] == "_V1";
      forall k | 13 <= k < |s| - 3
        ensures IdCharacter(s[k])
      {
        assert s[k] == m[k - 13];
      }
    }
  }

  predicate KnownClass(cls: string) {
    || cls == "CLAW" || cls == "LLM" || cls == "STATIC_PULL" || cls == "DYNAMIC_CONTEXT"
    || cls == "NODE_COMPUTE" || cls == "ORIGIN_CELL" || cls == "GST" || cls == "NVR_READ"
  }

  /** The catalogue holds one entry for each of the eight required classes, under ids of its own. */
  predicate FullCatalogue(c: seq<Entry>) {
    && |c| == 8
    && (forall e :: e in c ==> ValidId(e.id))
    && (forall i, j :: 0 <= i < j < |c| ==> c[i].id != c[j].id)
    && (forall e :: e in c ==> KnownClass(e.cls))
    && (forall i, j :: 0 <= i < j < |c| ==> c[i].cls != c[j].cls)
  }

  /** An entry that points to itself and claims neither authority nor readiness. */
  predicate ModestEntry(e: Entry) {
    e.ref == "capability:" + e.id && e.authorization == "NOT_GRANTED_BY_CONTEXT" && e.readiness == "NOT_REOBSERVED"
  }

  /** What the projection has to say beside its catalogue and its requirements. */
  predicate ModestClaims(p: Projection, taskRef: string) {
    && p.schema == "W7TP_CAPABILITY_CONTEXT_PROJECTION/1.0" && p.taskRef == taskRef && p.count == |p.catalogue|
    && !p.frame.providerAuthority && p.frame.founder == "FOUNDER_ONLY"
    && p.frame.semantics == "8_IN_1_SINGLE_DYNAMIC_STATE_FIELD"
    && p.registryComplete && !p.allTechnologies && p.authorization == "NOT_GRANTED_BY_CONTEXT"
  }

  predicate InCatalogue(c: seq<Entry>, id: string) {
    exists e :: e in c && e.id == id
  }

  /** The requirements are valid ids, once each, with all declared dependencies; what is not in the catalogue is listed, sorted. */
  ghost predicate HonestRequirements(p: Projection) {
    && (forall c :: c in p.required ==> ValidId(c))
    && (forall i, j :: 0 <= i < j < |p.required| ==> p.required[i] != p.required[j])
    && (forall e, d :: e in p.catalogue && e.id in p.required && d in e.requires_ ==> d in p.required)
    && (forall i, j :: 0 <= i < j < |p.missing| ==> LexLess(p.missing[i], p.missing[j]))
    && (forall c :: c in p.missing <==> c in p.required && !InCatalogue(p.catalogue, c))
    && p.state == if p.missing == [] then "BOUND_REGISTERED_CAPABILITY_CONTEXT" else "HOLD_REQUIRED_CAPABILITY_UNRESOLVED"
  }

  /**
   * The validator accepts a projection if and only if it is the one that was hashed, is about this
   * task, has the full catalogue, all of it among the given references, states its requirements
   * honestly and claims no authority and no readiness.
   */
  lemma AcceptedIff(hash: Projection -> string, s: Signed, taskRef: string, refs: Option<set<string>>)
    ensures Validate(hash, s, taskRef, refs) == None <==>
              && s.hash == hash(s.value) && ModestClaims(s.value, taskRef)
              && FullCatalogue(s.value.catalogue) && (forall e :: e in s.value.catalogue ==> ModestEntry(e))
              && (refs.Some? ==> forall e :: e in s.value.catalogue ==> "capability:" + e.id in refs.value)
              && HonestRequirements(s.value)
  {
    hide ValidId, SortedListOf, Distinct, EntryIds, EntryClasses, CheckRows, LexLess, Elements;
    var p := s.value;
    EntriesAre(p.catalogue);
    CatalogueIff(p.catalogue);
    CoverageIff(p);
    CheckRowsIff(p.catalogue, p.required);
    DistinctIff(p.required);
    NoElements(p.missing);
  }

  lemma DistinctIff(l: seq<string>)
    ensures Distinct(l) <==> forall i, j :: 0 <= i < j < |l| ==> l[i] != l[j]
  {
  }

  lemma EntriesAre(c: seq<Entry>)
    ensures forall id :: id in EntryIds(c) <==> InCatalogue(c, id)
    ensures forall cls :: cls in EntryClasses(c) <==> exists e :: e in c && e.cls == cls
    ensures forall e :: e in c ==> e.id in EntryIds(c)
  {
    forall e | e in c
      ensures e.id in EntryIds(c) && e.cls in EntryClasses(c)
    {
      var k :| 0 <= k < |c| && c[k] == e;
      assert EntryIds(c)[k] == e.id && EntryClasses(c)[k] == e.cls;
    }
    forall k | 0 <= k < |c|
      ensures c[k] in c && EntryIds(c)[k] == c[k].id && EntryClasses(c)[k] == c[k].cls
    {
    }
  }

  lemma CatalogueIff(c: seq<Entry>)
    ensures FullCatalogue(c) <==>
              && (forall id :: id in EntryIds(c) ==> ValidId(id)) && Distinct(EntryIds(c))
              && Elements(EntryClasses(c)) == REQUIRED_CLASSES && |c| == |REQUIRED_CLASSES|
  {
    hide ValidId, KnownClass, EntryIds, EntryClasses, Elements;
    FullIff(c);
    RequiredIff(EntryClasses(c));
  }

  lemma FullIff(c: seq<Entry>)
    ensures FullCatalogue(c) <==>
              && (forall id :: id in EntryIds(c) ==> ValidId(id)) && Distinct(EntryIds(c))
              && |c| == 8 && Distinct(EntryClasses(c)) && forall x :: x in EntryClasses(c) ==> KnownClass(x)
  {
    hide ValidId, KnownClass, EntryIds, EntryClasses;
    EntriesAre(c);
    FieldsAt(c);
  }

  lemma FieldsAt(c: seq<Entry>)
    ensures forall k :: 0 <= k < |c| ==> EntryIds(c)[k] == c[k].id && EntryClasses(c)[k] == c[k].cls
  {
  }

  lemma RequiredIff(classes: seq<string>)
    ensures Elements(classes) == REQUIRED_CLASSES && |classes| == |REQUIRED_CLASSES| <==>
              |classes| == 8 && Distinct(classes) && forall x :: x in classes ==> KnownClass(x)
  {
    hide KnownClass, Distinct, Elements;
    EightClasses();
    ExactlyThese(classes, REQUIRED_CLASSES);
  }

  lemma EightClasses()
    ensures |REQUIRED_CLASSES| == 8
    ensures forall x :: x in REQUIRED_CLASSES <==> KnownClass(x)
  {
  }

  /** As many as the set has, all from the set, none twice: exactly the set. */
  lemma ExactlyThese(l: seq<string>, s: set<string>)
    ensures Elements(l) == s && |l| == |s| <==> |l| == |s| && Distinct(l) && forall x :: x in l ==> x in s
  {
    hide Distinct;
    if Elements(l) == s && |l| == |s| {
      SizeIsDistinct(l);
      assert forall x :: x in l ==> x in Elements(l);
    }
    if |l| == |s| && Distinct(l) && forall x :: x in l ==> x in s {
      DistinctSize(l);
      SubsetOfSameSize(Elements(l), s);
    }
  }

  lemma SubsetOfSameSize(a: set<string>, b: set<string>)
    requires a <= b && |a| == |b|
    ensures a == b
  {
    assert b == a + (b - a);
    assert |b| == |a| + |b - a|;
  }

  /** As many elements as places: no element twice. */
  lemma {:induction false} SizeIsDistinct(l: seq<string>)
    requires |Elements(l)| == |l|
    ensures Distinct(l)
  {
    if l != [] {
      var rest := Elements(l[1..]);
      assert Elements(l) == rest + {l[0]};
      ElementsBound(l[1..]);
      SizeIsDistinct(l[1..]);
      assert l[0] !in rest;
    }
  }

  lemma {:induction false} ElementsBound(l: seq<string>)
    ensures |Elements(l)| <= |l|
  {
    if l != [] {
      ElementsBound(l[1..]);
      assert Elements(l) == Elements(l[1..]) + {l[0]};
    } else {
      assert Elements(l) == {};
    }
  }

  lemma CoverageIff(p: Projection)
    ensures SortedListOf(p.missing, Elements(p.required) - Elements(EntryIds(p.catalogue))) <==>
              && (forall i, j :: 0 <= i < j < |p.missing| ==> LexLess(p.missing[i], p.missing[j]))
              && (forall c :: c in p.missing <==> c in p.required && !InCatalogue(p.catalogue, c))
    ensures SortedListOf(p.missing, Elements(p.required) - Elements(EntryIds(p.catalogue))) ==>
              (p.missing == [] <==> Elements(p.required) - Elements(EntryIds(p.catalogue)) == {})
  {
    hide LexLess, EntryIds, InCatalogue;
    EntriesAre(p.catalogue);
    NoElements(p.missing);
    var missing := Elements(p.required) - Elements(EntryIds(p.catalogue));
    forall c
      ensures c in missing <==> c in p.required && !InCatalogue(p.catalogue, c)
    {
    }
    assert forall c :: c in Elements(p.missing) <==> c in p.missing;
  }

  lemma {:induction false} CheckRowsIff(c: seq<Entry>, required: seq<string>)
    ensures CheckRows(c, required) == None <==> (forall e :: e in c ==> ModestEntry(e)) && ClosedInCatalogue(c, required)
  {
    CheckRowsMeans(c, required);
    if c != [] {
      CheckRowsIff(c[1..], required);
      assert forall e :: e in c <==> e == c[0] || e in c[1..];
    }
  }

  /** Under an injective hash nothing about an accepted projection can be altered and its hash kept. */
  lemma AlteredIsRejected(hash: Projection -> string, s: Signed, p: Projection, taskRef: string, refs: Option<set<string>>)
    requires s.hash == hash(p) && Validate(hash, s, taskRef, refs) == None
    requires hash(s.value) == hash(p) ==> s.value == p
    ensures s.value == p
  {
    hide ModestClaims, FullCatalogue, ModestEntry, HonestRequirements;
    AcceptedIff(hash, s, taskRef, refs);
  }

  /** A rejection names something that is wrong. */
  lemma RejectionIsReal(hash: Projection -> string, s: Signed, taskRef: string, refs: Option<set<string>>)
    ensures var p, r := s.value, Validate(hash, s, taskRef, refs);
            && (r == Some(SchemaInvalid) <==> p.schema != "W7TP_CAPABILITY_CONTEXT_PROJECTION/1.0")
            && (r == Some(HashMismatch) ==> s.hash != hash(p))
            && (r == Some(TaskMismatch) ==> p.taskRef != taskRef)
            && (r == Some(CatalogueInvalid) ==> exists e :: e in p.catalogue && !ValidId(e.id))
            && (r == Some(CatalogueIncomplete) ==> p.count != |p.catalogue| || !FullCatalogue(p.catalogue))
            && (r == Some(ReferenceOmitted) ==> refs.Some? && exists e :: e in p.catalogue && "capability:" + e.id !in refs.value)
            && (r == Some(RequirementsInvalid) ==>
                  (exists c :: c in p.required && !ValidId(c)) || exists i, j :: 0 <= i < j < |p.required| && p.required[i] == p.required[j])
            && (r == Some(CoverageMismatch) ==> !HonestRequirements(p))
            && (r == Some(AuthorityEscalation) ==> !ModestClaims(p, taskRef) || exists e :: e in p.catalogue && !ModestEntry(e))
            && (r == Some(ReferenceMismatch) ==> exists e :: e in p.catalogue && e.ref != "capability:" + e.id)
            && (r == Some(DependencyOmitted) ==>
                  exists e, d :: e in p.catalogue && e.id in p.required && d in e.requires_ && d !in p.required)
            && (r == Some(Overclaim) ==> !ModestClaims(p, taskRef) || !HonestRequirements(p))
  {
    hide ValidId, SortedListOf, Distinct, EntryIds, EntryClasses, CheckRows, LexLess, Elements, FullCatalogue;
    var p := s.value;
    EntriesAre(p.catalogue);
    CatalogueIff(p.catalogue);
    CoverageIff(p);
    RowRejectionIsReal(p.catalogue, p.required);
    DistinctIff(p.required);
  }

  lemma {:induction false} RowRejectionIsReal(c: seq<Entry>, required: seq<string>)
    ensures CheckRows(c, required) == Some(ReferenceMismatch) ==> exists e :: e in c && e.ref != "capability:" + e.id
    ensures CheckRows(c, required) == Some(DependencyOmitted) ==>
              exists e, d :: e in c && e.id in required && d in e.requires_ && d !in required
    ensures CheckRows(c, required) == Some(AuthorityEscalation) ==> exists e :: e in c && !ModestEntry(e)
    ensures CheckRows(c, required) in {None, Some(ReferenceMismatch), Some(DependencyOmitted), Some(AuthorityEscalation)}
  {
    if c != [] {
      RowRejectionIsReal(c[1..], required);
      assert forall e :: e in c[1..] ==> e in c;
      assert c[0] in c;
    }
  }

  // ----- the requirements a task has ------------------------------------------------------------------

  /** Asked for by name, always needed, or sharing a source with the task. */
  ghost predicate IsSeed(task: Task, rows: seq<Row>, c: string) {
    || c in task.requested || c == "CAP_INTERNAL_DYNAMIC_CONTEXT_V1"
    || exists r, x :: r in rows && r.id == c && x in task.sourceRefs && x in r.sourceRefs
  }

  /** The row of `c` declares `d` as a dependency. */
  ghost predicate Declares(rows: seq<Row>, c: string, d: string) {
    exists r :: r in rows && r.id == c && d in r.requires_
  }

  /** Each id is declared as a dependency by the row of the one before it. */
  ghost predicate Declared(rows: seq<Row>, p: seq<string>) {
    forall i :: 0 <= i < |p| - 1 ==> Declares(rows, p[i], p[i + 1])
  }

  /** A chain of declared dependencies leads from a seed to `c`. */
  ghost predicate Needed(task: Task, rows: seq<Row>, c: string) {
    exists p: seq<string> :: p != [] && IsSeed(task, rows, p[0]) && Declared(rows, p) && p[|p| - 1] == c
  }

  lemma SeedsIff(task: Task, rows: seq<Row>, c: string)
    ensures c in Seeds(task, rows) <==> IsSeed(task, rows, c)
  {
  }

  lemma DeclaresIff(rows: seq<Row>, c: string, d: string)
    requires Distinct(Ids(rows))
    ensures Declares(rows, c, d) <==> c in GraphOf(rows) && d in GraphOf(rows)[c]
  {
    hide GraphOf, Distinct, Ids;
    GraphHasRows(rows);
    RowIds(rows);
    if c in GraphOf(rows) {
      assert c in Elements(Ids(rows)) && c in Ids(rows);
      var r :| r in rows && r.id == c;
      assert GraphOf(rows)[c] == r.requires_;
    }
  }

  lemma DeclaredIff(rows: seq<Row>, p: seq<string>)
    requires Distinct(Ids(rows))
    ensures Path(GraphOf(rows), p) <==> Declared(rows, p)
  {
    hide GraphOf, Distinct, Ids, Declares;
    var g := GraphOf(rows);
    if Path(g, p) {
      forall i | 0 <= i < |p| - 1
        ensures Declares(rows, p[i], p[i + 1])
      {
        DeclaresIff(rows, p[i], p[i + 1]);
      }
    }
    if Declared(rows, p) {
      forall i | 0 <= i < |p| - 1
        ensures p[i] in g && p[i + 1] in g[p[i]]
      {
        DeclaresIff(rows, p[i], p[i + 1]);
      }
    }
  }

  lemma NeededIff(task: Task, rows: seq<Row>, closure: set<string>, c: string)
    requires Distinct(Ids(rows)) && LeastClosure(GraphOf(rows), Seeds(task, rows), closure)
    ensures c in closure <==> Needed(task, rows, c)
  {
    hide GraphOf, Distinct, Ids, Seeds, LeastClosure, Path, Declared, IsSeed;
    var g, seeds := GraphOf(rows), Seeds(task, rows);
    ClosureIsReachable(g, seeds, closure);
    forall p: seq<string> | p != []
      ensures Leads(g, seeds, p, c) <==> IsSeed(task, rows, p[0]) && Declared(rows, p) && p[|p| - 1] == c
    {
      SeedsIff(task, rows, p[0]);
      DeclaredIff(rows, p);
    }
  }

  /**
   * What a built projection says: exactly what is needed, sorted; what of it has no row, sorted;
   * one entry for each row, in the order of the ids, marked if it is needed; and no authority.
   */
  lemma BuiltSays(hash: Projection -> string, task: Task, rows: seq<Row>, s: Signed)
    requires LoadedRegistry(rows) && Built(hash, task, rows, s)
    ensures var p := s.value;
            && s.hash == hash(p) && ModestClaims(p, "task:" + task.id) && |p.catalogue| == |rows|
            && (forall i, j :: 0 <= i < j < |p.required| ==> LexLess(p.required[i], p.required[j]))
            && (forall c :: c in p.required <==> Needed(task, rows, c))
            && (forall i, j :: 0 <= i < j < |p.missing| ==> LexLess(p.missing[i], p.missing[j]))
            && (forall c :: c in p.missing <==> c in p.required && forall r :: r in rows ==> r.id != c)
            && (p.missing == [] <==> p.state == "BOUND_REGISTERED_CAPABILITY_CONTEXT")
            && (p.missing != [] <==> p.state == "HOLD_REQUIRED_CAPABILITY_UNRESOLVED")
            && (forall i, j :: 0 <= i < j < |p.catalogue| ==> LexLess(p.catalogue[i].id, p.catalogue[j].id))
            && (forall e :: e in p.catalogue <==>
                  exists r :: r in rows && e == Entry(r.id, "capability:" + r.id, r.cls, r.requires_, r.id in p.required,
                                                      "NOT_GRANTED_BY_CONTEXT", "NOT_REOBSERVED"))
  {
    hide ValidId, Seeds, GraphOf, Catalogue, Ids, LexLess, Distinct, Classes, Needed, LeastClosure, AllKnown;
    var p := s.value;
    forall c
      ensures c in p.required <==> Needed(task, rows, c)
    {
      NeededIff(task, rows, Elements(p.required), c);
      assert c in p.required <==> c in Elements(p.required);
    }
    RowIds(rows);
    NoElements(p.missing);
    forall c
      ensures c in p.missing <==> c in p.required && forall r :: r in rows ==> r.id != c
    {
      assert c in p.missing <==> c in Elements(p.missing);
    }
    CatalogueSays(rows, p.required);
  }

  lemma CatalogueSays(rows: seq<Row>, required: seq<string>)
    requires Distinct(Ids(rows))
    ensures var c := Catalogue(rows, Elements(required));
            && (forall i, j :: 0 <= i < j < |c| ==> LexLess(c[i].id, c[j].id))
            && (forall e :: e in c <==>
                  exists r :: r in rows && e == Entry(r.id, "capability:" + r.id, r.cls, r.requires_, r.id in required,
                                                      "NOT_GRANTED_BY_CONTEXT", "NOT_REOBSERVED"))
  {
    hide LexLess, SortRows, Distinct, EntryOf;
    var c, sorted := Catalogue(rows, Elements(required)), SortRows(rows);
    SortRowsSorts(rows);
    EntrySays(required);
    assert forall i :: 0 <= i < |c| ==> Ids(sorted)[i] == c[i].id;
    forall r | r in rows
      ensures EntryOf(r, Elements(required)) in c
    {
      var k :| 0 <= k < |sorted| && sorted[k] == r;
      assert c[k] == EntryOf(r, Elements(required));
    }
    forall e | e in c
      ensures exists r :: r in rows && e == EntryOf(r, Elements(required))
    {
      var k :| 0 <= k < |c| && c[k] == e;
      assert sorted[k] in sorted && e == EntryOf(sorted[k], Elements(required));
    }
  }

  lemma EntrySays(required: seq<string>)
    ensures forall r :: EntryOf(r, Elements(required)) == Entry(r.id, "capability:" + r.id, r.cls, r.requires_, r.id in required,
                                                                "NOT_GRANTED_BY_CONTEXT", "NOT_REOBSERVED")
  {
  }
}
