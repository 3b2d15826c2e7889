/** Which task comes next, and why repeating "next, then complete" empties the ledger. */
module WorkScheduler {
  import opened Prelude
  import opened WorkLedger

  // ----- the order ------------------------------------------------------------------

  function PriorityRank(t: Task): nat {
    var p := Get(t, Priority);
    if p == Text("P0") then 0
    else if p == Text("P1") then 1
    else if p == Text("P2") then 2
    else if p == Text("P3") then 3
    else 99
  }

  function Unverified(verified: set<Value>, t: Task): nat {
    if Get(t, TaskId) in verified then 0 else 1
  }

  function NotDoing(t: Task): nat {
    if InState(t, Doing) then 0 else 1
  }

  function IdText(t: Task): string {
    if Get(t, TaskId).Text? then Get(t, TaskId).text else ""
  }

  /** Python's comparison of the sort tuples (verified, priority, DOING first, id). */
  predicate Before(verified: set<Value>, a: Task, b: Task) {
    var va, vb := Unverified(verified, a), Unverified(verified, b);
    var pa, pb := PriorityRank(a), PriorityRank(b);
    var da, db := NotDoing(a), NotDoing(b);
    || va < vb
    || (va == vb && pa < pb)
    || (va == vb && pa == pb && da < db)
    || (va == vb && pa == pb && da == db && LexLess(IdText(a), IdText(b)))
  }

  lemma BeforeTotal(verified: set<Value>, a: Task, b: Task)
    requires IdText(a) != IdText(b)
    ensures Before(verified, a, b) || Before(verified, b, a)
  {
    LexTotal(IdText(a), IdText(b));
  }

  /** If neither b precedes a nor c precedes b, c does not precede a. */
  lemma NotBeforeTransitive(verified: set<Value>, a: Task, b: Task, c: Task)
    requires !Before(verified, b, a) && !Before(verified, c, b)
    ensures !Before(verified, c, a)
  {
    hide PriorityRank, Unverified, NotDoing, IdText, LexLess;
    var x, y, z := IdText(a), IdText(b), IdText(c);
    LexTotal(x, y);
    LexTotal(y, z);
    if LexLess(z, x) {
      LexAsymmetric(z, x);
      if LexLess(x, y) {
        LexTransitive(z, x, y);
      }
    }
  }

  // ----- queries ----------------------------------------------------------------------

  predicate IsOpen(t: Task) {
    InState(t, Todo) || InState(t, Doing) || InState(t, Blocked) || InState(t, Hold)
  }

  function OpenTasks(ts: seq<Task>): seq<Task> {
    if ts == [] then [] else (if IsOpen(ts[0]) then [ts[0]] else []) + OpenTasks(ts[1..])
  }

  function InsertBy(verified: set<Value>, t: Task, l: seq<Task>): seq<Task> {
    if l == [] || !Before(verified, l[0], t) then [t] + l else [l[0]] + InsertBy(verified, t, l[1..])
  }

  /** Python's stable sort by the key above. */
  function SortBy(verified: set<Value>, l: seq<Task>): seq<Task> {
    if l == [] then [] else InsertBy(verified, l[0], SortBy(verified, l[1..]))
  }

  /** `list_open_tasks`: its key is the full one with nothing verified. */
  function ListOpen(ts: seq<Task>): seq<Task> {
    SortBy({}, OpenTasks(ts))
  }

  function DependenciesOf(t: Task): seq<Value> {
    match AsList(Get(t, Dependencies))
    case Some(l) => l
    case None => []
  }

  /** A dependency holds a task back only if it is the id of a task that is not DONE. */
  predicate Pending(ts: seq<Task>, d: Value) {
    IndexOf(ts, d) < |ts| && !InState(ts[IndexOf(ts, d)], Done)
  }

  predicate DependenciesDone(ts: seq<Task>, t: Task) {
    forall d :: d in DependenciesOf(t) ==> !Pending(ts, d)
  }

  predicate Usable(t: Task) {
    Get(t, NextAction) !in {Text(""), Text("NONE"), Null}
  }

  predicate Candidate(ts: seq<Task>, t: Task) {
    && (InState(t, Doing) || InState(t, Todo))
    && !Truthy(Get(t, Blockers))
    && DependenciesDone(ts, t)
    && Usable(t)
  }

  function Candidates(ts: seq<Task>, l: seq<Task>): seq<Task> {
    if l == [] then [] else (if Candidate(ts, l[0]) then [l[0]] else []) + Candidates(ts, l[1..])
  }

  /** `get_next_action`. */
  function NextTask(verified: set<Value>, ts: seq<Task>): Option<Task> {
    var sorted := SortBy(verified, Candidates(ts, ListOpen(ts)));
    if sorted == [] then None else Some(sorted[0])
  }

  // ----- the next task is the unique minimum -----------------------------------------------

  lemma {:induction false} InsertMembers(verified: set<Value>, t: Task, l: seq<Task>)
    ensures forall x :: x in InsertBy(verified, t, l) <==> x == t || x in l
  {
    hide Before;
    if l != [] && Before(verified, l[0], t) {
      InsertMembers(verified, t, l[1..]);
    }
  }

  lemma {:induction false} SortMembers(verified: set<Value>, l: seq<Task>)
    ensures forall x :: x in SortBy(verified, l) <==> x in l
    ensures SortBy(verified, l) == [] <==> l == []
  {
    if l != [] {
      SortMembers(verified, l[1..]);
      InsertMembers(verified, l[0], SortBy(verified, l[1..]));
      assert l[0] in SortBy(verified, l);
    }
  }

  /** Nothing in a sorted list precedes its head. */
  lemma {:induction false} SortHead(verified: set<Value>, l: seq<Task>)
    requires l != []
    ensures SortBy(verified, l) != []
    ensures forall x :: x in l ==> !Before(verified, x, SortBy(verified, l)[0])
  {
    hide Before;
    SortMembers(verified, l);
    NotBeforeSelf(verified, l[0]);
    if |l| > 1 {
      var rest := SortBy(verified, l[1..]);
      SortMembers(verified, l[1..]);
      SortHead(verified, l[1..]);
      if Before(verified, rest[0], l[0]) {
        NotBeforeBoth(verified, rest[0], l[0]);
      } else {
        forall x | x in l[1..]
          ensures !Before(verified, x, l[0])
        {
          NotBeforeTransitive(verified, l[0], rest[0], x);
        }
      }
    }
  }

  lemma NotBeforeSelf(verified: set<Value>, a: Task)
    ensures !Before(verified, a, a)
  {
    if LexLess(IdText(a), IdText(a)) {
      LexAsymmetric(IdText(a), IdText(a));
    }
  }

  lemma NotBeforeBoth(verified: set<Value>, a: Task, b: Task)
    requires Before(verified, a, b)
    ensures !Before(verified, b, a)
  {
    if LexLess(IdText(a), IdText(b)) {
      LexAsymmetric(IdText(a), IdText(b));
    }
  }

  lemma {:induction false} OpenMembers(ts: seq<Task>)
    ensures forall x :: x in OpenTasks(ts) <==> x in ts && IsOpen(x)
  {
    hide IsOpen;
    if ts != [] {
      OpenMembers(ts[1..]);
    }
  }

  lemma {:induction false} CandidateMembers(ts: seq<Task>, l: seq<Task>)
    ensures forall x :: x in Candidates(ts, l) <==> x in l && Candidate(ts, x)
  {
    hide Candidate;
    if l != [] {
      CandidateMembers(ts, l[1..]);
    }
  }

  predicate TextIds(ts: seq<Task>) {
    forall i :: 0 <= i < |ts| ==> Get(ts[i], TaskId).Text?
  }

  lemma NextFrom(verified: set<Value>, ts: seq<Task>, x: Task)
    ensures NextTask(verified, ts).Some? ==> NextTask(verified, ts).value in ts && Candidate(ts, NextTask(verified, ts).value)
    ensures x in ts && Candidate(ts, x) ==>
              NextTask(verified, ts).Some? && !Before(verified, x, NextTask(verified, ts).value)
  {
    hide Before, SortBy, DependenciesDone, Usable;
    var l := Candidates(ts, ListOpen(ts));
    OpenMembers(ts);
    SortMembers({}, OpenTasks(ts));
    CandidateMembers(ts, ListOpen(ts));
    SortMembers(verified, l);
    if l != [] {
      SortHead(verified, l);
      assert SortBy(verified, l)[0] in SortBy(verified, l);
    }
  }

  /**
   * The scheduler returns a task if and only if some task is ready, and then the unique least
   * one under (verified, priority, DOING first, id): it precedes every other ready task.
   */
  lemma NextIsUniqueMinimum(verified: set<Value>, ts: seq<Task>)
    requires ValidTasks(ts) && TextIds(ts)
    ensures NextTask(verified, ts).Some? <==> exists t :: t in ts && Candidate(ts, t)
    ensures NextTask(verified, ts).Some? ==>
              var t := NextTask(verified, ts).value;
              && t in ts && Candidate(ts, t)
              && forall u :: u in ts && Candidate(ts, u) && u != t ==> Before(verified, t, u)
  {
    hide Before, Candidate, NextTask, ValidTask;
    forall x
      ensures x in ts && Candidate(ts, x) ==>
                NextTask(verified, ts).Some? && !Before(verified, x, NextTask(verified, ts).value)
    {
      NextFrom(verified, ts, x);
    }
    NextFrom(verified, ts, map[]);
    if NextTask(verified, ts).Some? {
      var t := NextTask(verified, ts).value;
      forall u | u in ts && Candidate(ts, u) && u != t
        ensures Before(verified, t, u)
      {
        DistinctIds(ts, t, u);
        BeforeTotal(verified, t, u);
      }
    }
  }

  // ----- the same in terms of what is stored ------------------------------------------------

  /** TODO or DOING, nothing blocks it, its next action is real, and every task it depends on is DONE. */
  ghost predicate Ready(ts: seq<Task>, t: Task) {
    && Get(t, StateField) in {StateOf(Todo), StateOf(Doing)}
    && Get(t, Blockers) == Items([])
    && Get(t, NextAction) != Text("") && Get(t, NextAction) != Text("NONE") && Get(t, NextAction) != Null
    && Get(t, Dependencies).Items?
    && forall u :: u in ts && Get(u, TaskId) in Get(t, Dependencies).items ==> Get(u, StateField) == StateOf(Done)
  }

  /** P0, P1, P2, P3, then whatever else. */
  predicate NoLaterPriority(p: Value, q: Value) {
    && (q == Text("P0") ==> p == Text("P0"))
    && (q == Text("P1") ==> p in {Text("P0"), Text("P1")})
    && (q == Text("P2") ==> p in {Text("P0"), Text("P1"), Text("P2")})
    && (q == Text("P3") ==> p in {Text("P0"), Text("P1"), Text("P2"), Text("P3")})
  }

  /** `t` is to be worked on before `u`: verified first, then by priority, then DOING, then by id. */
  ghost predicate WorkedBefore(verified: set<Value>, t: Task, u: Task) {
    && (Get(u, TaskId) in verified ==> Get(t, TaskId) in verified)
    && ((Get(t, TaskId) in verified <==> Get(u, TaskId) in verified) ==>
          && NoLaterPriority(Get(t, Priority), Get(u, Priority))
          && (NoLaterPriority(Get(u, Priority), Get(t, Priority)) ==>
                && (Get(u, StateField) == StateOf(Doing) ==> Get(t, StateField) == StateOf(Doing))
                && ((Get(t, StateField) == StateOf(Doing) <==> Get(u, StateField) == StateOf(Doing)) ==>
                      Get(t, TaskId).Text? && Get(u, TaskId).Text? && LexLess(Get(t, TaskId).text, Get(u, TaskId).text))))
  }

  lemma CandidateIsReady(ts: seq<Task>, t: Task)
    requires ValidTasks(ts) && t in ts
    ensures Candidate(ts, t) <==> Ready(ts, t)
  {
    hide ValidTask;
    ListsOfValid(t) by {
      var i :| 0 <= i < |ts| && ts[i] == t;
      assert ValidTask(ts[i]);
    }
    if Candidate(ts, t) {
      forall u | u in ts && Get(u, TaskId) in DependenciesOf(t)
        ensures InState(u, Done)
      {
        var k :| 0 <= k < |ts| && ts[k] == u;
        assert IndexOf(ts, Get(u, TaskId)) == k;
        assert !Pending(ts, Get(u, TaskId));
      }
    }
    if Ready(ts, t) {
      forall d | d in DependenciesOf(t)
        ensures !Pending(ts, d)
      {
        assert IndexOf(ts, d) < |ts| ==> ts[IndexOf(ts, d)] in ts;
      }
    }
  }

  lemma BeforeIsWorkedBefore(verified: set<Value>, t: Task, u: Task)
    requires Get(t, TaskId).Text? && Get(u, TaskId).Text?
    ensures Before(verified, t, u) ==> WorkedBefore(verified, t, u)
  {
    hide LexLess;
  }

  /**
   * `get_next_action` returns a task if and only if one is ready, and then the one that is to be
   * worked on before all others that are ready.
   */
  lemma NextIsFirstReady(verified: set<Value>, ts: seq<Task>)
    requires ValidTasks(ts) && TextIds(ts)
    ensures NextTask(verified, ts).Some? <==> exists t :: t in ts && Ready(ts, t)
    ensures NextTask(verified, ts).Some? ==>
              var t := NextTask(verified, ts).value;
              && t in ts && Ready(ts, t)
              && forall u :: u in ts && Ready(ts, u) && u != t ==> WorkedBefore(verified, t, u)
  {
    hide Before, Candidate, Ready, NextTask, ValidTasks, WorkedBefore;
    NextIsUniqueMinimum(verified, ts);
    forall t | t in ts
      ensures Candidate(ts, t) <==> Ready(ts, t)
      ensures Get(t, TaskId).Text?
    {
      CandidateIsReady(ts, t);
    }
    if NextTask(verified, ts).Some? {
      var t := NextTask(verified, ts).value;
      forall u | u in ts && Ready(ts, u) && u != t
        ensures WorkedBefore(verified, t, u)
      {
        BeforeIsWorkedBefore(verified, t, u);
      }
    }
  }

  lemma {:induction false} SortKeepsEach(verified: set<Value>, l: seq<Task>)
    ensures multiset(SortBy(verified, l)) == multiset(l)
  {
    hide Before;
    if l != [] {
      SortKeepsEach(verified, l[1..]);
      InsertKeepsEach(verified, l[0], SortBy(verified, l[1..]));
      assert l == [l[0]] + l[1..];
    }
  }

  lemma {:induction false} InsertKeepsEach(verified: set<Value>, t: Task, l: seq<Task>)
    ensures multiset(InsertBy(verified, t, l)) == multiset(l) + multiset{t}
  {
    hide Before;
    if l != [] && Before(verified, l[0], t) {
      InsertKeepsEach(verified, t, l[1..]);
      assert l == [l[0]] + l[1..];
    }
  }

  predicate InOrder(verified: set<Value>, l: seq<Task>) {
    forall i, j :: 0 <= i < j < |l| ==> !Before(verified, l[j], l[i])
  }

  lemma {:induction false} InsertSorts(verified: set<Value>, t: Task, l: seq<Task>)
    requires InOrder(verified, l)
    ensures InOrder(verified, InsertBy(verified, t, l))
  {
    hide Before;
    if l != [] && Before(verified, l[0], t) {
      InsertSorts(verified, t, l[1..]);
      InsertMembers(verified, t, l[1..]);
      NotBeforeBoth(verified, l[0], t);
      var rest := InsertBy(verified, t, l[1..]);
      forall j | 0 <= j < |rest|
        ensures !Before(verified, rest[j], l[0])
      {
        assert rest[j] in rest;
      }
    } else if l != [] {
      forall j | 0 <= j < |l|
        ensures !Before(verified, l[j], t)
      {
        NotBeforeSelf(verified, l[0]);
        NotBeforeTransitive(verified, t, l[0], l[j]);
      }
    }
  }

  lemma {:induction false} SortSorts(verified: set<Value>, l: seq<Task>)
    ensures InOrder(verified, SortBy(verified, l))
  {
    hide Before;
    if l != [] {
      SortSorts(verified, l[1..]);
      InsertSorts(verified, l[0], SortBy(verified, l[1..]));
    }
  }

  lemma {:induction false} OpenKeepsEach(ts: seq<Task>, t: Task)
    ensures multiset(OpenTasks(ts))[t] == if IsOpen(t) then multiset(ts)[t] else 0
  {
    hide IsOpen;
    if ts != [] {
      OpenKeepsEach(ts[1..], t);
      assert ts == [ts[0]] + ts[1..];
    }
  }

  /** `list_open_tasks` lists each task that is TODO, DOING, BLOCKED or HOLD once, by priority, DOING first, then id. */
  lemma OpenListIsSorted(ts: seq<Task>)
    requires ValidTasks(ts) && TextIds(ts)
    ensures forall t :: multiset(ListOpen(ts))[t] ==
                        if Get(t, StateField) in {StateOf(Todo), StateOf(Doing), StateOf(Blocked), StateOf(Hold)}
                        then multiset(ts)[t] else 0
    ensures forall i, j :: 0 <= i < j < |ListOpen(ts)| && ListOpen(ts)[i] != ListOpen(ts)[j] ==>
              WorkedBefore({}, ListOpen(ts)[i], ListOpen(ts)[j])
  {
    hide Before, ValidTasks, WorkedBefore, SortBy, OpenTasks, InOrder, IdText;
    SortSorts({}, OpenTasks(ts));
    SortKeepsEach({}, OpenTasks(ts));
    forall t
      ensures multiset(OpenTasks(ts))[t] == if IsOpen(t) then multiset(ts)[t] else 0
    {
      OpenKeepsEach(ts, t);
    }
    OpenMembers(ts);
    SortMembers({}, OpenTasks(ts));
    var l := ListOpen(ts);
    forall i, j | 0 <= i < j < |l| && l[i] != l[j]
      ensures WorkedBefore({}, l[i], l[j])
    {
      assert l[i] in l && l[j] in l;
      SortedPair(l, i, j);
      DistinctIds(ts, l[i], l[j]);
      BeforeTotal({}, l[i], l[j]);
      BeforeIsWorkedBefore({}, l[i], l[j]);
    }
  }

  lemma SortedPair(l: seq<Task>, i: nat, j: nat)
    requires InOrder({}, l) && i < j < |l|
    ensures !Before({}, l[j], l[i])
  {
  }

  lemma DistinctIds(ts: seq<Task>, t: Task, u: Task)
    requires ValidTasks(ts) && TextIds(ts) && t in ts && u in ts && t != u
    ensures IdText(t) != IdText(u)
  {
    hide ValidTask;
    var i :| 0 <= i < |ts| && ts[i] == t;
    var j :| 0 <= j < |ts| && ts[j] == u;
  }

  // ----- rounds of "next, then complete" ------------------------------------------------------

  /** What the caller supplies in one round. */
  datatype Round = Round(verified: set<Value>, evidence: Option<Value>, head: Option<string>, now: nat)

  /** TODO or DOING, unsealed, without blockers and with a usable next action. */
  predicate Workable(t: Task) {
    && (InState(t, Todo) || InState(t, Doing))
    && !Truthy(Get(t, CompletionSeal)) && !Truthy(Get(t, Blockers)) && Usable(t)
  }

  /** Every task that is not DONE is workable. */
  predicate WorkableLedger(ts: seq<Task>) {
    && ValidTasks(ts) && TextIds(ts)
    && forall i :: 0 <= i < |ts| && !InState(ts[i], Done) ==> Workable(ts[i])
  }

  function OpenCount(ts: seq<Task>): nat {
    if ts == [] then 0 else (if InState(ts[0], Done) then 0 else 1) + OpenCount(ts[1..])
  }

  /** The file after one round. */
  function AfterRound(f: Doc, r: Round): Doc {
    match NextTask(r.verified, f.tasks)
    case None => f
    case Some(t) => Complete(f, Copy(f, f), Get(t, TaskId), r.evidence, r.head, r.now).file
  }

  lemma {:induction false} SomeOpen(ts: seq<Task>) returns (i: nat)
    requires OpenCount(ts) > 0
    ensures i < |ts| && !InState(ts[i], Done)
  {
    if InState(ts[0], Done) {
      i := SomeOpen(ts[1..]);
      i := i + 1;
    } else {
      i := 0;
    }
  }

  lemma {:induction false} CloseOne(ts: seq<Task>, i: nat, t: Task)
    requires i < |ts| && !InState(ts[i], Done) && InState(t, Done)
    ensures OpenCount(ts[i := t]) == OpenCount(ts) - 1
  {
    if i > 0 {
      assert ts[i := t][1..] == ts[1..][i - 1 := t];
      CloseOne(ts[1..], i - 1, t);
    } else {
      assert ts[0 := t][1..] == ts[1..];
    }
  }

  /** A stored seal commits to the task's scope and to its evidence as they are stored. */
  predicate SealMatches(t: Task) {
    && Get(t, CompletionSeal).Seal?
    && Get(t, CompletionSeal).scope == ScopeOf(t)
    && Get(t, CompletionSeal).evidence == DigestOf(Get(t, D4Evidence))
  }

  /** Completing an open task makes it DONE under a seal that matches it, and keeps its id and dependencies. */
  lemma DoneTask(t: Task, r: Round)
    requires ValidTask(t)
    ensures var u := Updated(t, DoneChanges(t, r.evidence, r.head, r.now), r.now);
            && ValidTask(u) && InState(u, Done) && Closed(u) && SealMatches(u)
            && Get(u, TaskId) == Get(t, TaskId) && DependenciesOf(u) == DependenciesOf(t)
  {
    hide Updated, ValidTask, DoneChanges, Get, ScopeOf;
    var changes := DoneChanges(t, r.evidence, r.head, r.now);
    DoneChangesAre(t, r);
    UpdatedValidIff(t, changes, r.now);
    DoneChangesTyped(t, r.evidence, r.head, r.now);
    ScopeKept(t, changes, r.now);
    UpdatedGet(t, changes, r.now, StateField);
    UpdatedGet(t, changes, r.now, D4Evidence);
    UpdatedGet(t, changes, r.now, CompletionSeal);
  }

  lemma ScopeKept(t: Task, changes: map<Field, Value>, now: nat)
    requires TaskId !in changes && ParentIntent !in changes && Title !in changes && Description !in changes
    requires Priority !in changes && D3Coordinate !in changes && Dependencies !in changes && CompletionCriteria !in changes
    ensures var u := Updated(t, changes, now);
            ScopeOf(u) == ScopeOf(t) && Get(u, TaskId) == Get(t, TaskId) && Get(u, Dependencies) == Get(t, Dependencies)
  {
    hide Updated, Get;
    UpdatedGet(t, changes, now, TaskId);
    UpdatedGet(t, changes, now, ParentIntent);
    UpdatedGet(t, changes, now, Title);
    UpdatedGet(t, changes, now, Description);
    UpdatedGet(t, changes, now, Priority);
    UpdatedGet(t, changes, now, D3Coordinate);
    UpdatedGet(t, changes, now, Dependencies);
    UpdatedGet(t, changes, now, CompletionCriteria);
  }

  lemma UpdatedGet(t: Task, changes: map<Field, Value>, now: nat, f: Field)
    ensures Get(Updated(t, changes, now), f)
            == if f == LastUpdate then Stamp(now) else if f in changes then changes[f] else Get(t, f)
  {
  }

  lemma DoneChangesAre(t: Task, r: Round)
    ensures var c := DoneChanges(t, r.evidence, r.head, r.now);
            && TaskId !in c && ParentIntent !in c && Title !in c && Description !in c
            && Priority !in c && D3Coordinate !in c && Dependencies !in c && CompletionCriteria !in c
            && StateField in c && D4Evidence in c && CompletionSeal in c
            && c[StateField] == StateOf(Done)
            && c[CompletionSeal] == Seal(r.now, HeadOr(r.head), ScopeOf(t), DigestOf(c[D4Evidence]))
  {
  }

  /** One round completes one task: exactly one slot changes, from not DONE to DONE. */
  lemma RoundCompletesOne(f: Doc, r: Round) returns (i: nat)
    requires WorkableLedger(f.tasks) && NextTask(r.verified, f.tasks).Some?
    ensures i < |f.tasks| && !InState(f.tasks[i], Done) && IndexOf(f.tasks, Get(f.tasks[i], TaskId)) == i
    ensures NextTask(r.verified, f.tasks) == Some(f.tasks[i]) && DependenciesDone(f.tasks, f.tasks[i])
    ensures var u := Updated(f.tasks[i], DoneChanges(f.tasks[i], r.evidence, r.head, r.now), r.now);
            AfterRound(f, r).tasks == f.tasks[i := u] && InState(u, Done) && Closed(u) && SealMatches(u)
            && Get(u, TaskId) == Get(f.tasks[i], TaskId) && ValidTask(u)
  {
    hide NextTask, Updated, DoneChanges, SealMatches, Truthy, Usable, DependenciesDone, ValidTask;
    NextFrom(r.verified, f.tasks, map[]);
    var t := NextTask(r.verified, f.tasks).value;
    i :| 0 <= i < |f.tasks| && f.tasks[i] == t;
    assert IndexOf(f.tasks, Get(t, TaskId)) == i;
    assert !InState(t, Done);
    assert !Closed(t);
    ListsOfValid(t);
    DoneTask(t, r);
    DoneChangesKeepId(t, r);
  }

  lemma ListsOfValid(t: Task)
    requires ValidTask(t)
    ensures Get(t, D4Evidence).Items? && Get(t, Blockers).Items? && Get(t, Dependencies).Items?
  {
  }

  lemma DoneChangesKeepId(t: Task, r: Round)
    ensures var c := DoneChanges(t, r.evidence, r.head, r.now);
            TaskId !in c && StateField in c && c[StateField].StateOf?
  {
  }

  lemma RoundKeepsWorkable(f: Doc, r: Round)
    requires WorkableLedger(f.tasks) && NextTask(r.verified, f.tasks).Some?
    ensures WorkableLedger(AfterRound(f, r).tasks) && |AfterRound(f, r).tasks| == |f.tasks|
    ensures OpenCount(AfterRound(f, r).tasks) == OpenCount(f.tasks) - 1
  {
    hide NextTask, AfterRound, Updated, DoneChanges, SealMatches, Closed, Workable, ValidTask, InState;
    var ts, ts' := f.tasks, AfterRound(f, r).tasks;
    var i := RoundCompletesOne(f, r);
    CloseOne(ts, i, ts'[i]);
  }

  // ----- deadlocks --------------------------------------------------------------------------

  /** The task with this id is open and waits for one of `ids`. */
  ghost predicate WaitsFor(ts: seq<Task>, id: Value, ids: set<Value>) {
    && IndexOf(ts, id) < |ts| && !InState(ts[IndexOf(ts, id)], Done)
    && exists d :: d in DependenciesOf(ts[IndexOf(ts, id)]) && d in ids
  }

  /** Each of these tasks is open and waits for one of them. */
  ghost predicate Deadlocked(ts: seq<Task>, ids: set<Value>) {
    forall id :: id in ids ==> WaitsFor(ts, id, ids)
  }

  /** What a member of a deadlocked set waits for: a pending member. */
  lemma MemberWaits(ts: seq<Task>, ids: set<Value>, id: Value) returns (d: Value)
    requires Deadlocked(ts, ids) && id in ids
    ensures Pending(ts, id) && d in DependenciesOf(ts[IndexOf(ts, id)]) && d in ids && Pending(ts, d)
  {
    hide InState, DependenciesOf, IndexOf;
    d := WaitedFor(ts, id, ids);
    var _ := WaitedFor(ts, d, ids);
  }

  lemma WaitedFor(ts: seq<Task>, id: Value, ids: set<Value>) returns (d: Value)
    requires WaitsFor(ts, id, ids)
    ensures Pending(ts, id) && d in DependenciesOf(ts[IndexOf(ts, id)]) && d in ids
  {
    hide InState, DependenciesOf;
    d :| d in DependenciesOf(ts[IndexOf(ts, id)]) && d in ids;
  }

  /** A member of a deadlocked set is not ready. */
  lemma MemberIsNotReady(ts: seq<Task>, ids: set<Value>, id: Value)
    requires Deadlocked(ts, ids) && id in ids
    ensures IndexOf(ts, id) < |ts| && !DependenciesDone(ts, ts[IndexOf(ts, id)])
  {
    hide InState, DependenciesOf, IndexOf, Deadlocked;
    var d := MemberWaits(ts, ids, id);
  }

  /** The scheduler returns a stored task that is ready. */
  lemma NextIsStored(ts: seq<Task>, verified: set<Value>)
    requires ValidTasks(ts) && NextTask(verified, ts).Some?
    ensures var t := NextTask(verified, ts).value;
            IndexOf(ts, Get(t, TaskId)) < |ts| && ts[IndexOf(ts, Get(t, TaskId))] == t && DependenciesDone(ts, t)
  {
    hide NextTask, ValidTask, InState, Truthy, Usable, DependenciesDone;
    NextFrom(verified, ts, map[]);
    var t := NextTask(verified, ts).value;
    var i :| 0 <= i < |ts| && ts[i] == t;
  }

  /** Tasks that wait for each other are never scheduled, and no round frees them. */
  lemma DeadlockIsPermanent(f: Doc, ids: set<Value>, r: Round)
    requires ValidTasks(f.tasks) && Deadlocked(f.tasks, ids)
    ensures NextTask(r.verified, f.tasks).Some? ==> Get(NextTask(r.verified, f.tasks).value, TaskId) !in ids
    ensures Deadlocked(AfterRound(f, r).tasks, ids)
  {
    hide ValidTasks, InState, NextTask, Complete, DependenciesDone, DependenciesOf;
    var ts := f.tasks;
    if NextTask(r.verified, ts).Some? {
      var t := NextTask(r.verified, ts).value;
      NextIsStored(ts, r.verified);
      if Get(t, TaskId) in ids {
        MemberIsNotReady(ts, ids, Get(t, TaskId));
      }
      CompletionEditsOne(f, IndexOf(ts, Get(t, TaskId)), r);
      if AfterRound(f, r).tasks != ts {
        EditKeepsDeadlock(ts, ids, IndexOf(ts, Get(t, TaskId)), AfterRound(f, r).tasks[IndexOf(ts, Get(t, TaskId))]);
      }
    }
  }

  lemma EditKeepsDeadlock(ts: seq<Task>, ids: set<Value>, k: nat, u: Task)
    requires Deadlocked(ts, ids) && k < |ts| && Get(u, TaskId) == Get(ts[k], TaskId) && Get(ts[k], TaskId) !in ids
    ensures Deadlocked(ts[k := u], ids)
  {
    hide WaitsFor;
    forall id | id in ids
      ensures WaitsFor(ts[k := u], id, ids)
    {
      assert WaitsFor(ts, id, ids);
      WaitsIsStored(ts, id, ids);
      IndexAfterEdit(ts, k, u, id);
      SameWaits(ts, ts[k := u], id, ids);
    }
  }

  lemma WaitsIsStored(ts: seq<Task>, id: Value, ids: set<Value>)
    requires WaitsFor(ts, id, ids)
    ensures IndexOf(ts, id) < |ts|
  {
  }

  lemma SameWaits(ts: seq<Task>, ts': seq<Task>, id: Value, ids: set<Value>)
    requires IndexOf(ts', id) == IndexOf(ts, id) < |ts| == |ts'| && ts'[IndexOf(ts, id)] == ts[IndexOf(ts, id)]
    ensures WaitsFor(ts', id, ids) <==> WaitsFor(ts, id, ids)
  {
  }

  lemma CompletionEditsOne(f: Doc, k: nat, r: Round)
    requires k < |f.tasks| && NextTask(r.verified, f.tasks) == Some(f.tasks[k])
    requires k == IndexOf(f.tasks, Get(f.tasks[k], TaskId))
    ensures var ts, ts' := f.tasks, AfterRound(f, r).tasks;
            ts' == ts || (ts' == ts[k := ts'[k]] && |ts'| == |ts| && Get(ts'[k], TaskId) == Get(ts[k], TaskId))
  {
    hide NextTask, ValidTask, Closed, Effective, DoneChanges;
    DoneChangesKeepId(f.tasks[k], r);
  }

  /** The ids of the tasks that are not DONE. */
  function OpenIds(ts: seq<Task>): set<Value> {
    set i | 0 <= i < |ts| && !InState(ts[i], Done) :: Get(ts[i], TaskId)
  }

  /**
   * Workable tasks get stuck exactly in deadlocks: nothing is scheduled if and only if all tasks
   * that are open wait for each other.
   */
  lemma StuckIffDeadlocked(ts: seq<Task>, verified: set<Value>)
    requires WorkableLedger(ts)
    ensures NextTask(verified, ts) == None <==> Deadlocked(ts, OpenIds(ts))
  {
    hide NextTask, ValidTask, InState, Truthy, Usable, DependenciesOf, DependenciesDone;
    if NextTask(verified, ts) == None {
      forall id | id in OpenIds(ts)
        ensures WaitsFor(ts, id, OpenIds(ts))
      {
        var i :| 0 <= i < |ts| && !InState(ts[i], Done) && Get(ts[i], TaskId) == id;
        assert IndexOf(ts, id) == i;
        NextFrom(verified, ts, ts[i]);
        NotReadyWaits(ts, i);
      }
    } else if Deadlocked(ts, OpenIds(ts)) {
      NextIsStored(ts, verified);
      var t := NextTask(verified, ts).value;
      NextFrom(verified, ts, map[]);
      ReadyIsOpen(ts, t);
      assert Get(t, TaskId) in OpenIds(ts);
      MemberIsNotReady(ts, OpenIds(ts), Get(t, TaskId));
    }
  }

  lemma ReadyIsOpen(ts: seq<Task>, t: Task)
    requires Candidate(ts, t)
    ensures !InState(t, Done)
  {
  }

  /** A task that is not ready waits for an open one. */
  lemma NotReadyWaits(ts: seq<Task>, i: nat)
    requires i < |ts| && !DependenciesDone(ts, ts[i])
    ensures exists d :: d in DependenciesOf(ts[i]) && d in OpenIds(ts)
  {
    hide DependenciesOf, InState;
    var d :| d in DependenciesOf(ts[i]) && Pending(ts, d);
    assert d in OpenIds(ts);
  }

  /** No tasks wait for each other. */
  ghost predicate DeadlockFree(ts: seq<Task>) {
    forall ids: set<Value> :: ids != {} ==> !Deadlocked(ts, ids)
  }

  predicate IdsRanked(ts: seq<Task>, rank: Value -> nat, t: Task) {
    forall d :: d in DependenciesOf(t) && Pending(ts, d) ==> rank(d) < rank(Get(t, TaskId))
  }

  /** Acyclic dependencies, that is, dependencies with a rank that falls along them, admit no deadlock. */
  lemma RankedIsDeadlockFree(ts: seq<Task>, rank: Value -> nat)
    requires forall i :: 0 <= i < |ts| && !InState(ts[i], Done) ==> IdsRanked(ts, rank, ts[i])
    ensures DeadlockFree(ts)
  {
    hide Deadlocked;
    forall ids: set<Value> | ids != {}
      ensures !Deadlocked(ts, ids)
    {
      var id :| id in ids;
      if Deadlocked(ts, ids) {
        RankDescends(ts, rank, ids, id);
      }
    }
  }

  /** In a deadlock one could descend in rank forever. */
  lemma {:induction false} RankDescends(ts: seq<Task>, rank: Value -> nat, ids: set<Value>, id: Value)
    requires forall i :: 0 <= i < |ts| && !InState(ts[i], Done) ==> IdsRanked(ts, rank, ts[i])
    requires Deadlocked(ts, ids) && id in ids
    ensures false
    decreases rank(id)
  {
    hide InState, DependenciesOf, Deadlocked;
    var d := MemberWaits(ts, ids, id);
    assert IdsRanked(ts, rank, ts[IndexOf(ts, id)]);
    RankDescends(ts, rank, ids, d);
  }

  /** The scheduler is never stuck while a task is open and no tasks wait for each other. */
  lemma NeverStuck(ts: seq<Task>, verified: set<Value>)
    requires WorkableLedger(ts) && DeadlockFree(ts) && OpenCount(ts) > 0
    ensures NextTask(verified, ts).Some?
  {
    hide NextTask, WorkableLedger, Deadlocked, InState;
    StuckIffDeadlocked(ts, verified);
    var i := SomeOpen(ts);
    assert Get(ts[i], TaskId) in OpenIds(ts);
  }

  /** A round creates no deadlock. */
  lemma RoundKeepsDeadlockFree(f: Doc, r: Round)
    requires WorkableLedger(f.tasks) && NextTask(r.verified, f.tasks).Some? && DeadlockFree(f.tasks)
    ensures DeadlockFree(AfterRound(f, r).tasks)
  {
    hide NextTask, AfterRound, Updated, DoneChanges, SealMatches, Closed, WorkableLedger, ValidTask, InState, Deadlocked;
    var ts, ts' := f.tasks, AfterRound(f, r).tasks;
    var i := RoundCompletesOne(f, r);
    forall ids: set<Value> | ids != {}
      ensures !Deadlocked(ts', ids)
    {
      if Deadlocked(ts', ids) {
        DeadlockWasThere(ts, i, ts'[i], ids);
      }
    }
  }

  lemma DeadlockWasThere(ts: seq<Task>, i: nat, u: Task, ids: set<Value>)
    requires i < |ts| && Get(u, TaskId) == Get(ts[i], TaskId) && InState(u, Done)
    requires Deadlocked(ts[i := u], ids)
    ensures Deadlocked(ts, ids)
  {
    hide InState, DependenciesOf, IndexOf, WaitsFor, Get;
    forall id | id in ids
      ensures WaitsFor(ts, id, ids)
    {
      var d := WaitedFor(ts[i := u], id, ids);
      IndexAfterEdit(ts, i, u, id);
      SameWaits(ts, ts[i := u], id, ids);
    }
  }

  // ----- draining the ledger ------------------------------------------------------------------

  /**
   * The ids completed by repeating the round until nothing is scheduled, in order; `rounds(k)` is
   * what the caller supplies in round k.
   */
  ghost function Drain(f: Doc, rounds: nat -> Round, k: nat): seq<Value>
    requires WorkableLedger(f.tasks)
    decreases OpenCount(f.tasks)
  {
    match NextTask(rounds(k).verified, f.tasks)
    case None => []
    case Some(t) =>
      RoundKeepsWorkable(f, rounds(k));
      [Get(t, TaskId)] + Drain(AfterRound(f, rounds(k)), rounds, k + 1)
  }

  /** The file after the last round. */
  ghost function Drained(f: Doc, rounds: nat -> Round, k: nat): Doc
    requires WorkableLedger(f.tasks)
    decreases OpenCount(f.tasks)
  {
    match NextTask(rounds(k).verified, f.tasks)
    case None => f
    case Some(_) =>
      RoundKeepsWorkable(f, rounds(k));
      Drained(AfterRound(f, rounds(k)), rounds, k + 1)
  }

  /** Draining completes one task per round and ends where nothing is scheduled any more. */
  lemma {:induction false} DrainEnds(f: Doc, rounds: nat -> Round, k: nat, verified: set<Value>)
    requires WorkableLedger(f.tasks)
    ensures var g := Drained(f, rounds, k);
            && WorkableLedger(g.tasks) && |g.tasks| == |f.tasks| && NextTask(verified, g.tasks) == None
            && |Drain(f, rounds, k)| + OpenCount(g.tasks) == OpenCount(f.tasks)
    decreases OpenCount(f.tasks)
  {
    hide AfterRound, NextTask, WorkableLedger, Deadlocked;
    if NextTask(rounds(k).verified, f.tasks) == None {
      StuckIffDeadlocked(f.tasks, rounds(k).verified);
      StuckIffDeadlocked(f.tasks, verified);
    } else {
      RoundKeepsWorkable(f, rounds(k));
      DrainEnds(AfterRound(f, rounds(k)), rounds, k + 1, verified);
    }
  }

  predicate AllDone(ts: seq<Task>) {
    forall i :: 0 <= i < |ts| ==> InState(ts[i], Done)
  }

  /**
   * The drain theorem: repeating "next, then complete" turns every task DONE, in exactly as many
   * rounds as tasks were open, if and only if no tasks wait for each other.
   */
  lemma DrainsIffDeadlockFree(f: Doc, rounds: nat -> Round)
    requires WorkableLedger(f.tasks)
    ensures AllDone(Drained(f, rounds, 0).tasks) <==> DeadlockFree(f.tasks)
    ensures |Drain(f, rounds, 0)| == OpenCount(f.tasks) <==> DeadlockFree(f.tasks)
  {
    hide Drained, Drain, WorkableLedger, DeadlockFree, AllDone;
    var g := Drained(f, rounds, 0);
    DrainEnds(f, rounds, 0, {});
    DoneIffNoneOpen(g.tasks);
    DrainKeepsDeadlocks(f, rounds, 0);
    if DeadlockFree(g.tasks) && OpenCount(g.tasks) > 0 {
      NeverStuck(g.tasks, {});
    }
    if AllDone(g.tasks) {
      DoneIsDeadlockFree(g.tasks);
    }
  }

  /** Draining neither creates nor resolves a deadlock. */
  lemma {:induction false} DrainKeepsDeadlocks(f: Doc, rounds: nat -> Round, k: nat)
    requires WorkableLedger(f.tasks)
    ensures DeadlockFree(Drained(f, rounds, k).tasks) <==> DeadlockFree(f.tasks)
    decreases OpenCount(f.tasks)
  {
    hide AfterRound, NextTask, WorkableLedger, Deadlocked, DeadlockFree;
    if NextTask(rounds(k).verified, f.tasks).Some? {
      RoundKeepsWorkable(f, rounds(k));
      DrainKeepsDeadlocks(AfterRound(f, rounds(k)), rounds, k + 1);
      if DeadlockFree(f.tasks) {
        RoundKeepsDeadlockFree(f, rounds(k));
      } else {
        SomeDeadlockStays(f, rounds(k));
      }
    }
  }

  lemma SomeDeadlockStays(f: Doc, r: Round)
    requires WorkableLedger(f.tasks) && !DeadlockFree(f.tasks)
    ensures !DeadlockFree(AfterRound(f, r).tasks)
  {
    hide AfterRound, Deadlocked;
    var ids: set<Value> :| ids != {} && Deadlocked(f.tasks, ids);
    DeadlockIsPermanent(f, ids, r);
  }

  lemma DoneIsDeadlockFree(ts: seq<Task>)
    requires AllDone(ts)
    ensures DeadlockFree(ts)
  {
    forall ids: set<Value> | ids != {}
      ensures !Deadlocked(ts, ids)
    {
      var id :| id in ids;
      assert !WaitsFor(ts, id, ids);
    }
  }

  lemma {:induction false} DoneIffNoneOpen(ts: seq<Task>)
    ensures OpenCount(ts) == 0 <==> AllDone(ts)
  {
    hide InState;
    if ts != [] {
      DoneIffNoneOpen(ts[1..]);
      assert forall i :: 0 < i < |ts| ==> ts[i] == ts[1..][i - 1];
      assert forall i :: 0 <= i < |ts[1..]| ==> ts[1..][i] == ts[i + 1];
    }
  }

  /**
   * The completion order is topological: it lists tasks that were open, and each of them only
   * after every dependency of it that is a task was DONE at the start or listed earlier.
   */
  lemma {:induction false} DrainIsTopological(f: Doc, rounds: nat -> Round, k: nat, j: nat)
    requires WorkableLedger(f.tasks) && j < |Drain(f, rounds, k)|
    ensures var order := Drain(f, rounds, k);
            var i := IndexOf(f.tasks, order[j]);
            && i < |f.tasks| && !InState(f.tasks[i], Done)
            && forall d :: d in DependenciesOf(f.tasks[i]) && Pending(f.tasks, d) ==> d in order[..j]
    decreases OpenCount(f.tasks)
  {
    hide AfterRound, NextTask, WorkableLedger, InState, Updated, DoneChanges, SealMatches, Closed, ValidTask;
    var order := Drain(f, rounds, k);
    RoundKeepsWorkable(f, rounds(k));
    var i0 := RoundCompletesOne(f, rounds(k));
    if j > 0 {
      var g := AfterRound(f, rounds(k));
      DrainIsTopological(g, rounds, k + 1, j - 1);
      ListedLater(f.tasks, i0, g.tasks, order, Drain(g, rounds, k + 1), j);
    }
  }

  /** What holds of a task in the list the first round leaves also holds in the list it found. */
  lemma ListedLater(ts: seq<Task>, i0: nat, ts': seq<Task>, order: seq<Value>, rest: seq<Value>, j: nat)
    requires i0 < |ts| == |ts'| && ts' == ts[i0 := ts'[i0]]
    requires Get(ts'[i0], TaskId) == Get(ts[i0], TaskId) && InState(ts'[i0], Done)
    requires 0 < j < |order| && order == [Get(ts[i0], TaskId)] + rest
    requires IndexOf(ts, Get(ts[i0], TaskId)) == i0
    requires var i := IndexOf(ts', rest[j - 1]);
             && i < |ts'| && !InState(ts'[i], Done)
             && forall d :: d in DependenciesOf(ts'[i]) && Pending(ts', d) ==> d in rest[..j - 1]
    ensures var i := IndexOf(ts, order[j]);
            && i < |ts| && !InState(ts[i], Done)
            && forall d :: d in DependenciesOf(ts[i]) && Pending(ts, d) ==> d in order[..j]
  {
    hide InState, Get, DependenciesOf;
    IndexAfterEdit(ts, i0, ts'[i0], order[j]);
    var i := IndexOf(ts, order[j]);
    assert i != i0 && ts'[i] == ts[i];
    assert order[..j] == [Get(ts[i0], TaskId)] + rest[..j - 1];
    forall d | d in DependenciesOf(ts[i]) && Pending(ts, d)
      ensures d in order[..j]
    {
      IndexAfterEdit(ts, i0, ts'[i0], d);
      if IndexOf(ts, d) == i0 {
        assert d == Get(ts[i0], TaskId);
      } else {
        assert Pending(ts', d);
      }
    }
  }

  /** Without deadlocks every open task is completed sooner or later. */
  lemma {:induction false} DrainListsOpen(f: Doc, rounds: nat -> Round, k: nat, i: nat)
    requires WorkableLedger(f.tasks) && DeadlockFree(f.tasks) && i < |f.tasks| && !InState(f.tasks[i], Done)
    ensures Get(f.tasks[i], TaskId) in Drain(f, rounds, k)
    decreases OpenCount(f.tasks)
  {
    hide AfterRound, NextTask, WorkableLedger, DeadlockFree, InState, Updated, DoneChanges, SealMatches, Closed, ValidTask;
    OpenIsCounted(f.tasks, i);
    NeverStuck(f.tasks, rounds(k).verified);
    RoundKeepsWorkable(f, rounds(k));
    RoundKeepsDeadlockFree(f, rounds(k));
    var i0 := RoundCompletesOne(f, rounds(k));
    if i != i0 {
      assert AfterRound(f, rounds(k)).tasks[i] == f.tasks[i];
      DrainListsOpen(AfterRound(f, rounds(k)), rounds, k + 1, i);
    }
  }

  lemma {:induction false} OpenIsCounted(ts: seq<Task>, i: nat)
    requires i < |ts| && !InState(ts[i], Done)
    ensures OpenCount(ts) > 0
  {
    hide InState;
    if i > 0 {
      OpenIsCounted(ts[1..], i - 1);
    }
  }

  function Position(l: seq<Value>, x: Value): (i: nat)
    ensures i <= |l| && (i < |l| ==> l[i] == x) && x !in l[..i] && (x in l ==> i < |l|)
  {
    if l == [] || l[0] == x then 0 else 1 + Position(l[1..], x)
  }

  /**
   * Deadlock freedom is acyclicity: a workable ledger without deadlocks has a rank that falls along
   * pending dependencies, namely the order in which any drain completes the tasks.
   */
  lemma DeadlockFreeIsRanked(f: Doc, rounds: nat -> Round) returns (rank: Value -> nat)
    requires WorkableLedger(f.tasks) && DeadlockFree(f.tasks)
    ensures forall i :: 0 <= i < |f.tasks| && !InState(f.tasks[i], Done) ==> IdsRanked(f.tasks, rank, f.tasks[i])
  {
    hide Drain, DeadlockFree, ValidTask, InState, DependenciesOf, Workable;
    var ts, order := f.tasks, Drain(f, rounds, 0);
    rank := (d: Value) => Position(order, d);
    forall i | 0 <= i < |ts| && !InState(ts[i], Done)
      ensures IdsRanked(ts, rank, ts[i])
    {
      var id := Get(ts[i], TaskId);
      DrainListsOpen(f, rounds, 0, i);
      var j := Position(order, id);
      DrainIsTopological(f, rounds, 0, j);
      assert IndexOf(ts, id) == i;
      forall d | d in DependenciesOf(ts[i]) && Pending(ts, d)
        ensures rank(d) < rank(id)
      {
        assert d in order[..j];
        PositionBefore(order, d, j);
      }
    }
  }

  lemma {:induction false} PositionBefore(l: seq<Value>, x: Value, j: nat)
    requires j <= |l| && x in l[..j]
    ensures Position(l, x) < j
  {
    if l[0] != x {
      assert l[..j][1..] == l[1..][..j - 1];
      PositionBefore(l[1..], x, j - 1);
    }
  }

  /** The smallest deadlock: two ready-made tasks that depend on each other. */
  function WaitingTask(id: string, other: string): Task {
    map[
      TaskId := Text(id), ParentIntent := Null, Title := Null, Description := Null, StateField := StateOf(Todo),
      Priority := Null, D3Coordinate := Null, Dependencies := Items([Text(other)]), Blockers := Items([]),
      CompletionCriteria := Null, D4Evidence := Items([]), LastUpdate := Null, NextAction := Text("go")
    ]
  }

  lemma WaitingTaskIs(id: string, other: string)
    ensures var t := WaitingTask(id, other);
            && ValidTask(t) && Workable(t) && !InState(t, Done)
            && Get(t, TaskId) == Text(id) && DependenciesOf(t) == [Text(other)]
  {
  }

  lemma TwoTasksDeadlock(verified: set<Value>)
    ensures var ts := [WaitingTask("a", "b"), WaitingTask("b", "a")];
            && WorkableLedger(ts) && Deadlocked(ts, {Text("a"), Text("b")}) && NextTask(verified, ts) == None
  {
    hide NextTask, WaitingTask, ValidTask, Workable, InState, Get, DependenciesOf;
    var ts := [WaitingTask("a", "b"), WaitingTask("b", "a")];
    WaitingTaskIs("a", "b");
    WaitingTaskIs("b", "a");
    assert IndexOf(ts, Text("a")) == 0 && IndexOf(ts, Text("b")) == 1;
    assert Text("b") in DependenciesOf(ts[0]) && Text("a") in DependenciesOf(ts[1]);
    assert OpenIds(ts) == {Text("a"), Text("b")} by {
      assert Get(ts[0], TaskId) in OpenIds(ts) && Get(ts[1], TaskId) in OpenIds(ts);
    }
    StuckIffDeadlocked(ts, verified);
  }

  // ----- blocking -----------------------------------------------------------------------------------

  /** A task that was blocked carries the blocker once more than before at most, and is not scheduled. */
  lemma BlockedIsParked(f: Doc, id: Value, blocker: Value, now: nat, verified: set<Value>)
    requires ValidTasks(f.tasks) && Block(f, Copy(f, f), id, blocker, now).file != f
    ensures var g := Block(f, Copy(f, f), id, blocker, now).file;
            var i := IndexOf(f.tasks, id);
            && i < |f.tasks| == |g.tasks| && InState(g.tasks[i], Blocked)
            && Get(f.tasks[i], Blockers).Items? && Get(g.tasks[i], Blockers).Items?
            && blocker in Get(g.tasks[i], Blockers).items
            && Get(f.tasks[i], Blockers).items <= Get(g.tasks[i], Blockers).items
            && |Get(g.tasks[i], Blockers).items| <= |Get(f.tasks[i], Blockers).items| + 1
            && NextTask(verified, g.tasks) != Some(g.tasks[i])
  {
    hide NextTask, ValidTask, Closed, Effective;
    NextFrom(verified, Block(f, Copy(f, f), id, blocker, now).file.tasks, map[]);
    ListsOfValid(f.tasks[IndexOf(f.tasks, id)]);
  }
}
