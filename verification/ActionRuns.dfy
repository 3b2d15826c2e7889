/** Whole runs of the action ledger: any clients, any calls, any interleaving. */
module ActionRuns {
  import opened Prelude
  import opened ActionLedger

  datatype Call =
    | OpenCall
    | BeginCall(request: Request)
    | UpdateCall(id: Value, changes: map<Field, Value>)
    | ResumeCall(id: Value, processId: Value, resumeFrom: Value)
    | QueryCall

  /** One call by one client, with the reading its clock gives under the lock. */
  datatype Event = Event(client: nat, call: Call, now: nat)

  datatype System = System(file: Option<seq<Action>>, caches: map<nat, seq<Action>>)

  const INITIAL := System(None, map[])

  function CacheOf(s: System, client: nat): seq<Action> {
    if client in s.caches then s.caches[client] else []
  }

  function Perform(s: System, e: Event): Outcome {
    var cache := CacheOf(s, e.client);
    match e.call
    case BeginCall(r) => Begin(s.file, cache, r, e.now)
    case UpdateCall(id, changes) => Update(s.file, cache, id, changes, e.now)
    case ResumeCall(id, p, from) => Resume(s.file, cache, id, p, from, e.now)
    case _ =>
      match Load(s.file)
      case Err(err) => Outcome(s.file, cache, Err(err))
      case Ok(l) => Outcome(s.file, l, Ok(map[]))
  }

  /** Calls of clients that were never opened do not happen, nor do failed openings. */
  function Step(s: System, e: Event): System {
    var o := Perform(s, e);
    if if e.call == OpenCall then o.reply.Err? else e.client !in s.caches then s
    else System(o.file, s.caches[e.client := o.cache])
  }

  function Run(es: seq<Event>): System {
    if es == [] then INITIAL else Step(Run(es[..|es| - 1]), es[|es| - 1])
  }

  function Stored(s: System): seq<Action> {
    if s.file.Some? then s.file.value else []
  }

  // ----- discipline in every reachable file -------------------------------------------

  lemma StepKeepsDiscipline(s: System, e: Event)
    requires FileDisciplined(s.file)
    ensures FileDisciplined(Step(s, e).file)
  {
    hide Begin, Update, ValidLedger;
    var cache := CacheOf(s, e.client);
    match e.call
    case BeginCall(r) => BeginKeepsDiscipline(s.file, cache, r, e.now);
    case UpdateCall(id, changes) => UpdateKeepsDiscipline(s.file, cache, id, changes, e.now);
    case ResumeCall(id, p, from) => UpdateKeepsDiscipline(s.file, cache, id, ResumeChanges(p, from), e.now);
    case _ =>
  }

  /**
   * In every reachable file, for each idempotency key, all actions but the last one in list
   * order are FAILED, and no load is ever rejected.
   */
  lemma {:induction false} EveryRunIsDisciplined(es: seq<Event>)
    ensures FileDisciplined(Run(es).file)
    ensures Disciplined(Stored(Run(es)))
    ensures Load(Run(es).file) == Ok(Stored(Run(es)))
  {
    hide Step;
    if es != [] {
      EveryRunIsDisciplined(es[..|es| - 1]);
      StepKeepsDiscipline(Run(es[..|es| - 1]), es[|es| - 1]);
    }
    EmptyIsDisciplined();
  }

  // ----- what one step can do to the list -----------------------------------------------

  /**
   * What may happen to one stored action: only while it is not terminal, never in its immutable
   * fields, and into RESUMED only from INTERRUPTED or HOLD.
   */
  predicate SlotStep(a: Action, b: Action) {
    && !IsState(a, TERMINAL)
    && (forall f :: f in IMMUTABLE ==> Get(b, f) == Get(a, f))
    && (IsState(b, {Resumed}) && !IsState(a, {Resumed}) ==> IsState(a, RESUMABLE))
  }

  /** Slot `i` takes such a step and everything else stays. */
  predicate EditsSlot(l: seq<Action>, m: seq<Action>, i: nat) {
    i < |l| == |m| && m == l[i := m[i]] && SlotStep(l[i], m[i])
  }

  /** One running action is added at the end, all earlier ones of its key having failed. */
  predicate Appends(l: seq<Action>, m: seq<Action>) {
    && |m| == |l| + 1 && m[..|l|] == l
    && IsState(m[|l|], {Running})
    && forall i :: 0 <= i < |l| && SameKey(l[i], m[|l|]) ==> IsState(l[i], {Failed})
  }

  /** Nothing happens, or exactly one slot changes, or exactly one action is added. */
  ghost predicate ListStep(l: seq<Action>, m: seq<Action>) {
    m == l || (exists i: nat :: EditsSlot(l, m, i)) || Appends(l, m)
  }

  /** What a list step means slot by slot. */
  lemma ListStepAt(l: seq<Action>, m: seq<Action>, i: nat)
    requires ListStep(l, m) && i < |l|
    ensures i < |m| && (m[i] == l[i] || SlotStep(l[i], m[i]))
  {
    hide SlotStep;
    if Appends(l, m) {
      assert m[i] == m[..|l|][i];
    }
  }

  lemma BeginIsListStep(file: Option<seq<Action>>, cache: seq<Action>, r: Request, now: nat)
    requires Load(file).Ok?
    ensures Load(Begin(file, cache, r, now).file).Ok? ==>
              ListStep(Load(file).value, Load(Begin(file, cache, r, now).file).value)
  {
    hide KeyInState, IsState;
    var l, o := Load(file).value, Begin(file, cache, r, now);
    if o.reply.Ok? {
      var a := Started(r, now);
      assert IsState(a, {Running}) by {
        StartedIsRunning(r, now);
      }
      forall i | 0 <= i < |l| && SameKey(l[i], a)
        ensures IsState(l[i], {Failed})
      {
        assert KeyIsHeld(l, i, r.key);
        StateCases(l[i]);
        NotKeyInState(l, i, r.key, {Done});
        NotKeyInState(l, i, r.key, ACTIVE);
      }
    }
  }

  predicate KeyIsHeld(l: seq<Action>, i: nat, key: Value) {
    i < |l| && Get(l[i], IdempotencyKey) == key
  }

  lemma StartedIsRunning(r: Request, now: nat)
    ensures IsState(Started(r, now), {Running})
  {
  }

  lemma NotKeyInState(l: seq<Action>, i: nat, key: Value, states: set<State>)
    requires KeyIsHeld(l, i, key) && !KeyInState(l, key, states)
    ensures !IsState(l[i], states)
  {
  }

  lemma UpdateIsListStep(file: Option<seq<Action>>, cache: seq<Action>, id: Value, changes: map<Field, Value>, now: nat)
    requires Load(file).Ok?
    ensures Load(Update(file, cache, id, changes, now).file).Ok? ==>
              ListStep(Load(file).value, Load(Update(file, cache, id, changes, now).file).value)
  {
    hide ValidAction, ValidLedger, TouchesImmutable;
    var l, o := Load(file).value, Update(file, cache, id, changes, now);
    if o.file != file {
      var i := IndexOf(l, id);
      UpdateChangesOne(l[i], changes, now);
      assert EditsSlot(l, o.file.value, i);
    }
  }

  /** A call that raises leaves the file exactly as it was. */
  lemma RefusedCallKeepsFile(s: System, e: Event)
    requires Perform(s, e).reply.Err?
    ensures Step(s, e).file == s.file
  {
    hide KeyInState, ValidLedger, ValidAction, TouchesImmutable, Effective;
  }

  /** Every step of a disciplined system is such a list step, and none at all if the call raises. */
  lemma StepIsListStep(s: System, e: Event)
    requires FileDisciplined(s.file)
    ensures ListStep(Stored(s), Stored(Step(s, e)))
    ensures Perform(s, e).reply.Err? ==> Step(s, e).file == s.file
  {
    hide ListStep, Disciplined, Load, Begin, Update;
    if Perform(s, e).reply.Err? {
      RefusedCallKeepsFile(s, e);
    }
    StepKeepsDiscipline(s, e);
    LoadsStored(s);
    LoadsStored(Step(s, e));
    ListStepRefl(Stored(s));
    var cache := CacheOf(s, e.client);
    match e.call
    case BeginCall(r) => BeginIsListStep(s.file, cache, r, e.now);
    case UpdateCall(id, changes) => UpdateIsListStep(s.file, cache, id, changes, e.now);
    case ResumeCall(id, p, from) => UpdateIsListStep(s.file, cache, id, ResumeChanges(p, from), e.now);
    case _ =>
  }

  lemma LoadsStored(s: System)
    requires FileDisciplined(s.file)
    ensures Load(s.file) == Ok(Stored(s))
  {
    hide ValidAction;
  }

  lemma ListStepRefl(l: seq<Action>)
    ensures ListStep(l, l)
  {
  }

  /**
   * In a reachable file an action may begin exactly when its id is new, its key is not empty
   * and every earlier action of the key has FAILED.
   */
  lemma BeginAcceptsIff(s: System, cache: seq<Action>, r: Request, now: nat)
    requires FileDisciplined(s.file)
    ensures Begin(s.file, cache, r, now).reply.Ok? <==>
              && Truthy(r.key)
              && (forall i :: 0 <= i < |Stored(s)| ==> Get(Stored(s)[i], ActionId) != r.actionId)
              && (forall i: nat :: KeyIsHeld(Stored(s), i, r.key) ==> IsState(Stored(s)[i], {Failed}))
  {
    hide Disciplined, KeyInState;
    LoadsStored(s);
    var l := Stored(s);
    assert ValidAction(Started(r, now)) <==> Truthy(r.key) by {
      StartedIsRunning(r, now);
    }
    forall i: nat | KeyIsHeld(l, i, r.key)
      ensures KeyInState(l, r.key, {Done}) || KeyInState(l, r.key, ACTIVE) || IsState(l[i], {Failed})
    {
      StateCases(l[i]);
      HeldInState(l, i, r.key, {Done});
      HeldInState(l, i, r.key, ACTIVE);
    }
    if forall i: nat :: KeyIsHeld(l, i, r.key) ==> IsState(l[i], {Failed}) {
      AllFailed(l, r.key, {Done});
      AllFailed(l, r.key, ACTIVE);
    }
  }

  lemma HeldInState(l: seq<Action>, i: nat, key: Value, states: set<State>)
    requires KeyIsHeld(l, i, key)
    ensures IsState(l[i], states) ==> KeyInState(l, key, states)
  {
  }

  lemma AllFailed(l: seq<Action>, key: Value, states: set<State>)
    requires forall i: nat :: KeyIsHeld(l, i, key) ==> IsState(l[i], {Failed})
    requires Failed !in states
    ensures !KeyInState(l, key, states)
  {
    forall i | 0 <= i < |l| && Get(l[i], IdempotencyKey) == key
      ensures !IsState(l[i], states)
    {
      assert KeyIsHeld(l, i, key);
    }
  }

  /**
   * Completion is final and idempotent: the stored action is DONE with the confirmed effect and
   * nothing to resume from; saying so again with the same effect is accepted and changes
   * nothing, with another effect, or as a failure of any kind, it is refused.
   */
  lemma CompletionIsFinal(file: Option<seq<Action>>, cache: seq<Action>, id: Value, effect: Value, now: nat,
                          cache': seq<Action>, effect': Value, error: Value, tool: Value, now': nat)
    requires FileDisciplined(file)
    requires Update(file, cache, id, DoneChanges(effect), now).reply.Ok?
    ensures var o := Update(file, cache, id, DoneChanges(effect), now);
            var again := Update(o.file, cache', id, DoneChanges(effect'), now');
            var failed := Update(o.file, cache', id, FailChanges(error, tool), now');
            && o.file.Some? && IndexOf(o.file.value, id) < |o.file.value|
            && o.file.value[IndexOf(o.file.value, id)] == o.reply.value
            && IsDoneWith(o.reply.value, effect)
            && again.file == o.file && failed.file == o.file && failed.reply == Err(TerminalIsImmutable)
            && again.reply == if effect' == effect then Ok(o.reply.value) else Err(TerminalIsImmutable)
  {
    hide Update, Disciplined, IsState, Get;
    UpdateKeepsDiscipline(file, cache, id, DoneChanges(effect), now);
    CompletionIsStored(file, cache, id, effect, now);
    DoneIsClosed(Update(file, cache, id, DoneChanges(effect), now).file, cache', id, effect, effect', error, tool, now');
  }

  lemma CompletionIsStored(file: Option<seq<Action>>, cache: seq<Action>, id: Value, effect: Value, now: nat)
    requires FileDisciplined(file)
    requires Update(file, cache, id, DoneChanges(effect), now).reply.Ok?
    ensures var o := Update(file, cache, id, DoneChanges(effect), now);
            o.file.Some? && IndexOf(o.file.value, id) < |o.file.value|
            && o.file.value[IndexOf(o.file.value, id)] == o.reply.value && IsDoneWith(o.reply.value, effect)
  {
    hide Disciplined, ValidAction, ValidLedger, Updated, Effective, TouchesImmutable, IsState, Get;
    var l := Load(file).value;
    var i := IndexOf(l, id);
    LoadsStored(System(file, map[]));
    DoneChangesAllowed(l[i], effect, Null);
    DoneIsStored(l[i], effect, now);
    IndexKept(l, i, Updated(l[i], DoneChanges(effect), now), id);
  }

  predicate IsDoneWith(a: Action, effect: Value) {
    && IsState(a, {Done}) && IsState(a, TERMINAL)
    && Get(a, LastConfirmedEffect) == effect && Get(a, ResumeFrom) == Null && Get(a, Error) == Null
  }

  lemma DoneIsClosed(file: Option<seq<Action>>, cache: seq<Action>, id: Value, effect: Value,
                     effect': Value, error: Value, tool: Value, now: nat)
    requires FileDisciplined(file) && file.Some? && IndexOf(file.value, id) < |file.value|
    requires IsDoneWith(file.value[IndexOf(file.value, id)], effect)
    ensures var again := Update(file, cache, id, DoneChanges(effect'), now);
            var failed := Update(file, cache, id, FailChanges(error, tool), now);
            && again.file == file && failed.file == file && failed.reply == Err(TerminalIsImmutable)
            && again.reply == if effect' == effect then Ok(file.value[IndexOf(file.value, id)]) else Err(TerminalIsImmutable)
  {
    hide Disciplined, ValidLedger, Updated, Effective, TouchesImmutable, IsState;
    var a := file.value[IndexOf(file.value, id)];
    LoadsStored(System(file, map[]));
    DoneChangesAllowed(a, effect', tool);
    DoneChangesAllowed(a, error, tool);
    AlreadyDone(a, effect, effect', error, tool);
  }

  lemma DoneChangesAllowed(a: Action, effect: Value, tool: Value)
    ensures !TouchesImmutable(a, DoneChanges(effect)) && !TouchesImmutable(a, FailChanges(effect, tool))
    ensures ActionId !in DoneChanges(effect) && DoneChanges(effect)[StateField] == StateOf(Done)
  {
  }

  lemma DoneIsStored(a: Action, effect: Value, now: nat)
    ensures var b := Updated(a, DoneChanges(effect), now);
            IsDoneWith(b, effect) && Get(b, ActionId) == Get(a, ActionId)
    ensures !Effective(a, DoneChanges(effect)) ==> IsDoneWith(a, effect)
  {
    if !Effective(a, DoneChanges(effect)) {
      assert StateField in DoneChanges(effect) && LastConfirmedEffect in DoneChanges(effect)
             && ResumeFrom in DoneChanges(effect) && Error in DoneChanges(effect);
    }
  }

  lemma AlreadyDone(a: Action, effect: Value, effect': Value, error: Value, tool: Value)
    requires IsDoneWith(a, effect)
    ensures Effective(a, DoneChanges(effect')) <==> effect' != effect
    ensures Effective(a, FailChanges(error, tool))
  {
    assert LastConfirmedEffect in DoneChanges(effect') && DoneChanges(effect')[LastConfirmedEffect] == effect';
    assert StateField in FailChanges(error, tool) && FailChanges(error, tool)[StateField] == StateOf(Failed);
  }

  lemma {:induction false} IndexKept(l: seq<Action>, i: nat, a: Action, id: Value)
    requires i < |l| && IndexOf(l, id) == i && Get(a, ActionId) == id
    ensures IndexOf(l[i := a], id) == i
  {
    if i > 0 {
      assert l[i := a][1..] == l[1..][i - 1 := a];
      IndexKept(l[1..], i - 1, a, id);
    }
  }

  // ----- theorems over runs ----------------------------------------------------------------

  /** A terminal action is in the same place, unchanged, in every later file. */
  lemma {:induction false} TerminalForever(es: seq<Event>, more: seq<Event>, i: nat)
    requires i < |Stored(Run(es))| && IsState(Stored(Run(es))[i], TERMINAL)
    ensures i < |Stored(Run(es + more))| && Stored(Run(es + more))[i] == Stored(Run(es))[i]
    decreases |more|
  {
    hide Step, IsState, Stored;
    if more == [] {
      assert es + more == es;
    } else {
      var prefix := more[..|more| - 1];
      TerminalForever(es, prefix, i);
      RunSnoc(es, more);
      EveryRunIsDisciplined(es + prefix);
      StepIsListStep(Run(es + prefix), more[|more| - 1]);
      ListStepAt(Stored(Run(es + prefix)), Stored(Run(es + more)), i);
    }
  }

  lemma RunSnoc(es: seq<Event>, more: seq<Event>)
    requires more != []
    ensures Run(es + more) == Step(Run(es + more[..|more| - 1]), more[|more| - 1])
  {
    assert (es + more)[..|es + more| - 1] == es + more[..|more| - 1];
  }

  /**
   * Once an action is DONE it is the only one of its key that is not FAILED, and it stays
   * the last of its key: nothing with that key ever begins after it.
   */
  lemma {:induction false} DoneClosesKey(es: seq<Event>, more: seq<Event>, i: nat, j: nat)
    requires i < |Stored(Run(es))| && IsState(Stored(Run(es))[i], {Done})
    requires j < |Stored(Run(es + more))| && SameKey(Stored(Run(es + more))[j], Stored(Run(es))[i])
    ensures j <= i
    ensures j < i ==> IsState(Stored(Run(es + more))[j], {Failed})
  {
    TerminalForever(es, more, i);
    EveryRunIsDisciplined(es + more);
  }

  predicate SlotIs(s: System, i: nat, states: set<State>) {
    i < |Stored(s)| && IsState(Stored(s)[i], states)
  }

  /** How often slot `i` entered the state RESUMED. */
  function Resumptions(es: seq<Event>, i: nat): nat {
    if es == [] then 0 else
      var before, after := Run(es[..|es| - 1]), Run(es);
      Resumptions(es[..|es| - 1], i) + (if SlotIs(after, i, {Resumed}) && !SlotIs(before, i, {Resumed}) then 1 else 0)
  }

  /** How often slot `i` became INTERRUPTED or HOLD. */
  function Interruptions(es: seq<Event>, i: nat): nat {
    if es == [] then 0 else
      var before, after := Run(es[..|es| - 1]), Run(es);
      Interruptions(es[..|es| - 1], i) + (if SlotIs(after, i, RESUMABLE) && !SlotIs(before, i, RESUMABLE) then 1 else 0)
  }

  /** An action enters RESUMED only from INTERRUPTED or HOLD, as the file has it at that moment. */
  lemma ResumedLeavesInterruption(es: seq<Event>, e: Event, i: nat)
    requires SlotIs(Run(es + [e]), i, {Resumed}) && !SlotIs(Run(es), i, {Resumed})
    ensures SlotIs(Run(es), i, RESUMABLE)
    ensures !SlotIs(Run(es + [e]), i, RESUMABLE)
  {
    hide Step;
    EveryRunIsDisciplined(es);
    RunSnoc(es, [e]);
    assert es + [e][..0] == es;
    StepIsListStep(Run(es), e);
    var l, m := Stored(Run(es)), Stored(Run(es + [e]));
    if i < |l| {
      ListStepAt(l, m, i);
    }
  }

  /**
   * No interruption is resumed twice, whatever stale copies the clients hold: resumptions never
   * outnumber interruptions, and while an action waits to be resumed there is one to spare.
   */
  lemma {:induction false} NoInterruptionResumedTwice(es: seq<Event>, i: nat)
    ensures Resumptions(es, i) + (if SlotIs(Run(es), i, RESUMABLE) then 1 else 0) <= Interruptions(es, i)
  {
    hide Step, SlotIs;
    if es == [] {
      assert !SlotIs(INITIAL, i, RESUMABLE) by {
        NothingStored(i);
      }
    } else {
      var prefix, e := es[..|es| - 1], es[|es| - 1];
      assert es == prefix + [e];
      NoInterruptionResumedTwice(prefix, i);
      if SlotIs(Run(es), i, {Resumed}) && !SlotIs(Run(prefix), i, {Resumed}) {
        ResumedLeavesInterruption(prefix, e, i);
      }
    }
  }

  lemma NothingStored(i: nat)
    ensures !SlotIs(INITIAL, i, RESUMABLE)
  {
  }

  // ----- lookup by key ------------------------------------------------------------------------

  function Reverse<T>(l: seq<T>): seq<T> {
    if l == [] then [] else Reverse(l[1..]) + [l[0]]
  }

  predicate Ascending(l: seq<Action>) {
    forall i, j :: 0 <= i < j < |l| ==> TimeOf(l[i]) < TimeOf(l[j])
  }

  lemma {:induction false} ReverseHas(l: seq<Action>)
    ensures |Reverse(l)| == |l|
    ensures forall x :: x in Reverse(l) ==> x in l
    ensures l != [] ==> Reverse(l)[0] == l[|l| - 1]
  {
    if l != [] {
      ReverseHas(l[1..]);
    }
  }

  lemma {:induction false} InsertOldest(a: Action, l: seq<Action>)
    requires forall x :: x in l ==> TimeOf(a) < TimeOf(x)
    ensures Insert(a, l) == l + [a]
  {
    if l != [] {
      assert l[0] in l;
      InsertOldest(a, l[1..]);
      assert [l[0]] + (l[1..] + [a]) == l + [a];
    }
  }

  lemma {:induction false} SortReverses(l: seq<Action>)
    requires Ascending(l)
    ensures NewestFirst(l) == Reverse(l)
  {
    if l != [] {
      SortReverses(l[1..]);
      ReverseHas(l[1..]);
      forall x | x in l[1..]
        ensures TimeOf(l[0]) < TimeOf(x)
      {
        var k :| 0 <= k < |l[1..]| && l[1..][k] == x;
        assert x == l[k + 1];
      }
      InsertOldest(l[0], Reverse(l[1..]));
    }
  }

  /** Only the last action of the list may be other than FAILED. */
  predicate Chain(l: seq<Action>) {
    forall i :: 0 <= i < |l| - 1 ==> IsState(l[i], {Failed})
  }

  lemma {:induction false} WithKeyMembers(l: seq<Action>, key: Value)
    ensures forall x :: x in WithKey(l, key) <==> x in l && Get(x, IdempotencyKey) == key
  {
    if l != [] {
      WithKeyMembers(l[1..], key);
    }
  }

  lemma {:induction false} WithKeyInOrder(l: seq<Action>, key: Value, i: nat, j: nat)
    requires i < j < |WithKey(l, key)|
    ensures exists i', j' :: 0 <= i' < j' < |l| && l[i'] == WithKey(l, key)[i] && l[j'] == WithKey(l, key)[j]
  {
    var rest := WithKey(l[1..], key);
    if Get(l[0], IdempotencyKey) != key {
      WithKeyInOrder(l[1..], key, i, j);
      var i', j' :| 0 <= i' < j' < |l[1..]| && l[1..][i'] == rest[i] && l[1..][j'] == rest[j];
      assert l[i' + 1] == rest[i] && l[j' + 1] == rest[j];
    } else if i > 0 {
      WithKeyInOrder(l[1..], key, i - 1, j - 1);
      var i', j' :| 0 <= i' < j' < |l[1..]| && l[1..][i'] == rest[i - 1] && l[1..][j'] == rest[j - 1];
      assert l[i' + 1] == rest[i - 1] && l[j' + 1] == rest[j - 1];
    } else {
      WithKeyMembers(l[1..], key);
      assert rest[j - 1] in l[1..];
      var j' :| 0 <= j' < |l[1..]| && l[1..][j'] == rest[j - 1];
      assert l[0] == WithKey(l, key)[0] && l[j' + 1] == WithKey(l, key)[j];
    }
  }

  lemma KeyIsChain(l: seq<Action>, key: Value)
    requires Disciplined(l)
    ensures Chain(WithKey(l, key))
  {
    hide ValidLedger, IsState, Get;
    var m := WithKey(l, key);
    WithKeyMembers(l, key);
    forall i | 0 <= i < |m| - 1
      ensures IsState(m[i], {Failed})
    {
      assert m[i] in m && m[i + 1] in m;
      WithKeyInOrder(l, key, i, i + 1);
      var i', j' :| 0 <= i' < j' < |l| && l[i'] == m[i] && l[j'] == m[i + 1];
      assert SameKey(l[i'], l[j']);
    }
  }

  lemma KeyAscends(l: seq<Action>, key: Value, clock: nat)
    requires Timely(l, clock)
    ensures Ascending(WithKey(l, key))
  {
    hide Get, TimeOf;
    var m := WithKey(l, key);
    WithKeyMembers(l, key);
    forall i, j | 0 <= i < j < |m|
      ensures TimeOf(m[i]) < TimeOf(m[j])
    {
      assert m[i] in m && m[j] in m;
      WithKeyInOrder(l, key, i, j);
      var i', j' :| 0 <= i' < j' < |l| && l[i'] == m[i] && l[j'] == m[j];
      assert SameKey(l[i'], l[j']);
    }
  }

  lemma {:induction false} InsertKeepsMembers(a: Action, l: seq<Action>)
    ensures multiset(Insert(a, l)) == multiset(l) + multiset{a}
  {
    if l == [] || !Newer(l[0], a) {
      assert multiset([a] + l) == multiset{a} + multiset(l);
    } else {
      InsertKeepsMembers(a, l[1..]);
      assert l == [l[0]] + l[1..];
    }
  }

  /** Sorting permutes. */
  lemma {:induction false} SortKeepsMembers(l: seq<Action>)
    ensures multiset(NewestFirst(l)) == multiset(l)
  {
    if l != [] {
      SortKeepsMembers(l[1..]);
      InsertKeepsMembers(l[0], NewestFirst(l[1..]));
      assert l == [l[0]] + l[1..];
    }
  }

  lemma {:induction false} InDoneMembers(l: seq<Action>)
    ensures forall x :: x in InDone(l) <==> x in l && IsState(x, {Done})
  {
    if l != [] {
      InDoneMembers(l[1..]);
    }
  }

  lemma FailedIsNotDone(a: Action)
    requires IsState(a, {Failed})
    ensures !IsState(a, {Done})
  {
  }

  /** In a chain the lookup returns the DONE action if there is one, by whatever clock. */
  lemma FindInChain(l: seq<Action>, key: Value, a: Action)
    requires Chain(WithKey(l, key)) && a in WithKey(l, key) && IsState(a, {Done})
    ensures FindByKey(l, key) == Some(a)
    ensures a == WithKey(l, key)[|WithKey(l, key)| - 1]
  {
    hide IsState, Chain, WithKey, NewestFirst;
    var m := WithKey(l, key);
    var sorted := NewestFirst(m);
    SortKeepsMembers(m);
    InDoneMembers(sorted);
    assert a in multiset(m) && a in sorted && a in InDone(sorted);
    var found := InDone(sorted)[0];
    assert found in InDone(sorted) && found in sorted && found in multiset(sorted);
    DoneIsLast(m, a);
    DoneIsLast(m, found);
  }

  lemma DoneIsLast(m: seq<Action>, x: Action)
    requires Chain(m) && x in m && IsState(x, {Done})
    ensures x == m[|m| - 1]
  {
    var k :| 0 <= k < |m| && m[k] == x;
    if k < |m| - 1 {
      FailedIsNotDone(m[k]);
    }
  }

  /** If some action of a key is DONE in a reachable file, the lookup returns that very action. */
  lemma FindReturnsDone(es: seq<Event>, key: Value, a: Action)
    requires a in Stored(Run(es)) && Get(a, IdempotencyKey) == key && IsState(a, {Done})
    ensures FindByKey(Stored(Run(es)), key) == Some(a)
  {
    hide FindByKey, Disciplined, IsState;
    var l := Stored(Run(es));
    EveryRunIsDisciplined(es);
    KeyIsChain(l, key);
    WithKeyMembers(l, key);
    FindInChain(l, key, a);
  }

  /** The clock readings of a run strictly increase. */
  predicate Clocked(es: seq<Event>) {
    (forall i :: 0 <= i < |es| ==> es[i].now > 0)
    && forall i, j :: 0 <= i < j < |es| ==> es[i].now < es[j].now
  }

  function LastReading(es: seq<Event>): nat {
    if es == [] then 0 else es[|es| - 1].now
  }

  lemma StepKeepsTimely(s: System, e: Event, clock: nat)
    requires FileDisciplined(s.file) && Timely(Stored(s), clock) && clock < e.now
    ensures Timely(Stored(Step(s, e)), e.now)
  {
    hide Timely, Disciplined, Load, KeyInState, ValidAction, TouchesImmutable;
    var l := Stored(s);
    LoadsStored(s);
    TimelyLater(l, clock, e.now);
    EmptyIsDisciplined();
    match e.call
    case BeginCall(r) =>
      AppendKeepsTimely(l, Started(r, e.now), clock, e.now);
    case UpdateCall(id, changes) =>
      UpdateKeepsTimely(s, CacheOf(s, e.client), id, changes, clock, e.now);
    case ResumeCall(id, p, from) =>
      UpdateKeepsTimely(s, CacheOf(s, e.client), id, ResumeChanges(p, from), clock, e.now);
    case _ =>
  }

  lemma TimelyLater(l: seq<Action>, clock: nat, now: nat)
    requires Timely(l, clock) && clock < now
    ensures Timely(l, now)
  {
  }

  lemma UpdateKeepsTimely(s: System, cache: seq<Action>, id: Value, changes: map<Field, Value>, clock: nat, now: nat)
    requires FileDisciplined(s.file) && Timely(Stored(s), clock) && clock < now
    ensures Timely(Stored(System(Update(s.file, cache, id, changes, now).file, s.caches)), now)
  {
    hide Timely, Disciplined, Load, ValidAction, TouchesImmutable, Updated;
    var l := Stored(s);
    LoadsStored(s);
    TimelyLater(l, clock, now);
    EmptyIsDisciplined();
    var o := Update(s.file, cache, id, changes, now);
    if o.file != s.file {
      var i := IndexOf(l, id);
      UpdateChangesOne(l[i], changes, now);
      ReplaceKeepsTimely(l, i, Updated(l[i], changes, now), clock, now);
    }
  }

  lemma {:induction false} ClockedRunIsTimely(es: seq<Event>)
    requires Clocked(es)
    ensures Timely(Stored(Run(es)), LastReading(es))
  {
    hide Step;
    if es != [] {
      var prefix := es[..|es| - 1];
      ClockedRunIsTimely(prefix);
      EveryRunIsDisciplined(prefix);
      assert LastReading(prefix) < es[|es| - 1].now;
      StepKeepsTimely(Run(prefix), es[|es| - 1], LastReading(prefix));
    }
  }

  /** Under a strictly increasing clock the lookup returns the action of the key that began last. */
  lemma FindReturnsLast(es: seq<Event>, key: Value)
    requires Clocked(es)
    ensures var m := WithKey(Stored(Run(es)), key);
            FindByKey(Stored(Run(es)), key) == if m == [] then None else Some(m[|m| - 1])
  {
    hide Disciplined, IsState, Timely;
    var l := Stored(Run(es));
    var m := WithKey(l, key);
    EveryRunIsDisciplined(es);
    KeyIsChain(l, key);
    ClockedRunIsTimely(es);
    KeyAscends(l, key, LastReading(es));
    SortReverses(m);
    ReverseHas(m);
    InDoneMembers(NewestFirst(m));
    if InDone(NewestFirst(m)) != [] {
      var a := InDone(NewestFirst(m))[0];
      assert a in InDone(NewestFirst(m)) && a in m;
      FindInChain(l, key, a);
    }
  }
}
