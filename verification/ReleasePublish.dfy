/**
 * Publishing a release: any number of builders of the same expected bytes race through a
 * private staging directory and one rename. Any file operation may fail.
 */
module ReleasePublish {
  import opened Prelude

  type Content = seq<int>

  /** A directory tree, as the map from relative paths to file contents. */
  type Tree = map<string, Content>

  /** The expected release, and its paths in the order they are written and verified. */
  datatype Release = Release(expected: Tree, order: seq<string>)

  ghost predicate ValidRelease(r: Release) {
    && (forall p :: p in r.order <==> p in r.expected)
    && (forall i, j :: 0 <= i < j < |r.order| ==> r.order[i] != r.order[j])
  }

  datatype Status = Built | AlreadyBuilt

  datatype Error = Conflict | InProgress | CreateFailed | NotFound

  datatype Cause = WriteFailed | TargetSeen | RenameFailed

  /** Where a builder stands; `n` counts the paths written or verified so far. */
  datatype Phase =
    | Start
    | MakeStaging
    | Writing(n: nat)
    | Recheck
    | Rename
    | Cleanup(cause: Cause)
    | Inventory(status: Status)
    | Compare(status: Status, n: nat)
    | Returned(status: Status)
    | Failed(error: Error)

  datatype System = System(target: Option<Tree>, staging: Option<Tree>, phases: map<nat, Phase>)

  /** One step of one builder; `fault` makes its file operation fail, `name` is the entry a removal picks. */
  datatype Event = Event(builder: nat, fault: bool, name: string)

  function PhaseOf(s: System, b: nat): Phase {
    if b in s.phases then s.phases[b] else Start
  }

  function Goto(s: System, b: nat, p: Phase): System {
    s.(phases := s.phases[b := p])
  }

  /** Where a builder goes once its staging directory has been removed, or given up on. */
  function AfterCleanup(s: System, cause: Cause): Phase {
    match cause
    case WriteFailed => Failed(CreateFailed)
    case TargetSeen => Inventory(AlreadyBuilt)
    case RenameFailed => if s.target.Some? then Inventory(AlreadyBuilt) else Failed(CreateFailed)
  }

  function Step(r: Release, s: System, e: Event): System {
    var b := e.builder;
    match PhaseOf(s, b)
    case Start =>
      Goto(s, b, if s.target.Some? then Inventory(AlreadyBuilt) else if e.fault then Failed(CreateFailed) else MakeStaging)
    case MakeStaging =>
      if s.staging.Some? then Goto(s, b, Failed(InProgress))
      else if e.fault then Goto(s, b, Failed(CreateFailed))
      else Goto(s.(staging := Some(map[])), b, Writing(0))
    case Writing(n) =>
      if n == |r.order| then Goto(s, b, Recheck)
      else if e.fault || s.staging.None? || n > |r.order| || r.order[n] in s.staging.value || r.order[n] !in r.expected then
        Goto(s, b, Cleanup(WriteFailed))
      else
        Goto(s.(staging := Some(s.staging.value[r.order[n] := r.expected[r.order[n]]])), b, Writing(n + 1))
    case Recheck =>
      Goto(s, b, if s.target.Some? then Cleanup(TargetSeen) else Rename)
    case Rename =>
      if e.fault || s.target.Some? || s.staging.None? then Goto(s, b, Cleanup(RenameFailed))
      else Goto(System(s.staging, None, s.phases), b, Inventory(Built))
    case Cleanup(cause) =>
      if e.fault || s.staging.None? then Goto(s, b, AfterCleanup(s, cause))
      else if s.staging.value == map[] then Goto(s.(staging := None), b, AfterCleanup(s, cause))
      else s.(staging := Some(s.staging.value - {e.name}))
    case Inventory(status) =>
      if s.target.None? then Goto(s, b, Failed(NotFound))
      else if e.fault || s.target.value.Keys != r.expected.Keys then Goto(s, b, Failed(Conflict))
      else Goto(s, b, Compare(status, 0))
    case Compare(status, n) =>
      if n >= |r.order| then Goto(s, b, Returned(status))
      else if e.fault || s.target.None? || r.order[n] !in s.target.value || r.order[n] !in r.expected
              || s.target.value[r.order[n]] != r.expected[r.order[n]] then
        Goto(s, b, Failed(Conflict))
      else Goto(s, b, Compare(status, n + 1))
    case Returned(_) => s
    case Failed(_) => s
  }

  /** Nobody has started; the target and a leftover staging directory may hold anything. */
  predicate Initial(s: System) {
    s.phases == map[]
  }

  function Run(r: Release, s: System, es: seq<Event>): System {
    if es == [] then s else Step(r, Run(r, s, es[..|es| - 1]), es[|es| - 1])
  }

  // ----- the invariant ---------------------------------------------------------------------

  /** The builder owns the staging directory. */
  predicate Holds(p: Phase) {
    p.Writing? || p.Recheck? || p.Rename? || p.Cleanup?
  }

  /** The builder's rename succeeded. */
  predicate Published(p: Phase) {
    p == Inventory(Built) || (p.Compare? && p.status == Built) || p == Returned(Built)
  }

  /** The first `n` paths of the release. */
  ghost predicate IsPart(r: Release, t: Tree, n: nat) {
    && n <= |r.order|
    && (forall p :: p in t <==> p in r.order[..n])
    && (forall p :: p in t && p in r.expected ==> t[p] == r.expected[p])
  }

  /** What a builder's phase says about the two directories. */
  ghost predicate PhaseSound(r: Release, s: System, p: Phase) {
    && (Holds(p) && !p.Cleanup? ==> s.staging.Some?)
    && (p.Writing? ==> IsPart(r, s.staging.value, p.n))
    && (p.Recheck? || p.Rename? ==> s.staging == Some(r.expected))
    && (p.Rename? ==> s.target == None)
    && (p == Cleanup(TargetSeen) || p.Inventory? || p.Compare? || p.Returned? ==> s.target.Some?)
    && (p.Compare? ==> p.n <= |r.order| && Agrees(r, s.target.value, p.n))
    && (p.Returned? ==> s.target == Some(r.expected))
    && (Published(p) ==> s.target == Some(r.expected))
  }

  /** Same paths, and the first `n` of them with the expected content. */
  predicate Agrees(r: Release, t: Tree, n: nat)
    requires n <= |r.order|
  {
    t.Keys == r.expected.Keys && forall i :: 0 <= i < n && r.order[i] in t && r.order[i] in r.expected ==> t[r.order[i]] == r.expected[r.order[i]]
  }

  /** At most one builder holds the staging directory, and it then exists; at most one ever published. */
  ghost predicate Sound(r: Release, s: System) {
    && (forall b :: b in s.phases ==> PhaseSound(r, s, s.phases[b]))
    && (forall b, c :: b in s.phases && c in s.phases && Holds(s.phases[b]) && Holds(s.phases[c]) ==> b == c)
    && (forall b :: b in s.phases && Holds(s.phases[b]) ==> s.staging.Some?)
    && (forall b, c :: b in s.phases && c in s.phases && Published(s.phases[b]) && Published(s.phases[c]) ==> b == c)
  }

  lemma CompletePart(r: Release, t: Tree)
    requires ValidRelease(r) && IsPart(r, t, |r.order|)
    ensures t == r.expected
  {
    assert r.order[..|r.order|] == r.order;
  }

  lemma ExtendPart(r: Release, t: Tree, n: nat)
    requires ValidRelease(r) && IsPart(r, t, n) && n < |r.order|
    ensures r.order[n] !in t && r.order[n] in r.expected
    ensures IsPart(r, t[r.order[n] := r.expected[r.order[n]]], n + 1)
  {
    assert r.order[n] in r.order;
    assert r.order[..n + 1] == r.order[..n] + [r.order[n]];
  }

  lemma FullAgreement(r: Release, t: Tree)
    requires ValidRelease(r) && Agrees(r, t, |r.order|)
    ensures t == r.expected
  {
    forall p | p in t
      ensures t[p] == r.expected[p]
    {
      var i :| 0 <= i < |r.order| && r.order[i] == p;
    }
  }

  /** The part of the invariant that speaks of one builder. */
  ghost predicate OwnSound(r: Release, s: System, b: nat) {
    PhaseSound(r, s, PhaseOf(s, b)) && (Holds(PhaseOf(s, b)) ==> s.staging.Some?)
  }

  lemma SoundForOne(r: Release, s: System, b: nat)
    requires Sound(r, s)
    ensures OwnSound(r, s, b)
  {
  }

  /** What the acting builder's own phase is after a step. */
  lemma StepSoundForSelf(r: Release, s: System, e: Event)
    requires ValidRelease(r) && OwnSound(r, s, e.builder)
    ensures OwnSound(r, Step(r, s, e), e.builder)
  {
    hide IsPart, Agrees;
    match PhaseOf(s, e.builder)
    case MakeStaging =>
      EmptyPart(r);
    case Writing(n) =>
      if n == |r.order| {
        CompletePart(r, s.staging.value);
      } else if n < |r.order| {
        ExtendPart(r, s.staging.value, n);
      }
    case Inventory(_) =>
      if s.target.value.Keys == r.expected.Keys {
        AgreesAtZero(r, s.target.value);
      }
    case Compare(_, n) =>
      if n == |r.order| {
        FullAgreement(r, s.target.value);
      } else if n < |r.order| && r.order[n] in s.target.value && r.order[n] in r.expected
                && s.target.value[r.order[n]] == r.expected[r.order[n]] {
        AgreesNext(r, s.target.value, n);
      }
    case _ =>
  }

  lemma EmptyPart(r: Release)
    ensures IsPart(r, map[], 0)
  {
  }

  lemma AgreesAtZero(r: Release, t: Tree)
    requires t.Keys == r.expected.Keys
    ensures Agrees(r, t, 0)
  {
  }

  lemma AgreesNext(r: Release, t: Tree, n: nat)
    requires n < |r.order| && Agrees(r, t, n)
    requires r.order[n] in t && r.order[n] in r.expected && t[r.order[n]] == r.expected[r.order[n]]
    ensures Agrees(r, t, n + 1)
  {
  }

  /** The directories change only under the builder that holds staging, or where there is none. */
  lemma StepFrame(r: Release, s: System, e: Event)
    requires OwnSound(r, s, e.builder)
    ensures var s' := Step(r, s, e);
            && (s'.staging != s.staging ==> s.staging.None? || Holds(PhaseOf(s, e.builder)))
            && (s'.target != s.target ==> s.target.None? && PhaseOf(s, e.builder).Rename? && s'.target == Some(r.expected))
            && (s'.target.Some? && s.target.Some? ==> s'.target == s.target)
            && (Published(PhaseOf(s', e.builder)) ==>
                  Published(PhaseOf(s, e.builder)) || (s.target.None? && s'.target == Some(r.expected)))
            && (Holds(PhaseOf(s', e.builder)) ==> Holds(PhaseOf(s, e.builder)) || s.staging.None?)
            && (s' == s || s'.phases == s.phases[e.builder := PhaseOf(s', e.builder)])
  {
    hide IsPart, Agrees;
  }

  lemma StepSoundForOther(r: Release, s: System, e: Event, b: nat)
    requires ValidRelease(r) && Sound(r, s) && b in s.phases && b != e.builder
    ensures var s' := Step(r, s, e);
            && b in s'.phases && s'.phases[b] == s.phases[b] && PhaseSound(r, s', s.phases[b])
            && (Holds(s.phases[b]) ==> s'.staging.Some? && !Holds(PhaseOf(s', e.builder)))
            && (Published(s.phases[b]) ==> !Published(PhaseOf(s', e.builder)))
  {
    hide IsPart, Agrees, Step;
    SoundForOne(r, s, e.builder);
    StepFrame(r, s, e);
  }

  lemma StepKeepsSound(r: Release, s: System, e: Event)
    requires ValidRelease(r) && Sound(r, s)
    ensures Sound(r, Step(r, s, e))
  {
    hide PhaseSound, Step, Holds, Published;
    var s' := Step(r, s, e);
    SoundForOne(r, s, e.builder);
    StepSoundForSelf(r, s, e);
    StepPhases(r, s, e);
    forall b | b in s.phases && b != e.builder
      ensures b in s'.phases && s'.phases[b] == s.phases[b] && PhaseSound(r, s', s'.phases[b])
      ensures Holds(s'.phases[b]) ==> s'.staging.Some? && !Holds(PhaseOf(s', e.builder))
      ensures Published(s'.phases[b]) ==> !Published(PhaseOf(s', e.builder))
    {
      StepSoundForOther(r, s, e, b);
    }
  }

  lemma StepPhases(r: Release, s: System, e: Event)
    ensures forall b :: b in Step(r, s, e).phases ==> b == e.builder || b in s.phases
  {
  }

  lemma {:induction false} EveryRunIsSound(r: Release, s: System, es: seq<Event>)
    requires ValidRelease(r) && Initial(s)
    ensures Sound(r, Run(r, s, es))
  {
    hide Step, PhaseSound, Holds, Published;
    if es != [] {
      EveryRunIsSound(r, s, es[..|es| - 1]);
      StepKeepsSound(r, Run(r, s, es[..|es| - 1]), es[|es| - 1]);
    }
  }

  // ----- theorems ------------------------------------------------------------------------------

  /** In every interleaving at most one builder owns the staging directory. */
  lemma AtMostOneHolder(r: Release, s: System, es: seq<Event>, b: nat, c: nat)
    requires ValidRelease(r) && Initial(s)
    requires Holds(PhaseOf(Run(r, s, es), b)) && Holds(PhaseOf(Run(r, s, es), c))
    ensures b == c && Run(r, s, es).staging.Some?
  {
    EveryRunIsSound(r, s, es);
  }

  /** A builder about to rename faces an absent target and holds the complete release. */
  lemma RenameIsSafe(r: Release, s: System, es: seq<Event>, b: nat)
    requires ValidRelease(r) && Initial(s) && PhaseOf(Run(r, s, es), b) == Rename
    ensures Run(r, s, es).target == None && Run(r, s, es).staging == Some(r.expected)
  {
    EveryRunIsSound(r, s, es);
  }

  /** Once the target exists it never changes again, through any continuation. */
  lemma {:induction false} TargetIsForever(r: Release, s: System, es: seq<Event>, more: seq<Event>)
    requires ValidRelease(r) && Initial(s) && Run(r, s, es).target.Some?
    ensures Run(r, s, es + more).target == Run(r, s, es).target
    decreases |more|
  {
    hide Step, Sound;
    if more == [] {
      assert es + more == es;
    } else {
      var prefix := more[..|more| - 1];
      TargetIsForever(r, s, es, prefix);
      EveryRunIsSound(r, s, es + prefix);
      assert (es + more)[..|es + more| - 1] == es + prefix;
      SoundForOne(r, Run(r, s, es + prefix), more[|more| - 1].builder);
      StepFrame(r, Run(r, s, es + prefix), more[|more| - 1]);
    }
  }

  /** The target is never partial: it is what it was at first, or the complete release. */
  lemma {:induction false} TargetIsNeverPartial(r: Release, s: System, es: seq<Event>)
    requires ValidRelease(r) && Initial(s)
    ensures Run(r, s, es).target == s.target || (s.target == None && Run(r, s, es).target == Some(r.expected))
  {
    hide Step, Sound;
    if es != [] {
      TargetIsNeverPartial(r, s, es[..|es| - 1]);
      EveryRunIsSound(r, s, es[..|es| - 1]);
      SoundForOne(r, Run(r, s, es[..|es| - 1]), es[|es| - 1].builder);
      StepFrame(r, Run(r, s, es[..|es| - 1]), es[|es| - 1]);
    }
  }

  /** Every builder that returns, returns on the expected content, which stays there for good. */
  lemma ReturnedMeansPublished(r: Release, s: System, es: seq<Event>, more: seq<Event>, b: nat)
    requires ValidRelease(r) && Initial(s) && PhaseOf(Run(r, s, es), b).Returned?
    ensures Run(r, s, es + more).target == Some(r.expected)
  {
    EveryRunIsSound(r, s, es);
    TargetIsForever(r, s, es, more);
  }

  /** At most one builder ever reports BUILT, and none does where a target was there at first. */
  lemma AtMostOneBuilt(r: Release, s: System, es: seq<Event>, b: nat, c: nat)
    requires ValidRelease(r) && Initial(s)
    requires PhaseOf(Run(r, s, es), b) == Returned(Built) && PhaseOf(Run(r, s, es), c) == Returned(Built)
    ensures b == c && s.target == None
  {
    EveryRunIsSound(r, s, es);
    if s.target.Some? {
      NobodyPublishes(r, s, es, b);
    }
  }

  lemma {:induction false} NobodyPublishes(r: Release, s: System, es: seq<Event>, b: nat)
    requires ValidRelease(r) && Initial(s) && s.target.Some?
    ensures !Published(PhaseOf(Run(r, s, es), b))
  {
    hide Step, Sound;
    if es != [] {
      var prefix, e := es[..|es| - 1], es[|es| - 1];
      NobodyPublishes(r, s, prefix, b);
      EveryRunIsSound(r, s, prefix);
      assert [] + prefix == prefix;
      TargetIsForever(r, s, [], prefix);
      SoundForOne(r, Run(r, s, prefix), e.builder);
      StepFrame(r, Run(r, s, prefix), e);
    }
  }

  /** A conflicting target is refused by every builder: none ever returns. */
  lemma ConflictIsRefused(r: Release, s: System, es: seq<Event>, b: nat)
    requires ValidRelease(r) && Initial(s) && s.target.Some? && s.target != Some(r.expected)
    ensures !PhaseOf(Run(r, s, es), b).Returned?
  {
    hide Step;
    EveryRunIsSound(r, s, es);
    assert [] + es == es;
    TargetIsForever(r, s, [], es);
  }

  // ----- progress --------------------------------------------------------------------------------

  predicate FaultFree(es: seq<Event>) {
    forall i :: 0 <= i < |es| ==> !es[i].fault
  }

  /** Neither target nor a leftover staging directory is there at first. */
  predicate Clean(s: System) {
    Initial(s) && s.target == None && s.staging == None
  }

  predicate Finished(p: Phase) {
    p.Returned? || p.Failed?
  }

  /** The only failure is to meet another builder at work, and no holder gives up. */
  predicate Undisturbed(p: Phase) {
    (p.Failed? ==> p == Failed(InProgress)) && (p.Cleanup? ==> p == Cleanup(TargetSeen))
  }

  /** Builder `b` is the one the publication depends on: it holds the staging directory, or has published it. */
  predicate Leads(s: System, b: nat) {
    b in s.phases && if s.target.None? then Holds(s.phases[b]) else Published(s.phases[b])
  }

  /** Nobody has got as far as the staging directory. */
  predicate Untouched(s: System) {
    s.target.None? && s.staging.None? && forall b :: b in s.phases ==> s.phases[b] == Start || s.phases[b] == MakeStaging
  }

  ghost predicate OnTrack(s: System) {
    && (forall b :: b in s.phases ==> Undisturbed(s.phases[b]))
    && (Untouched(s) || exists b :: Leads(s, b))
  }

  /** A step without a fault keeps its builder undisturbed. */
  lemma StepUndisturbed(r: Release, s: System, e: Event)
    requires ValidRelease(r) && Sound(r, s) && !e.fault && Undisturbed(PhaseOf(s, e.builder))
    requires s.target.Some? ==> s.target == Some(r.expected)
    ensures Undisturbed(PhaseOf(Step(r, s, e), e.builder))
  {
    hide Agrees, IsPart;
    SoundForOne(r, s, e.builder);
    var p := PhaseOf(s, e.builder);
    if p.Writing? && p.n < |r.order| {
      ExtendPart(r, s.staging.value, p.n);
    }
    PartIsBounded(r, s, p);
    OrderIsExpected(r);
  }

  lemma PartIsBounded(r: Release, s: System, p: Phase)
    requires PhaseSound(r, s, p)
    ensures p.Writing? || p.Compare? ==> p.n <= |r.order|
  {
  }

  lemma OrderIsExpected(r: Release)
    requires ValidRelease(r)
    ensures forall i :: 0 <= i < |r.order| ==> r.order[i] in r.expected
  {
  }

  /** The leader keeps the lead, whoever steps. */
  lemma LeadIsKept(r: Release, s: System, e: Event, b: nat)
    requires ValidRelease(r) && Sound(r, s) && !e.fault && Leads(s, b) && Undisturbed(s.phases[b])
    requires s.target.Some? ==> s.target == Some(r.expected)
    ensures Leads(Step(r, s, e), b)
  {
    hide Agrees, IsPart;
    SoundForOne(r, s, e.builder);
    if e.builder == b {
      StepUndisturbed(r, s, e);
      LeaderSteps(r, s, e);
    } else {
      hide Step, Published, Holds;
      StepFrame(r, s, e);
      StepSoundForOther(r, s, e, b);
      RenamersHold();
    }
  }

  lemma RenamersHold()
    ensures Holds(Rename)
  {
  }

  lemma LeaderSteps(r: Release, s: System, e: Event)
    requires ValidRelease(r) && Sound(r, s) && !e.fault && Leads(s, e.builder) && Undisturbed(s.phases[e.builder])
    requires Undisturbed(PhaseOf(Step(r, s, e), e.builder))
    ensures Leads(Step(r, s, e), e.builder)
  {
    hide Agrees, IsPart;
    SoundForOne(r, s, e.builder);
  }

  /** Where nobody has got far, a step leaves it so or makes its builder the leader. */
  lemma FirstLeader(r: Release, s: System, e: Event)
    requires !e.fault && Untouched(s)
    ensures Untouched(Step(r, s, e)) || Leads(Step(r, s, e), e.builder)
  {
  }

  lemma {:induction false} EveryRunIsOnTrack(r: Release, s: System, es: seq<Event>)
    requires ValidRelease(r) && Clean(s) && FaultFree(es)
    ensures OnTrack(Run(r, s, es))
  {
    hide Step, Sound, Undisturbed, Leads, Untouched;
    if es == [] {
      NothingHappened(s);
    } else {
      var prefix, e := es[..|es| - 1], es[|es| - 1];
      EveryRunIsOnTrack(r, s, prefix);
      EveryRunIsSound(r, s, prefix);
      TargetIsNeverPartial(r, s, prefix);
      StepOnTrack(r, Run(r, s, prefix), e);
    }
  }

  lemma NothingHappened(s: System)
    requires Clean(s)
    ensures Untouched(s)
  {
  }

  lemma StepOnTrack(r: Release, s: System, e: Event)
    requires ValidRelease(r) && Sound(r, s) && OnTrack(s) && !e.fault
    requires s.target.Some? ==> s.target == Some(r.expected)
    ensures OnTrack(Step(r, s, e))
  {
    hide Step, Sound, Undisturbed, Leads, Untouched;
    var s' := Step(r, s, e);
    StartIsUndisturbed();
    StepUndisturbed(r, s, e);
    StepPhases(r, s, e);
    forall b | b in s'.phases
      ensures Undisturbed(s'.phases[b])
    {
      if b != e.builder {
        OthersStay(r, s, e, b);
      }
    }
    if b :| Leads(s, b) {
      LeaderHasPhase(s, b);
      LeadIsKept(r, s, e, b);
    } else {
      FirstLeader(r, s, e);
    }
  }

  lemma StartIsUndisturbed()
    ensures Undisturbed(Start)
  {
  }

  lemma LeaderHasPhase(s: System, b: nat)
    requires Leads(s, b)
    ensures b in s.phases
  {
  }

  lemma OthersStay(r: Release, s: System, e: Event, b: nat)
    requires b != e.builder
    ensures b in Step(r, s, e).phases <==> b in s.phases
    ensures b in s.phases ==> Step(r, s, e).phases[b] == s.phases[b]
  {
  }

  /**
   * Progress: in a run without faults that starts clean, as soon as all builders that started have
   * finished, exactly one has reported BUILT and the target is the release. The others report
   * ALREADY_BUILT, or gave up because they met the builder at work.
   */
  lemma ExactlyOneBuilt(r: Release, s: System, es: seq<Event>) returns (b: nat)
    requires ValidRelease(r) && Clean(s) && FaultFree(es) && es != []
    requires forall c :: c in Run(r, s, es).phases ==> Finished(Run(r, s, es).phases[c])
    ensures Run(r, s, es).target == Some(r.expected) && Run(r, s, es).staging == None
    ensures b in Run(r, s, es).phases && Run(r, s, es).phases[b] == Returned(Built)
    ensures forall c :: c in Run(r, s, es).phases && c != b ==>
              Run(r, s, es).phases[c] == Returned(AlreadyBuilt) || Run(r, s, es).phases[c] == Failed(InProgress)
  {
    hide Step, Sound, Run;
    var end := Run(r, s, es);
    EveryRunIsOnTrack(r, s, es);
    EveryRunIsSound(r, s, es);
    SomebodyStarted(r, s, es);
    StagingIsHeld(r, s, es);
    b :| Leads(end, b);
    assert end.target.Some? && end.phases[b] == Returned(Built);
    ReturnedIsExpected(r, end, b);
    forall c | c in end.phases && c != b
      ensures end.phases[c] == Returned(AlreadyBuilt) || end.phases[c] == Failed(InProgress)
    {
      assert Undisturbed(end.phases[c]) && Finished(end.phases[c]);
      match end.phases[c]
      case Returned(Built) => AtMostOneBuilt(r, s, es, b, c);
      case _ =>
    }
  }

  ghost predicate SomeHolder(s: System) {
    exists b :: b in s.phases && Holds(s.phases[b])
  }

  /** Without faults no staging directory outlives the builder that made it. */
  lemma {:induction false} StagingIsHeld(r: Release, s: System, es: seq<Event>)
    requires ValidRelease(r) && Clean(s) && FaultFree(es)
    ensures Run(r, s, es).staging.Some? ==> SomeHolder(Run(r, s, es))
  {
    hide Step, Sound, SomeHolder;
    if es != [] {
      var prefix, e := es[..|es| - 1], es[|es| - 1];
      StagingIsHeld(r, s, prefix);
      EveryRunIsSound(r, s, prefix);
      EveryRunIsOnTrack(r, s, prefix);
      StepHoldsStaging(r, Run(r, s, prefix), e);
    }
  }

  lemma StepHoldsStaging(r: Release, s: System, e: Event)
    requires ValidRelease(r) && Sound(r, s) && !e.fault && (s.staging.Some? ==> SomeHolder(s))
    ensures Step(r, s, e).staging.Some? ==> SomeHolder(Step(r, s, e))
  {
    hide Agrees, IsPart;
    var s' := Step(r, s, e);
    if s'.staging.Some? {
      if s.staging.Some? {
        var b :| b in s.phases && Holds(s.phases[b]);
        if b != e.builder {
          OthersStay(r, s, e, b);
          assert Holds(s'.phases[b]);
        } else {
          SoundForOne(r, s, b);
          HolderLetsGo(r, s, e);
        }
      } else {
        StagingIsMade(r, s, e);
      }
    }
  }

  lemma HolderLetsGo(r: Release, s: System, e: Event)
    requires e.builder in s.phases && Holds(s.phases[e.builder]) && !e.fault && s.staging.Some?
    ensures e.builder in Step(r, s, e).phases
    ensures Step(r, s, e).staging.Some? ==> Holds(Step(r, s, e).phases[e.builder])
  {
  }

  lemma StagingIsMade(r: Release, s: System, e: Event)
    requires s.staging.None? && Step(r, s, e).staging.Some?
    ensures e.builder in Step(r, s, e).phases && Holds(Step(r, s, e).phases[e.builder])
  {
  }

  lemma ReturnedIsExpected(r: Release, s: System, b: nat)
    requires Sound(r, s) && b in s.phases && s.phases[b].Returned?
    ensures s.target == Some(r.expected)
  {
  }

  lemma SomebodyStarted(r: Release, s: System, es: seq<Event>)
    requires es != []
    ensures es[|es| - 1].builder in Run(r, s, es).phases
  {
    StepRegisters(r, Run(r, s, es[..|es| - 1]), es[|es| - 1]);
  }

  lemma StepRegisters(r: Release, s: System, e: Event)
    ensures e.builder in Step(r, s, e).phases
  {
  }

  // ----- a builder on its own ----------------------------------------------------------------------

  /** `k` steps of one builder without faults. */
  function Solo(b: nat, k: nat): (es: seq<Event>)
    ensures |es| == k && FaultFree(es)
  {
    seq(k, i => Event(b, false, ""))
  }

  lemma SoloNext(r: Release, s: System, b: nat, k: nat)
    ensures Run(r, s, Solo(b, k + 1)) == Step(r, Run(r, s, Solo(b, k)), Event(b, false, ""))
  {
    assert Solo(b, k + 1)[..k] == Solo(b, k);
  }

  /** Where a lone builder stands after `k` steps from a clean start. */
  function Stage(r: Release, k: nat): Phase {
    var n := |r.order|;
    if k == 0 then Start
    else if k == 1 then MakeStaging
    else if k <= n + 2 then Writing(k - 2)
    else if k == n + 3 then Recheck
    else if k == n + 4 then Rename
    else if k == n + 5 then Inventory(Built)
    else if k <= 2 * n + 6 then Compare(Built, k - n - 6)
    else Returned(Built)
  }

  lemma {:induction false} SoloBuilds(r: Release, s: System, b: nat, k: nat)
    requires ValidRelease(r) && Clean(s) && k <= 2 * |r.order| + 7
    ensures PhaseOf(Run(r, s, Solo(b, k)), b) == Stage(r, k)
    ensures k <= |r.order| + 4 ==> Run(r, s, Solo(b, k)).target == None
    ensures k <= 1 ==> Run(r, s, Solo(b, k)).staging == None
  {
    hide Sound, Solo, Step, Stage, PhaseOf;
    if k > 0 {
      SoloBuilds(r, s, b, k - 1);
      SoloNext(r, s, b, k - 1);
      var before := Run(r, s, Solo(b, k - 1));
      EveryRunIsSound(r, s, Solo(b, k - 1));
      SoundForOne(r, before, b);
      SoloStep(r, before, b, k - 1);
    } else {
      SoloStart(r, s, b);
    }
  }

  lemma SoloStart(r: Release, s: System, b: nat)
    requires Initial(s)
    ensures Run(r, s, Solo(b, 0)) == s && PhaseOf(s, b) == Start == Stage(r, 0)
  {
    assert Solo(b, 0) == [];
  }

  lemma SoloStep(r: Release, s: System, b: nat, k: nat)
    requires ValidRelease(r) && OwnSound(r, s, b) && PhaseOf(s, b) == Stage(r, k)
    requires k <= |r.order| + 4 ==> s.target == None
    requires k <= 1 ==> s.staging == None
    ensures var s' := Step(r, s, Event(b, false, ""));
            && PhaseOf(s', b) == Stage(r, k + 1)
            && (k + 1 <= |r.order| + 4 ==> s'.target == None)
            && (k + 1 <= 1 ==> s'.staging == None)
  {
    hide IsPart, Agrees;
    OrderIsExpected(r);
    var p := PhaseOf(s, b);
    if p.Writing? && p.n < |r.order| {
      ExtendPart(r, s.staging.value, p.n);
    }
  }

  /** A builder left to itself builds: without faults and from a clean start it reports BUILT after 2n + 7 steps. */
  lemma LoneBuilderBuilds(r: Release, s: System, b: nat)
    requires ValidRelease(r) && Clean(s)
    ensures var end := Run(r, s, Solo(b, 2 * |r.order| + 7));
            PhaseOf(end, b) == Returned(Built) && end.target == Some(r.expected) && end.staging == None
  {
    hide Sound, Solo;
    var es := Solo(b, 2 * |r.order| + 7);
    SoloBuilds(r, s, b, 2 * |r.order| + 7);
    ReturnedMeansPublished(r, s, es, [], b);
    assert es + [] == es;
    StagingIsHeld(r, s, es);
    EveryRunIsSound(r, s, es);
    OnlyBuilder(r, s, b, 2 * |r.order| + 7);
  }

  lemma {:induction false} OnlyBuilder(r: Release, s: System, b: nat, k: nat)
    requires Clean(s)
    ensures forall c :: c in Run(r, s, Solo(b, k)).phases ==> c == b
  {
    hide Step;
    if k > 0 {
      OnlyBuilder(r, s, b, k - 1);
      SoloNext(r, s, b, k - 1);
      StepPhases(r, Run(r, s, Solo(b, k - 1)), Event(b, false, ""));
    }
  }

  /**
   * A builder that finds a target: n + 3 steps without faults end in ALREADY_BUILT if the target is
   * the expected release, and in a conflict if it is anything else.
   */
  lemma TargetIsJudged(r: Release, s: System, b: nat)
    requires ValidRelease(r) && Initial(s) && s.target.Some?
    ensures PhaseOf(Run(r, s, Solo(b, |r.order| + 3)), b)
            == if s.target == Some(r.expected) then Returned(AlreadyBuilt) else Failed(Conflict)
  {
    hide Step, Sound, Solo;
    SoloJudges(r, s, b, |r.order| + 3);
    ConflictIsRefusedIf(r, s, b, |r.order| + 3);
  }

  lemma ConflictIsRefusedIf(r: Release, s: System, b: nat, k: nat)
    requires ValidRelease(r) && Initial(s) && s.target.Some?
    ensures s.target != Some(r.expected) ==> !PhaseOf(Run(r, s, Solo(b, k)), b).Returned?
  {
    if s.target != Some(r.expected) {
      ConflictIsRefused(r, s, Solo(b, k), b);
    }
  }

  /** Where a builder that found a target may stand after `k` steps. */
  predicate Judging(r: Release, s: System, p: Phase, k: nat) {
    || (p == Failed(Conflict) && k >= 2 && s.target != Some(r.expected))
    || p == if k == 0 then Start else if k == 1 then Inventory(AlreadyBuilt)
            else if k <= |r.order| + 2 then Compare(AlreadyBuilt, k - 2) else Returned(AlreadyBuilt)
  }

  lemma {:induction false} SoloJudges(r: Release, s: System, b: nat, k: nat)
    requires ValidRelease(r) && Initial(s) && s.target.Some? && k <= |r.order| + 3
    ensures Run(r, s, Solo(b, k)).target == s.target && Judging(r, s, PhaseOf(Run(r, s, Solo(b, k)), b), k)
  {
    hide Solo, Sound, Step, PhaseOf, Judging;
    if k > 0 {
      SoloJudges(r, s, b, k - 1);
      SoloNext(r, s, b, k - 1);
      JudgeStep(r, s, Run(r, s, Solo(b, k - 1)), b, k - 1);
    } else {
      SoloStart(r, s, b);
      JudgeStart(r, s);
    }
  }

  lemma JudgeStart(r: Release, s: System)
    ensures Judging(r, s, Start, 0)
  {
  }

  lemma JudgeStep(r: Release, s: System, now: System, b: nat, k: nat)
    requires ValidRelease(r) && s.target.Some? && now.target == s.target && Judging(r, s, PhaseOf(now, b), k) && k <= |r.order| + 2
    ensures var next := Step(r, now, Event(b, false, ""));
            next.target == s.target && Judging(r, s, PhaseOf(next, b), k + 1)
  {
    OrderIsExpected(r);
  }

  // ----- removing the staging directory ------------------------------------------------------------

  /** Steps without faults in which one builder removes the given entries. */
  function Removals(b: nat, names: seq<string>): (es: seq<Event>)
    ensures |es| == |names|
  {
    seq(|names|, i requires 0 <= i < |names| => Event(b, false, names[i]))
  }

  lemma {:induction false} EntriesGoOneByOne(r: Release, s: System, b: nat, cause: Cause, names: seq<string>)
    requires PhaseOf(s, b) == Cleanup(cause) && s.staging.Some?
    requires forall i :: 0 <= i < |names| ==> names[i] in s.staging.value
    requires forall i, j :: 0 <= i < j < |names| ==> names[i] != names[j]
    ensures Run(r, s, Removals(b, names)) == s.(staging := Some(s.staging.value - set x | x in names))
  {
    hide Step;
    if names == [] {
      assert s.staging.value - (set x | x in names) == s.staging.value;
    } else {
      var init, last := names[..|names| - 1], names[|names| - 1];
      EntriesGoOneByOne(r, s, b, cause, init);
      assert Removals(b, names)[..|names| - 1] == Removals(b, init);
      var left := s.staging.value - set x | x in init;
      assert last in left;
      RemovesOne(r, s.(staging := Some(left)), b, cause, last);
      assert names == init + [last];
      assert left - {last} == s.staging.value - set x | x in names;
    }
  }

  lemma RemovesOne(r: Release, s: System, b: nat, cause: Cause, name: string)
    requires PhaseOf(s, b) == Cleanup(cause) && s.staging.Some? && name in s.staging.value
    ensures Step(r, s, Event(b, false, name)) == s.(staging := Some(s.staging.value - {name}))
  {
  }

  /** A builder that gives up removes every entry, in any order, then the directory, and only then goes on. */
  lemma CleanupEnds(r: Release, s: System, b: nat, cause: Cause, names: seq<string>, any: string)
    requires PhaseOf(s, b) == Cleanup(cause) && s.staging.Some?
    requires forall x :: x in names <==> x in s.staging.value
    requires forall i, j :: 0 <= i < j < |names| ==> names[i] != names[j]
    ensures var end := Run(r, s, Removals(b, names) + [Event(b, false, any)]);
            && end.staging == None && end.target == s.target
            && PhaseOf(end, b) == AfterCleanup(s, cause)
            && forall c :: c != b ==> PhaseOf(end, c) == PhaseOf(s, c)
  {
    hide AfterCleanup, Step;
    EntriesGoOneByOne(r, s, b, cause, names);
    var es, last := Removals(b, names) + [Event(b, false, any)], Event(b, false, any);
    assert es[..|names|] == Removals(b, names) && es[|names|] == last;
    var left := s.staging.value - set x | x in names;
    assert left == map[] by {
      assert left.Keys == {};
    }
    RemovesDirectory(r, s.(staging := Some(map[])), b, cause, any);
    assert Run(r, s, es) == Step(r, s.(staging := Some(left)), last);
  }

  lemma RemovesDirectory(r: Release, s: System, b: nat, cause: Cause, any: string)
    requires PhaseOf(s, b) == Cleanup(cause) && s.staging == Some(map[])
    ensures var end := Step(r, s, Event(b, false, any));
            && end.staging == None && end.target == s.target
            && (forall t :: PhaseOf(end, b) == AfterCleanup(s.(staging := t), cause))
            && forall c :: c != b ==> PhaseOf(end, c) == PhaseOf(s, c)
  {
  }
}
