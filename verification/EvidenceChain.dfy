/** The evidence ledger: an append-only file of events, each sealed over the hash of the last. */
module EvidenceChain {
  import opened Prelude

  const GENESIS := "GENESIS"

  /** An event without its own hash. */
  datatype Body = Body(payload: string, prevHash: string)

  /**
   * A line of the file: blank, an event with its hash, another JSON object with what it says
   * under `event_hash` ("" if nothing), another JSON value, or something that is not JSON.
   */
  datatype Line =
    | Blank
    | Event(body: Body, eventHash: string)
    | Record(text: string, eventHash: string)
    | Value(text: string)
    | Foreign(text: string)

  /** The canonical hash of an event body, of a whole line's object, and of a line's text. */
  datatype Hashes = Hashes(ofBody: Body -> string, ofObject: Line -> string, ofText: string -> string)

  datatype Fault = AttributeError

  /** An object without a hash of its own is hashed as it stands; only objects can be asked for one. */
  function HashOfLine(h: Hashes, l: Line): Result<string, Fault> {
    match l
    case Blank => Ok(GENESIS)
    case Event(_, hash) => Ok(if hash != "" then hash else h.ofObject(l))
    case Record(_, hash) => Ok(if hash != "" then hash else h.ofObject(l))
    case Value(_) => Err(AttributeError)
    case Foreign(text) => Ok(h.ofText(text))
  }

  function LastNonBlank(ls: seq<Line>): Line {
    if ls == [] then Blank
    else if ls[|ls| - 1] != Blank then ls[|ls| - 1]
    else LastNonBlank(ls[..|ls| - 1])
  }

  /** `_last_hash`: one pass over the lines, remembering the last that is not blank. */
  method LastHash(h: Hashes, ls: seq<Line>) returns (hash: Result<string, Fault>)
    ensures hash == HashOfLine(h, LastNonBlank(ls))
  {
    var last := Blank;
    for k := 0 to |ls|
      invariant last == LastNonBlank(ls[..k])
    {
      assert ls[..k + 1][..k] == ls[..k];
      if ls[k] != Blank {
        last := ls[k];
      }
    }
    assert ls[..|ls|] == ls;
    hash := HashOfLine(h, last);
  }

  /** A commit appends one event, unless the last line has no hash to give. */
  function Commit(h: Hashes, ls: seq<Line>, payload: string): seq<Line> {
    match HashOfLine(h, LastNonBlank(ls))
    case Err(_) => ls
    case Ok(prev) => ls + [Event(Body(payload, prev), h.ofBody(Body(payload, prev)))]
  }

  class Ledger {
    const h: Hashes
    var lines: seq<Line>

    constructor (h: Hashes, lines: seq<Line>)
      ensures this.h == h && this.lines == lines
    {
      this.h := h;
      this.lines := lines;
    }

    method CommitEvidence(payload: string) returns (hash: Result<string, Fault>)
      modifies this
      ensures lines == Commit(h, old(lines), payload)
      ensures hash.Ok? <==> lines != old(lines)
      ensures hash.Ok? ==> lines[|lines| - 1] == Event(lines[|lines| - 1].body, hash.value)
    {
      var prev := LastHash(h, lines);
      match prev
      case Err(e) =>
        hash := Err(e);
      case Ok(p) =>
        var body := Body(payload, p);
        lines := lines + [Event(body, h.ofBody(body))];
        hash := Ok(h.ofBody(body));
    }
  }

  /** Line `i` says something and none after it does. */
  predicate LastWord(ls: seq<Line>, i: nat) {
    i < |ls| && ls[i] != Blank && forall j :: i < j < |ls| ==> ls[j] == Blank
  }

  lemma {:induction false} LastWordIs(ls: seq<Line>, i: nat)
    requires LastWord(ls, i)
    ensures LastNonBlank(ls) == ls[i]
  {
    if ls[|ls| - 1] == Blank {
      assert i < |ls| - 1;
      LastWordIs(ls[..|ls| - 1], i);
    }
  }

  lemma {:induction false} NothingSaid(ls: seq<Line>)
    requires forall j :: 0 <= j < |ls| ==> ls[j] == Blank
    ensures LastNonBlank(ls) == Blank
  {
    if ls != [] {
      NothingSaid(ls[..|ls| - 1]);
    }
  }

  /** The event a commit appends after `prev`. */
  predicate Appends(h: Hashes, ls: seq<Line>, ls': seq<Line>, payload: string, prev: string) {
    ls' == ls + [Event(Body(payload, prev), h.ofBody(Body(payload, prev)))]
  }

  /** A file without a line that says anything is begun with the genesis marker. */
  lemma CommitBegins(h: Hashes, ls: seq<Line>, payload: string)
    requires forall j :: 0 <= j < |ls| ==> ls[j] == Blank
    ensures Appends(h, ls, Commit(h, ls, payload), payload, "GENESIS")
  {
    NothingSaid(ls);
  }

  /**
   * What a commit carries over from the last line that says anything, blank lines after it or not:
   * the hash the line states, or else the hash of the object, or of the text if it is not JSON.
   * After a JSON value that is no object nothing is committed.
   */
  lemma CommitCarries(h: Hashes, ls: seq<Line>, i: nat, payload: string)
    requires LastWord(ls, i)
    ensures match ls[i]
            case Event(_, hash) =>
              Appends(h, ls, Commit(h, ls, payload), payload, if hash == "" then h.ofObject(ls[i]) else hash)
            case Record(_, hash) =>
              Appends(h, ls, Commit(h, ls, payload), payload, if hash == "" then h.ofObject(ls[i]) else hash)
            case Foreign(text) => Appends(h, ls, Commit(h, ls, payload), payload, h.ofText(text))
            case _ => Commit(h, ls, payload) == ls && HashOfLine(h, LastNonBlank(ls)) == Err(AttributeError)
  {
    LastWordIs(ls, i);
  }

  /** The file after a sequence of commits to an empty one. */
  function Committed(h: Hashes, payloads: seq<string>): seq<Line> {
    if payloads == [] then [] else Commit(h, Committed(h, payloads[..|payloads| - 1]), payloads[|payloads| - 1])
  }

  /** The event carries its own hash, and the hash of the event before it or the genesis marker. */
  predicate Sealed(h: Hashes, before: seq<Line>, l: Line) {
    && l.Event? && l.eventHash == h.ofBody(l.body)
    && if before == [] then l.body.prevHash == GENESIS
       else before[|before| - 1].Event? && l.body.prevHash == before[|before| - 1].eventHash
  }

  predicate Chained(h: Hashes, ls: seq<Line>) {
    ls == [] || (Chained(h, ls[..|ls| - 1]) && Sealed(h, ls[..|ls| - 1], ls[|ls| - 1]))
  }

  /** In a chain every event is sealed over the one before it. */
  lemma {:induction false} EveryLinkIsSealed(h: Hashes, ls: seq<Line>, i: nat)
    requires Chained(h, ls) && i < |ls|
    ensures Sealed(h, ls[..i], ls[i])
  {
    if i < |ls| - 1 {
      EveryLinkIsSealed(h, ls[..|ls| - 1], i);
      assert ls[..|ls| - 1][..i] == ls[..i];
    }
  }

  /** Hashes collide with nothing: not with each other, the empty string or the genesis marker. */
  ghost predicate CollisionFree(h: Hashes) {
    && (forall a, b :: h.ofBody(a) == h.ofBody(b) ==> a == b)
    && (forall a :: h.ofBody(a) != "" && h.ofBody(a) != GENESIS)
  }

  lemma NoCollision(h: Hashes, a: Body, b: Body)
    requires CollisionFree(h)
    ensures h.ofBody(a) == h.ofBody(b) ==> a == b
    ensures h.ofBody(a) != "" && h.ofBody(a) != GENESIS
  {
  }

  /** The body's text behind its length in ones. */
  function Spelled(b: Body): string {
    seq(|b.payload|, i => '1') + "0" + b.payload + b.prevHash
  }

  lemma SpelledParts(b: Body)
    ensures var s, n := Spelled(b), |b.payload|;
            && (forall k :: 0 <= k < n ==> s[k] == '1') && |s| == 2 * n + 1 + |b.prevHash| && s[n] == '0'
            && s[n + 1..2 * n + 1] == b.payload && s[2 * n + 1..] == b.prevHash
  {
  }

  lemma SpelledApart(a: Body, b: Body)
    requires Spelled(a) == Spelled(b)
    ensures a == b
  {
    hide Spelled;
    SpelledParts(a);
    SpelledParts(b);
  }

  /** There are collision-free hashes. */
  lemma SomeHashesAreCollisionFree() returns (h: Hashes)
    ensures CollisionFree(h)
  {
    h := Hashes(Spelled, (l: Line) => "", (s: string) => "");
    forall a, b | h.ofBody(a) == h.ofBody(b)
      ensures a == b
    {
      SpelledApart(a, b);
    }
    forall a: Body
      ensures h.ofBody(a) != "" && h.ofBody(a) != GENESIS
    {
      assert Spelled(a)[0] == '1' || Spelled(a)[0] == '0';
    }
  }

  function Payloads(ls: seq<Line>): (ps: seq<string>)
    ensures |ps| == |ls|
  {
    seq(|ls|, i requires 0 <= i < |ls| => if ls[i].Event? then ls[i].body.payload else "")
  }

  /** Cutting the last event off a chain leaves a chain. */
  lemma ChainInit(h: Hashes, ls: seq<Line>)
    requires Chained(h, ls) && ls != []
    ensures Chained(h, ls[..|ls| - 1]) && Sealed(h, ls[..|ls| - 1], ls[|ls| - 1])
    ensures ls[|ls| - 1].Event? && Payloads(ls) == Payloads(ls[..|ls| - 1]) + [ls[|ls| - 1].body.payload]
  {
  }

  lemma ChainExtend(h: Hashes, ls: seq<Line>, l: Line)
    requires Chained(h, ls) && Sealed(h, ls, l)
    ensures Chained(h, ls + [l])
  {
    assert (ls + [l])[..|ls|] == ls;
  }

  /** What stands for the last line of a chain is the hash its next event has to carry. */
  lemma ChainHash(h: Hashes, ls: seq<Line>)
    requires CollisionFree(h) && Chained(h, ls)
    ensures ls == [] ==> HashOfLine(h, LastNonBlank(ls)) == Ok(GENESIS)
    ensures ls != [] ==> ls[|ls| - 1].Event? && HashOfLine(h, LastNonBlank(ls)) == Ok(ls[|ls| - 1].eventHash)
  {
    hide CollisionFree;
    if ls != [] {
      hide Chained;
      ChainInit(h, ls);
      NoCollision(h, ls[|ls| - 1].body, ls[|ls| - 1].body);
    }
  }

  /** The next event of a chain is the one a commit of its payload appends. */
  lemma SealedIsCommit(h: Hashes, ls: seq<Line>, l: Line)
    requires CollisionFree(h) && Chained(h, ls) && Sealed(h, ls, l)
    ensures ls + [l] == Commit(h, ls, l.body.payload)
  {
    hide Chained, CollisionFree, HashOfLine, LastNonBlank;
    ChainHash(h, ls);
  }

  /** A commit extends a chain to a chain, by one event with the given payload. */
  lemma CommitKeepsChain(h: Hashes, ls: seq<Line>, payload: string)
    requires CollisionFree(h) && Chained(h, ls)
    ensures Chained(h, Commit(h, ls, payload))
    ensures Payloads(Commit(h, ls, payload)) == Payloads(ls) + [payload]
  {
    hide Chained, CollisionFree, HashOfLine, LastNonBlank;
    ChainHash(h, ls);
    var m := Commit(h, ls, payload);
    assert m == ls + [m[|ls|]];
    ChainExtend(h, ls, m[|ls|]);
  }

  /** Sequential commits to an empty file produce a chain of their payloads. */
  lemma {:induction false} CommittedIsChained(h: Hashes, payloads: seq<string>)
    requires CollisionFree(h)
    ensures Chained(h, Committed(h, payloads)) && Payloads(Committed(h, payloads)) == payloads
  {
    hide CollisionFree, Commit, Payloads, Chained;
    if payloads == [] {
      NothingIsChained(h);
    } else {
      var init := payloads[..|payloads| - 1];
      CommittedIsChained(h, init);
      CommitKeepsChain(h, Committed(h, init), payloads[|payloads| - 1]);
    }
  }

  lemma NothingIsChained(h: Hashes)
    ensures Chained(h, []) && Payloads([]) == []
  {
  }

  /** A chain is what sequential commits of its payloads produce. */
  lemma {:induction false} ChainedIsCommitted(h: Hashes, ls: seq<Line>)
    requires CollisionFree(h) && Chained(h, ls)
    ensures ls == Committed(h, Payloads(ls))
  {
    hide CollisionFree, Commit, Chained, Sealed, Payloads;
    if ls == [] {
      NothingIsChained(h);
    } else {
      var init, last := ls[..|ls| - 1], ls[|ls| - 1];
      ChainInit(h, ls);
      ChainedIsCommitted(h, init);
      SealedIsCommit(h, init, last);
      assert Payloads(ls)[..|Payloads(ls)| - 1] == Payloads(init);
      assert ls == init + [last];
    }
  }

  /** The files sequential commits to an empty file can produce are exactly the chains. */
  lemma ChainsAreCommitted(h: Hashes, ls: seq<Line>)
    requires CollisionFree(h)
    ensures Chained(h, ls) <==> exists payloads :: ls == Committed(h, payloads)
    ensures Chained(h, ls) ==> ls == Committed(h, Payloads(ls))
    ensures forall payloads :: Payloads(Committed(h, payloads)) == payloads
  {
    hide CollisionFree, Chained, Committed, Payloads;
    if Chained(h, ls) {
      ChainedIsCommitted(h, ls);
    }
    forall payloads
      ensures Chained(h, Committed(h, payloads)) && Payloads(Committed(h, payloads)) == payloads
    {
      CommittedIsChained(h, payloads);
    }
  }

  /**
   * The final hash commits to everything: two chains that end in the same event hash are
   * identical, in length and in content.
   */
  lemma {:induction false} FinalHashDetermines(h: Hashes, ls: seq<Line>, ms: seq<Line>)
    requires CollisionFree(h) && Chained(h, ls) && Chained(h, ms) && ls != [] && ms != []
    requires ls[|ls| - 1].Event? && ms[|ms| - 1].Event? && ls[|ls| - 1].eventHash == ms[|ms| - 1].eventHash
    ensures ls == ms
    decreases |ls|
  {
    hide CollisionFree;
    var before, after := ls[..|ls| - 1], ms[..|ms| - 1];
    NoCollision(h, ls[|ls| - 1].body, ms[|ms| - 1].body);
    if before != [] {
      NoCollision(h, before[|before| - 1].body, before[|before| - 1].body);
    }
    if after != [] {
      NoCollision(h, after[|after| - 1].body, after[|after| - 1].body);
    }
    if before != [] && after != [] {
      FinalHashDetermines(h, before, after);
    }
    assert ls == before + [ls[|ls| - 1]] && ms == after + [ms[|ms| - 1]];
  }
}
