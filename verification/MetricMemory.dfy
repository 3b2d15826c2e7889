/**
 * The metric memory: a RAM cache that time evicts, over values masked by a key stream and split
 * across three disks. It must be indistinguishable from a plain map.
 */
module MetricMemory {
  import opened Prelude

  type Byte = bv8
  type Bytes = seq<Byte>

  datatype Json =
    | JNull
    | JBool(b: bool)
    | JNumber(n: real)
    | JText(s: string)
    | JList(items: seq<Json>)
    | JObject(fields: map<string, Json>)

  /** The five-dimensional code: x, y, z, time, scale. */
  datatype Code = Code(x: real, y: real, z: real, t: real, s: real)

  type Address = string

  /** A SHA-256 digest. */
  type Block = b: Bytes | |b| == 32 witness seq(32, i => 0)

  /**
   * What the memory relies on: an address per code, one hash block per address and counter
   * (keyed by the owner's secret), and a value's JSON text and its parser.
   */
  datatype Env = Env(addr: Code -> Address, block: (Address, nat) -> Block, text: Json -> Bytes, parse: Bytes -> Option<Json>)

  /** JSON gives the value back unchanged. */
  predicate Exact(env: Env, v: Json) {
    env.parse(env.text(v)) == Some(v)
  }

  /** No two of these codes share an address. */
  predicate Apart(env: Env, codes: set<Code>) {
    forall c, d :: c in codes && d in codes && env.addr(c) == env.addr(d) ==> c == d
  }

  // ----- masking ----------------------------------------------------------------------

  /** The key stream, byte by byte. */
  function KeyByte(env: Env, a: Address, k: nat): Byte
  {
    env.block(a, k / 32)[k % 32]
  }

  function KeyStream(env: Env, a: Address, n: nat): (s: Bytes)
    ensures |s| == n
  {
    seq(n, k requires 0 <= k => KeyByte(env, a, k))
  }

  /** `stream`: appends hash blocks until there are enough bytes, then cuts. */
  method Stream(env: Env, a: Address, n: nat) returns (s: Bytes)
    ensures s == KeyStream(env, a, n)
  {
    var out: Bytes := [];
    var i := 0;
    while |out| < n
      invariant |out| == 32 * i
      invariant forall k :: 0 <= k < |out| ==> out[k] == KeyByte(env, a, k)
      decreases n - |out|
    {
      ghost var before := out;
      out := out + env.block(a, i);
      forall k | |before| <= k < |out|
        ensures out[k] == KeyByte(env, a, k)
      {
        assert k / 32 == i && k % 32 == k - 32 * i;
      }
      i := i + 1;
    }
    s := out[..n];
  }

  /** `bytes(x ^ y for x, y in zip(a, b))`. */
  function Xor(a: Bytes, b: Bytes): (r: Bytes)
    ensures |r| == Min(|a|, |b|)
  {
    seq(Min(|a|, |b|), k requires 0 <= k < Min(|a|, |b|) => a[k] ^ b[k])
  }

  lemma XorIsInvolution(a: Bytes, key: Bytes)
    requires |key| == |a|
    ensures Xor(Xor(a, key), key) == a
  {
    forall k | 0 <= k < |a|
      ensures Xor(Xor(a, key), key)[k] == a[k]
    {
      XorBack(a[k], key[k]);
    }
  }

  lemma XorBack(x: Byte, y: Byte)
    ensures (x ^ y) ^ y == x
  {
  }

  // ----- fragments ---------------------------------------------------------------------

  datatype Disks = Disks(a: map<Address, Bytes>, b: map<Address, Bytes>, c: map<Address, Bytes>)

  function Masked(env: Env, a: Address, v: Json): Bytes
  {
    Xor(env.text(v), KeyStream(env, a, |env.text(v)|))
  }

  /** `Fragments.write`: three consecutive parts, cut at thirds of the length. */
  function WriteFragments(env: Env, d: Disks, a: Address, v: Json): Disks
  {
    var enc := Masked(env, a, v);
    var i, j := |enc| / 3, |enc| * 2 / 3;
    Disks(d.a[a := enc[..i]], d.b[a := enc[i..j]], d.c[a := enc[j..]])
  }

  /** `Fragments.read`: nothing if a part is missing or the text does not parse. */
  function ReadFragments(env: Env, d: Disks, a: Address): Option<Json>
  {
    if a !in d.a || a !in d.b || a !in d.c then None
    else
      var enc := d.a[a] + d.b[a] + d.c[a];
      env.parse(Xor(enc, KeyStream(env, a, |enc|)))
  }

  /** What was written at an address is read back, for every length, and other addresses are untouched. */
  lemma FragmentsRoundTrip(env: Env, d: Disks, a: Address, v: Json, b: Address)
    ensures Exact(env, v) ==> ReadFragments(env, WriteFragments(env, d, a, v), a) == Some(v)
    ensures b != a ==> ReadFragments(env, WriteFragments(env, d, a, v), b) == ReadFragments(env, d, b)
  {
    var enc := Masked(env, a, v);
    var i, j := |enc| / 3, |enc| * 2 / 3;
    assert enc[..i] + enc[i..j] + enc[j..] == enc;
    XorIsInvolution(env.text(v), KeyStream(env, a, |env.text(v)|));
  }

  // ----- the memory as a state machine -----------------------------------------------------

  datatype State = State(ram: map<Code, Json>, protected: set<Code>, disks: Disks)

  const EMPTY := State(map[], {}, Disks(map[], map[], map[]))

  /** The code itself and its four neighbours in x and y, all at the same time. */
  function Halo(c: Code): set<Code> {
    {c, c.(x := c.x + 1.0), c.(x := c.x - 1.0), c.(y := c.y + 1.0), c.(y := c.y - 1.0)}
  }

  function Evicted(ram: map<Code, Json>, protected: set<Code>, now: real): map<Code, Json> {
    map c | c in ram && (c in protected || c.t >= now) :: ram[c]
  }

  function SetStep(env: Env, s: State, c: Code, v: Json): State
  {
    State(Evicted(s.ram[c := v], Halo(c), c.t), Halo(c), WriteFragments(env, s.disks, env.addr(c), v))
  }

  datatype Reply = FromRam(value: Json) | Regenerated(value: Json) | DeadLetter

  function GetReply(env: Env, s: State, c: Code): Reply
  {
    if c in Evicted(s.ram, Halo(c), c.t) then FromRam(s.ram[c])
    else
      match ReadFragments(env, s.disks, env.addr(c))
      case Some(v) => Regenerated(v)
      case None => DeadLetter
  }

  function GetStep(env: Env, s: State, c: Code): State
  {
    var ram := Evicted(s.ram, Halo(c), c.t);
    match GetReply(env, s, c)
    case Regenerated(v) => State(ram[c := v], Halo(c), s.disks)
    case _ => State(ram, Halo(c), s.disks)
  }

  datatype Op =
    | SetOp(code: Code, value: Json)
    | GetOp(code: Code)
    | EvictOp(now: real)
    | RestartOp

  /** A restart keeps the disks and forgets the rest. */
  function Step(env: Env, s: State, op: Op): State
  {
    match op
    case SetOp(c, v) => SetStep(env, s, c, v)
    case GetOp(c) => GetStep(env, s, c)
    case EvictOp(now) => s.(ram := Evicted(s.ram, s.protected, now))
    case RestartOp => State(map[], {}, s.disks)
  }

  function Run(env: Env, ops: seq<Op>): State
  {
    if ops == [] then EMPTY else Step(env, Run(env, ops[..|ops| - 1]), ops[|ops| - 1])
  }

  /** The plain map the memory stands for: the latest value set at each code. */
  function Latest(ops: seq<Op>): map<Code, Json> {
    if ops == [] then map[] else
      var before, last := Latest(ops[..|ops| - 1]), ops[|ops| - 1];
      if last.SetOp? then before[last.code := last.value] else before
  }

  // ----- transparency ---------------------------------------------------------------------------

  /** RAM holds nothing but latest values, and for the codes in use the disks hold all of them. */
  predicate Coherent(env: Env, s: State, m: map<Code, Json>, used: set<Code>) {
    && (forall c :: c in s.ram ==> c in m && s.ram[c] == m[c])
    && (forall c :: c in used ==> ReadFragments(env, s.disks, env.addr(c)) == if c in m then Some(m[c]) else None)
  }

  /** The operation stays within the codes in use, and JSON gives its value back. */
  predicate Serves(env: Env, used: set<Code>, op: Op) {
    && (op.SetOp? || op.GetOp? ==> op.code in used)
    && (op.SetOp? ==> Exact(env, op.value))
  }

  predicate ServesRun(env: Env, used: set<Code>, ops: seq<Op>) {
    forall i :: 0 <= i < |ops| ==> Serves(env, used, ops[i])
  }

  lemma StepKeepsCoherent(env: Env, s: State, m: map<Code, Json>, used: set<Code>, op: Op)
    requires Apart(env, used) && Serves(env, used, op) && Coherent(env, s, m, used)
    ensures Coherent(env, Step(env, s, op), if op.SetOp? then m[op.code := op.value] else m, used)
  {
    hide ReadFragments, WriteFragments, Halo, Exact;
    match op
    case SetOp(c, v) =>
      forall d | d in used
        ensures ReadFragments(env, WriteFragments(env, s.disks, env.addr(c), v), env.addr(d))
                == if d == c then Some(v) else ReadFragments(env, s.disks, env.addr(d))
      {
        FragmentsRoundTrip(env, s.disks, env.addr(c), v, env.addr(d));
      }
    case _ =>
  }

  lemma {:induction false} EveryRunIsCoherent(env: Env, used: set<Code>, ops: seq<Op>)
    requires Apart(env, used) && ServesRun(env, used, ops)
    ensures Coherent(env, Run(env, ops), Latest(ops), used)
  {
    hide Step, ReadFragments, Serves, Apart;
    if ops == [] {
      NothingOnDisk(env);
    } else {
      EveryRunIsCoherent(env, used, ops[..|ops| - 1]);
      StepKeepsCoherent(env, Run(env, ops[..|ops| - 1]), Latest(ops[..|ops| - 1]), used, ops[|ops| - 1]);
    }
  }

  lemma NothingOnDisk(env: Env)
    ensures forall a :: ReadFragments(env, EMPTY.disks, a) == None
  {
  }

  /** Reading `c` after the run gives the value set there last, and fails only if there is none. */
  predicate Transparent(env: Env, ops: seq<Op>, c: Code) {
    var reply := GetReply(env, Run(env, ops), c);
    if c in Latest(ops) then reply == FromRam(Latest(ops)[c]) || reply == Regenerated(Latest(ops)[c])
    else reply == DeadLetter
  }

  /**
   * Cache transparency: after any sequence of sets, gets, evictions and restarts, reading a code
   * returns the value set there last, from RAM or from the disks, and fails only if it was
   * never set. The codes of the run must have addresses of their own and its values must survive
   * JSON; nothing else is assumed.
   */
  lemma CacheIsTransparent(env: Env, used: set<Code>, ops: seq<Op>, c: Code)
    requires Apart(env, used) && ServesRun(env, used, ops) && c in used
    ensures Transparent(env, ops, c)
  {
    hide ReadFragments, Run, ServesRun;
    EveryRunIsCoherent(env, used, ops);
  }

  /** Two codes that share an address read each other's values. */
  lemma SharedAddressLeaks(env: Env, c: Code, d: Code, v: Json)
    requires c != d && env.addr(c) == env.addr(d) && Exact(env, v)
    ensures d !in Latest([SetOp(c, v)]) && GetReply(env, Run(env, [SetOp(c, v)]), d) == Regenerated(v)
  {
    hide ReadFragments, WriteFragments, Halo, Exact;
    var ops := [SetOp(c, v)];
    assert ops[..0] == [] && Run(env, []) == EMPTY && Latest([]) == map[];
    FragmentsRoundTrip(env, EMPTY.disks, env.addr(c), v, env.addr(c));
    assert d !in Run(env, ops).ram;
  }

  /** So addresses of their own are exactly what the codes in use need. */
  lemma TransparentIffApart(env: Env, used: set<Code>, v: Json)
    requires Exact(env, v)
    ensures Apart(env, used) <==> forall ops, c :: ServesRun(env, used, ops) && c in used ==> Transparent(env, ops, c)
  {
    hide Exact, Transparent, ServesRun;
    if Apart(env, used) {
      forall ops, c | ServesRun(env, used, ops) && c in used
        ensures Transparent(env, ops, c)
      {
        CacheIsTransparent(env, used, ops, c);
      }
    } else {
      var c, d :| c in used && d in used && env.addr(c) == env.addr(d) && c != d;
      LeakIsOpaque(env, used, c, d, v);
      assert ServesRun(env, used, [SetOp(c, v)]) && d in used;
    }
  }

  lemma LeakIsOpaque(env: Env, used: set<Code>, c: Code, d: Code, v: Json)
    requires c in used && c != d && env.addr(c) == env.addr(d) && Exact(env, v)
    ensures ServesRun(env, used, [SetOp(c, v)]) && !Transparent(env, [SetOp(c, v)], d)
  {
    hide GetReply, Run, Latest, Exact;
    SharedAddressLeaks(env, c, d, v);
  }

  // ----- the assumptions can be met ---------------------------------------------------------------

  function Position<T(==)>(l: seq<T>, x: T): (i: nat)
    ensures i <= |l| && (i < |l| ==> l[i] == x) && (x in l ==> i < |l|)
  {
    if l == [] || l[0] == x then 0 else 1 + Position(l[1..], x)
  }

  function Codes(ops: seq<Op>): seq<Code> {
    if ops == [] then [] else (if ops[0].SetOp? || ops[0].GetOp? then [ops[0].code] else []) + Codes(ops[1..])
  }

  function Values(ops: seq<Op>): seq<Json> {
    if ops == [] then [] else (if ops[0].SetOp? then [ops[0].value] else []) + Values(ops[1..])
  }

  lemma {:induction false} CodesAndValues(ops: seq<Op>, i: nat)
    requires i < |ops|
    ensures ops[i].SetOp? || ops[i].GetOp? ==> ops[i].code in Codes(ops)
    ensures ops[i].SetOp? ==> ops[i].value in Values(ops)
  {
    if i > 0 {
      CodesAndValues(ops[1..], i - 1);
    }
  }

  /** Codes numbered by their place in one list, values by theirs in another. */
  function Numbering(codes: seq<Code>, values: seq<Json>): Env {
    Env(
      (c: Code) => seq(Position(codes, c), i => 'x'),
      (a: Address, i: nat) => seq(32, k => 0),
      (v: Json) => seq(Position(values, v), i => 0),
      (b: Bytes) => if |b| < |values| then Some(values[|b|]) else None)
  }

  /** Whatever a run does and whatever is read after it, some environment serves it. */
  lemma SomeEnvironmentServes(ops: seq<Op>, c: Code) returns (env: Env, used: set<Code>)
    ensures Apart(env, used) && ServesRun(env, used, ops) && c in used
  {
    var codes, values := Codes(ops) + [c], Values(ops);
    env := Numbering(codes, values);
    used := set d | d in codes;
    forall d, e | d in used && e in used && env.addr(d) == env.addr(e)
      ensures d == e
    {
      assert |env.addr(d)| == Position(codes, d) && |env.addr(e)| == Position(codes, e);
    }
    forall i | 0 <= i < |ops|
      ensures Serves(env, used, ops[i])
    {
      CodesAndValues(ops, i);
      if ops[i].SetOp? {
        assert |env.text(ops[i].value)| == Position(values, ops[i].value);
      }
    }
  }

  // ----- what stays in RAM ------------------------------------------------------------------------

  /** After a set or a get at `c`, nothing in RAM is older than `c`. */
  lemma NothingOlderStays(env: Env, s: State, op: Op)
    requires (op.SetOp? || op.GetOp?)
    ensures forall d :: d in Step(env, s, op).ram ==> d.t >= op.code.t
  {
    hide ReadFragments, WriteFragments;
    assert forall d :: d in Halo(op.code) ==> d.t == op.code.t;
  }

  /** A value just set is in RAM; a value just read successfully is, too. */
  lemma JustUsedIsInRam(env: Env, s: State, op: Op)
    requires (op.SetOp? || (op.GetOp? && !GetReply(env, s, op.code).DeadLetter?))
    ensures op.code in Step(env, s, op).ram
    ensures op.SetOp? ==> Step(env, s, op).ram[op.code] == op.value
    ensures op.GetOp? ==> Step(env, s, op).ram[op.code] == GetReply(env, s, op.code).value
  {
    hide ReadFragments, WriteFragments;
    assert op.code in Halo(op.code);
  }

  /** Same height, time and scale, and at most one unit step away in x or in y. */
  predicate Neighbour(c: Code, d: Code) {
    && d.z == c.z && d.t == c.t && d.s == c.s
    && ((d.x == c.x && d.y - c.y in {-1.0, 0.0, 1.0}) || (d.y == c.y && d.x - c.x in {-1.0, 1.0}))
  }

  /** An explicit eviction after a use of `c` spares exactly its neighbours and what is recent enough. */
  lemma EvictionSparesNeighbours(env: Env, s: State, op: Op, now: real, d: Code)
    requires (op.SetOp? || op.GetOp?)
    ensures var used := Step(env, s, op);
            d in Step(env, used, EvictOp(now)).ram <==> d in used.ram && (Neighbour(op.code, d) || d.t >= now)
  {
    hide ReadFragments, WriteFragments, Evicted;
    HaloIsNeighbourhood(op.code, d);
    EvictedHas(Step(env, s, op).ram, Halo(op.code), now, d);
  }

  lemma HaloIsNeighbourhood(c: Code, d: Code)
    ensures d in Halo(c) <==> Neighbour(c, d)
  {
  }

  lemma EvictedHas(ram: map<Code, Json>, protected: set<Code>, now: real, d: Code)
    ensures d in Evicted(ram, protected, now) <==> d in ram && (d in protected || d.t >= now)
  {
  }

  // ----- what is on disk, what is in RAM --------------------------------------------------------------

  /** The key stream is the hash blocks of the address, one after the other. */
  lemma StreamIsBlocks(env: Env, a: Address, n: nat, k: nat)
    requires 32 * k + 32 <= n
    ensures KeyStream(env, a, n)[32 * k..32 * k + 32] == env.block(a, k)
  {
    forall j | 0 <= j < 32
      ensures KeyByte(env, a, 32 * k + j) == env.block(a, k)[j]
    {
      assert (32 * k + j) / 32 == k && (32 * k + j) % 32 == j;
    }
  }

  /**
   * Writing puts the masked text on the disks, in order and a third on each to within a byte, and
   * leaves what is stored at other addresses. No byte of the text is stored but under its key byte.
   */
  lemma WriteAnswers(env: Env, d: Disks, a: Address, v: Json)
    ensures var w := WriteFragments(env, d, a, v);
            var n := |env.text(v)|;
            && a in w.a && a in w.b && a in w.c
            && |w.a[a]| <= |w.b[a]| + 1 && |w.b[a]| <= |w.a[a]| + 1 && |w.b[a]| <= |w.c[a]| + 1 && |w.c[a]| <= |w.a[a]| + 1
            && |w.a[a] + w.b[a] + w.c[a]| == n
            && (forall k :: 0 <= k < n ==> (w.a[a] + w.b[a] + w.c[a])[k] == env.text(v)[k] ^ KeyByte(env, a, k))
            && w.a - {a} == d.a - {a} && w.b - {a} == d.b - {a} && w.c - {a} == d.c - {a}
  {
    hide KeyByte;
    var enc := Masked(env, a, v);
    var i, j := |enc| / 3, |enc| * 2 / 3;
    assert enc[..i] + enc[i..j] + enc[j..] == enc;
  }

  /** Reading gives nothing exactly if a part is missing or the unmasked text does not parse. */
  lemma ReadAnswers(env: Env, d: Disks, a: Address)
    ensures ReadFragments(env, d, a) ==
            if a in d.a && a in d.b && a in d.c then
              var enc := d.a[a] + d.b[a] + d.c[a];
              env.parse(seq(|enc|, k requires 0 <= k < |enc| => enc[k] ^ KeyByte(env, a, k)))
            else None
  {
    hide KeyByte;
    if a in d.a && a in d.b && a in d.c {
      var enc := d.a[a] + d.b[a] + d.c[a];
      assert Xor(enc, KeyStream(env, a, |enc|)) == seq(|enc|, k requires 0 <= k < |enc| => enc[k] ^ KeyByte(env, a, k));
    }
  }

  /** A read answers from RAM exactly if the code is there, and from the disks only otherwise. */
  lemma GetAnswers(env: Env, s: State, c: Code)
    ensures GetReply(env, s, c) ==
            if c in s.ram then FromRam(s.ram[c])
            else
              match ReadFragments(env, s.disks, env.addr(c))
              case Some(v) => Regenerated(v)
              case None => DeadLetter
  {
    hide ReadFragments, Halo;
  }

  /** A use of `c` protects its neighbourhood, keeps every other entry that is not older, and no other; a read writes nothing. */
  lemma UseAnswers(env: Env, s: State, op: Op, d: Code)
    requires op.SetOp? || op.GetOp?
    ensures var used := Step(env, s, op);
            && (d in used.protected <==> Neighbour(op.code, d))
            && (d != op.code ==> (d in used.ram <==> d in s.ram && d.t >= op.code.t))
            && (d != op.code && d in used.ram ==> used.ram[d] == s.ram[d])
            && (op.SetOp? ==> used.disks == WriteFragments(env, s.disks, env.addr(op.code), op.value))
            && (op.GetOp? ==> used.disks == s.disks)
  {
    hide ReadFragments, WriteFragments, Halo, Evicted;
    HaloIsNeighbourhood(op.code, d);
    var ram := if op.SetOp? then s.ram[op.code := op.value] else s.ram;
    EvictedHas(ram, Halo(op.code), op.code.t, d);
    EvictedKeeps(ram, Halo(op.code), op.code.t, d);
  }

  lemma EvictedKeeps(ram: map<Code, Json>, protected: set<Code>, now: real, d: Code)
    ensures d in Evicted(ram, protected, now) ==> d in ram && Evicted(ram, protected, now)[d] == ram[d]
  {
  }

  // ----- the memory object ------------------------------------------------------------------------

  class Memory {
    const env: Env
    var ram: map<Code, Json>
    var protected: set<Code>
    var disks: Disks

    /** A new process over the disks an earlier one left. */
    constructor (env: Env, disks: Disks)
      ensures this.env == env && Snapshot() == State(map[], {}, disks)
    {
      this.env := env;
      ram, protected, this.disks := map[], {}, disks;
    }

    function Snapshot(): State
      reads this
    {
      State(ram, protected, disks)
    }

    /** Walks over the keys and deletes what is neither protected nor recent; counts the deletions. */
    method Evict(now: real) returns (killed: nat)
      modifies this`ram
      ensures ram == Evicted(old(ram), protected, now)
      ensures killed == |old(ram)| - |ram|
    {
      killed := 0;
      var keys := ram.Keys;
      while keys != {}
        invariant keys <= ram.Keys <= old(ram).Keys
        invariant forall c :: c in ram ==> ram[c] == old(ram)[c]
        invariant forall c :: c in old(ram) && c !in keys ==> (c in ram <==> c in protected || c.t >= now)
        invariant killed == |old(ram)| - |ram|
        decreases keys
      {
        var c :| c in keys;
        keys := keys - {c};
        if c !in protected && c.t < now {
          assert (ram - {c}).Keys == ram.Keys - {c};
          ram := ram - {c};
          killed := killed + 1;
        }
      }
    }

    method Set(c: Code, v: Json)
      modifies this
      ensures Snapshot() == SetStep(env, old(Snapshot()), c, v)
    {
      protected := Halo(c);
      ram := ram[c := v];
      var raw := env.text(v);
      var key := Stream(env, env.addr(c), |raw|);
      var enc := Xor(raw, key);
      var i, j := |enc| / 3, |enc| * 2 / 3;
      disks := Disks(disks.a[env.addr(c) := enc[..i]], disks.b[env.addr(c) := enc[i..j]], disks.c[env.addr(c) := enc[j..]]);
      var killed := Evict(c.t);
    }

    method Get(c: Code) returns (reply: Reply)
      modifies this
      ensures reply == GetReply(env, old(Snapshot()), c)
      ensures Snapshot() == GetStep(env, old(Snapshot()), c)
    {
      hide ReadFragments;
      protected := Halo(c);
      var killed := Evict(c.t);
      if c in ram {
        return FromRam(ram[c]);
      }
      var value := ReadFragments(env, disks, env.addr(c));
      match value
      case None =>
        reply := DeadLetter;
      case Some(v) =>
        ram := ram[c := v];
        reply := Regenerated(v);
    }
  }
}
