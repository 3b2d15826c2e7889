/** The byte-for-byte verification of an existing release directory. */
module ReleaseInventory {
  import opened Prelude

  type Content = seq<int>

  /** A relative path, component by component. */
  type Path = seq<string>

  /** What a name stands for. A file may be unreadable, and a directory may refuse to be listed. */
  datatype Node = File(content: Option<Content>) | Dir(entries: seq<Entry>) | Locked | Link | Special

  datatype Entry = Entry(name: string, node: Node)

  /** No directory lists a name twice. */
  predicate WellNamed(es: seq<Entry>) {
    && (forall i, j :: 0 <= i < j < |es| ==> es[i].name != es[j].name)
    && forall e :: e in es ==> e.node.Dir? ==> WellNamed(e.node.entries)
  }

  /** Nothing but regular files and directories that can be listed, all the way down. */
  predicate Clean(es: seq<Entry>) {
    forall e :: e in es ==>
      match e.node
      case File(_) => true
      case Dir(sub) => Clean(sub)
      case _ => false
  }

  /** Reading a path: the file there, if there is one, and its content, if it can be read. */
  function Lookup(es: seq<Entry>, rel: Path): Option<Option<Content>>
    decreases es
  {
    if es == [] || rel == [] then None
    else if es[0].name != rel[0] then Lookup(es[1..], rel)
    else
      match es[0].node
      case File(c) => if |rel| == 1 then Some(c) else None
      case Dir(sub) => Lookup(sub, rel[1..])
      case _ => None
  }

  // ----- the paths of a tree -----------------------------------------------------------

  function NodePaths(path: Path, n: Node): set<Path>
    decreases n, 0
  {
    match n
    case File(_) => {path}
    case Dir(sub) => Paths(path, sub)
    case _ => {}
  }

  function Paths(prefix: Path, es: seq<Entry>): set<Path>
    decreases es, 1
  {
    if es == [] then {} else NodePaths(prefix + [es[0].name], es[0].node) + Paths(prefix, es[1..])
  }

  lemma {:induction false} PathsBegin(prefix: Path, es: seq<Entry>, p: Path)
    requires p in Paths(prefix, es)
    ensures |p| > |prefix| && (forall k :: 0 <= k < |prefix| ==> p[k] == prefix[k]) && exists e :: e in es && e.name == p[|prefix|]
    decreases es
  {
    var e := es[0];
    if p in NodePaths(prefix + [e.name], e.node) {
      if e.node.Dir? {
        var q := prefix + [e.name];
        PathsBegin(q, e.node.entries, p);
        assert forall k :: 0 <= k < |prefix| ==> q[k] == prefix[k];
        assert q[|prefix|] == e.name;
      }
      assert e in es;
    } else {
      PathsBegin(prefix, es[1..], p);
    }
  }

  /** The paths of a directory are exactly those at which there is a file. */
  lemma {:induction false} PathsAreReadable(prefix: Path, es: seq<Entry>, rel: Path)
    requires WellNamed(es)
    ensures prefix + rel in Paths(prefix, es) <==> Lookup(es, rel).Some?
    decreases es
  {
    hide WellNamed;
    if es == [] {
    } else if rel == [] {
      if prefix + rel in Paths(prefix, es) {
        PathsBegin(prefix, es, prefix + rel);
      }
    } else {
      var e := es[0];
      var p := prefix + rel;
      assert p[|prefix|] == rel[0];
      TailWellNamed(es);
      PathsAreReadable(prefix, es[1..], rel);
      if e.name == rel[0] {
        NotInTail(prefix, es, p);
        assert p == (prefix + [e.name]) + rel[1..];
        assert |rel| == 1 ==> p == prefix + [e.name];
        if e.node.Dir? {
          PathsAreReadable(prefix + [e.name], e.node.entries, rel[1..]);
        }
      } else {
        NotBelow(prefix, e, p);
      }
    }
  }

  lemma TailWellNamed(es: seq<Entry>)
    requires WellNamed(es) && es != []
    ensures WellNamed(es[1..])
    ensures es[0].node.Dir? ==> WellNamed(es[0].node.entries)
  {
    assert es[0] in es;
  }

  lemma NotInTail(prefix: Path, es: seq<Entry>, p: Path)
    requires WellNamed(es) && es != [] && |p| > |prefix| && p[|prefix|] == es[0].name
    ensures p !in Paths(prefix, es[1..])
  {
    if p in Paths(prefix, es[1..]) {
      PathsBegin(prefix, es[1..], p);
    }
  }

  lemma NotBelow(prefix: Path, e: Entry, p: Path)
    requires |p| > |prefix| && p[|prefix|] != e.name
    ensures p !in NodePaths(prefix + [e.name], e.node)
  {
    var q := prefix + [e.name];
    assert q[|prefix|] == e.name;
    if e.node.Dir? && p in Paths(q, e.node.entries) {
      PathsBegin(q, e.node.entries, p);
    }
  }

  // ----- the inventory loop ----------------------------------------------------------------

  /** A directory still to be listed. */
  datatype Frame = Frame(path: Path, entries: seq<Entry>)

  function Weight(es: seq<Entry>): nat {
    if es == [] then 0
    else 1 + (if es[0].node.Dir? then Weight(es[0].node.entries) else 0) + Weight(es[1..])
  }

  function PendingWeight(fs: seq<Frame>): nat {
    if fs == [] then 0 else PendingWeight(fs[..|fs| - 1]) + 1 + Weight(fs[|fs| - 1].entries)
  }

  function PendingPaths(fs: seq<Frame>): set<Path> {
    if fs == [] then {} else PendingPaths(fs[..|fs| - 1]) + Paths(fs[|fs| - 1].path, fs[|fs| - 1].entries)
  }

  predicate PendingClean(fs: seq<Frame>) {
    forall f :: f in fs ==> Clean(f.entries)
  }

  lemma PushFrame(fs: seq<Frame>, f: Frame)
    ensures PendingWeight(fs + [f]) == PendingWeight(fs) + 1 + Weight(f.entries)
    ensures PendingPaths(fs + [f]) == PendingPaths(fs) + Paths(f.path, f.entries)
    ensures PendingClean(fs + [f]) <==> PendingClean(fs) && Clean(f.entries)
  {
    assert (fs + [f])[..|fs|] == fs;
  }

  /** Lists one directory: files go to the inventory, directories on the stack, anything else is a conflict. */
  method ListDirectory(f: Frame, inventory: set<Path>, pending: seq<Frame>)
    returns (ok: bool, inventory': set<Path>, pending': seq<Frame>)
    ensures ok ==> inventory' + PendingPaths(pending') == inventory + PendingPaths(pending) + Paths(f.path, f.entries)
    ensures ok ==> PendingWeight(pending') <= PendingWeight(pending) + Weight(f.entries)
    ensures ok ==> (PendingClean(pending') <==> PendingClean(pending) && Clean(f.entries))
    ensures !ok ==> !Clean(f.entries)
  {
    hide Clean, PendingClean, PendingPaths, PendingWeight;
    inventory', pending' := inventory, pending;
    for k := 0 to |f.entries|
      invariant inventory' + PendingPaths(pending') + Paths(f.path, f.entries[k..])
                == inventory + PendingPaths(pending) + Paths(f.path, f.entries)
      invariant PendingWeight(pending') + Weight(f.entries[k..]) <= PendingWeight(pending) + Weight(f.entries)
      invariant PendingClean(pending') && Clean(f.entries[k..]) <==> PendingClean(pending) && Clean(f.entries)
      invariant Clean(f.entries) ==> Clean(f.entries[k..])
    {
      var e := f.entries[k];
      var path := f.path + [e.name];
      assert f.entries[k..][0] == e && f.entries[k..][1..] == f.entries[k + 1..];
      CleanHead(f.entries[k..]);
      match e.node
      case File(_) =>
        inventory' := inventory' + {path};
      case Dir(sub) =>
        PushFrame(pending', Frame(path, sub));
        pending' := pending' + [Frame(path, sub)];
      case _ =>
        return false, {}, [];
    }
    NothingLeft();
    ok := true;
  }

  lemma NothingLeft()
    ensures Clean([]) && PendingClean([])
  {
  }

  lemma CleanHead(es: seq<Entry>)
    requires es != []
    ensures Clean(es) <==> Clean(es[1..]) && (es[0].node.File? || (es[0].node.Dir? && Clean(es[0].node.entries)))
  {
    assert es[0] in es;
    assert forall e :: e in es ==> e == es[0] || e in es[1..];
  }

  /**
   * `_release_inventory`: a stack of directories still to list. It gives the set of file paths,
   * or reports a conflict, exactly when a link, a special entry or a directory that cannot be
   * listed is somewhere in the tree.
   */
  method Inventory(root: seq<Entry>) returns (r: Option<set<Path>>)
    ensures r == if Clean(root) then Some(Paths([], root)) else None
  {
    hide Clean, PendingClean, PendingPaths, PendingWeight, Paths;
    var inventory: set<Path> := {};
    var pending := [Frame([], root)];
    NothingLeft();
    StackEmpty();
    PushFrame([], Frame([], root));
    assert [] + [Frame([], root)] == pending;
    while pending != []
      invariant inventory + PendingPaths(pending) == Paths([], root)
      invariant PendingClean(pending) <==> Clean(root)
      decreases PendingWeight(pending)
    {
      var f := pending[|pending| - 1];
      var rest := pending[..|pending| - 1];
      assert pending == rest + [f];
      PushFrame(rest, f);
      var ok, inventory', pending' := ListDirectory(f, inventory, rest);
      if !ok {
        return None;
      }
      inventory, pending := inventory', pending';
    }
    StackEmpty();
    r := Some(inventory);
  }

  lemma StackEmpty()
    ensures PendingPaths([]) == {} && PendingClean([])
  {
  }

  // ----- verification -------------------------------------------------------------------------

  /** The tree holds exactly the expected files, and each can be read. */
  ghost predicate Holds(root: seq<Entry>, expected: map<Path, Content>) {
    Clean(root) && forall p :: Lookup(root, p) == if p in expected then Some(Some(expected[p])) else None
  }

  datatype Verdict = Verified | NotFound | Conflict

  /** There is a directory to verify, listable or not. */
  predicate IsDirectory(root: Option<Node>) {
    root.Some? && (root.value.Dir? || root.value.Locked?)
  }

  lemma InventoryIsReadable(root: seq<Entry>)
    requires WellNamed(root)
    ensures forall p :: p in Paths([], root) <==> Lookup(root, p).Some?
  {
    hide WellNamed, Paths;
    forall p
      ensures p in Paths([], root) <==> Lookup(root, p).Some?
    {
      PathsAreReadable([], root, p);
      assert [] + p == p;
    }
  }

  /**
   * `_verify_expected`: the release must be a directory of its own; then comes the inventory,
   * then every expected file byte for byte. It is verified if and only if it holds exactly the
   * expected files and nothing else, and any other directory is a conflict.
   */
  method VerifyExpected(root: Option<Node>, expected: map<Path, Content>, order: seq<Path>) returns (v: Verdict)
    requires root.Some? && root.value.Dir? ==> WellNamed(root.value.entries)
    requires forall p :: p in order <==> p in expected
    ensures v == NotFound <==> !IsDirectory(root)
    ensures v == Verified <==> root.Some? && root.value.Dir? && Holds(root.value.entries, expected)
  {
    hide WellNamed, Clean, Paths, Lookup;
    if root == None || root.value.File? || root.value.Link? || root.value.Special? {
      return NotFound;
    }
    if root.value.Locked? {
      return Conflict;
    }
    var entries := root.value.entries;
    InventoryIsReadable(entries);
    var inventory := Inventory(entries);
    if inventory.None? || inventory.value != expected.Keys {
      return Conflict;
    }
    for k := 0 to |order|
      invariant forall i :: 0 <= i < k ==> Lookup(entries, order[i]) == Some(Some(expected[order[i]]))
    {
      var content := Lookup(entries, order[k]).value;
      if content == None || content.value != expected[order[k]] {
        return Conflict;
      }
    }
    v := Verified;
  }
}
