/** The file tree of the fifth iteration (src/adap-b05/files/Node.ts, Directory.ts, File.ts,
    Link.ts) as an arena: every node object is a number, and the fields the objects keep
    (`baseName`, `parentNode`, a directory's `childNodes`, a link's `targetNode`, a file's
    `state`) are maps from those numbers, updated in place by the methods. */
module FileTree {
  import opened Common

  type NodeId = nat

  /** The class a node object was created from. */
  datatype Class = NodeClass | DirectoryClass | FileClass | LinkClass

  datatype FileState = Open | Closed | Deleted

  /** Every node has a class and a base name, every node but the root a parent, every
      directory a set of nodes, every file a state, every link target is a node, and no base
      name is empty. */
  ghost predicate WellFormed(root: NodeId, kind: map<NodeId, Class>, baseName: map<NodeId, string>,
                             parent: map<NodeId, NodeId>, children: map<NodeId, set<NodeId>>,
                             target: map<NodeId, NodeId>, fileState: map<NodeId, FileState>, next: NodeId)
  {
    && root in kind && kind[root] == DirectoryClass
    && (forall n :: n in kind ==> n < next)
    && baseName.Keys == kind.Keys
    && parent.Keys == kind.Keys - {root}
    && (forall n :: n in children <==> n in kind && kind[n] == DirectoryClass)
    && (forall n :: n in fileState <==> n in kind && kind[n] == FileClass)
    && (forall n :: n in target ==> n in kind && kind[n] == LinkClass && target[n] in kind)
    && Linked(parent, children)
    && (forall n :: n in baseName ==> baseName[n] != [])
  }

  /** A node's parent is a directory holding it in its set, and a directory's set holds
      exactly the nodes whose parent it is. */
  ghost predicate Linked(parent: map<NodeId, NodeId>, children: map<NodeId, set<NodeId>>) {
    && (forall n :: n in parent ==> parent[n] in children && n in children[parent[n]])
    && (forall d, c :: d in children && c in children[d] ==> c in parent && parent[c] == d)
  }

  /** The next id names no node and sits in no directory. */
  lemma FreshIdUnused(root: NodeId, kind: map<NodeId, Class>, baseName: map<NodeId, string>,
                      parent: map<NodeId, NodeId>, children: map<NodeId, set<NodeId>>,
                      target: map<NodeId, NodeId>, fileState: map<NodeId, FileState>, next: NodeId, d: NodeId)
    requires WellFormed(root, kind, baseName, parent, children, target, fileState, next) && d in children
    ensures next !in kind && next !in children[d]
  {
    assert next !in parent;
  }

  class FileSystem {
    /** The root directory and its full name (the root class is not part of this model). */
    const root: NodeId
    const rootFullName: seq<string>

    var kind: map<NodeId, Class>
    var baseName: map<NodeId, string>
    var parent: map<NodeId, NodeId>
    var children: map<NodeId, set<NodeId>>
    var target: map<NodeId, NodeId>
    var fileState: map<NodeId, FileState>
    /** The next object to be allocated. */
    var next: NodeId

    /** The arena's shape, and the class invariant of every node: a non-empty base name. */
    ghost predicate Valid()
      reads this
    {
      WellFormed(root, kind, baseName, parent, children, target, fileState, next)
    }

    /** An arena holding only the root directory. */
    constructor(rootBaseName: string, rootFullName: seq<string>)
      requires rootBaseName != []
      ensures Valid() && fresh(this)
      ensures kind == map[0 := DirectoryClass] && children == map[0 := {}] && parent == map[]
      ensures this.rootFullName == rootFullName
      ensures AllFilesClosed()
    {
      root := 0;
      this.rootFullName := rootFullName;
      kind := map[0 := DirectoryClass];
      baseName := map[0 := rootBaseName];
      parent := map[];
      children := map[0 := {}];
      target := map[];
      fileState := map[];
      next := 1;
    }

    // -------------------------------------------------------------------------------------
    // Directory.add / Directory.remove
    // -------------------------------------------------------------------------------------

    /** `d.add(cn)`: a node already in the set is an IllegalArgument; afterwards it is in. */
    method Add(d: NodeId, cn: NodeId) returns (r: Outcome)
      requires d in children
      modifies this
      ensures cn in old(children[d]) ==> r == Fail(IllegalArgument) && children == old(children)
      ensures cn !in old(children[d]) ==> r == Pass && children == old(children)[d := old(children[d]) + {cn}]
      ensures kind == old(kind) && baseName == old(baseName) && parent == old(parent)
      ensures target == old(target) && fileState == old(fileState) && next == old(next)
      ensures old(AllFilesClosed()) ==> AllFilesClosed()
    {
      if cn in children[d] {
        return Fail(IllegalArgument);
      }
      children := children[d := children[d] + {cn}];
      r := Pass;
    }

    /** `d.remove(cn)`: a node not in the set is an IllegalArgument; afterwards it is out and
        the other members stay. */
    method Remove(d: NodeId, cn: NodeId) returns (r: Outcome)
      requires d in children
      modifies this
      ensures cn !in old(children[d]) ==> r == Fail(IllegalArgument) && children == old(children)
      ensures cn in old(children[d]) ==> r == Pass && children == old(children)[d := old(children[d]) - {cn}]
      ensures kind == old(kind) && baseName == old(baseName) && parent == old(parent)
      ensures target == old(target) && fileState == old(fileState) && next == old(next)
      ensures old(AllFilesClosed()) ==> AllFilesClosed()
    {
      if cn !in children[d] {
        return Fail(IllegalArgument);
      }
      children := children[d := children[d] - {cn}];
      r := Pass;
    }

    // -------------------------------------------------------------------------------------
    // construction
    // -------------------------------------------------------------------------------------

    /** `new Node(bn, pn)`, `new Directory(bn, pn)`, `new File(bn, pn)`, `new Link(bn, pn, tn)`.
        The node constructor rejects an empty base name and a missing parent, then registers the
        new object with its parent. The subclasses reject a base name containing '/' only after
        that, so the rejected object stays in its parent's set. */
    method CreateNode(bn: string, pn: Option<NodeId>, cls: Class, tn: Option<NodeId>) returns (r: Result<NodeId>)
      requires Valid()
      requires pn.Some? ==> pn.value in children
      requires tn.Some? ==> tn.value in kind
      modifies this
      ensures Valid()
      ensures bn == [] || pn.None? ==>
        r == Err(IllegalArgument) && kind == old(kind) && baseName == old(baseName) && parent == old(parent)
        && children == old(children) && target == old(target) && fileState == old(fileState)
      ensures bn != [] && pn.Some? ==>
        var id := old(next);
        var p := pn.value;
        && id !in old(kind)
        && kind == old(kind)[id := cls]
        && baseName == old(baseName)[id := bn]
        && parent == old(parent)[id := p]
        && children == (if cls == DirectoryClass then old(children)[p := old(children[p]) + {id}][id := {}]
                        else old(children)[p := old(children[p]) + {id}])
        && fileState == (if cls == FileClass then old(fileState)[id := Closed] else old(fileState))
        && (cls != NodeClass && '/' in bn ==> r == Err(IllegalArgument) && target == old(target))
        && (cls == NodeClass || '/' !in bn ==>
              r == Ok(id)
              && target == (if cls == LinkClass && tn.Some? then old(target)[id := tn.value] else old(target)))
      ensures old(AllFilesClosed()) ==> AllFilesClosed()
    {
      if bn == [] || pn.None? {
        return Err(IllegalArgument);
      }
      var id := next;
      var p := pn.value;
      ghost var (kind0, baseName0, parent0, children0, target0, fileState0) := (kind, baseName, parent, children, target, fileState);
      FreshIdUnused(root, kind, baseName, parent, children, target, fileState, next, p);
      next := next + 1;
      kind := kind[id := cls];
      baseName := baseName[id := bn];
      parent := parent[id := p];
      var added := Add(p, id);
      if cls == DirectoryClass {
        children := children[id := {}];
      }
      if cls == FileClass {
        fileState := fileState[id := Closed];
      }
      var accepted := cls == NodeClass || '/' !in bn;
      var linked := if accepted && cls == LinkClass then tn else None;
      if linked.Some? {
        target := target[id := linked.value];
      }
      r := if accepted then Ok(id) else Err(IllegalArgument);
      CreateKeepsWellFormed(root, kind0, baseName0, parent0, children0, target0, fileState0, id, bn, p, cls, linked,
        kind, baseName, parent, children, target, fileState);
    }

    // -------------------------------------------------------------------------------------
    // base names, links and renaming
    // -------------------------------------------------------------------------------------

    /** The node a `getBaseName` or `rename` call lands on: a link hands it on to its target,
        and a link without one fails `ensureTargetNode` with an IllegalArgument. None: the
        chain of targets does not end within `fuel` links. */
    function ResolveWithin(n: NodeId, fuel: nat): (r: Option<Result<NodeId>>)
      reads this
      ensures r.Some? && r.value.Ok? ==> !(r.value.value in kind && kind[r.value.value] == LinkClass)
      ensures r.Some? && r.value.Err? ==> r.value.error == IllegalArgument
      decreases fuel
    {
      if !(n in kind && kind[n] == LinkClass) then Some(Ok(n))
      else if n !in target then Some(Err(IllegalArgument))
      else if fuel == 0 then None
      else ResolveWithin(target[n], fuel - 1)
    }

    /** A chain of distinct links is no longer than the number of nodes. */
    function Resolve(n: NodeId): (r: Option<Result<NodeId>>)
      reads this
      ensures !(n in kind && kind[n] == LinkClass) ==> r == Some(Ok(n))
      ensures r.Some? && r.value.Ok? ==> !(r.value.value in kind && kind[r.value.value] == LinkClass)
      ensures r.Some? && r.value.Err? ==> r.value.error == IllegalArgument
    {
      ResolveWithin(n, |kind|)
    }

    /** `getBaseName()`: the own base name, or for a link the target's. */
    function BaseNameOf(n: NodeId): (r: Option<Result<string>>)
      reads this
      ensures Resolve(n).None? <==> r.None?
      ensures r.Some? && r.value.Err? ==> r.value.error == IllegalArgument
    {
      match Resolve(n)
      case None => None
      case Some(Err(e)) => Some(Err(e))
      case Some(Ok(t)) => Some(Ok(if t in baseName then baseName[t] else []))
    }

    function GetTargetNode(l: NodeId): (r: Option<NodeId>)
      reads this
      ensures r.Some? <==> l in target
      ensures r.Some? ==> r.value == target[l]
    {
      if l in target then Some(target[l]) else None
    }

    method SetTargetNode(l: NodeId, t: NodeId)
      requires Valid() && l in kind && kind[l] == LinkClass && t in kind
      modifies this
      ensures Valid()
      ensures target == old(target)[l := t]
      ensures kind == old(kind) && baseName == old(baseName) && parent == old(parent)
      ensures children == old(children) && fileState == old(fileState) && next == old(next)
      ensures old(AllFilesClosed()) ==> AllFilesClosed()
    {
      SetTargetKeepsWellFormed(root, kind, baseName, parent, children, target, fileState, next, l, t);
      target := target[l := t];
    }

    /** `rename(bn)`: a link renames its target (through any further links) and not itself; the
        node that is renamed requires a non-empty base name and changes nothing else. */
    method Rename(n: NodeId, bn: string) returns (r: Outcome)
      requires Valid() && n in kind && Resolve(n).Some?
      modifies this
      ensures Valid()
      ensures old(Resolve(n)).value.Err? || bn == [] ==> r == Fail(IllegalArgument) && baseName == old(baseName)
      ensures old(Resolve(n)).value.Ok? && bn != [] ==>
        var t := old(Resolve(n)).value.value;
        r == Pass && t in old(baseName) && baseName == old(baseName)[t := bn]
      ensures kind == old(kind) && parent == old(parent) && children == old(children)
      ensures target == old(target) && fileState == old(fileState) && next == old(next)
      ensures old(AllFilesClosed()) ==> AllFilesClosed()
    {
      var t := Resolve(n).value;
      if t.Err? {
        return Fail(t.error);
      }
      if bn == [] {
        return Fail(IllegalArgument);
      }
      ResolveStaysInArena(this, n, |kind|);
      RenameKeepsWellFormed(root, kind, baseName, parent, children, target, fileState, next, t.value, bn);
      baseName := baseName[t.value := bn];
      r := Pass;
    }

    // -------------------------------------------------------------------------------------
    // move
    // -------------------------------------------------------------------------------------

    /** `move(to)`: remove from the old parent's set, add to the new one's, repoint the parent,
        then check the class invariant. When `add` fails the node has already left the old
        set: the move is not atomic. */
    method Move(n: NodeId, to: NodeId) returns (r: Outcome)
      requires n in parent && parent[n] in children && to in children && n in baseName
      modifies this
      ensures var p := old(parent[n]);
        n !in old(children[p]) ==> r == Fail(IllegalArgument) && children == old(children) && parent == old(parent)
      ensures var p := old(parent[n]);
        var mid := old(children)[p := old(children[p]) - {n}];
        n in old(children[p]) && n in mid[to] ==> r == Fail(IllegalArgument) && children == mid && parent == old(parent)
      ensures var p := old(parent[n]);
        var mid := old(children)[p := old(children[p]) - {n}];
        n in old(children[p]) && n !in mid[to] ==>
          && children == mid[to := mid[to] + {n}]
          && parent == old(parent)[n := to]
          && r == (if old(baseName[n]) == [] then Fail(InvalidState) else Pass)
      ensures kind == old(kind) && baseName == old(baseName) && target == old(target)
      ensures fileState == old(fileState) && next == old(next)
      ensures old(Valid()) ==> r == Pass && Valid()
      ensures old(AllFilesClosed()) ==> AllFilesClosed()
    {
      if Valid() {
        MoveKeepsWellFormed(root, kind, baseName, parent, children, target, fileState, next, n, to);
      }
      var removed := Remove(parent[n], n);
      if removed.Fail? {
        return removed;
      }
      var added := Add(to, n);
      if added.Fail? {
        return added;
      }
      parent := parent[n := to];
      if baseName[n] == [] {
        return Fail(InvalidState);
      }
      r := Pass;
    }

    // -------------------------------------------------------------------------------------
    // getFullName
    // -------------------------------------------------------------------------------------

    /** `getFullName()`: the parent's full name with this node's `getBaseName()` appended; the
        root's full name is given. None: the parents do not lead to the root within `fuel`
        steps, or a link's targets do not end. */
    function FullNameOf(n: NodeId, fuel: nat): (r: Option<Result<seq<string>>>)
      reads this
      ensures n == root ==> r == Some(Ok(rootFullName))
      ensures n != root && r.Some? && r.value.Ok? ==>
        && fuel > 0 && n in parent
        && FullNameOf(parent[n], fuel - 1).Some? && FullNameOf(parent[n], fuel - 1).value.Ok?
        && BaseNameOf(n).Some? && BaseNameOf(n).value.Ok?
        && r.value.value == FullNameOf(parent[n], fuel - 1).value.value + [BaseNameOf(n).value.value]
      ensures r.Some? && r.value.Err? ==> r.value.error == IllegalArgument
      decreases fuel
    {
      if n == root then Some(Ok(rootFullName))
      else if fuel == 0 || n !in parent then None
      else
        match FullNameOf(parent[n], fuel - 1)
        case None => None
        case Some(Err(e)) => Some(Err(e))
        case Some(Ok(xs)) =>
          match BaseNameOf(n)
          case None => None
          case Some(Err(e)) => Some(Err(e))
          case Some(Ok(b)) => Some(Ok(xs + [b]))
    }

    /** The number of parent steps from `n` to the root, if it is reached within `fuel`. */
    function DepthOf(n: NodeId, fuel: nat): Option<nat>
      reads this
      decreases fuel
    {
      if n == root then Some(0)
      else if fuel == 0 || n !in parent then None
      else match DepthOf(parent[n], fuel - 1)
        case None => None
        case Some(k) => Some(k + 1)
    }

    // -------------------------------------------------------------------------------------
    // File
    // -------------------------------------------------------------------------------------

    /** `open()`: requires a closed file; that check and the class invariant check both end up
        as a ServiceFailure. Nothing is assigned. */
    function Open(f: NodeId): (r: Outcome)
      requires f in fileState && f in baseName
      reads this
      ensures r.Pass? <==> fileState[f] == Closed && baseName[f] != []
      ensures r.Fail? ==> r.error == ServiceFailure
    {
      if fileState[f] != Closed then Fail(ServiceFailure)
      else if baseName[f] == [] then Fail(ServiceFailure)
      else Pass
    }

    /** `close()`: requires an open file, with the same wrapping. Nothing is assigned. */
    function Close(f: NodeId): (r: Outcome)
      requires f in fileState && f in baseName
      reads this
      ensures r.Pass? <==> fileState[f] == FileState.Open && baseName[f] != []
      ensures r.Fail? ==> r.error == ServiceFailure
    {
      if fileState[f] != FileState.Open then Fail(ServiceFailure)
      else if baseName[f] == [] then Fail(ServiceFailure)
      else Pass
    }

    /** Every file is CLOSED. The constructor establishes this, and every operation keeps it:
        none assigns a file's state, and a new file starts CLOSED. */
    predicate AllFilesClosed()
      reads this
    {
      forall f :: f in fileState ==> fileState[f] == Closed
    }

    // -------------------------------------------------------------------------------------
    // findNodes
    // -------------------------------------------------------------------------------------

    /** The nodes of the subtree below `n`, `n` included, explored `fuel` levels deep. */
    function Subtree(n: NodeId, fuel: nat): (r: set<NodeId>)
      reads this
      ensures n in r
      decreases fuel, 0
    {
      if fuel == 0 || n !in children then {n}
      else {n} + Subtrees(children[n], fuel - 1)
    }

    /** The union of the subtrees below the nodes of `cs`. */
    function Subtrees(cs: set<NodeId>, fuel: nat): set<NodeId>
      reads this
      decreases fuel, 1
    {
      set c, m | c in cs && m in Subtree(c, fuel) :: m
    }

    /** The directories below `n` end within `fuel` levels, so the recursion of `findNodes`
        ends; a directory moved into its own subtree makes a cycle where it never does. */
    ghost predicate Bounded(n: NodeId, fuel: nat)
      reads this
      decreases fuel
    {
      fuel > 0 && (n in children ==> forall c :: c in children[n] ==> Bounded(c, fuel - 1))
    }

    /** `Node.findNodes(bn)` on one node, for a non-empty `bn`: the node itself when its
        `getBaseName()` is `bn`. A failing `getBaseName` (a link without a target, or one whose
        targets never end and so overflow the stack) and a failing class invariant are caught
        and rethrown as a ServiceFailure. */
    function NodeFind(m: NodeId, bn: string): (r: Result<set<NodeId>>)
      reads this
      ensures r.Err? ==> r.error == ServiceFailure
      ensures r.Ok? ==> r.value == if BaseNameOf(m) == Some(Ok(bn)) then {m} else {}
    {
      match BaseNameOf(m)
      case Some(Ok(b)) =>
        if m in baseName && baseName[m] != [] then Ok(if b == bn then {m} else {}) else Err(ServiceFailure)
      case _ => Err(ServiceFailure)
    }

    predicate AnyFails(s: set<NodeId>, bn: string)
      reads this
    {
      exists m :: m in s && NodeFind(m, bn).Err?
    }

    function MatchesIn(s: set<NodeId>, bn: string): set<NodeId>
      reads this
    {
      set m | m in s && BaseNameOf(m) == Some(Ok(bn))
    }

    /** What `findNodes(bn)` returns, stated over the whole subtree `sub`: an empty `bn` is an
        IllegalArgument; otherwise a ServiceFailure if any node of the subtree fails, else
        every node of the subtree whose base name is `bn`. */
    function FindIn(sub: set<NodeId>, bn: string): (r: Result<set<NodeId>>)
      reads this
      ensures r.Ok? ==> r.value <= sub
    {
      if bn == [] then Err(IllegalArgument)
      else if AnyFails(sub, bn) then Err(ServiceFailure)
      else Ok(MatchesIn(sub, bn))
    }

    /** `findNodes(bn)`: an empty `bn` is an IllegalArgument; a node that is not a directory
        searches itself; a directory checks its invariant, takes its own match, then adds the
        matches of its children. */
    method FindNodes(n: NodeId, bn: string, ghost fuel: nat, ghost sub: set<NodeId>) returns (r: Result<set<NodeId>>)
      requires DirectoriesNamed() && Bounded(n, fuel) && sub == Subtree(n, fuel)
      ensures r == FindIn(sub, bn)
      decreases fuel, 2
    {
      if bn == [] {
        return Err(IllegalArgument);
      }
      var own := NodeFind(n, bn);
      if n !in children {
        LeafSearch(n, bn, fuel);
        return own;
      }
      // A directory's own invariant check and its own match through `super.findNodes` cannot
      // fail in a valid arena: a directory's base name is its own, and it is not empty.
      assert own.Ok?;
      ghost var below := Subtrees(children[n], fuel - 1);
      assert sub == {n} + below;
      ghost var subs := ChildSubtrees(n, fuel - 1, below);
      var inner := SearchChildren(n, bn, fuel - 1, subs);
      UnionOfSearches({n}, below, bn);
      assert !AnyFails({n}, bn) && MatchesIn({n}, bn) == own.value;
      if inner.Err? {
        return inner;
      }
      r := Ok(own.value + inner.value);
    }

    /** The loop of a directory's `findNodes` over its children: each child's matches are
        added; the first failure ends the search, wrapped as a ServiceFailure when it is an
        InvalidState or a MethodFailed. */
    method SearchChildren(n: NodeId, bn: string, ghost fuel: nat, ghost subs: map<NodeId, set<NodeId>>)
      returns (r: Result<set<NodeId>>)
      requires DirectoriesNamed() && n in children && bn != []
      requires subs.Keys == children[n] && forall c :: ChildSubtree(subs, c, fuel)
      ensures r == FindIn(UnionOf(subs), bn)
      decreases fuel + 1, 1
    {
      var found: set<NodeId> := {};
      var rest := children[n];
      ghost var seen: set<NodeId> := {};
      ghost var all := UnionOf(subs);
      NothingSearched(bn);
      while rest != {}
        invariant rest <= subs.Keys && seen <= all
        invariant forall c :: c in subs && c !in rest ==> subs[c] <= seen
        invariant FindIn(seen, bn) == Ok(found)
        decreases |rest|
      {
        var c :| c in rest;
        var s := SearchChild(c, bn, fuel, subs, all, seen, found);
        if s.Err? {
          return Err(if s.error == InvalidState || s.error == MethodFailed then ServiceFailure else s.error);
        }
        found := found + s.value;
        rest := rest - {c};
        seen := seen + subs[c];
      }
      UnionWithin(subs, seen);
      assert seen == all;
      r := Ok(found);
    }

    /** One turn of that loop: the search below child `c`, and what it adds to the matches
        found so far. */
    method SearchChild(c: NodeId, bn: string, ghost fuel: nat, ghost subs: map<NodeId, set<NodeId>>,
                       ghost all: set<NodeId>, ghost seen: set<NodeId>, ghost found: set<NodeId>)
      returns (s: Result<set<NodeId>>)
      requires DirectoriesNamed() && bn != [] && c in subs && forall k :: ChildSubtree(subs, k, fuel)
      requires all == UnionOf(subs) && seen <= all && FindIn(seen, bn) == Ok(found)
      ensures s.Err? ==> s == Err(ServiceFailure) && FindIn(all, bn) == s
      ensures s.Ok? ==> FindIn(seen + subs[c], bn) == Ok(found + s.value)
      decreases fuel + 1, 0
    {
      assert ChildSubtree(subs, c, fuel);
      InUnion(subs, c);
      s := FindNodes(c, bn, fuel, subs[c]);
      SearchStep(all, seen, subs[c], found, s, bn);
    }

    /** A node that is not a directory searches itself only. */
    lemma LeafSearch(n: NodeId, bn: string, fuel: nat)
      requires n !in children && bn != []
      ensures FindIn(Subtree(n, fuel), bn) == NodeFind(n, bn)
    {
      assert Subtree(n, fuel) == {n};
      assert MatchesIn({n}, bn) == (if BaseNameOf(n) == Some(Ok(bn)) then {n} else {});
      assert AnyFails({n}, bn) <==> NodeFind(n, bn).Err?;
    }

    /** The subtrees of a bounded directory's children, each bounded one level less and lying
        within the directory's own. */
    lemma ChildSubtrees(n: NodeId, f: nat, all: set<NodeId>) returns (subs: map<NodeId, set<NodeId>>)
      requires n in children && Bounded(n, f + 1) && all == Subtrees(children[n], f)
      ensures subs.Keys == children[n] && UnionOf(subs) == all
      ensures forall c :: ChildSubtree(subs, c, f)
    {
      subs := map c | c in children[n] :: Subtree(c, f);
    }

    /** `subs` holds the subtree of child `c`, which is bounded by `fuel`. */
    ghost predicate ChildSubtree(subs: map<NodeId, set<NodeId>>, c: NodeId, fuel: nat)
      reads this
    {
      c in subs ==> subs[c] == Subtree(c, fuel) && Bounded(c, fuel)
    }

    /** The union of the sets a map holds. */
    static ghost function UnionOf(subs: map<NodeId, set<NodeId>>): set<NodeId> {
      set c, m | c in subs && m in subs[c] :: m
    }

    static lemma InUnion(subs: map<NodeId, set<NodeId>>, c: NodeId)
      requires c in subs
      ensures subs[c] <= UnionOf(subs)
    {
    }

    static lemma UnionWithin(subs: map<NodeId, set<NodeId>>, seen: set<NodeId>)
      requires forall c :: c in subs ==> subs[c] <= seen
      ensures UnionOf(subs) <= seen
    {
    }

    /** What a search needs of the arena: every directory has a non-empty base name of its
        own. */
    ghost predicate DirectoriesNamed()
      reads this
    {
      forall d :: d in children ==> d in kind && kind[d] == DirectoryClass && d in baseName && baseName[d] != []
    }

    lemma ValidDirectoriesNamed()
      requires Valid()
      ensures DirectoriesNamed()
    {
    }

    lemma UnionOfSearches(a: set<NodeId>, b: set<NodeId>, bn: string)
      ensures AnyFails(a + b, bn) <==> AnyFails(a, bn) || AnyFails(b, bn)
      ensures MatchesIn(a + b, bn) == MatchesIn(a, bn) + MatchesIn(b, bn)
    {
    }

    /** One child searched: a failure below fails the whole search, a success adds the
        child's matches. */
    lemma SearchStep(all: set<NodeId>, seen: set<NodeId>, below: set<NodeId>, found: set<NodeId>,
                     s: Result<set<NodeId>>, bn: string)
      requires bn != [] && seen <= all && below <= all
      requires FindIn(seen, bn) == Ok(found) && s == FindIn(below, bn)
      ensures s.Err? ==> s.error == ServiceFailure && FindIn(all, bn) == Err(ServiceFailure)
      ensures s.Ok? ==> FindIn(seen + below, bn) == Ok(found + s.value)
    {
      UnionOfSearches(seen, below, bn);
      if s.Err? {
        FailureSpreads(below, all, bn);
      }
    }

    lemma NothingSearched(bn: string)
      requires bn != []
      ensures FindIn({}, bn) == Ok({})
    {
      assert MatchesIn({}, bn) == {};
    }

    lemma FailureSpreads(a: set<NodeId>, b: set<NodeId>, bn: string)
      requires a <= b && AnyFails(a, bn)
      ensures AnyFails(b, bn)
    {
    }
  }

  // ---------------------------------------------------------------------------------------
  // properties
  // ---------------------------------------------------------------------------------------

  /** More fuel does not change a full name that was found. */
  lemma {:induction false} FullNameFuel(fs: FileSystem, n: NodeId, f: nat, g: nat)
    requires f <= g && fs.FullNameOf(n, f).Some?
    ensures fs.FullNameOf(n, g) == fs.FullNameOf(n, f)
    decreases f
  {
    if n != fs.root {
      FullNameFuel(fs, fs.parent[n], f - 1, g - 1);
    }
  }

  /** Every full name starts with the root's full name and has one more component for every
      parent step up to the root. */
  lemma {:induction false} FullNameFollowsAncestors(fs: FileSystem, n: NodeId, fuel: nat)
    requires fs.FullNameOf(n, fuel).Some? && fs.FullNameOf(n, fuel).value.Ok?
    ensures var xs := fs.FullNameOf(n, fuel).value.value;
      && fs.DepthOf(n, fuel).Some?
      && |xs| == |fs.rootFullName| + fs.DepthOf(n, fuel).value
      && xs[..|fs.rootFullName|] == fs.rootFullName
    decreases fuel
  {
    if n != fs.root {
      FullNameFollowsAncestors(fs, fs.parent[n], fuel - 1);
      var ys := fs.FullNameOf(fs.parent[n], fuel - 1).value.value;
      var xs := fs.FullNameOf(n, fuel).value.value;
      assert xs[..|ys|] == ys;
      assert xs[..|fs.rootFullName|] == ys[..|fs.rootFullName|];
    }
  }

  /** In every arena the constructor and the operations build, all files are closed (their
      ensures), so `open` passes and `close` fails on every file of a valid tree. */
  lemma OpenPassesCloseFails(fs: FileSystem, f: NodeId)
    requires fs.Valid() && fs.AllFilesClosed() && f in fs.fileState
    ensures fs.Open(f) == Pass
    ensures fs.Close(f) == Fail(ServiceFailure)
  {
  }

  /** A node that is not a directory finds itself exactly when its `getBaseName()` is `bn`. */
  lemma FindOnLeaf(fs: FileSystem, n: NodeId, bn: string, fuel: nat)
    requires fs.Valid() && n in fs.kind && n !in fs.children && bn != []
    requires fs.BaseNameOf(n).Some? && fs.BaseNameOf(n).value.Ok?
    ensures fs.FindIn(fs.Subtree(n, fuel), bn) == Ok(if fs.BaseNameOf(n).value.value == bn then {n} else {})
  {
    assert fs.Subtree(n, fuel) == {n};
    assert fs.MatchesIn({n}, bn) == (if fs.BaseNameOf(n).value.value == bn then {n} else {});
    assert !fs.AnyFails({n}, bn);
  }

  /** A link without a target spoils every search that reaches it: `getBaseName` fails inside
      `findNodes`, which turns that into a ServiceFailure. */
  lemma LinkWithoutTargetFailsSearch(fs: FileSystem, n: NodeId, bn: string, fuel: nat)
    requires fs.Valid() && n in fs.kind && fs.kind[n] == LinkClass && n !in fs.target && bn != []
    ensures fs.FindIn(fs.Subtree(n, fuel), bn) == Err(ServiceFailure)
  {
    assert n !in fs.children;
    assert fs.Subtree(n, fuel) == {n};
    assert fs.NodeFind(n, bn).Err?;
  }

  /** In a valid arena, link resolution ends at a node of the arena. */
  lemma {:induction false} ResolveStaysInArena(fs: FileSystem, n: NodeId, fuel: nat)
    requires fs.Valid() && n in fs.kind && fs.ResolveWithin(n, fuel).Some? && fs.ResolveWithin(n, fuel).value.Ok?
    ensures fs.ResolveWithin(n, fuel).value.value in fs.kind
    decreases fuel
  {
    if fs.kind[n] == LinkClass {
      ResolveStaysInArena(fs, fs.target[n], fuel - 1);
    }
  }

  // ---------------------------------------------------------------------------------------
  // the arena invariant under the updates of the methods
  // ---------------------------------------------------------------------------------------

  lemma CreateKeepsWellFormed(root: NodeId, kind: map<NodeId, Class>, baseName: map<NodeId, string>,
                              parent: map<NodeId, NodeId>, children: map<NodeId, set<NodeId>>,
                              target: map<NodeId, NodeId>, fileState: map<NodeId, FileState>, next: NodeId,
                              bn: string, p: NodeId, cls: Class, tn: Option<NodeId>,
                              k': map<NodeId, Class>, b': map<NodeId, string>, par': map<NodeId, NodeId>,
                              ch': map<NodeId, set<NodeId>>, t': map<NodeId, NodeId>, f': map<NodeId, FileState>)
    requires WellFormed(root, kind, baseName, parent, children, target, fileState, next)
    requires bn != [] && p in children && (tn.Some? ==> cls == LinkClass && tn.value in kind)
    requires k' == kind[next := cls] && b' == baseName[next := bn] && par' == parent[next := p]
    requires ch' == if cls == DirectoryClass then children[p := children[p] + {next}][next := {}]
                    else children[p := children[p] + {next}]
    requires t' == (if tn.Some? then target[next := tn.value] else target)
    requires f' == if cls == FileClass then fileState[next := Closed] else fileState
    ensures next !in kind && p != next && next !in children[p]
    ensures WellFormed(root, k', b', par', ch', t', f', next + 1)
  {
    assert next !in kind && next !in parent && next !in children;
    assert next !in children[p];
    CreateKeepsDomains(root, kind, baseName, parent, next, bn, p, cls, k', b', par');
    CreateKeepsClasses(kind, children, target, fileState, next, p, cls, tn, k', ch', t', f');
    CreateKeepsLinked(parent, children, next, p, cls == DirectoryClass, par', ch');
  }

  lemma CreateKeepsDomains(root: NodeId, kind: map<NodeId, Class>, baseName: map<NodeId, string>,
                           parent: map<NodeId, NodeId>, next: NodeId, bn: string, p: NodeId, cls: Class,
                           k': map<NodeId, Class>, b': map<NodeId, string>, par': map<NodeId, NodeId>)
    requires root in kind && kind[root] == DirectoryClass && (forall n :: n in kind ==> n < next)
    requires baseName.Keys == kind.Keys && parent.Keys == kind.Keys - {root}
    requires (forall n :: n in baseName ==> baseName[n] != []) && bn != []
    requires k' == kind[next := cls] && b' == baseName[next := bn] && par' == parent[next := p]
    ensures root in k' && k'[root] == DirectoryClass && (forall n :: n in k' ==> n < next + 1)
    ensures b'.Keys == k'.Keys && par'.Keys == k'.Keys - {root}
    ensures forall n :: n in b' ==> b'[n] != []
  {
    assert root != next;
  }

  lemma CreateKeepsClasses(kind: map<NodeId, Class>, children: map<NodeId, set<NodeId>>,
                           target: map<NodeId, NodeId>, fileState: map<NodeId, FileState>, next: NodeId,
                           p: NodeId, cls: Class, tn: Option<NodeId>,
                           k': map<NodeId, Class>, ch': map<NodeId, set<NodeId>>, t': map<NodeId, NodeId>,
                           f': map<NodeId, FileState>)
    requires next !in kind && p in children
    requires forall n :: n in children <==> n in kind && kind[n] == DirectoryClass
    requires forall n :: n in fileState <==> n in kind && kind[n] == FileClass
    requires forall n :: n in target ==> n in kind && kind[n] == LinkClass && target[n] in kind
    requires tn.Some? ==> cls == LinkClass && tn.value in kind
    requires k' == kind[next := cls]
    requires ch' == if cls == DirectoryClass then children[p := children[p] + {next}][next := {}]
                    else children[p := children[p] + {next}]
    requires t' == (if tn.Some? then target[next := tn.value] else target)
    requires f' == if cls == FileClass then fileState[next := Closed] else fileState
    ensures forall n :: n in ch' <==> n in k' && k'[n] == DirectoryClass
    ensures forall n :: n in f' <==> n in k' && k'[n] == FileClass
    ensures forall n :: n in t' ==> n in k' && k'[n] == LinkClass && t'[n] in k'
  {
  }

  lemma CreateKeepsLinked(parent: map<NodeId, NodeId>, children: map<NodeId, set<NodeId>>, next: NodeId,
                          p: NodeId, isDirectory: bool, par': map<NodeId, NodeId>, ch': map<NodeId, set<NodeId>>)
    requires Linked(parent, children) && p in children && p != next && next !in parent && next !in children
    requires par' == parent[next := p]
    requires ch' == if isDirectory then children[p := children[p] + {next}][next := {}]
                    else children[p := children[p] + {next}]
    ensures Linked(par', ch')
  {
    forall n | n in par'
      ensures par'[n] in ch' && n in ch'[par'[n]]
    {
      if n != next {
        assert parent[n] != next;
      }
    }
    forall d, c | d in ch' && c in ch'[d]
      ensures c in par' && par'[c] == d
    {
      if d != next && !(d == p && c == next) {
        assert c in children[d];
        assert c in parent;
        assert c != next;
      }
    }
  }

  lemma MoveKeepsWellFormed(root: NodeId, kind: map<NodeId, Class>, baseName: map<NodeId, string>,
                            parent: map<NodeId, NodeId>, children: map<NodeId, set<NodeId>>,
                            target: map<NodeId, NodeId>, fileState: map<NodeId, FileState>, next: NodeId,
                            n: NodeId, to: NodeId)
    requires WellFormed(root, kind, baseName, parent, children, target, fileState, next)
    requires n in parent && to in children
    ensures var p := parent[n];
      var mid := children[p := children[p] - {n}];
      && n in children[p] && n !in mid[to] && baseName[n] != []
      && WellFormed(root, kind, baseName, parent[n := to], mid[to := mid[to] + {n}], target, fileState, next)
  {
  }

  lemma RenameKeepsWellFormed(root: NodeId, kind: map<NodeId, Class>, baseName: map<NodeId, string>,
                              parent: map<NodeId, NodeId>, children: map<NodeId, set<NodeId>>,
                              target: map<NodeId, NodeId>, fileState: map<NodeId, FileState>, next: NodeId,
                              t: NodeId, bn: string)
    requires WellFormed(root, kind, baseName, parent, children, target, fileState, next)
    requires t in kind && bn != []
    ensures WellFormed(root, kind, baseName[t := bn], parent, children, target, fileState, next)
  {
  }

  lemma SetTargetKeepsWellFormed(root: NodeId, kind: map<NodeId, Class>, baseName: map<NodeId, string>,
                                 parent: map<NodeId, NodeId>, children: map<NodeId, set<NodeId>>,
                                 target: map<NodeId, NodeId>, fileState: map<NodeId, FileState>, next: NodeId,
                                 l: NodeId, t: NodeId)
    requires WellFormed(root, kind, baseName, parent, children, target, fileState, next)
    requires l in kind && kind[l] == LinkClass && t in kind
    ensures WellFormed(root, kind, baseName, parent, children, target[l := t], fileState, next)
  {
  }
}
