/** What one clone request does to the world, and why the work-stack loop that
    carries it out keeps its promises. The loop reads an unchanging snapshot `s`
    of the world (the engine defers every write to the end of the pass) and writes
    into the live world `g`, which starts as `g0`; the allocator starts at `n0`. */
module CloneSpec {
  import opened EntityGraph

  /** The query finds the source and it carries PrefabMarker: only then is it copied,
      attached and walked. */
  predicate Clonable(s: Graph, x: Entity) {
    x in s && s[x].prefab
  }

  /** The source root is not its own descendant, so the clone loop comes to an end. */
  ghost predicate Acyclic(s: Graph, root: Entity) {
    root in s && s[root].parent.Some? ==> s[root].parent.value !in Subtree(s, root)
  }

  /** Every entity the panel draws lies in the subtree of a parentless entity; it is not
      its own descendant, so a clone request for it meets `Acyclic`. */
  lemma DrawnAcyclic(g: Graph, r: Entity, x: Entity)
    requires Linked(g) && r in g && g[r].parent == None && x in Subtree(g, r)
    ensures Acyclic(g, x)
  {
    if x in g && g[x].parent.Some? && g[x].parent.value in Subtree(g, x) {
      var u := Subtree(g, x);
      var k := g.Keys - u;
      SubtreeClosed(g, x);
      SubtreeParents(g, x);
      forall y, c | y in k && y in g && c in g[y].children && c in g ensures c in k {
        assert g[c].parent == Some(y);
      }
      if r in u {
        SubtreeListed(g, x, r);
      }
      SubtreeLeast(g, r, k);
      assert false;
    }
  }

  /** The parent lookup of the clone loop: the clone of `p` when `p` is in the map,
      otherwise `p` itself. */
  function Remap(m: map<Entity, Entity>, p: Entity): Entity {
    if p in m then m[p] else p
  }

  /** The parent the clone of a popped source `x` ends up with. */
  function DstParent(s: Graph, m: map<Entity, Entity>, x: Entity): Option<Entity> {
    if !Clonable(s, x) then None
    else match s[x].parent
      case None => None
      case Some(p) => Some(Remap(m, p))
  }

  /** The children of a pre-existing entity once the clone of `root` has been attached to it. */
  function OldChildren(s: Graph, root: Entity, m: map<Entity, Entity>, g0: Graph, e: Entity): seq<Entity>
    requires e in g0
  {
    if root in m && Clonable(s, root) && s[root].parent == Some(e) then g0[e].children + [m[root]]
    else g0[e].children
  }

  /** The destinations that receive the ClonedEntity marker. */
  function Marks(s: Graph, m: map<Entity, Entity>): set<Entity> {
    set x | x in m && Clonable(s, x) :: m[x]
  }

  /** The set of children of a clonable source (the ones the loop pushes). */
  function ChildSet(s: Graph, x: Entity): set<Entity> {
    if Clonable(s, x) then Elems(s[x].children) else {}
  }

  /** Two different keys of `m` have different values. */
  ghost predicate Apart(m: map<Entity, Entity>, x: Entity, y: Entity) {
    x in m && y in m && x != y ==> m[x] != m[y]
  }

  /** No two keys of `m` share a value. A proof uses this for the pair it names with
      `Apart`. */
  ghost predicate Injective(m: map<Entity, Entity>) {
    forall x, y {:trigger Apart(m, x, y)} :: Apart(m, x, y)
  }

  /** `x` is in the snapshot and its parent is a popped clonable source. */
  ghost predicate HangsUnder(s: Graph, m: map<Entity, Entity>, x: Entity) {
    x in s && s[x].parent.Some? && s[x].parent.value in m && Clonable(s, s[x].parent.value)
  }

  function Sources(stack: seq<(Entity, Entity)>): set<Entity> {
    set i | 0 <= i < |stack| :: stack[i].0
  }

  /** The result of cloning the subtree of `root`, with clone map `m`: which sources
      were reached, that each has a fresh destination of its own, and what the world
      looks like afterwards. */
  ghost predicate CloneResult(s: Graph, copied: bool, root: Entity, m: map<Entity, Entity>, g0: Graph, g: Graph, n0: nat, n: nat) {
    root in m && m.Keys <= Subtree(s, root) &&
    (forall x {:trigger HangsUnder(s, m, x)} :: x in m && x != root ==> HangsUnder(s, m, x)) &&
    (forall x, c {:trigger c in s[x].children} :: x in m && Clonable(s, x) && c in s[x].children ==> c in m) &&
    Allocated(m, n0, n) && OutKeys(g0, m, g) && OutMapped(s, copied, m, g) && OutOld(s, root, g0, m, g)
  }

  /** The parent of `x`, when it has one, lists `x` among its children. Stated entity by
      entity so that a proof calls on it only where it names it. */
  ghost predicate ListedByParent(s: Graph, x: Entity) {
    x in s && s[x].parent.Some? ==> s[x].parent.value in s && x in s[s[x].parent.value].children
  }

  /** The two directions of Linked that the clone walk relies on. */
  ghost predicate Snapshot(s: Graph) {
    ChildrenPointBack(s) && forall x {:trigger ListedByParent(s, x)} :: ListedByParent(s, x)
  }

  lemma LinkedSnapshot(s: Graph)
    requires Linked(s)
    ensures Snapshot(s)
  {
    forall x ensures ListedByParent(s, x) {
      if x in s && s[x].parent.Some? {
        assert ParentsListChild(s);
      }
    }
  }

  /** Every entity of `g0` has an id below the allocator's next id `n0`. */
  ghost predicate Predates(g0: Graph, n0: nat) {
    forall e :: e in g0 ==> e < n0
  }

  // ---- The loop invariant ----

  /** What does not change during one request: the snapshot is linked, `sub` holds the
      root and is closed under children but does not hold the root's parent, and every
      snapshot entity exists in the world and predates the allocator. */
  ghost predicate Setting(s: Graph, root: Entity, sub: set<Entity>, g0: Graph, n0: nat) {
    Snapshot(s) && root in sub && Closed(s, sub) &&
    (root in s && s[root].parent.Some? ==> s[root].parent.value !in sub) &&
    s.Keys <= g0.Keys && Predates(g0, n0)
  }

  /** `dst` pairs every source pushed so far with its destination: the popped ones
      are in the clone map `m`, the pending ones on the stack, each source once. */
  ghost predicate Bookkept(m: map<Entity, Entity>, stack: seq<(Entity, Entity)>, dst: map<Entity, Entity>) {
    dst.Keys == m.Keys + Sources(stack) &&
    (forall x :: x in m ==> dst[x] == m[x]) &&
    (forall i :: 0 <= i < |stack| ==> stack[i].0 !in m && stack[i].0 in dst && dst[stack[i].0] == stack[i].1) &&
    (forall i, j {:trigger SourcesApart(stack, i, j)} :: SourcesApart(stack, i, j))
  }

  /** The stack entries at positions `i` and `j` have different sources. */
  ghost predicate SourcesApart(stack: seq<(Entity, Entity)>, i: int, j: int) {
    0 <= i < j < |stack| ==> stack[i].0 != stack[j].0
  }

  /** Every destination is a distinct id handed out since the request began. */
  ghost predicate Allocated(dst: map<Entity, Entity>, n0: nat, n: nat) {
    Injective(dst) && |dst| == n - n0 && forall x :: x in dst ==> n0 <= dst[x] < n
  }

  /** The pushed sources (and the children `owed` by the node being processed) lie in
      `sub`, each hangs under a popped clonable source, and every child of a popped
      clonable source has been pushed or is owed. */
  ghost predicate Walk(s: Graph, root: Entity, sub: set<Entity>, m: map<Entity, Entity>, dst: map<Entity, Entity>, owed: set<Entity>) {
    root in dst && root !in owed && dst.Keys !! owed && m.Keys <= dst.Keys &&
    dst.Keys <= sub && owed <= sub &&
    (forall x {:trigger HangsUnder(s, m, x)} :: x in dst && x != root ==> HangsUnder(s, m, x)) &&
    (forall x {:trigger HangsUnder(s, m, x)} :: x in owed ==> HangsUnder(s, m, x)) &&
    (forall x, c {:trigger c in s[x].children} :: x in m && Clonable(s, x) && c in s[x].children ==> c in dst || c in owed)
  }

  /** The live world: pre-existing entities keep their parent and flag, popped
      destinations have their remapped parent, pending ones are still empty. */
  ghost predicate Output(s: Graph, copied: bool, root: Entity, g0: Graph, m: map<Entity, Entity>,
                         stack: seq<(Entity, Entity)>, dst: map<Entity, Entity>, g: Graph)
  {
    OutKeys(g0, dst, g) && OutMapped(s, copied, m, g) && OutPending(stack, g) && OutOld(s, root, g0, m, g)
  }

  /** The world holds the old entities and the destinations, and nothing else. */
  ghost predicate OutKeys(g0: Graph, dst: map<Entity, Entity>, g: Graph) {
    g0.Keys <= g.Keys &&
    (forall x {:trigger dst[x]} :: x in dst ==> dst[x] in g) &&
    (forall e :: e in g ==> e in g0 || e in dst.Values)
  }

  /** Each popped source's destination has its remapped parent, and carries PrefabMarker
      exactly when the source is clonable and the component copy carries it over. */
  ghost predicate OutMapped(s: Graph, copied: bool, m: map<Entity, Entity>, g: Graph) {
    (forall x {:trigger m[x]} :: x in m ==> m[x] in g && g[m[x]].prefab == (copied && Clonable(s, x))) &&
    (forall x {:trigger DstParent(s, m, x)} :: x in m ==> m[x] in g && g[m[x]].parent == DstParent(s, m, x))
  }

  /** The destinations still on the stack are empty, parentless entities. */
  ghost predicate OutPending(stack: seq<(Entity, Entity)>, g: Graph) {
    forall i :: 0 <= i < |stack| ==> stack[i].1 in g && g[stack[i].1].parent == None && !g[stack[i].1].prefab
  }

  /** The old entities keep parent and flag; only the root's parent gains the root's clone. */
  ghost predicate OutOld(s: Graph, root: Entity, g0: Graph, m: map<Entity, Entity>, g: Graph) {
    g0.Keys <= g.Keys &&
    forall e :: e in g0 ==>
      g[e].parent == g0[e].parent && g[e].prefab == g0[e].prefab && g[e].children == OldChildren(s, root, m, g0, e)
  }

  ghost predicate Inv(s: Graph, copied: bool, root: Entity, sub: set<Entity>, g0: Graph, n0: nat, m: map<Entity, Entity>,
                      stack: seq<(Entity, Entity)>, dst: map<Entity, Entity>, owed: set<Entity>, g: Graph, n: nat)
  {
    Setting(s, root, sub, g0, n0) && Linked(g) && n0 <= n &&
    Bookkept(m, stack, dst) && Allocated(dst, n0, n) && Walk(s, root, sub, m, dst, owed) &&
    Output(s, copied, root, g0, m, stack, dst, g)
  }

  // ---- One lemma per step of the loop ----

  /** The first destination is allocated and pushed with the root. */
  lemma CloneStart(s: Graph, copied: bool, root: Entity, sub: set<Entity>, g0: Graph, n0: nat)
    requires Setting(s, root, sub, g0, n0) && Linked(g0)
    ensures n0 !in g0
    ensures Inv(s, copied, root, sub, g0, n0, map[], [(root, n0)], map[root := n0], {}, g0[n0 := Fresh(false)], n0 + 1)
  {
    var stack := [(root, n0)];
    assert Sources(stack) == {root} by {
      assert stack[0].0 == root;
    }
    StartOutput(s, copied, root, g0, n0);
    SpawnLinked(g0, n0, false);
  }

  lemma StartOutput(s: Graph, copied: bool, root: Entity, g0: Graph, n0: nat)
    requires Predates(g0, n0)
    ensures Output(s, copied, root, g0, map[], [(root, n0)], map[root := n0], g0[n0 := Fresh(false)])
  {
    var dst := map[root := n0];
    assert dst[root] in dst.Values;
  }

  /** `d` after the component copy (clone_entity_flat) has set its PrefabMarker flag to
      `copied`: whether the copy carries PrefabMarker over is decided by the component
      registry, outside the hierarchy panel. */
  function Flagged(g: Graph, d: Entity, copied: bool): (r: Graph)
    requires d in g
    ensures r.Keys == g.Keys && r[d].prefab == copied
    ensures forall x :: x in g ==> r[x].parent == g[x].parent && r[x].children == g[x].children
    ensures forall x :: x in g && x != d ==> r[x].prefab == g[x].prefab
  {
    g[d := g[d].(prefab := copied)]
  }

  lemma FlaggedLinked(g: Graph, d: Entity, copied: bool)
    requires Linked(g) && d in g
    ensures Linked(Flagged(g, d, copied))
  {
    var r := Flagged(g, d, copied);
    forall e, c | e in r && c in r[e].children ensures c in r && r[c].parent == Some(e) {
      assert c in g[e].children;
    }
  }

  /** The world after the popped `(src, d)` is placed: when the source is clonable, `d`
      receives the copied flag and, when the source has a parent, is attached under the
      remapped parent (add_child); otherwise nothing changes. */
  ghost predicate Placed(s: Graph, copied: bool, m: map<Entity, Entity>, g: Graph, src: Entity, d: Entity, g': Graph) {
    if !Clonable(s, src) then g' == g
    else
      d in g &&
      var g1 := Flagged(g, d, copied);
      if s[src].parent.Some? then
        var np := Remap(m[src := d], s[src].parent.value);
        np in g && np != d && g' == Adopt(g1, np, d)
      else g' == g1
  }

  /** When `(src, d)` is popped, the source was never popped before and its destination
      is a still-empty entity that no popped source owns. */
  lemma PopFresh(m: map<Entity, Entity>, stack: seq<(Entity, Entity)>, dst: map<Entity, Entity>,
                 g: Graph, n0: nat, n: nat, src: Entity, d: Entity)
    requires Bookkept(m, stack, dst) && Allocated(dst, n0, n) && OutPending(stack, g)
    requires stack != [] && stack[|stack| - 1] == (src, d)
    ensures src !in m && src in dst && d in g && g[d].parent == None && !g[d].prefab
    ensures n0 <= d < n && forall x :: x in m ==> m[x] != d
  {
    assert dst[src] == d;
    forall x | x in m ensures m[x] != d {
      assert dst[x] == m[x];
      assert Apart(dst, x, src);
    }
  }

  /** Popped sources own ids allocated during the request, none of them an old entity. */
  lemma MappedNew(g0: Graph, n0: nat, m: map<Entity, Entity>, stack: seq<(Entity, Entity)>, dst: map<Entity, Entity>, n: nat)
    requires Bookkept(m, stack, dst) && Allocated(dst, n0, n) && Predates(g0, n0)
    ensures forall x :: x in m ==> m[x] !in g0
  {
    forall x | x in m ensures n0 <= m[x] {
      assert dst[x] == m[x];
    }
  }

  /** The parent lookup of a popped clonable source with a parent names a live entity
      other than its destination, and finds a clone exactly when the source is not the root. */
  lemma PopParent(s: Graph, copied: bool, root: Entity, sub: set<Entity>, g0: Graph, n0: nat, m: map<Entity, Entity>,
                  dst: map<Entity, Entity>, g: Graph, src: Entity, d: Entity)
    requires Setting(s, root, sub, g0, n0) && Walk(s, root, sub, m, dst, {}) && OutKeys(g0, dst, g) && OutMapped(s, copied, m, g)
    requires src in dst && src !in m && n0 <= d && forall x :: x in m ==> m[x] != d
    requires Clonable(s, src) && s[src].parent.Some?
    ensures var p := s[src].parent.value;
      Remap(m[src := d], p) == Remap(m, p) && Remap(m, p) in g && Remap(m, p) != d &&
      (p in m <==> src != root)
  {
    var p := s[src].parent.value;
    assert ListedByParent(s, src);
    if src == root {
      assert p !in dst;
      assert p in g0;
    } else {
      assert HangsUnder(s, m, src);
    }
  }

  /** Popping `(src, d)`: the map records `src`, its destination is placed, and the
      source's children, when it is clonable, become owed. */
  lemma Popped(s: Graph, copied: bool, root: Entity, sub: set<Entity>, g0: Graph, n0: nat, m: map<Entity, Entity>,
               stack: seq<(Entity, Entity)>, dst: map<Entity, Entity>, g: Graph, n: nat, src: Entity, d: Entity, g': Graph)
    requires Inv(s, copied, root, sub, g0, n0, m, stack, dst, {}, g, n)
    requires stack != [] && stack[|stack| - 1] == (src, d)
    requires Placed(s, copied, m, g, src, d, g')
    ensures Inv(s, copied, root, sub, g0, n0, m[src := d], stack[..|stack| - 1], dst, ChildSet(s, src), g', n)
  {
    PopFresh(m, stack, dst, g, n0, n, src, d);
    MappedNew(g0, n0, m, stack, dst, n);
    if Clonable(s, src) {
      FlaggedLinked(g, d, copied);
      if s[src].parent.Some? {
        PopParent(s, copied, root, sub, g0, n0, m, dst, g, src, d);
        AdoptLinked(Flagged(g, d, copied), Remap(m[src := d], s[src].parent.value), d);
      }
    }
    PoppedBookkept(m, stack, dst, src, d);
    PoppedWalk(s, root, sub, g0, n0, m, dst, src, d);
    KeptParents(s, root, sub, m, dst, src, d);
    PoppedMapped(s, copied, m, g, src, d, g');
    PlacedNodes(s, copied, m, g, src, d, g');
    PoppedPending(m, stack, dst, g, n0, n, src, d, g');
    PoppedOld(s, copied, root, g0, m, g, src, d, g');
  }

  lemma PoppedBookkept(m: map<Entity, Entity>, stack: seq<(Entity, Entity)>, dst: map<Entity, Entity>, src: Entity, d: Entity)
    requires Bookkept(m, stack, dst) && stack != [] && stack[|stack| - 1] == (src, d)
    ensures Bookkept(m[src := d], stack[..|stack| - 1], dst)
  {
    var k := |stack| - 1;
    var stack' := stack[..k];
    assert Sources(stack) == Sources(stack') + {src} by {
      forall x | x in Sources(stack) ensures x in Sources(stack') + {src} {
        var i :| 0 <= i < |stack| && stack[i].0 == x;
        if i < k { assert stack'[i].0 == x; }
      }
      forall x | x in Sources(stack') ensures x in Sources(stack) {
        var i :| 0 <= i < |stack'| && stack'[i].0 == x;
        assert stack[i].0 == x;
      }
    }
    forall i, j ensures SourcesApart(stack', i, j) {
      assert SourcesApart(stack, i, j);
    }
    forall i | 0 <= i < k ensures stack'[i].0 != src {
      assert SourcesApart(stack, i, k);
    }
  }

  /** The children of the popped source are owed: each lies in `sub`, none was pushed
      before (a child has one parent, and that parent was not popped yet). */
  lemma PoppedWalk(s: Graph, root: Entity, sub: set<Entity>, g0: Graph, n0: nat, m: map<Entity, Entity>,
                   dst: map<Entity, Entity>, src: Entity, d: Entity)
    requires Setting(s, root, sub, g0, n0) && Walk(s, root, sub, m, dst, {}) && src in dst && src !in m
    ensures Walk(s, root, sub, m[src := d], dst, ChildSet(s, src))
  {
    OwedChildren(s, root, sub, g0, n0, m, dst, src);
    OwedJustified(s, m, src, d);
    PoppedJustified(s, root, m, dst, src, d);
    PoppedClosed(s, m, dst, src, d);
  }

  lemma OwedJustified(s: Graph, m: map<Entity, Entity>, src: Entity, d: Entity)
    requires forall c :: c in ChildSet(s, src) ==> c in s && s[c].parent == Some(src)
    ensures forall x :: x in ChildSet(s, src) ==> HangsUnder(s, m[src := d], x)
  {
  }

  lemma PoppedJustified(s: Graph, root: Entity, m: map<Entity, Entity>, dst: map<Entity, Entity>, src: Entity, d: Entity)
    requires forall x :: x in dst && x != root ==> HangsUnder(s, m, x)
    ensures forall x :: x in dst && x != root ==> HangsUnder(s, m[src := d], x)
  {
  }

  lemma PoppedClosed(s: Graph, m: map<Entity, Entity>, dst: map<Entity, Entity>, src: Entity, d: Entity)
    requires forall x, c :: x in m && Clonable(s, x) && c in s[x].children ==> c in dst
    ensures forall x, c :: x in m[src := d] && Clonable(s, x) && c in s[x].children ==> c in dst || c in ChildSet(s, src)
  {
  }

  lemma OwedChildren(s: Graph, root: Entity, sub: set<Entity>, g0: Graph, n0: nat, m: map<Entity, Entity>,
                     dst: map<Entity, Entity>, src: Entity)
    requires Setting(s, root, sub, g0, n0) && Walk(s, root, sub, m, dst, {}) && src in dst && src !in m
    ensures forall c :: c in ChildSet(s, src) ==> c in s && s[c].parent == Some(src) && c != root && c !in dst && c in sub
  {
    forall c | c in ChildSet(s, src) ensures c in s && s[c].parent == Some(src) && c != root && c !in dst && c in sub {
      assert c in s[src].children;
      assert c in dst && c != root ==> HangsUnder(s, m, c);
    }
  }

  /** Every popped source, the new one included, has its destination's parent set. */
  lemma PoppedMapped(s: Graph, copied: bool, m: map<Entity, Entity>, g: Graph, src: Entity, d: Entity, g': Graph)
    requires OutMapped(s, copied, m, g)
    requires src !in m && d in g && g[d].parent == None && !g[d].prefab
    requires forall x :: x in m ==> m[x] != d
    requires forall x :: x in m ==> DstParent(s, m[src := d], x) == DstParent(s, m, x)
    requires Placed(s, copied, m, g, src, d, g')
    ensures OutMapped(s, copied, m[src := d], g')
  {
    PlacedNodes(s, copied, m, g, src, d, g');
  }

  /** Placing `(src, d)` gives `d` its flag and remapped parent and changes no other
      entity's flag or parent. */
  lemma PlacedNodes(s: Graph, copied: bool, m: map<Entity, Entity>, g: Graph, src: Entity, d: Entity, g': Graph)
    requires d in g && g[d].parent == None && !g[d].prefab && Placed(s, copied, m, g, src, d, g')
    ensures g'[d].prefab == (copied && Clonable(s, src)) && g'[d].parent == DstParent(s, m[src := d], src)
    ensures OthersKept(g, g', d)
  {
  }

  /** `g'` has the entities of `g`, and all but `d` keep their flag and parent. */
  ghost predicate OthersKept(g: Graph, g': Graph, d: Entity) {
    g'.Keys == g.Keys && forall x :: x in g && x != d ==> g'[x].prefab == g[x].prefab && g'[x].parent == g[x].parent
  }

  /** Popping `src` changes no earlier popped source's parent lookup: the popped source
      is not the parent of any of them, since each hangs under a source popped before it. */
  lemma KeptParents(s: Graph, root: Entity, sub: set<Entity>, m: map<Entity, Entity>, dst: map<Entity, Entity>,
                    src: Entity, d: Entity)
    requires Walk(s, root, sub, m, dst, {}) && src in dst && src !in m
    requires root in s && s[root].parent.Some? ==> s[root].parent.value !in sub
    ensures forall x :: x in m ==> DstParent(s, m[src := d], x) == DstParent(s, m, x)
  {
    forall x | x in m ensures DstParent(s, m[src := d], x) == DstParent(s, m, x) {
      if x != root {
        assert HangsUnder(s, m, x);
      }
    }
  }

  /** The destinations still on the stack stay empty. */
  lemma PoppedPending(m: map<Entity, Entity>, stack: seq<(Entity, Entity)>, dst: map<Entity, Entity>,
                      g: Graph, n0: nat, n: nat, src: Entity, d: Entity, g': Graph)
    requires Bookkept(m, stack, dst) && Allocated(dst, n0, n) && OutPending(stack, g)
    requires stack != [] && stack[|stack| - 1] == (src, d)
    requires OthersKept(g, g', d)
    ensures OutPending(stack[..|stack| - 1], g')
  {
    var k := |stack| - 1;
    var rest := stack[..k];
    forall i | 0 <= i < k ensures rest[i].1 != d {
      assert SourcesApart(stack, i, k);
      assert dst[stack[i].0] == stack[i].1 && dst[stack[k].0] == d;
      assert Apart(dst, stack[i].0, stack[k].0);
    }
    PendingKept(rest, g, g', d);
  }

  /** Pending destinations other than `d` stay empty when only `d` changes. */
  lemma PendingKept(stack: seq<(Entity, Entity)>, g: Graph, g': Graph, d: Entity)
    requires OutPending(stack, g) && OthersKept(g, g', d)
    requires forall i :: 0 <= i < |stack| ==> stack[i].1 != d
    ensures OutPending(stack, g')
  {
  }

  /** Entities that existed before the request keep their parent and flag; only the
      root's original parent gains a child, the root's clone. */
  lemma PoppedOld(s: Graph, copied: bool, root: Entity, g0: Graph, m: map<Entity, Entity>, g: Graph, src: Entity, d: Entity, g': Graph)
    requires Linked(g) && OutOld(s, root, g0, m, g)
    requires src !in m && d in g && d !in g0 && g[d].parent == None
    requires forall x :: x in m ==> m[x] !in g0
    requires Placed(s, copied, m, g, src, d, g')
    requires Clonable(s, src) && s[src].parent.Some? ==>
      var p := s[src].parent.value; Remap(m[src := d], p) == Remap(m, p) && (p in m <==> src != root)
    ensures OutOld(s, root, g0, m[src := d], g')
  {
    if Clonable(s, src) {
      var g1 := Flagged(g, d, copied);
      FlaggedOld(s, root, g0, m, g, d, copied);
      if s[src].parent.Some? {
        var np := Remap(m, s[src].parent.value);
        assert d !in g[np].children;
        AttachedOld(s, root, g0, m, g1, src, d, np, g');
      } else {
        OldChildrenKept(s, root, g0, m, src, d);
      }
    } else {
      OldChildrenKept(s, root, g0, m, src, d);
    }
  }

  /** Setting the flag of a new entity leaves the old entities as they were. */
  lemma FlaggedOld(s: Graph, root: Entity, g0: Graph, m: map<Entity, Entity>, g: Graph, d: Entity, copied: bool)
    requires OutOld(s, root, g0, m, g) && d in g && d !in g0
    ensures OutOld(s, root, g0, m, Flagged(g, d, copied))
  {
  }

  /** Popping anything but a clonable root with a parent leaves what the old entities'
      Children should be unchanged. */
  lemma OldChildrenKept(s: Graph, root: Entity, g0: Graph, m: map<Entity, Entity>, src: Entity, d: Entity)
    requires src !in m
    requires src == root && Clonable(s, src) ==> s[src].parent == None
    ensures forall e :: e in g0 ==> OldChildren(s, root, m[src := d], g0, e) == OldChildren(s, root, m, g0, e)
  {
  }

  /** Attaching the clone of a clonable source under its remapped parent adds it to the
      Children of an old entity only when the source is the root. */
  lemma AttachedOld(s: Graph, root: Entity, g0: Graph, m: map<Entity, Entity>, g1: Graph, src: Entity, d: Entity,
                    np: Entity, g': Graph)
    requires OutOld(s, root, g0, m, g1) && src !in m && d in g1 && d !in g0 && g1[d].parent == None
    requires forall x :: x in m ==> m[x] !in g0
    requires Clonable(s, src) && s[src].parent.Some? && np == Remap(m, s[src].parent.value)
    requires s[src].parent.value in m <==> src != root
    requires np in g1 && np != d && d !in g1[np].children && g' == Adopt(g1, np, d)
    ensures OutOld(s, root, g0, m[src := d], g')
  {
    var m' := m[src := d];
    forall e | e in g0 ensures g'[e].children == OldChildren(s, root, m', g0, e) {
      if e == np {
        assert src == root;
      }
    }
  }

  /** Pushing an owed child with a freshly allocated destination. */
  lemma Pushed(s: Graph, copied: bool, root: Entity, sub: set<Entity>, g0: Graph, n0: nat, m: map<Entity, Entity>,
               stack: seq<(Entity, Entity)>, dst: map<Entity, Entity>, owed: set<Entity>, g: Graph, n: nat, c: Entity)
    requires Inv(s, copied, root, sub, g0, n0, m, stack, dst, owed, g, n) && c in owed
    ensures n !in g
    ensures Inv(s, copied, root, sub, g0, n0, m, stack + [(c, n)], dst[c := n], owed - {c}, g[n := Fresh(false)], n + 1)
  {
    PushedKeys(g0, n0, dst, g, n, c);
    SpawnLinked(g, n, false);
    PushedBookkept(m, stack, dst, c, n);
    PushedAllocated(dst, n0, n, c);
    PushedWalk(s, root, sub, m, dst, owed, c, n);
    PushedMapped(s, copied, m, stack, dst, g, n0, n);
    PushedPending(m, stack, dst, g, n0, n, c);
    PushedOld(s, root, g0, m, g, n);
  }

  lemma PushedKeys(g0: Graph, n0: nat, dst: map<Entity, Entity>, g: Graph, n: nat, c: Entity)
    requires OutKeys(g0, dst, g) && Allocated(dst, n0, n) && Predates(g0, n0) && n0 <= n && c !in dst
    ensures n !in g && OutKeys(g0, dst[c := n], g[n := Fresh(false)])
  {
    var dst' := dst[c := n];
    forall e | e in g && e !in g0 ensures e in dst'.Values {
      var x :| x in dst && dst[x] == e;
      assert dst'[x] == e;
    }
    assert dst'[c] == n;
  }

  lemma PushedAllocated(dst: map<Entity, Entity>, n0: nat, n: nat, c: Entity)
    requires Allocated(dst, n0, n) && c !in dst
    ensures Allocated(dst[c := n], n0, n + 1)
  {
    var dst' := dst[c := n];
    forall x, y ensures Apart(dst', x, y) {
      assert Apart(dst, x, y);
    }
  }

  lemma PushedWalk(s: Graph, root: Entity, sub: set<Entity>, m: map<Entity, Entity>, dst: map<Entity, Entity>,
                   owed: set<Entity>, c: Entity, n: nat)
    requires Walk(s, root, sub, m, dst, owed) && c in owed
    ensures Walk(s, root, sub, m, dst[c := n], owed - {c})
  {
  }

  lemma PushedBookkept(m: map<Entity, Entity>, stack: seq<(Entity, Entity)>, dst: map<Entity, Entity>, c: Entity, n: nat)
    requires Bookkept(m, stack, dst) && c !in dst
    ensures Bookkept(m, stack + [(c, n)], dst[c := n])
  {
    var stack' := stack + [(c, n)];
    assert Sources(stack') == Sources(stack) + {c} by {
      forall x | x in Sources(stack') ensures x in Sources(stack) + {c} {
        var i :| 0 <= i < |stack'| && stack'[i].0 == x;
        if i < |stack| { assert stack[i].0 == x; }
      }
      forall x | x in Sources(stack) ensures x in Sources(stack') {
        var i :| 0 <= i < |stack| && stack[i].0 == x;
        assert stack'[i].0 == x;
      }
      assert stack'[|stack|].0 == c;
    }
    forall i, j ensures SourcesApart(stack', i, j) {
      assert SourcesApart(stack, i, j);
    }
  }

  lemma PushedMapped(s: Graph, copied: bool, m: map<Entity, Entity>, stack: seq<(Entity, Entity)>, dst: map<Entity, Entity>,
                     g: Graph, n0: nat, n: nat)
    requires Bookkept(m, stack, dst) && Allocated(dst, n0, n) && OutMapped(s, copied, m, g)
    ensures OutMapped(s, copied, m, g[n := Fresh(false)])
  {
    forall x | x in m ensures m[x] != n {
      assert dst[x] == m[x];
    }
  }

  lemma PushedPending(m: map<Entity, Entity>, stack: seq<(Entity, Entity)>, dst: map<Entity, Entity>,
                      g: Graph, n0: nat, n: nat, c: Entity)
    requires Bookkept(m, stack, dst) && Allocated(dst, n0, n) && OutPending(stack, g)
    ensures OutPending(stack + [(c, n)], g[n := Fresh(false)])
  {
    var st := stack + [(c, n)];
    forall i | 0 <= i < |stack| ensures st[i].1 != n {
      assert st[i] == stack[i];
      assert dst[stack[i].0] == stack[i].1;
    }
  }

  lemma PushedOld(s: Graph, root: Entity, g0: Graph, m: map<Entity, Entity>, g: Graph, n: nat)
    requires OutOld(s, root, g0, m, g) && n !in g0
    ensures OutOld(s, root, g0, m, g[n := Fresh(false)])
  {
  }

  /** With the stack empty and nothing owed, the clone map is the whole record. */
  lemma CloneDone(s: Graph, copied: bool, root: Entity, sub: set<Entity>, g0: Graph, n0: nat, m: map<Entity, Entity>,
                  dst: map<Entity, Entity>, g: Graph, n: nat)
    requires Inv(s, copied, root, sub, g0, n0, m, [], dst, {}, g, n) && sub <= Subtree(s, root)
    ensures CloneResult(s, copied, root, m, g0, g, n0, n)
  {
    DoneMap(m, dst);
  }

  lemma DoneMap(m: map<Entity, Entity>, dst: map<Entity, Entity>)
    requires Bookkept(m, [], dst)
    ensures dst == m
  {
    assert Sources([]) == {};
  }

  // ---- What the result means ----

  /** Every member of the subtree carries PrefabMarker. */
  ghost predicate AllPrefab(s: Graph, root: Entity) {
    forall x :: x in Subtree(s, root) ==> Clonable(s, x)
  }

  /** When the whole subtree carries PrefabMarker, every member of it is cloned, each
      onto a destination of its own. */
  lemma CloneCovers(s: Graph, copied: bool, root: Entity, m: map<Entity, Entity>, g0: Graph, g: Graph, n0: nat, n: nat)
    requires CloneResult(s, copied, root, m, g0, g, n0, n) && AllPrefab(s, root)
    ensures m.Keys == Subtree(s, root) && n - n0 == |Subtree(s, root)|
  {
    assert Closed(s, m.Keys) by {
      forall x, c | x in m.Keys && x in s && c in s[x].children && c in s ensures c in m.Keys {
        assert Clonable(s, x);
      }
    }
    SubtreeLeast(s, root, m.Keys);
  }

  /** The clone of a clonable root hangs under the root's own parent. */
  lemma CloneRootParent(s: Graph, copied: bool, root: Entity, m: map<Entity, Entity>, g0: Graph, g: Graph, n0: nat, n: nat)
    requires Acyclic(s, root) && CloneResult(s, copied, root, m, g0, g, n0, n) && Clonable(s, root)
    ensures g[m[root]].parent == s[root].parent
  {
    assert DstParent(s, m, root) == s[root].parent;
  }

  /** The clone of any other clonable source hangs under the clone of its source's parent. */
  lemma CloneParent(s: Graph, copied: bool, root: Entity, m: map<Entity, Entity>, g0: Graph, g: Graph, n0: nat, n: nat, x: Entity)
    requires CloneResult(s, copied, root, m, g0, g, n0, n) && x in m && x != root && Clonable(s, x)
    ensures s[x].parent.Some? && s[x].parent.value in m
    ensures g[m[x]].parent == Some(m[s[x].parent.value])
  {
    assert HangsUnder(s, m, x);
    assert DstParent(s, m, x) == Some(m[s[x].parent.value]);
  }

  /** Children are mirrored both ways: a cloned clonable source is a child of a cloned
      source exactly when its clone is a child of that source's clone. */
  lemma CloneChildren(s: Graph, copied: bool, root: Entity, m: map<Entity, Entity>, g0: Graph, g: Graph, n0: nat, n: nat, x: Entity, c: Entity)
    requires Snapshot(s) && Acyclic(s, root) && s.Keys <= g0.Keys && Predates(g0, n0) && Linked(g)
    requires CloneResult(s, copied, root, m, g0, g, n0, n) && x in m && c in m && Clonable(s, c)
    ensures x in s && c in s[x].children <==> m[c] in g[m[x]].children
  {
    if x in s && c in s[x].children {
      assert s[c].parent == Some(x);
      assert HangsUnder(s, m, c);
      assert DstParent(s, m, c) == Some(m[x]);
      assert ParentsListChild(g);
    }
    if m[c] in g[m[x]].children {
      assert g[m[c]].parent == Some(m[x]);
      assert DstParent(s, m, c) == Some(m[x]);
      assert ListedByParent(s, c);
      var p := s[c].parent.value;
      assert c != root ==> HangsUnder(s, m, c);
      assert m[x] !in g0;
      assert Apart(m, p, x);
    }
  }

  /** For an acyclic subtree whose members all carry PrefabMarker the clone is an exact
      copy of its shape: one fresh destination per member, the root's clone under the
      root's original parent, every other clone under the clone of its source's parent,
      Children mirrored both ways, and PrefabMarker on every clone exactly when the
      component copy carries it over. */
  lemma CloneIsomorphic(s: Graph, copied: bool, root: Entity, m: map<Entity, Entity>, g0: Graph, g: Graph, n0: nat, n: nat)
    requires Snapshot(s) && Acyclic(s, root) && s.Keys <= g0.Keys && Predates(g0, n0) && Linked(g)
    requires CloneResult(s, copied, root, m, g0, g, n0, n) && AllPrefab(s, root)
    ensures m.Keys == Subtree(s, root) && n - n0 == |Subtree(s, root)|
    ensures root in s && g[m[root]].parent == s[root].parent
    ensures forall x :: x in m && x != root ==>
      x in s && s[x].parent.Some? && s[x].parent.value in m && g[m[x]].parent == Some(m[s[x].parent.value])
    ensures forall x, c :: x in m && c in m ==> (c in s[x].children <==> m[c] in g[m[x]].children)
    ensures forall x :: x in m ==> g[m[x]].prefab == copied
  {
    CloneCovers(s, copied, root, m, g0, g, n0, n);
    CloneRootParent(s, copied, root, m, g0, g, n0, n);
    forall x | x in m && x != root
      ensures x in s && s[x].parent.Some? && s[x].parent.value in m && g[m[x]].parent == Some(m[s[x].parent.value])
    {
      CloneParent(s, copied, root, m, g0, g, n0, n, x);
    }
    forall x, c | x in m && c in m ensures c in s[x].children <==> m[c] in g[m[x]].children {
      CloneChildren(s, copied, root, m, g0, g, n0, n, x, c);
    }
  }

  /** A popped source that is missing or lacks PrefabMarker does not walk its children. */
  lemma PlaceholderSkipsChildren(s: Graph, copied: bool, root: Entity, m: map<Entity, Entity>, g0: Graph, g: Graph, n0: nat, n: nat, x: Entity)
    requires ChildrenPointBack(s) && Acyclic(s, root) && CloneResult(s, copied, root, m, g0, g, n0, n)
    requires x in m && x in s && !Clonable(s, x)
    ensures forall c :: c in s[x].children ==> c !in m
  {
    forall c | c in s[x].children ensures c !in m {
      assert s[c].parent == Some(x);
      assert c in m && c != root ==> HangsUnder(s, m, c);
    }
  }

  /** Nothing hangs under the clone of a source that is missing or lacks PrefabMarker. */
  lemma PlaceholderNothingUnder(s: Graph, copied: bool, root: Entity, m: map<Entity, Entity>, g0: Graph, g: Graph, n0: nat, n: nat, x: Entity)
    requires Snapshot(s) && Acyclic(s, root) && s.Keys <= g0.Keys && Predates(g0, n0) && Linked(g0)
    requires CloneResult(s, copied, root, m, g0, g, n0, n) && x in m && !Clonable(s, x)
    ensures forall y :: y in g ==> g[y].parent != Some(m[x])
  {
    forall y | y in g ensures g[y].parent != Some(m[x]) {
      if y in g0 {
        OldNotUnderClone(s, copied, root, m, g0, g, n0, n, x, y);
      } else {
        var z :| z in m && m[z] == y;
        CloneNotUnderPlaceholder(s, copied, root, m, g0, g, n0, n, x, z);
      }
    }
  }

  /** No pre-existing entity is moved under a clone. */
  lemma OldNotUnderClone(s: Graph, copied: bool, root: Entity, m: map<Entity, Entity>, g0: Graph, g: Graph, n0: nat, n: nat, x: Entity, y: Entity)
    requires Predates(g0, n0) && Linked(g0) && CloneResult(s, copied, root, m, g0, g, n0, n) && x in m && y in g0
    ensures g[y].parent != Some(m[x])
  {
    assert ParentsListChild(g0);
    assert m[x] !in g0;
  }

  /** No clone is attached under the clone of a source that lacks PrefabMarker. */
  lemma CloneNotUnderPlaceholder(s: Graph, copied: bool, root: Entity, m: map<Entity, Entity>, g0: Graph, g: Graph, n0: nat, n: nat, x: Entity, z: Entity)
    requires Snapshot(s) && Acyclic(s, root) && s.Keys <= g0.Keys && Predates(g0, n0)
    requires CloneResult(s, copied, root, m, g0, g, n0, n) && x in m && !Clonable(s, x) && z in m
    ensures g[m[z]].parent != Some(m[x])
  {
    assert ListedByParent(s, z);
    assert z != root ==> HangsUnder(s, m, z);
    assert m[x] !in g0;
    assert g[m[z]].parent == DstParent(s, m, z);
    if z != root {
      assert Apart(m, s[z].parent.value, x);
    }
  }

  /** A popped source that is missing or lacks PrefabMarker leaves an empty placeholder:
      no parent, no children, no ClonedEntity marker. */
  lemma ClonePlaceholder(s: Graph, copied: bool, root: Entity, m: map<Entity, Entity>, g0: Graph, g: Graph, n0: nat, n: nat, x: Entity)
    requires Snapshot(s) && Acyclic(s, root) && s.Keys <= g0.Keys && Predates(g0, n0) && Linked(g) && Linked(g0)
    requires CloneResult(s, copied, root, m, g0, g, n0, n)
    requires x in m && !Clonable(s, x)
    ensures g[m[x]].parent == None && !g[m[x]].prefab && forall y :: y !in g[m[x]].children
    ensures m[x] !in Marks(s, m)
  {
    PlaceholderNothingUnder(s, copied, root, m, g0, g, n0, n, x);
    assert DstParent(s, m, x) == None;
    forall y | y in m && Clonable(s, y) ensures m[y] != m[x] {
      assert Apart(m, y, x);
    }
  }
  /** Children are not mirrored for a child without PrefabMarker: it is cloned, but its
      placeholder is not attached under the clone of its parent. */
  lemma PlaceholderChildNotMirrored(s: Graph, copied: bool, root: Entity, m: map<Entity, Entity>, g0: Graph, g: Graph,
                                    n0: nat, n: nat, x: Entity, c: Entity)
    requires Snapshot(s) && Acyclic(s, root) && s.Keys <= g0.Keys && Predates(g0, n0) && Linked(g) && Linked(g0)
    requires CloneResult(s, copied, root, m, g0, g, n0, n)
    requires x in m && Clonable(s, x) && c in s[x].children && !Clonable(s, c)
    ensures c in m && m[c] !in g[m[x]].children
  {
    ClonePlaceholder(s, copied, root, m, g0, g, n0, n, c);
    assert ChildrenPointBack(g);
  }

  // ---- Facts the editor needs about one request ----

  /** Popping `src` onto `d` adds `d` to the marked destinations exactly when `src` is clonable. */
  lemma MarksInsert(s: Graph, m: map<Entity, Entity>, src: Entity, d: Entity)
    requires src !in m
    ensures Marks(s, m[src := d]) == Marks(s, m) + (if Clonable(s, src) then {d} else {})
  {
    var m' := m[src := d];
    forall y | y in Marks(s, m') ensures y in Marks(s, m) + (if Clonable(s, src) then {d} else {}) {
      var x :| x in m' && Clonable(s, x) && m'[x] == y;
      if x != src {
        assert m[x] == y;
      }
    }
    forall y | y in Marks(s, m) ensures y in Marks(s, m') {
      var x :| x in m && Clonable(s, x) && m[x] == y;
      assert m'[x] == y;
    }
  }

  /** After a request every entity still has an id below the allocator's next id, and
      every marked destination exists. */
  lemma CloneBounds(s: Graph, copied: bool, root: Entity, m: map<Entity, Entity>, g0: Graph, g: Graph, n0: nat, n: nat)
    requires CloneResult(s, copied, root, m, g0, g, n0, n) && Predates(g0, n0)
    ensures n0 <= n && g0.Keys <= g.Keys && Predates(g, n) && Marks(s, m) <= g.Keys
  {
    forall e | e in g ensures e < n {
      if e !in g0 {
        var x :| x in m && m[x] == e;
      }
    }
  }
}
