/** The entity graph the hierarchy editor works on: every entity's PrefabMarker flag,
    Parent and Children, and the effect of the engine's hierarchy commands on them
    (add_child, remove_parent, despawn_recursive). */
module EntityGraph {

  /** An entity id. The allocator hands them out in increasing order and never reuses one. */
  type Entity = nat

  datatype Option<T> = None | Some(value: T)

  /** What the hierarchy reads of one entity: the PrefabMarker flag, the Parent
      component and the Children component (an empty list when it has none). */
  datatype Node = Node(prefab: bool, parent: Option<Entity>, children: seq<Entity>)

  /** The world: every live entity and its node. */
  type Graph = map<Entity, Node>

  /** The node of an entity just created with spawn_empty (optionally with PrefabMarker). */
  function Fresh(prefab: bool): Node {
    Node(prefab, None, [])
  }

  /** The members of `s`. */
  function Elems(s: seq<Entity>): set<Entity> {
    set x | x in s
  }

  predicate NoDups(s: seq<Entity>) {
    forall i, j :: 0 <= i < j < |s| ==> s[i] != s[j]
  }

  /** Parent and Children agree: every child points back to its parent, every parent
      lists its child, no child is listed twice. The engine keeps this for every world. */
  ghost predicate Linked(g: Graph) {
    ChildrenPointBack(g) && ParentsListChild(g) && ChildListsDistinct(g)
  }

  ghost predicate ChildrenPointBack(g: Graph) {
    forall e, c {:trigger c in g[e].children} :: e in g && c in g[e].children ==> c in g && g[c].parent == Some(e)
  }

  ghost predicate ParentsListChild(g: Graph) {
    forall e :: e in g && g[e].parent.Some? ==> g[e].parent.value in g && e in g[g[e].parent.value].children
  }

  ghost predicate ChildListsDistinct(g: Graph) {
    forall e :: e in g ==> NoDups(g[e].children)
  }

  /** `s` with every occurrence of `x` removed (Vec::retain with `!= x`). */
  function Without(s: seq<Entity>, x: Entity): (r: seq<Entity>)
    ensures forall y :: y in r <==> y in s && y != x
    ensures x !in s ==> r == s
  {
    if s == [] then []
    else if s[0] == x then Without(s[1..], x)
    else [s[0]] + Without(s[1..], x)
  }

  lemma {:induction false} WithoutNoDups(s: seq<Entity>, x: Entity)
    requires NoDups(s)
    ensures NoDups(Without(s, x))
  {
    if s != [] {
      assert NoDups(s[1..]) by {
        forall i, j | 0 <= i < j < |s[1..]| ensures s[1..][i] != s[1..][j] {
          assert s[1..][i] == s[i + 1] && s[1..][j] == s[j + 1];
        }
      }
      WithoutNoDups(s[1..], x);
      if s[0] != x {
        var t := Without(s[1..], x);
        assert s[0] !in t;
        forall i, j | 0 <= i < j < |[s[0]] + t| ensures ([s[0]] + t)[i] != ([s[0]] + t)[j] {
          if i > 0 {
            assert ([s[0]] + t)[i] == t[i - 1] && ([s[0]] + t)[j] == t[j - 1];
          } else {
            assert ([s[0]] + t)[j] in t;
          }
        }
      }
    }
  }

  lemma NoDupsAppend(s: seq<Entity>, x: Entity)
    requires NoDups(s) && x !in s
    ensures NoDups(s + [x])
  {
  }

  /** remove_parent: `c` leaves its parent's Children and loses its Parent. */
  function Unlink(g: Graph, c: Entity): (r: Graph)
    requires c in g
    ensures r.Keys == g.Keys
    ensures r[c].parent == None && r[c].prefab == g[c].prefab
    ensures forall x :: x in g && x != c ==> r[x].parent == g[x].parent && r[x].prefab == g[x].prefab
    ensures forall x :: x in g ==>
      r[x].children == if g[c].parent == Some(x) then Without(g[x].children, c) else g[x].children
    ensures forall x, y :: x in g && y in r[x].children ==> y in g[x].children
  {
    match g[c].parent
    case None => g
    case Some(p) =>
      var g1 := if p in g then g[p := g[p].(children := Without(g[p].children, c))] else g;
      g1[c := g1[c].(parent := None)]
  }

  /** `s` with every member of `d` removed, order kept. */
  function Minus(s: seq<Entity>, d: set<Entity>): (r: seq<Entity>)
    ensures forall y :: y in r <==> y in s && y !in d
  {
    if s == [] then []
    else if s[0] in d then Minus(s[1..], d)
    else [s[0]] + Minus(s[1..], d)
  }

  lemma {:induction false} MinusNone(s: seq<Entity>)
    ensures Minus(s, {}) == s
  {
    if s != [] {
      MinusNone(s[1..]);
      assert s == [s[0]] + s[1..];
    }
  }

  /** Removing one more member is removing it from what is left. */
  lemma {:induction false} MinusWithout(s: seq<Entity>, d: set<Entity>, e: Entity)
    ensures Without(Minus(s, d), e) == Minus(s, d + {e})
  {
    if s != [] {
      MinusWithout(s[1..], d, e);
      if s[0] !in d && s[0] != e {
        assert Minus(s, d) == [s[0]] + Minus(s[1..], d);
        assert ([s[0]] + Minus(s[1..], d))[1..] == Minus(s[1..], d);
      }
    }
  }

  /** Removing a member from a concatenation removes it from both parts. */
  lemma {:induction false} WithoutConcat(a: seq<Entity>, b: seq<Entity>, x: Entity)
    ensures Without(a + b, x) == Without(a, x) + Without(b, x)
  {
    if a == [] {
      assert a + b == b;
    } else {
      var ab := a + b;
      assert ab[0] == a[0] && ab[1..] == a[1..] + b;
      WithoutConcat(a[1..], b, x);
      if a[0] != x {
        assert Without(ab, x) == [a[0]] + (Without(a[1..], x) + Without(b, x));
      }
    }
  }

  /** Removing an absent entity changes nothing. */
  lemma {:induction false} MinusAbsent(s: seq<Entity>, d: set<Entity>, e: Entity)
    requires e !in s
    ensures Minus(s, d + {e}) == Minus(s, d)
  {
    if s != [] {
      MinusAbsent(s[1..], d, e);
    }
  }

  /** Removing `a` and then `b` is removing `c`, when `c` holds exactly the members of `s`
      that are in `a` or in `b`. */
  lemma {:induction false} MinusTwice(s: seq<Entity>, a: set<Entity>, b: set<Entity>, c: set<Entity>)
    requires forall y :: y in s ==> (y in c <==> y in a || y in b)
    ensures Minus(Minus(s, a), b) == Minus(s, c)
  {
    if s != [] {
      MinusTwice(s[1..], a, b, c);
      if s[0] !in a {
        assert Minus(s, a) == [s[0]] + Minus(s[1..], a);
        assert ([s[0]] + Minus(s[1..], a))[1..] == Minus(s[1..], a);
      }
    }
  }

  /** add_child(p, c): `c` leaves its old parent and becomes the last child of `p`. */
  function Adopt(g: Graph, p: Entity, c: Entity): (r: Graph)
    requires p in g && c in g && p != c
    ensures r.Keys == g.Keys
    ensures r[c].parent == Some(p)
    ensures forall x :: x in g && x != c ==> r[x].parent == g[x].parent
    ensures forall x :: x in g ==> r[x].prefab == g[x].prefab
    ensures r[p].children == Without(g[p].children, c) + [c]
    ensures forall x :: x in g && x != p ==>
      r[x].children == if g[c].parent == Some(x) then Without(g[x].children, c) else g[x].children
  {
    Attach(Unlink(g, c), p, c)
  }

  /** In a linked world, add_child(p, c) moves `c` from wherever it was listed to the Children of `p`. */
  lemma AdoptChildren(g: Graph, p: Entity, c: Entity)
    requires Linked(g) && p in g && c in g && p != c
    ensures forall y :: y in Adopt(g, p, c)[p].children <==> y in g[p].children || y == c
    ensures forall x, y :: x in g && x != p ==> (y in Adopt(g, p, c)[x].children <==> y in g[x].children && y != c)
  {
    forall x, y | x in g && x != p && y in g[x].children && y == c ensures g[c].parent == Some(x) {
    }
  }

  lemma WithoutAppend(s: seq<Entity>, x: Entity)
    ensures Without(s + [x], x) == Without(s, x)
  {
    if s != [] {
      assert (s + [x])[1..] == s[1..] + [x];
      WithoutAppend(s[1..], x);
    } else {
      assert Without([x][1..], x) == [];
    }
  }

  /** Detach undoes Attach to: removing the parent of a child just added anywhere leaves
      the world as removing its original parent would. */
  lemma DetachAfterAttach(g: Graph, p: Entity, c: Entity)
    requires Linked(g) && p in g && c in g && p != c
    ensures Unlink(Adopt(g, p, c), c) == Unlink(g, c)
  {
    var g1 := Unlink(g, c);
    UnlinkLinked(g, c);
    assert c !in g1[p].children;
    assert Adopt(g, p, c) == Attach(g1, p, c);
    UnlinkAttach(g1, p, c);
  }

  /** Detaching a child just attached to `p` restores the world it was attached in. */
  lemma UnlinkAttach(g1: Graph, p: Entity, c: Entity)
    requires p in g1 && c in g1 && p != c && g1[c].parent == None && c !in g1[p].children
    ensures Unlink(Attach(g1, p, c), c) == g1
  {
    var a := Attach(g1, p, c);
    assert a[p].children == g1[p].children + [c];
    WithoutAppend(g1[p].children, c);
    var r := Unlink(a, c);
    forall x | x in g1 ensures r[x] == g1[x] {
      if x == p {
        assert r[p].children == Without(a[p].children, c);
      }
    }
    assert r.Keys == g1.Keys;
  }

  /** The second half of add_child: parentless `c` becomes the last child of `p`. */
  function Attach(g: Graph, p: Entity, c: Entity): (r: Graph)
    requires p in g && c in g && p != c
    ensures r.Keys == g.Keys
    ensures r[c].parent == Some(p)
    ensures forall x :: x in g && x != c ==> r[x].parent == g[x].parent
    ensures forall x :: x in g ==> r[x].prefab == g[x].prefab
    ensures r[p].children == Without(g[p].children, c) + [c]
    ensures forall x :: x in g && x != p ==> r[x].children == g[x].children
  {
    var g1 := g[c := g[c].(parent := Some(p))];
    g1[p := g1[p].(children := Without(g1[p].children, c) + [c])]
  }

  lemma UnlinkLinked(g: Graph, c: Entity)
    requires Linked(g) && c in g
    ensures Linked(Unlink(g, c))
  {
    var r := Unlink(g, c);
    assert ChildrenPointBack(r) by {
      forall e, x | e in r && x in r[e].children
        ensures x in r && r[x].parent == Some(e)
      {
        assert x in g[e].children;
        assert g[x].parent == Some(e);
        if x == c {
          assert false;
        }
      }
    }
    assert ParentsListChild(r) by {
      forall e | e in r && r[e].parent.Some?
        ensures r[e].parent.value in r && e in r[r[e].parent.value].children
      {
        var q := r[e].parent.value;
        assert g[e].parent == Some(q);
        assert e in g[q].children;
      }
    }
    assert ChildListsDistinct(r) by {
      forall e | e in r ensures NoDups(r[e].children) {
        if g[c].parent == Some(e) {
          WithoutNoDups(g[e].children, c);
        }
      }
    }
  }

  lemma AdoptLinked(g: Graph, p: Entity, c: Entity)
    requires Linked(g) && p in g && c in g && p != c
    ensures Linked(Adopt(g, p, c))
  {
    var g1 := Unlink(g, c);
    UnlinkLinked(g, c);
    assert c !in g1[p].children;
    var r := Attach(g1, p, c);
    assert r == Adopt(g, p, c);
    AdoptPointsBack(g1, r, p, c);
    AdoptListsChild(g1, r, p, c);
    assert ChildListsDistinct(r) by {
      NoDupsAppend(g1[p].children, c);
    }
  }

  lemma AdoptPointsBack(g1: Graph, r: Graph, p: Entity, c: Entity)
    requires ChildrenPointBack(g1) && p in g1 && c in g1 && p != c && g1[c].parent == None
    requires r.Keys == g1.Keys && r[c].parent == Some(p)
    requires forall x :: x in g1 && x != c ==> r[x].parent == g1[x].parent
    requires r[p].children == g1[p].children + [c]
    requires forall x :: x in g1 && x != p ==> r[x].children == g1[x].children
    ensures ChildrenPointBack(r)
  {
    forall e, x | e in r && x in r[e].children
      ensures x in r && r[x].parent == Some(e)
    {
      if x != c {
        assert x in g1[e].children;
      }
    }
  }

  lemma AdoptListsChild(g1: Graph, r: Graph, p: Entity, c: Entity)
    requires ParentsListChild(g1) && p in g1 && c in g1 && p != c
    requires r.Keys == g1.Keys && r[c].parent == Some(p)
    requires forall x :: x in g1 && x != c ==> r[x].parent == g1[x].parent
    requires r[p].children == g1[p].children + [c]
    requires forall x :: x in g1 && x != p ==> r[x].children == g1[x].children
    ensures ParentsListChild(r)
  {
    forall e | e in r && r[e].parent.Some?
      ensures r[e].parent.value in r && e in r[r[e].parent.value].children
    {
      if e != c {
        assert g1[e].parent == r[e].parent;
      }
    }
  }

  /** spawn_empty: a new entity with no parent and no children. */
  lemma SpawnLinked(g: Graph, id: Entity, prefab: bool)
    requires Linked(g) && id !in g
    ensures Linked(g[id := Fresh(prefab)])
  {
    var r := g[id := Fresh(prefab)];
    forall e, c | e in r && c in r[e].children ensures c in r && r[c].parent == Some(e) {
      assert c in g[e].children;
    }
  }

  /** A set is closed when it holds every child (that exists) of its members. */
  ghost predicate Closed(g: Graph, s: set<Entity>) {
    forall x, c {:trigger c in g[x].children} :: x in s && x in g && c in g[x].children && c in g ==> c in s
  }

  /** The entities reachable from `todo` through Children, added to `seen`.
      It terminates on any finite world, cyclic or not. */
  function Reach(g: Graph, todo: seq<Entity>, seen: set<Entity>): set<Entity>
    decreases g.Keys - seen, |todo|
  {
    if todo == [] then seen
    else if todo[0] in seen || todo[0] !in g then Reach(g, todo[1..], seen)
    else Reach(g, todo[1..] + g[todo[0]].children, seen + {todo[0]})
  }

  /** `e` and all of its descendants. */
  function Subtree(g: Graph, e: Entity): set<Entity> {
    Reach(g, [e], {}) + {e}
  }

  lemma {:induction false} ReachGrows(g: Graph, todo: seq<Entity>, seen: set<Entity>)
    ensures seen <= Reach(g, todo, seen)
    ensures forall c :: c in todo && c in g ==> c in Reach(g, todo, seen)
    decreases g.Keys - seen, |todo|
  {
    if todo == [] {
    } else if todo[0] in seen || todo[0] !in g {
      ReachGrows(g, todo[1..], seen);
      assert forall c :: c in todo ==> c == todo[0] || c in todo[1..];
    } else {
      var next := todo[1..] + g[todo[0]].children;
      ReachGrows(g, next, seen + {todo[0]});
      assert forall c :: c in todo ==> c == todo[0] || c in next;
    }
  }

  lemma {:induction false} ReachClosed(g: Graph, todo: seq<Entity>, seen: set<Entity>)
    requires forall x, c :: x in seen && x in g && c in g[x].children && c in g ==> c in seen || c in todo
    ensures Closed(g, Reach(g, todo, seen))
    decreases g.Keys - seen, |todo|
  {
    if todo == [] {
    } else if todo[0] in seen || todo[0] !in g {
      forall x, c | x in seen && x in g && c in g[x].children && c in g
        ensures c in seen || c in todo[1..]
      {
        if c !in seen {
          assert c in todo;
          assert c != todo[0];
          assert c in todo[1..] by {
            var i :| 0 <= i < |todo| && todo[i] == c;
            assert todo[1..][i - 1] == c;
          }
        }
      }
      ReachClosed(g, todo[1..], seen);
    } else {
      var x0 := todo[0];
      var next := todo[1..] + g[x0].children;
      forall x, c | x in seen + {x0} && x in g && c in g[x].children && c in g
        ensures c in seen + {x0} || c in next
      {
        if x == x0 {
          assert c in next;
        } else if c !in seen && c != x0 {
          assert c in todo;
          var i :| 0 <= i < |todo| && todo[i] == c;
          assert next[i - 1] == c;
        }
      }
      ReachClosed(g, next, seen + {x0});
    }
  }

  lemma {:induction false} ReachLeast(g: Graph, todo: seq<Entity>, seen: set<Entity>, s: set<Entity>)
    requires seen <= s && Closed(g, s)
    requires forall c :: c in todo && c in g ==> c in s
    ensures Reach(g, todo, seen) <= s
    decreases g.Keys - seen, |todo|
  {
    if todo == [] {
    } else if todo[0] in seen || todo[0] !in g {
      ReachLeast(g, todo[1..], seen, s);
    } else {
      var next := todo[1..] + g[todo[0]].children;
      forall c | c in next && c in g ensures c in s {
        if c !in todo[1..] {
          assert c in g[todo[0]].children;
        }
      }
      ReachLeast(g, next, seen + {todo[0]}, s);
    }
  }

  /** The subtree of `e` holds `e` and every child of each of its members. */
  lemma SubtreeClosed(g: Graph, e: Entity)
    ensures e in Subtree(g, e)
    ensures Closed(g, Subtree(g, e))
  {
    ReachClosed(g, [e], {});
    ReachGrows(g, [e], {});
  }

  /** ... and nothing else: it is the least such set. */
  lemma SubtreeLeast(g: Graph, e: Entity, s: set<Entity>)
    requires e in s && Closed(g, s)
    ensures Subtree(g, e) <= s
  {
    ReachLeast(g, [e], {}, s);
  }

  /** Every member of a subtree but its root is listed as a child only by members. */
  lemma SubtreeParents(g: Graph, e: Entity)
    requires Linked(g)
    ensures forall y, x :: y in Subtree(g, e) && y != e && x in g && y in g[x].children ==> x in Subtree(g, e)
  {
    var t := Subtree(g, e);
    var s := set y | y in t && (y == e || (y in g && g[y].parent.Some? && g[y].parent.value in t));
    SubtreeClosed(g, e);
    forall x, c | x in s && x in g && c in g[x].children && c in g ensures c in s {
      assert g[c].parent == Some(x);
    }
    SubtreeLeast(g, e, s);
    forall y, x | y in t && y != e && x in g && y in g[x].children ensures x in t {
      assert y in s;
      assert g[y].parent == Some(x);
    }
  }

  /** despawn_recursive(e): `e` leaves its parent's Children, then `e` and all of its
      descendants are despawned. Despawning a missing entity does nothing. */
  function Despawn(g: Graph, e: Entity): (r: Graph)
    ensures e !in r
    ensures r.Keys <= g.Keys
    ensures e !in g ==> r == g
    ensures e in g ==> forall x :: x in r ==>
      r[x].parent == g[x].parent && r[x].prefab == g[x].prefab &&
      r[x].children == if g[e].parent == Some(x) then Without(g[x].children, e) else g[x].children
  {
    if e !in g then g
    else
      var d := Subtree(g, e);
      var g1 := Unlink(g, e);
      assert e in d by { SubtreeClosed(g, e); }
      map x | x in g1 && x !in d :: g1[x]
  }

  /** Despawning removes exactly the subtree and keeps the world linked. */
  lemma DespawnLinked(g: Graph, e: Entity)
    requires Linked(g) && e in g
    ensures Despawn(g, e).Keys == g.Keys - Subtree(g, e)
    ensures Linked(Despawn(g, e))
  {
    DespawnLinkedPart(g, e, 0);
    DespawnLinkedPart(g, e, 1);
    DespawnLinkedPart(g, e, 2);
  }

  lemma DespawnLinkedPart(g: Graph, e: Entity, part: nat)
    requires Linked(g) && e in g && part < 3
    ensures Despawn(g, e).Keys == g.Keys - Subtree(g, e)
    ensures part == 0 ==> ChildrenPointBack(Despawn(g, e))
    ensures part == 1 ==> ParentsListChild(Despawn(g, e))
    ensures part == 2 ==> ChildListsDistinct(Despawn(g, e))
  {
    var d := Subtree(g, e);
    var g1 := Unlink(g, e);
    var r := map x | x in g1 && x !in d :: g1[x];
    assert r == Despawn(g, e);
    UnlinkLinked(g, e);
    SubtreeClosed(g, e);
    if part == 0 {
      SubtreeParents(g, e);
      PrunePointsBack(g, g1, r, e, d);
    } else if part == 1 {
      PruneListsChild(g, g1, r, d);
    } else {
      forall x | x in r ensures NoDups(r[x].children) {
        assert r[x] == g1[x];
      }
    }
  }

  lemma PrunePointsBack(g: Graph, g1: Graph, r: Graph, e: Entity, d: set<Entity>)
    requires ChildrenPointBack(g1) && e in d && e in g && g1.Keys == g.Keys && g1[e].parent == None
    requires forall y, x :: y in d && y != e && x in g && y in g[x].children ==> x in d
    requires forall x, y :: x in g && y in g1[x].children ==> y in g[x].children
    requires r == map x | x in g1 && x !in d :: g1[x]
    ensures ChildrenPointBack(r)
  {
    forall x, y | x in r && y in r[x].children ensures y in r && r[y].parent == Some(x) {
      assert x in g1 && x !in d && r[x] == g1[x];
      assert y in g1 && g1[y].parent == Some(x);
    }
  }

  lemma PruneListsChild(g: Graph, g1: Graph, r: Graph, d: set<Entity>)
    requires ParentsListChild(g1) && Closed(g, d) && g1.Keys == g.Keys
    requires forall x, y :: x in g && y in g1[x].children ==> y in g[x].children
    requires r == map x | x in g1 && x !in d :: g1[x]
    ensures ParentsListChild(r)
  {
    forall x | x in r && r[x].parent.Some? ensures r[x].parent.value in r && x in r[r[x].parent.value].children {
      var q := r[x].parent.value;
      assert x in g1[q].children;
      assert x in g[q].children;
    }
  }

  /** The subtree of an entity without children is that entity alone. */
  lemma SubtreeLeaf(g: Graph, e: Entity)
    requires e in g && g[e].children == []
    ensures Subtree(g, e) == {e}
  {
    SubtreeClosed(g, e);
    SubtreeLeast(g, e, {e});
  }

  /** Deleting an entity just spawned without a parent gives back the world it was spawned in. */
  lemma DespawnSpawned(g: Graph, e: Entity, prefab: bool)
    requires e !in g
    ensures Despawn(g[e := Fresh(prefab)], e) == g
  {
    var g1 := g[e := Fresh(prefab)];
    SubtreeLeaf(g1, e);
    assert Unlink(g1, e) == g1;
    assert Despawn(g1, e) == map x | x in g1 && x !in {e} :: g1[x];
  }

  /** Deleting an entity just spawned and added as a child of `p` gives back the world it
      was spawned in: `p` loses the child it gained and nothing else changes. */
  lemma DespawnAdopted(g: Graph, p: Entity, e: Entity, prefab: bool)
    requires Linked(g) && p in g && e !in g
    ensures Despawn(Adopt(g[e := Fresh(prefab)], p, e), e) == g
  {
    assert e !in g[p].children;
    var g1 := g[e := Fresh(prefab)];
    var a := Adopt(g1, p, e);
    SpawnedAttach(g, p, e, prefab);
    UnlinkAttach(g1, p, e);
    DespawnLeaf(a, e, g1);
  }

  /** add_child on an entity just spawned is the second half of add_child alone: there is
      no old parent to leave. */
  lemma SpawnedAttach(g: Graph, p: Entity, e: Entity, prefab: bool)
    requires p in g && e !in g && e !in g[p].children
    ensures var g1 := g[e := Fresh(prefab)];
      e !in g1[p].children && Adopt(g1, p, e) == Attach(g1, p, e)
  {
    var g1 := g[e := Fresh(prefab)];
    assert Unlink(g1, e) == g1;
  }

  /** Despawning an entity without children whose unlinking gives `g1` plus that entity
      gives back `g1` without it. */
  lemma DespawnLeaf(a: Graph, e: Entity, g1: Graph)
    requires e in a && a[e].children == [] && Unlink(a, e) == g1
    ensures Despawn(a, e) == map x | x in g1 && x !in {e} :: g1[x]
  {
    SubtreeLeaf(a, e);
  }

  /** A subtree holds only live entities. */
  lemma SubtreeKeys(g: Graph, e: Entity)
    requires e in g
    ensures Subtree(g, e) <= g.Keys
  {
    SubtreeLeast(g, e, g.Keys);
  }

  /** The live entities in the subtree of some member of `es`: what despawning every
      member of `es` removes. */
  ghost function Subtrees(g: Graph, es: set<Entity>): set<Entity> {
    set x | x in g && exists p :: p in es && x in Subtree(g, p)
  }

  lemma SubtreesClosed(g: Graph, es: set<Entity>)
    ensures Closed(g, Subtrees(g, es))
  {
    forall x, c | x in Subtrees(g, es) && x in g && c in g[x].children && c in g ensures c in Subtrees(g, es) {
      var p :| p in es && x in Subtree(g, p);
      SubtreeClosed(g, p);
    }
  }

  /** Taking in a live entity adds its subtree. */
  lemma SubtreesAdd(g: Graph, es: set<Entity>, e: Entity)
    requires e in g
    ensures Subtrees(g, es + {e}) == Subtrees(g, es) + Subtree(g, e)
  {
    SubtreeKeys(g, e);
    forall x | x in Subtrees(g, es + {e}) ensures x in Subtrees(g, es) + Subtree(g, e) {
      var p :| p in es + {e} && x in Subtree(g, p);
    }
  }

  /** Taking in an entity that is missing or already covered adds nothing. */
  lemma SubtreesAbsorbed(g: Graph, es: set<Entity>, e: Entity)
    requires e in g ==> e in Subtrees(g, es)
    ensures Subtrees(g, es + {e}) == Subtrees(g, es)
  {
    forall x | x in Subtrees(g, es + {e}) ensures x in Subtrees(g, es) {
      var p :| p in es + {e} && x in Subtree(g, p);
      if p == e {
        if e in g {
          var q :| q in es && e in Subtree(g, q);
          SubtreeClosed(g, q);
          SubtreeLeast(g, e, Subtree(g, q));
          assert x in Subtree(g, q);
        } else {
          SubtreeLeast(g, e, {e});
        }
      }
    }
  }

  /** `g` is `g0` with the entities of `d` despawned: the others keep their flag and
      Parent, and their Children lose exactly the members of `d`, order kept. */
  ghost predicate Pruned(g0: Graph, g: Graph, d: set<Entity>) {
    g.Keys == g0.Keys - d &&
    forall x :: x in g ==>
      g[x].prefab == g0[x].prefab && g[x].parent == g0[x].parent && g[x].children == Minus(g0[x].children, d)
  }

  lemma PrunedNone(g: Graph)
    ensures Pruned(g, g, {})
  {
    forall x | x in g {
      MinusNone(g[x].children);
    }
  }

  /** In a pruned world the subtree of a survivor is its old subtree less the pruned part. */
  lemma PrunedSubtree(g0: Graph, g: Graph, d: set<Entity>, p: Entity)
    requires Pruned(g0, g, d) && Closed(g0, d) && p in g
    ensures Subtree(g, p) == Subtree(g0, p) - d
  {
    var a := Subtree(g0, p) - d;
    SubtreeClosed(g0, p);
    forall x, c | x in a && x in g && c in g[x].children && c in g ensures c in a {
      assert c in g0[x].children;
    }
    SubtreeLeast(g, p, a);
    var t := Subtree(g, p) + d;
    SubtreeClosed(g, p);
    forall x, c | x in t && x in g0 && c in g0[x].children && c in g0 ensures c in t {
      if x !in d && c !in d {
        assert c in g[x].children;
      }
    }
    SubtreeLeast(g0, p, t);
  }

  /** A Children list `t`, already pruned of `d`, that meets the subtree `s` of `e` at most
      in `e` (listed exactly when `listed`) loses the whole subtree when `e` is removed. */
  lemma DropSubtree(c0: seq<Entity>, d: set<Entity>, sub0: set<Entity>, s: set<Entity>, t: seq<Entity>,
                    e: Entity, listed: bool)
    requires t == Minus(c0, d) && s == sub0 - d
    requires forall y :: y in t && y in s ==> y == e
    requires e in t <==> listed
    requires listed ==> e in s
    ensures (if listed then Without(t, e) else t) == Minus(c0, d + sub0)
  {
    MinusTwice(c0, d, s, d + sub0);
    MinusNone(t);
    if listed {
      MinusTwice(t, {}, s, {e});
      MinusWithout(t, {}, e);
      assert {} + {e} == {e};
    } else {
      MinusTwice(t, {}, s, {});
    }
  }

  /** Despawning a survivor of a pruned world prunes its old subtree as well. */
  lemma PrunedDespawn(g0: Graph, g: Graph, d: set<Entity>, e: Entity)
    requires Linked(g) && Pruned(g0, g, d) && Closed(g0, d) && e in g
    ensures Pruned(g0, Despawn(g, e), d + Subtree(g0, e))
  {
    var s := Subtree(g, e);
    var d' := d + Subtree(g0, e);
    PrunedSubtree(g0, g, d, e);
    DespawnLinked(g, e);
    SubtreeParents(g, e);
    var r := Despawn(g, e);
    forall x | x in r ensures r[x].children == Minus(g0[x].children, d') {
      assert x !in s;
      assert e in g[x].children <==> g[e].parent == Some(x);
      DropSubtree(g0[x].children, d, Subtree(g0, e), s, g[x].children, e, g[e].parent == Some(x));
    }
  }

  /** Every member of a subtree but its root is listed as a child by a member. */
  lemma SubtreeListed(g: Graph, e: Entity, y: Entity)
    requires y in Subtree(g, e) && y != e
    ensures exists z :: z in Subtree(g, e) && z in g && y in g[z].children
  {
    var u := Subtree(g, e);
    var w := {e} + set c | c in u && exists z :: z in u && z in g && c in g[z].children;
    SubtreeClosed(g, e);
    forall x, c | x in w && x in g && c in g[x].children && c in g ensures c in w {
      assert c in u;
    }
    SubtreeLeast(g, e, w);
  }
}
