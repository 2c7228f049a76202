/** The hierarchy panel of the editor: the scene-tree actions a user triggers from it
    (add, add child, delete, clear, attach, detach, select, clone), the clone pass that
    serves clone requests, and the notification pass that logs the clones. */
module Hierarchy {
  import opened EntityGraph
  import opened ChangeLog
  import opened CloneSpec
  import opened CloneLoop

  /** The entities carrying PrefabMarker, the ones the panel shows by default. */
  function Prefabs(g: Graph): set<Entity> {
    set x | x in g && g[x].prefab
  }

  /** The selection after a click on `e`: a selected entity is deselected; an unselected
      one is added to the selection with shift held and replaces it otherwise. */
  function Clicked(sel: set<Entity>, e: Entity, shift: bool): set<Entity> {
    if e in sel then sel - {e}
    else if shift then sel + {e}
    else {e}
  }

  /** A click always flips whether the clicked entity is selected. */
  lemma ClickedToggles(sel: set<Entity>, e: Entity, shift: bool)
    ensures e in Clicked(sel, e, shift) <==> e !in sel
  {
  }

  /** A click leaves the rest of the selection alone, unless it is a plain click on an
      unselected entity, which selects that entity only. */
  lemma ClickedOthers(sel: set<Entity>, e: Entity, shift: bool, x: Entity)
    requires x != e
    ensures x in Clicked(sel, e, shift) <==> x in sel && (shift || e in sel)
  {
  }

  /** Two shift-clicks on the same entity give back the selection, and a click on a
      selected entity empties a selection that held only it. */
  lemma ClickedTwice(sel: set<Entity>, e: Entity, shift: bool)
    ensures shift ==> Clicked(Clicked(sel, e, shift), e, shift) == sel
    ensures sel == {e} ==> Clicked(sel, e, shift) == {}
  {
  }

  /** Part way through "Attach to": the entities of `done` have become children of `t`
      and have left the Children lists of their old parents, which otherwise keep their
      order; nothing else of `g0` has changed. */
  ghost predicate Attaching(g0: Graph, g: Graph, t: Entity, done: set<Entity>) {
    g.Keys == g0.Keys && t in g0 && t !in done && done <= g0.Keys &&
    (forall x {:trigger g[x].prefab} :: x in g ==> g[x].prefab == g0[x].prefab) &&
    (forall x {:trigger g[x].parent} :: x in done ==> g[x].parent == Some(t)) &&
    (forall x {:trigger g[x].parent} :: x in g && x !in done ==> g[x].parent == g0[x].parent) &&
    (forall y {:trigger y in g[t].children} {:trigger y in g0[t].children} ::
      y in g[t].children <==> y in g0[t].children || y in done) &&
    (forall x {:trigger Minus(g0[x].children, done)} :: x in g && x != t ==> g[x].children == Minus(g0[x].children, done))
  }

  /** Attaching one more entity to `t` keeps the world linked and extends `done` by it. */
  lemma AttachingStep(g0: Graph, g: Graph, t: Entity, done: set<Entity>, e: Entity)
    requires Linked(g) && Attaching(g0, g, t, done) && e in g && e != t && e !in done
    ensures Linked(Adopt(g, t, e)) && Attaching(g0, Adopt(g, t, e), t, done + {e})
  {
    AdoptLinked(g, t, e);
    AdoptChildren(g, t, e);
    var r := Adopt(g, t, e);
    forall x | x in r && x != t ensures r[x].children == Minus(g0[x].children, done + {e}) {
      assert g[x].children == Minus(g0[x].children, done);
      if g[e].parent == Some(x) {
        MinusWithout(g0[x].children, done, e);
      } else {
        assert e !in g[x].children;
        MinusAbsent(g0[x].children, done, e);
      }
    }
  }

  /** The Children of `t` while attaching: first its old children that were not attached,
      in their old order, then exactly the attached entities. */
  ghost predicate AttachedLast(g0: Graph, g: Graph, t: Entity, done: set<Entity>) {
    t in g0 && t in g &&
    var kept := Minus(g0[t].children, done);
    |kept| <= |g[t].children| && g[t].children[..|kept|] == kept && Elems(g[t].children[|kept|..]) == done
  }

  /** Moving `e` to the end of `c` (Without, then append) keeps the first `k` members
      apart from `e` in front, and adds `e` to those behind them. */
  lemma MoveLast(c: seq<Entity>, k: nat, e: Entity, done: set<Entity>)
    requires k <= |c| && Elems(c[k..]) == done && e !in done
    ensures var r, p := Without(c, e) + [e], Without(c[..k], e);
      |p| <= |r| && r[..|p|] == p && Elems(r[|p|..]) == done + {e}
  {
    assert c == c[..k] + c[k..];
    WithoutConcat(c[..k], c[k..], e);
    var r, p := Without(c, e) + [e], Without(c[..k], e);
    assert r == p + (c[k..] + [e]);
    assert r[..|p|] == p;
    assert r[|p|..] == c[k..] + [e];
  }

  /** add_child moves the attached entity to the end of the Children of `t`. */
  lemma AttachedLastStep(g0: Graph, g: Graph, t: Entity, done: set<Entity>, e: Entity)
    requires AttachedLast(g0, g, t, done) && e in g && e != t && e !in done
    ensures AttachedLast(g0, Adopt(g, t, e), t, done + {e})
  {
    var c := g[t].children;
    MoveLast(c, |Minus(g0[t].children, done)|, e, done);
    MinusWithout(g0[t].children, done, e);
  }

  /** The state of the "Attach to" loop: the entities of `sel` not in `todo` are attached. */
  ghost predicate AttachLoop(g0: Graph, g: Graph, t: Entity, sel: set<Entity>, todo: set<Entity>) {
    Linked(g) && sel <= g0.Keys && t !in sel && todo <= sel && Attaching(g0, g, t, sel - todo) &&
    AttachedLast(g0, g, t, sel - todo)
  }

  lemma AttachLoopStart(g0: Graph, t: Entity, sel: set<Entity>)
    requires Linked(g0) && t in g0 && sel <= g0.Keys && t !in sel
    ensures AttachLoop(g0, g0, t, sel, sel)
  {
    assert sel - sel == {};
    AttachingStart(g0, t);
    MinusNone(g0[t].children);
    assert g0[t].children[|g0[t].children|..] == [];
  }

  lemma AttachLoopStep(g0: Graph, g: Graph, t: Entity, sel: set<Entity>, todo: set<Entity>, e: Entity)
    requires AttachLoop(g0, g, t, sel, todo) && e in todo
    ensures e in g && t in g && e != t
    ensures AttachLoop(g0, Adopt(g, t, e), t, sel, todo - {e})
  {
    assert sel - (todo - {e}) == (sel - todo) + {e};
    AttachingStep(g0, g, t, sel - todo, e);
    AttachedLastStep(g0, g, t, sel - todo, e);
  }

  lemma AttachLoopDone(g0: Graph, g: Graph, t: Entity, sel: set<Entity>)
    requires AttachLoop(g0, g, t, sel, {})
    ensures Linked(g) && Attaching(g0, g, t, sel) && AttachedLast(g0, g, t, sel)
  {
    assert sel - {} == sel;
  }

  /** The loop of "Attach to": set_parent(t) for every entity of `sel`, in the order the
      query yields them, which is left open. */
  method AttachAll(g0: Graph, t: Entity, sel: set<Entity>) returns (g: Graph)
    requires Linked(g0) && t in g0 && sel <= g0.Keys && t !in sel
    ensures Linked(g) && Attaching(g0, g, t, sel) && AttachedLast(g0, g, t, sel)
  {
    var todo := sel;
    g := g0;
    AttachLoopStart(g0, t, sel);
    while todo != {}
      invariant AttachLoop(g0, g, t, sel, todo)
      decreases todo
    {
      var e :| e in todo;
      AttachLoopStep(g0, g, t, sel, todo, e);
      g := Adopt(g, t, e);
      todo := todo - {e};
    }
    AttachLoopDone(g0, g, t, sel);
  }

  /** Nothing is attached yet. */
  lemma AttachingStart(g: Graph, t: Entity)
    requires t in g
    ensures Attaching(g, g, t, {})
  {
    forall x | x in g {
      MinusNone(g[x].children);
    }
  }

  /** The state of the "Clear all entities" loop: the entities of `ps` not in `todo` are
      gone with their subtrees, the rest of the world is as it was less those subtrees,
      and each of them is logged once. */
  ghost predicate Clearing(g0: Graph, g: Graph, ps: set<Entity>, todo: set<Entity>, recs: seq<Change>) {
    Linked(g) && todo <= ps &&
    OnePerEntity(recs, ps - todo, false) &&
    Pruned(g0, g, Subtrees(g0, ps - todo)) &&
    forall x :: x in ps && x !in todo ==> x !in g
  }

  lemma ClearingStep(g0: Graph, g: Graph, ps: set<Entity>, todo: set<Entity>, recs: seq<Change>, e: Entity)
    requires Clearing(g0, g, ps, todo, recs) && e in todo
    ensures Clearing(g0, Despawn(g, e), ps, todo - {e}, recs + [Removed(e)])
  {
    var done := ps - todo;
    if e in g {
      SubtreesClosed(g0, done);
      PrunedDespawn(g0, g, Subtrees(g0, done), e);
      SubtreesAdd(g0, done, e);
      DespawnLinked(g, e);
    } else {
      SubtreesAbsorbed(g0, done, e);
    }
    OnePerEntityAppend(recs, done, false, e);
    assert ps - (todo - {e}) == done + {e};
  }

  /** The loop of "Clear all entities": despawn_recursive and a Removed record for each
      entity of `ps`, in the order the query yields them, which is left open. */
  method DespawnEach(g0: Graph, ps: set<Entity>) returns (g: Graph, recs: seq<Change>)
    requires Linked(g0)
    ensures Linked(g) && g.Keys <= g0.Keys
    ensures Pruned(g0, g, Subtrees(g0, ps))
    ensures OnePerEntity(recs, ps, false)
    ensures forall x :: x in ps ==> x !in g
  {
    g := g0;
    recs := [];
    var todo := ps;
    OnePerEntityEmpty(false);
    PrunedNone(g0);
    assert ps - ps == {};
    assert Subtrees(g0, {}) == {};
    while todo != {}
      invariant Clearing(g0, g, ps, todo, recs)
      decreases todo
    {
      var e :| e in todo;
      ClearingStep(g0, g, ps, todo, recs, e);
      g := Despawn(g, e);
      recs := recs + [Removed(e)];
      todo := todo - {e};
    }
    assert ps - {} == ps;
  }

  /** One record of the given kind for each entity of `es`, in an order left open. */
  method RecordEach(es: set<Entity>, added: bool) returns (recs: seq<Change>)
    ensures OnePerEntity(recs, es, added)
  {
    recs := [];
    var todo := es;
    ghost var done: set<Entity> := {};
    OnePerEntityEmpty(added);
    while todo != {}
      invariant todo + done == es && todo !! done
      invariant OnePerEntity(recs, done, added)
      decreases todo
    {
      var e :| e in todo;
      OnePerEntityAppend(recs, done, added, e);
      recs := recs + [Record(added, e)];
      todo := todo - {e};
      done := done + {e};
    }
  }

  /** The destinations that a run of requests with clone maps `maps` marks with ClonedEntity. */
  function AllMarks(s: Graph, maps: seq<map<Entity, Entity>>): set<Entity> {
    if maps == [] then {} else AllMarks(s, maps[..|maps| - 1]) + Marks(s, maps[|maps| - 1])
  }

  /** An entity is marked by a run of requests exactly when one of them marks it. */
  lemma {:induction false} AllMarksMembers(s: Graph, maps: seq<map<Entity, Entity>>, x: Entity)
    ensures x in AllMarks(s, maps) <==> exists i :: 0 <= i < |maps| && x in Marks(s, maps[i])
  {
    if maps != [] {
      var front := maps[..|maps| - 1];
      AllMarksMembers(s, front, x);
      if x in AllMarks(s, front) {
        var i :| 0 <= i < |front| && x in Marks(s, front[i]);
        assert maps[i] == front[i];
      }
      if exists i :: 0 <= i < |maps| && x in Marks(s, maps[i]) {
        var i :| 0 <= i < |maps| && x in Marks(s, maps[i]);
        if i < |front| {
          assert maps[i] == front[i];
        }
      }
    }
  }

  /** One more request adds the markers it places. */
  lemma AllMarksAppend(s: Graph, maps: seq<map<Entity, Entity>>, m: map<Entity, Entity>)
    ensures AllMarks(s, maps + [m]) == AllMarks(s, maps) + Marks(s, m)
  {
    assert (maps + [m])[..|maps|] == maps;
  }

  /** Part way through the clone pass: the first |maps| requests of `reqs` are served, one
      after the other, against the snapshot `snap`; request i took the world from worlds[i]
      to worlds[i + 1] and the allocator from ids[i] to ids[i + 1]; the world now is `g`,
      the allocator `n`, and the ClonedEntity markers are the old ones `mk0` plus those the
      served requests placed. */
  ghost predicate Served(snap: Graph, copied: bool, reqs: seq<Entity>, mk0: set<Entity>, n0: nat,
                         maps: seq<map<Entity, Entity>>, worlds: seq<Graph>, ids: seq<nat>,
                         g: Graph, n: nat, mk: set<Entity>) {
    |maps| <= |reqs| && |worlds| == |ids| == |maps| + 1 &&
    worlds[0] == snap && ids[0] == n0 && worlds[|maps|] == g && ids[|maps|] == n &&
    (forall i :: 0 <= i < |maps| ==> CloneResult(snap, copied, reqs[i], maps[i], worlds[i], worlds[i + 1], ids[i], ids[i + 1])) &&
    mk == mk0 + AllMarks(snap, maps)
  }

  /** Serving one more request extends the chain. */
  lemma ServedStep(snap: Graph, copied: bool, reqs: seq<Entity>, mk0: set<Entity>, n0: nat,
                   maps: seq<map<Entity, Entity>>, worlds: seq<Graph>, ids: seq<nat>, g: Graph, n: nat, mk: set<Entity>,
                   m: map<Entity, Entity>, g': Graph, n': nat, mk': set<Entity>,
                   maps': seq<map<Entity, Entity>>, worlds': seq<Graph>, ids': seq<nat>)
    requires Served(snap, copied, reqs, mk0, n0, maps, worlds, ids, g, n, mk) && |maps| < |reqs|
    requires CloneResult(snap, copied, reqs[|maps|], m, g, g', n, n') && mk' == mk + Marks(snap, m)
    requires maps' == maps + [m] && worlds' == worlds + [g'] && ids' == ids + [n']
    ensures Served(snap, copied, reqs, mk0, n0, maps', worlds', ids', g', n', mk')
  {
    AllMarksAppend(snap, maps, m);
  }

  /** Once every request is served, the pass has the effect its contract states. */
  lemma ServedDone(snap: Graph, copied: bool, reqs: seq<Entity>, mk0: set<Entity>, n0: nat,
                   maps: seq<map<Entity, Entity>>, worlds: seq<Graph>, ids: seq<nat>, g: Graph, n: nat, mk: set<Entity>)
    requires Served(snap, copied, reqs, mk0, n0, maps, worlds, ids, g, n, mk) && |maps| == |reqs|
    ensures |worlds| == |ids| == |maps| + 1
    ensures worlds[0] == snap && ids[0] == n0 && worlds[|maps|] == g && ids[|maps|] == n
    ensures forall i :: 0 <= i < |maps| ==> CloneResult(snap, copied, reqs[i], maps[i], worlds[i], worlds[i + 1], ids[i], ids[i + 1])
    ensures mk == mk0 + AllMarks(snap, maps)
    ensures forall i :: 0 <= i < |maps| ==> Marks(snap, maps[i]) <= mk
  {
    forall i, x | 0 <= i < |maps| && x in Marks(snap, maps[i]) ensures x in mk {
      AllMarksMembers(snap, maps, x);
    }
  }

  /** The editor state the hierarchy works on. */
  class Editor {
    /** The world: every live entity with its PrefabMarker flag, Parent and Children. */
    var nodes: Graph
    /** The next id spawn_empty hands out. */
    var next: nat
    /** The entities carrying the Selected component. */
    var selected: set<Entity>
    /** The entities carrying the ClonedEntity marker. */
    var marked: set<Entity>
    /** The change records sent to the undo system, oldest first. */
    var log: seq<Change>
    /** The pending clone requests (CloneEvent ids), oldest first. */
    var requests: seq<Entity>

    /** Parent and Children agree, every id is below the allocator's next id, and the
        Selected and ClonedEntity components sit on live entities. */
    ghost predicate Valid()
      reads this
    {
      Linked(nodes) && Predates(nodes, next) && selected <= nodes.Keys && marked <= nodes.Keys
    }

    constructor ()
      ensures Valid()
      ensures nodes == map[] && next == 0 && selected == {} && marked == {} && log == [] && requests == []
    {
      nodes := map[];
      next := 0;
      selected := {};
      marked := {};
      log := [];
      requests := [];
    }

    /** spawn_empty with PrefabMarker: a fresh parentless entity. */
    method Spawn() returns (e: Entity)
      requires Valid()
      modifies this
      ensures Valid()
      ensures e == old(next) && e !in old(nodes) && next == old(next) + 1
      ensures nodes == old(nodes)[e := Fresh(true)]
      ensures selected == old(selected) && marked == old(marked) && log == old(log) && requests == old(requests)
    {
      e := next;
      SpawnLinked(nodes, e, true);
      nodes := nodes[e := Fresh(true)];
      next := next + 1;
    }

    /** "+ Add new entity": one new parentless prefab entity and one Added record. */
    method AddEntity() returns (e: Entity)
      requires Valid()
      modifies this
      ensures Valid()
      ensures e == old(next) && e !in old(nodes) && next == old(next) + 1
      ensures nodes == old(nodes)[e := Fresh(true)]
      ensures log == old(log) + [Added(e)]
      ensures selected == old(selected) && marked == old(marked) && requests == old(requests)
    {
      e := Spawn();
      log := log + [Added(e)];
    }

    /** "Add child": one new prefab entity, appended to the Children of `parent`, and one
        Added record. */
    method AddChild(parent: Entity) returns (e: Entity)
      requires Valid() && parent in nodes
      modifies this
      ensures Valid()
      ensures e == old(next) && e !in old(nodes) && next == old(next) + 1
      ensures nodes == Adopt(old(nodes)[e := Fresh(true)], parent, e)
      ensures nodes.Keys == old(nodes).Keys + {e}
      ensures nodes[e] == Node(true, Some(parent), [])
      ensures nodes[parent] == old(nodes)[parent].(children := old(nodes)[parent].children + [e])
      ensures forall x :: x in old(nodes) && x != parent ==> nodes[x] == old(nodes)[x]
      ensures log == old(log) + [Added(e)]
      ensures selected == old(selected) && marked == old(marked) && requests == old(requests)
    {
      e := Spawn();
      var g1 := nodes;
      assert e !in g1[parent].children;
      AdoptLinked(g1, parent, e);
      nodes := Adopt(g1, parent, e);
      log := log + [Added(e)];
    }

    /** "Delete": the entity and all of its descendants are despawned, their Selected and
        ClonedEntity components with them, and a single Removed record names the entity. */
    method Delete(e: Entity)
      requires Valid() && e in nodes
      modifies this
      ensures Valid()
      ensures nodes == Despawn(old(nodes), e)
      ensures nodes.Keys == old(nodes).Keys - Subtree(old(nodes), e)
      ensures log == old(log) + [Removed(e)]
      ensures selected == old(selected) - Subtree(old(nodes), e)
      ensures marked == old(marked) - Subtree(old(nodes), e)
      ensures next == old(next) && requests == old(requests)
    {
      DespawnLinked(nodes, e);
      nodes := Despawn(nodes, e);
      selected := selected * nodes.Keys;
      marked := marked * nodes.Keys;
      log := log + [Removed(e)];
    }

    /** "Clear all entities": every entity that carried PrefabMarker when the button was
        drawn is despawned with its descendants, and logged once as Removed. An entity
        already gone with an earlier one's subtree only gets its record. Every other entity
        stays with its flag and Parent, and its Children lose exactly the despawned ones.
        The Selected and ClonedEntity components go with their entities. */
    method ClearAll()
      requires Valid()
      modifies this
      ensures Valid()
      ensures |old(log)| <= |log| && log == old(log) + log[|old(log)|..]
      ensures OnePerEntity(log[|old(log)|..], Prefabs(old(nodes)), false)
      ensures nodes.Keys <= old(nodes).Keys
      ensures Pruned(old(nodes), nodes, Subtrees(old(nodes), Prefabs(old(nodes))))
      ensures forall x :: x in old(nodes) && old(nodes)[x].prefab ==> x !in nodes
      ensures selected == old(selected) * nodes.Keys && marked == old(marked) * nodes.Keys
      ensures next == old(next) && requests == old(requests)
    {
      var g, recs := DespawnEach(nodes, Prefabs(nodes));
      nodes := g;
      selected := selected * g.Keys;
      marked := marked * g.Keys;
      log := log + recs;
    }

    /** A click on the label of `e` (hierarchy.rs:219-230): a plain click on an unselected
        entity first removes Selected from every selected entity. */
    method Click(e: Entity, shift: bool)
      requires Valid() && e in nodes
      modifies this
      ensures Valid()
      ensures selected == Clicked(old(selected), e, shift)
      ensures nodes == old(nodes) && next == old(next) && marked == old(marked)
      ensures log == old(log) && requests == old(requests)
    {
      if e !in selected {
        if !shift {
          var rest := selected;
          while rest != {}
            invariant selected == rest
            invariant nodes == old(nodes) && next == old(next) && marked == old(marked)
            invariant log == old(log) && requests == old(requests)
            decreases rest
          {
            var x :| x in rest;
            selected := selected - {x};
            rest := rest - {x};
          }
        }
        selected := selected + {e};
      } else {
        selected := selected - {e};
      }
    }

    /** "Clone": queue a clone request for `e`. */
    method RequestClone(e: Entity)
      requires Valid()
      modifies this
      ensures Valid()
      ensures requests == old(requests) + [e]
      ensures nodes == old(nodes) && next == old(next) && selected == old(selected)
      ensures marked == old(marked) && log == old(log)
    {
      requests := requests + [e];
    }

    /** "Attach to": offered only when something is selected and `target` is not; then every
        selected entity becomes a child of `target`. Nothing checks that `target` is not a
        descendant of a selected entity, and nothing is logged. */
    method AttachTo(target: Entity) returns (shown: bool)
      requires Valid() && target in nodes
      modifies this
      ensures Valid()
      ensures shown <==> old(selected) != {} && target !in old(selected)
      ensures !shown ==> nodes == old(nodes)
      ensures nodes.Keys == old(nodes).Keys
      ensures forall x :: x in nodes ==> nodes[x].prefab == old(nodes)[x].prefab
      ensures shown ==> forall x :: x in old(selected) ==> nodes[x].parent == Some(target)
      ensures shown ==> forall x :: x in nodes && x !in old(selected) ==> nodes[x].parent == old(nodes)[x].parent
      ensures shown ==> forall y :: y in nodes[target].children <==> y in old(nodes)[target].children || y in old(selected)
      ensures shown ==> var kept := Minus(old(nodes)[target].children, old(selected));
        |kept| <= |nodes[target].children| && nodes[target].children[..|kept|] == kept &&
        Elems(nodes[target].children[|kept|..]) == old(selected)
      ensures shown ==> forall x :: x in nodes && x != target ==>
        nodes[x].children == Minus(old(nodes)[x].children, old(selected))
      ensures selected == old(selected) && next == old(next) && marked == old(marked)
      ensures log == old(log) && requests == old(requests)
    {
      shown := selected != {} && target !in selected;
      if shown {
        var g := AttachAll(nodes, target, selected);
        nodes := g;
      }
    }

    /** "Detach": offered only when `e` has a parent; then `e` leaves it (remove_parent),
        and nothing is logged. */
    method Detach(e: Entity) returns (shown: bool)
      requires Valid() && e in nodes
      modifies this
      ensures Valid()
      ensures shown <==> old(nodes)[e].parent.Some?
      ensures nodes == (if shown then Unlink(old(nodes), e) else old(nodes))
      ensures nodes[e].parent == None
      ensures selected == old(selected) && next == old(next) && marked == old(marked)
      ensures log == old(log) && requests == old(requests)
    {
      shown := nodes[e].parent.Some?;
      if shown {
        UnlinkLinked(nodes, e);
        nodes := Unlink(nodes, e);
      }
    }

    /** The traversal roots of the panel, in increasing id order: the entities shown (all
        of them, or only those with PrefabMarker) that have no parent. */
    method Roots(showAll: bool) returns (rs: seq<Entity>)
      requires Valid()
      ensures forall i, j :: 0 <= i < j < |rs| ==> rs[i] < rs[j]
      ensures forall x :: x in rs <==> x in nodes && (showAll || nodes[x].prefab) && nodes[x].parent == None
    {
      rs := [];
      for i := 0 to next
        invariant forall a, b :: 0 <= a < b < |rs| ==> rs[a] < rs[b]
        invariant forall a :: 0 <= a < |rs| ==> rs[a] < i
        invariant forall x :: x in rs <==> x < i && x in nodes && (showAll || nodes[x].prefab) && nodes[x].parent == None
      {
        if i in nodes && (showAll || nodes[i].prefab) && nodes[i].parent == None {
          rs := rs + [i];
        }
      }
    }

    /** One clone request (hierarchy.rs:280-308): the subtree of `root` in the snapshot
        `snap` copied into the world, with the ClonedEntity marker on every destination
        whose source was found with PrefabMarker; `copied` says whether the component
        copy (clone_entity_flat) carries PrefabMarker over. */
    method CloneOne(snap: Graph, copied: bool, root: Entity) returns (m: map<Entity, Entity>)
      requires Valid() && Linked(snap) && snap.Keys <= nodes.Keys && Acyclic(snap, root)
      modifies this
      ensures Valid()
      ensures CloneResult(snap, copied, root, m, old(nodes), nodes, old(next), next)
      ensures marked == old(marked) + Marks(snap, m)
      ensures selected == old(selected) && log == old(log) && requests == old(requests)
    {
      var g, n, marks;
      g, n, m, marks := CloneTree(snap, copied, root, nodes, next);
      CloneBounds(snap, copied, root, m, nodes, g, next, n);
      nodes, next, marked := g, n, marked + marks;
    }

    /** The clone pass (hierarchy.rs:274-311): every pending request, oldest first, against
        the world as it was when the pass began; the queue is empty afterwards, and the
        ClonedEntity markers added are exactly the ones the requests place. Whether the
        component registry copies PrefabMarker is the parameter `copied`. */
    method CloneEntities(copied: bool) returns (ghost maps: seq<map<Entity, Entity>>, ghost worlds: seq<Graph>, ghost ids: seq<nat>)
      requires Valid() && forall i :: 0 <= i < |requests| ==> Acyclic(nodes, requests[i])
      modifies this
      ensures Valid() && requests == []
      ensures |maps| == |old(requests)| && |worlds| == |ids| == |maps| + 1
      ensures worlds[0] == old(nodes) && ids[0] == old(next) && worlds[|maps|] == nodes && ids[|maps|] == next
      ensures forall i :: 0 <= i < |maps| ==>
        CloneResult(old(nodes), copied, old(requests)[i], maps[i], worlds[i], worlds[i + 1], ids[i], ids[i + 1])
      ensures marked == old(marked) + AllMarks(old(nodes), maps)
      ensures forall i :: 0 <= i < |maps| ==> Marks(old(nodes), maps[i]) <= marked
      ensures old(marked) <= marked
      ensures selected == old(selected) && log == old(log)
    {
      var snap, pending := nodes, requests;
      maps, worlds, ids := [], [nodes], [next];
      var k := 0;
      while k != |pending|
        invariant k == |maps| && pending == old(requests) && snap == old(nodes)
        invariant Valid() && snap.Keys <= nodes.Keys && Linked(snap)
        invariant Served(snap, copied, pending, old(marked), old(next), maps, worlds, ids, nodes, next, marked)
        invariant selected == old(selected) && log == old(log) && requests == old(requests)
        decreases |pending| - k
      {
        ghost var g, n, mk := nodes, next, marked;
        var m := CloneOne(snap, copied, pending[k]);
        ghost var maps', worlds', ids' := maps + [m], worlds + [nodes], ids + [next];
        ServedStep(snap, copied, pending, old(marked), old(next), maps, worlds, ids, g, n, mk, m, nodes, next, marked, maps', worlds', ids');
        maps, worlds, ids := maps', worlds', ids';
        k := k + 1;
      }
      ServedDone(snap, copied, pending, old(marked), old(next), maps, worlds, ids, nodes, next, marked);
      requests := [];
    }

    /** The notification pass (hierarchy.rs:313-324): every entity carrying ClonedEntity
        loses the marker and gets one Added record. */
    method DetectClonedEntities()
      requires Valid()
      modifies this
      ensures Valid()
      ensures marked == {}
      ensures |old(log)| <= |log| && log == old(log) + log[|old(log)|..]
      ensures OnePerEntity(log[|old(log)|..], old(marked), true)
      ensures nodes == old(nodes) && next == old(next) && selected == old(selected) && requests == old(requests)
    {
      var recs := RecordEach(marked, true);
      marked := {};
      log := log + recs;
    }
  }
}
