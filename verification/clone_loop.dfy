/** The work-stack loop of one clone request (hierarchy.rs:281-308), written as the code
    runs it: pop a (source, destination) pair, record it in the clone map, and for a
    source found with PrefabMarker mark the destination, attach it under the clone of the
    source's parent (or under the parent itself) and push every child with a newly
    spawned destination. Reads go to the snapshot, writes to the world. */
module CloneLoop {
  import opened EntityGraph
  import opened CloneSpec
  import opened CloneSteps

  /** Placing a popped pair (hierarchy.rs:286-305): a source found with PrefabMarker
      marks its destination, has its components copied onto it (PrefabMarker included
      when `copied`), attaches it under the clone of its parent (or the parent itself)
      when it has one, and owes its children; any other source leaves the
      destination an empty placeholder and owes nothing. */
  method Place(s: Graph, copied: bool, m: map<Entity, Entity>, g: Graph, marks: set<Entity>, src: Entity, d: Entity)
    returns (g': Graph, marks': set<Entity>, ch: seq<Entity>)
    requires d in g
    requires Clonable(s, src) && s[src].parent.Some? ==>
      Remap(m[src := d], s[src].parent.value) in g && Remap(m[src := d], s[src].parent.value) != d
    ensures Placed(s, copied, m, g, src, d, g')
    ensures marks' == marks + (if Clonable(s, src) then {d} else {})
    ensures ch == if Clonable(s, src) then s[src].children else []
  {
    g', marks', ch := g, marks, [];
    if src in s && s[src].prefab {
      marks' := marks + {d};
      g' := Flagged(g, d, copied);
      if s[src].parent.Some? {
        g' := Adopt(g', Remap(m[src := d], s[src].parent.value), d);
      }
      ch := s[src].children;
    }
  }

  /** Pushing every owed child with a newly spawned, empty destination
      (hierarchy.rs:301-305). */
  method PushChildren(ghost s: Graph, ghost copied: bool, ghost root: Entity, ghost sub: set<Entity>, ghost g0: Graph, ghost n0: nat,
                      ghost m: map<Entity, Entity>, stack: seq<(Entity, Entity)>, ghost dst: map<Entity, Entity>,
                      g: Graph, n: nat, ghost marks: set<Entity>, ch: seq<Entity>, ghost dst1: map<Entity, Entity>)
    returns (stack': seq<(Entity, Entity)>, ghost dst': map<Entity, Entity>, g': Graph, n': nat)
    requires Pushing(s, copied, root, sub, g0, n0, m, stack, dst, g, n, marks, ch, 0, dst1)
    ensures Pushing(s, copied, root, sub, g0, n0, m, stack', dst', g', n', marks, ch, |ch|, dst1)
    ensures |stack'| == |stack| + |ch| && n' == n + |ch|
    ensures ch == [] ==> dst' == dst
  {
    stack', dst', g', n' := stack, dst, g, n;
    var i := 0;
    while i != |ch|
      invariant Pushing(s, copied, root, sub, g0, n0, m, stack', dst', g', n', marks, ch, i, dst1)
      invariant |stack'| == |stack| + i && n' == n + i
      invariant i == 0 ==> dst' == dst
    {
      var st, gr, nn, i2 := stack' + [(ch[i], n')], g'[n' := Fresh(false)], n' + 1, i + 1;
      ghost var ds := dst'[ch[i] := n'];
      PushStep(s, copied, root, sub, g0, n0, m, stack', dst', g', n', marks, ch, i, dst1, st, ds, gr, nn, i2);
      stack', dst', g', n', i := st, ds, gr, nn, i2;
    }
  }

  /** One turn of the loop (hierarchy.rs:284-306): pop the last pair, place it, push the
      children it owes. */
  method Step(s: Graph, copied: bool, ghost root: Entity, ghost sub: set<Entity>, ghost g0: Graph, ghost n0: nat,
              m: map<Entity, Entity>, stack: seq<(Entity, Entity)>, ghost dst: map<Entity, Entity>,
              g: Graph, n: nat, marks: set<Entity>)
    returns (m': map<Entity, Entity>, stack': seq<(Entity, Entity)>, ghost dst': map<Entity, Entity>,
             g': Graph, n': nat, marks': set<Entity>)
    requires Linked(s) && Cloning(s, copied, root, sub, g0, n0, m, stack, dst, g, n, marks) && stack != []
    ensures Cloning(s, copied, root, sub, g0, n0, m', stack', dst', g', n', marks')
    ensures Unpushed(sub, dst') < Unpushed(sub, dst) || (dst' == dst && |stack'| < |stack|)
  {
    var (src, d) := stack[|stack| - 1];
    PopReady(s, copied, root, sub, g0, n0, m, stack, dst, g, n, marks, src, d);
    var g1, marks1, ch := Place(s, copied, m, g, marks, src, d);
    PopDone(s, copied, root, sub, g0, n0, m, stack, dst, g, n, marks, src, d, g1, marks1, ch);
    m', marks' := m[src := d], marks1;
    stack', dst', g', n' := PushChildren(s, copied, root, sub, g0, n0, m', stack[..|stack| - 1], dst, g1, n, marks', ch, dst);
    PushDone(s, copied, root, sub, g0, n0, m', stack', dst', g', n', marks', ch, dst);
    if ch != [] {
      SmallerCard(sub - dst'.Keys, sub - dst.Keys);
    }
  }

  /** One clone request: the subtree of `root` in the snapshot `s`, copied into the world
      `g0` whose allocator stands at `n0`; `copied` says whether the component copy
      carries PrefabMarker over. */
  method CloneTree(s: Graph, copied: bool, root: Entity, g0: Graph, n0: nat) returns (g: Graph, n: nat, m: map<Entity, Entity>, marks: set<Entity>)
    requires Linked(g0) && Predates(g0, n0) && Linked(s) && s.Keys <= g0.Keys && Acyclic(s, root)
    ensures Linked(g) && CloneResult(s, copied, root, m, g0, g, n0, n) && marks == Marks(s, m)
  {
    ghost var sub := Subtree(s, root);
    SubtreeClosed(s, root);
    LinkedSnapshot(s);
    CloneStart(s, copied, root, sub, g0, n0);
    g := g0[n0 := Fresh(false)];
    n := n0 + 1;
    var stack := [(root, n0)];
    m := map[];
    marks := {};
    ghost var dst: map<Entity, Entity> := map[root := n0];
    while stack != []
      invariant Cloning(s, copied, root, sub, g0, n0, m, stack, dst, g, n, marks)
      decreases Unpushed(sub, dst), |stack|
    {
      m, stack, dst, g, n, marks := Step(s, copied, root, sub, g0, n0, m, stack, dst, g, n, marks);
    }
    Finish(s, copied, root, sub, g0, n0, m, stack, dst, g, n, marks);
  }
}
