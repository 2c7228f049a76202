/** The steps of the clone work-stack loop, each a lemma from the loop state before it
    to the loop state after it. */
module CloneSteps {
  import opened EntityGraph
  import opened CloneSpec

  /** Dropping the first of a list without duplicates drops exactly that member. */
  lemma ElemsDrop(ch: seq<Entity>, i: nat)
    requires NoDups(ch) && i < |ch|
    ensures Elems(ch[i + 1..]) == Elems(ch[i..]) - {ch[i]}
  {
    assert ch[i..] == [ch[i]] + ch[i + 1..];
    assert ch[i] !in ch[i + 1..] by {
      forall j | i + 1 <= j < |ch| ensures ch[j] != ch[i] {
      }
    }
  }

  /** The loop state between two pops: the clone invariant with nothing owed, and the
      ClonedEntity markers placed so far. */
  ghost predicate Cloning(s: Graph, copied: bool, root: Entity, sub: set<Entity>, g0: Graph, n0: nat, m: map<Entity, Entity>,
                          stack: seq<(Entity, Entity)>, dst: map<Entity, Entity>, g: Graph, n: nat, marks: set<Entity>)
  {
    Inv(s, copied, root, sub, g0, n0, m, stack, dst, {}, g, n) && marks == Marks(s, m)
  }

  /** The state of the inner loop that pushes the children `ch[i..]` still owed; `dst1`
      is the pushed record when the current source was popped. */
  ghost predicate Pushing(s: Graph, copied: bool, root: Entity, sub: set<Entity>, g0: Graph, n0: nat, m: map<Entity, Entity>,
                          stack: seq<(Entity, Entity)>, dst: map<Entity, Entity>, g: Graph, n: nat, marks: set<Entity>,
                          ch: seq<Entity>, i: nat, dst1: map<Entity, Entity>)
  {
    i <= |ch| && NoDups(ch) && Inv(s, copied, root, sub, g0, n0, m, stack, dst, Elems(ch[i..]), g, n) &&
    marks == Marks(s, m) && dst1.Keys <= dst.Keys &&
    (ch != [] ==> ch[0] in sub) && (i > 0 ==> ch[0] in dst && ch[0] !in dst1)
  }

  /** The popped pair is fresh, and the parent lookup of a clonable source with a parent
      names a live entity other than the destination. */
  lemma PopReady(s: Graph, copied: bool, root: Entity, sub: set<Entity>, g0: Graph, n0: nat, m: map<Entity, Entity>,
                 stack: seq<(Entity, Entity)>, dst: map<Entity, Entity>, g: Graph, n: nat, marks: set<Entity>,
                 src: Entity, d: Entity)
    requires Cloning(s, copied, root, sub, g0, n0, m, stack, dst, g, n, marks)
    requires stack != [] && stack[|stack| - 1] == (src, d)
    ensures src !in m && d in g
    ensures Clonable(s, src) && s[src].parent.Some? ==>
      Remap(m[src := d], s[src].parent.value) in g && Remap(m[src := d], s[src].parent.value) != d
  {
    PopFresh(m, stack, dst, g, n0, n, src, d);
    MappedNew(g0, n0, m, stack, dst, n);
    if Clonable(s, src) && s[src].parent.Some? {
      PopParent(s, copied, root, sub, g0, n0, m, dst, g, src, d);
    }
  }

  /** After the pair is placed, the children of a clonable source are the ones owed. */
  lemma PopDone(s: Graph, copied: bool, root: Entity, sub: set<Entity>, g0: Graph, n0: nat, m: map<Entity, Entity>,
                stack: seq<(Entity, Entity)>, dst: map<Entity, Entity>, g: Graph, n: nat, marks: set<Entity>,
                src: Entity, d: Entity, g': Graph, marks': set<Entity>, ch: seq<Entity>)
    requires Linked(s) && Cloning(s, copied, root, sub, g0, n0, m, stack, dst, g, n, marks)
    requires stack != [] && stack[|stack| - 1] == (src, d)
    requires Placed(s, copied, m, g, src, d, g')
    requires marks' == marks + (if Clonable(s, src) then {d} else {})
    requires ch == if Clonable(s, src) then s[src].children else []
    ensures Pushing(s, copied, root, sub, g0, n0, m[src := d], stack[..|stack| - 1], dst, g', n, marks', ch, 0, dst)
  {
    PopFresh(m, stack, dst, g, n0, n, src, d);
    Popped(s, copied, root, sub, g0, n0, m, stack, dst, g, n, src, d, g');
    MarksInsert(s, m, src, d);
    ChildSetElems(s, src, ch);
    if Clonable(s, src) {
      assert NoDups(s[src].children);
    }
  }

  lemma ChildSetElems(s: Graph, src: Entity, ch: seq<Entity>)
    requires ch == if Clonable(s, src) then s[src].children else []
    ensures ChildSet(s, src) == Elems(ch[0..])
  {
    assert ch[0..] == ch;
  }

  /** Pushing the next owed child with a newly spawned destination. */
  lemma PushStep(s: Graph, copied: bool, root: Entity, sub: set<Entity>, g0: Graph, n0: nat, m: map<Entity, Entity>,
                 stack: seq<(Entity, Entity)>, dst: map<Entity, Entity>, g: Graph, n: nat, marks: set<Entity>,
                 ch: seq<Entity>, i: nat, dst1: map<Entity, Entity>,
                 stack': seq<(Entity, Entity)>, dst': map<Entity, Entity>, g': Graph, n': nat, i': nat)
    requires Pushing(s, copied, root, sub, g0, n0, m, stack, dst, g, n, marks, ch, i, dst1) && i < |ch|
    requires stack' == stack + [(ch[i], n)] && dst' == dst[ch[i] := n] && g' == g[n := Fresh(false)]
    requires n' == n + 1 && i' == i + 1
    ensures n !in g
    ensures Pushing(s, copied, root, sub, g0, n0, m, stack', dst', g', n', marks, ch, i', dst1)
  {
    ElemsDrop(ch, i);
    Pushed(s, copied, root, sub, g0, n0, m, stack, dst, Elems(ch[i..]), g, n, ch[i]);
  }

  /** With every child pushed nothing is owed, and the pushed record grew by the first
      child when there was one. */
  lemma PushDone(s: Graph, copied: bool, root: Entity, sub: set<Entity>, g0: Graph, n0: nat, m: map<Entity, Entity>,
                 stack: seq<(Entity, Entity)>, dst: map<Entity, Entity>, g: Graph, n: nat, marks: set<Entity>,
                 ch: seq<Entity>, dst1: map<Entity, Entity>)
    requires Pushing(s, copied, root, sub, g0, n0, m, stack, dst, g, n, marks, ch, |ch|, dst1)
    ensures Cloning(s, copied, root, sub, g0, n0, m, stack, dst, g, n, marks)
    ensures ch != [] ==> sub - dst.Keys < sub - dst1.Keys
  {
    assert Elems(ch[|ch|..]) == {};
    if ch != [] {
      assert ch[0] in sub - dst1.Keys;
    }
  }


  /** How many entities of the subtree have no destination yet: the measure that
      bounds the number of pushes. */
  ghost function Unpushed(sub: set<Entity>, dst: map<Entity, Entity>): nat {
    |sub - dst.Keys|
  }

  lemma SmallerCard(a: set<Entity>, b: set<Entity>)
    requires a < b
    ensures |a| < |b|
  {
    assert b == a + (b - a);
    assert a * (b - a) == {};
    var x :| x in b - a;
  }

  /** An empty stack ends the request with the clone in place. */
  lemma Finish(s: Graph, copied: bool, root: Entity, sub: set<Entity>, g0: Graph, n0: nat, m: map<Entity, Entity>,
               stack: seq<(Entity, Entity)>, dst: map<Entity, Entity>, g: Graph, n: nat, marks: set<Entity>)
    requires Cloning(s, copied, root, sub, g0, n0, m, stack, dst, g, n, marks) && stack == [] && sub == Subtree(s, root)
    ensures Linked(g) && CloneResult(s, copied, root, m, g0, g, n0, n) && marks == Marks(s, m)
  {
    CloneDone(s, copied, root, sub, g0, n0, m, dst, g, n);
  }
}
