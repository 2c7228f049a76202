/** The change records the hierarchy sends to the undo system. */
module ChangeLog {
  import opened EntityGraph

  /** AddedEntity and RemovedEntity. */
  datatype Change = Added(entity: Entity) | Removed(entity: Entity)

  function Record(added: bool, e: Entity): (c: Change)
    ensures c.entity == e && c.Added? == added
  {
    if added then Added(e) else Removed(e)
  }

  /** `recs` holds exactly one record of the given kind for each entity of `es`, and no other. */
  ghost predicate OnePerEntity(recs: seq<Change>, es: set<Entity>, added: bool) {
    (forall i :: 0 <= i < |recs| ==> recs[i].Added? == added && recs[i].entity in es) &&
    (forall i, j :: 0 <= i < j < |recs| ==> recs[i].entity != recs[j].entity) &&
    (forall e :: e in es ==> exists i :: 0 <= i < |recs| && recs[i].entity == e)
  }

  lemma OnePerEntityEmpty(added: bool)
    ensures OnePerEntity([], {}, added)
  {
  }

  /** Logging one more entity, not logged before, keeps one record per entity. */
  lemma OnePerEntityAppend(recs: seq<Change>, es: set<Entity>, added: bool, e: Entity)
    requires OnePerEntity(recs, es, added) && e !in es
    ensures OnePerEntity(recs + [Record(added, e)], es + {e}, added)
  {
    var r := recs + [Record(added, e)];
    forall x | x in es + {e} ensures exists i :: 0 <= i < |r| && r[i].entity == x {
      if x == e {
        assert r[|recs|].entity == e;
      } else {
        var i :| 0 <= i < |recs| && recs[i].entity == x;
        assert r[i].entity == x;
      }
    }
  }

  /** One record per entity means as many records as entities. */
  lemma {:induction false} OnePerEntityCount(recs: seq<Change>, es: set<Entity>, added: bool)
    requires OnePerEntity(recs, es, added)
    ensures |recs| == |es|
  {
    if recs != [] {
      var last := recs[|recs| - 1].entity;
      var front := recs[..|recs| - 1];
      assert OnePerEntity(front, es - {last}, added) by {
        forall x | x in es - {last} ensures exists i :: 0 <= i < |front| && front[i].entity == x {
          var i :| 0 <= i < |recs| && recs[i].entity == x;
          assert front[i].entity == x;
        }
      }
      OnePerEntityCount(front, es - {last}, added);
    }
  }
}
