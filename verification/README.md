# Hierarchy panel of the space_editor scene editor

This project models the hierarchy panel of the editor UI crate
(`crates/editor_ui/src/hierarchy.rs`). The panel lists the scene's entities as a tree and lets the
user:

- add a root entity, or a child under an entity;
- delete an entity with its descendants;
- clear every prefab entity;
- select entities by clicking (plain or shift);
- attach the selected entities under another entity, or detach an entity from its parent;
- ask for a subtree to be cloned.

Two systems run behind the panel. The clone system (`clone_enitites`) serves the clone requests
with a work stack. The notification system (`detect_cloned_entities`) sends one `AddedEntity`
change for each new clone.

## Modules

**`EntityGraph`** (graph.dfy) holds the world as a map from entity id to a node. A node has the
`PrefabMarker` flag, the `Parent` component and the `Children` list. The module also defines:

- `Linked`: Parent and Children agree and no child is listed twice. The engine keeps this
  invariant.
- The effect of the engine's hierarchy commands. `Adopt` is `add_child`, `Unlink` is
  `remove_parent` and `Despawn` is `despawn_recursive`.
- `Subtree`: reachability along Children.

**`ChangeLog`** (changes.dfy) holds the `AddedEntity` / `RemovedEntity` records sent to the undo
system. It also defines `OnePerEntity`: exactly one record of the given kind for each entity of a
set, and no other record.

**`CloneSpec`** (clone_spec.dfy) says what one clone request does.

- `CloneResult` relates the snapshot the system reads, the clone map (source to destination) and
  the world before and after the request.
- The lemmas then say what that means. When the whole subtree carries `PrefabMarker`, the copy has
  exactly the subtree's shape. A source without `PrefabMarker` leaves an empty, unmarked,
  unattached placeholder.
- The module also holds the loop invariant `Inv` and its step lemmas.

**`CloneSteps`** and **`CloneLoop`** (clone_steps.dfy, clone_loop.dfy) carry out one request the
way the code does:

- pop the last (source, destination) pair and record it in the map;
- for a prefab source, insert the marker, copy the components, and attach the destination under
  the clone of the source's parent, or under the parent itself;
- push every child with a newly spawned destination.

`CloneTree` is that loop. Its `ensures` is `CloneResult`.

**`Hierarchy`** (hierarchy.dfy) has one `Editor` class. Its fields are the world, the id
allocator, the `Selected` entities, the `ClonedEntity` entities, the change log and the queue of
clone requests. Each button and each system is a method. `Valid()` is the class invariant:

- the world is `Linked`;
- every id lies below the allocator's next id;
- `Selected` and `ClonedEntity` sit on live entities.

Commands are deferred until the end of a system, so every read in the clone pass goes to the world
as it was when the pass began (`snap`). Every write goes to the live world.

## Model

| member | source | states |
|---|---|---|
| Hierarchy.Editor.AddEntity | crates/editor_ui/src/hierarchy.rs:109-113 | one new parentless entity with PrefabMarker, under an id no live entity has; exactly one AddedEntity record for it; selection, markers and clone queue untouched |
| Hierarchy.Editor.Spawn | crates/editor_ui/src/hierarchy.rs:110 | spawn_empty with PrefabMarker hands out the allocator's next id, which is not live, and keeps the world linked |
| Hierarchy.Editor.ClearAll | crates/editor_ui/src/hierarchy.rs:115-122 | exactly the entities in the subtree of some PrefabMarker entity are despawned. Every other entity keeps its flag and Parent, and its Children lose exactly the despawned entities, order kept. The new log part holds exactly one RemovedEntity record per prefab entity, even when an earlier despawn already took it with a subtree |
| Hierarchy.DespawnEach | crates/editor_ui/src/hierarchy.rs:116-121 | despawn_recursive on every entity of a set, in any order, leaves the world pruned of exactly the union of their subtrees, keeps it linked and logs each entity exactly once |
| Hierarchy.ClearingStep | crates/editor_ui/src/hierarchy.rs:117 | one more despawn_recursive extends the pruned part by that entity's subtree, or by nothing when an earlier one already took it |
| EntityGraph.PrunedDespawn | crates/editor_ui/src/hierarchy.rs:117 | despawning a survivor of a pruned world prunes its original subtree as well, with the rest of the world unchanged apart from Children entries |
| EntityGraph.PrunedSubtree | crates/editor_ui/src/hierarchy.rs:117 | in a world pruned of a closed set, a survivor's subtree is its original subtree less that set |
| Hierarchy.Editor.Click | crates/editor_ui/src/hierarchy.rs:219-230 | the selection after a click is `Clicked(old selection, entity, shift)`; the world, markers and log are unchanged |
| Hierarchy.ClickedToggles | crates/editor_ui/src/hierarchy.rs:219-230 | a click always flips whether the clicked entity is selected (both directions) |
| Hierarchy.ClickedOthers | crates/editor_ui/src/hierarchy.rs:220-226 | any other entity stays selected exactly when it was selected and the click was a shift-click or hit an already selected entity |
| Hierarchy.ClickedTwice | crates/editor_ui/src/hierarchy.rs:219-230 | two shift-clicks on the same entity give back the selection, whether or not the entity started selected; a click on the only selected entity empties it |
| Hierarchy.Editor.AddChild | crates/editor_ui/src/hierarchy.rs:242-248 | one new prefab entity whose Parent is the clicked entity, appended as the last of its Children; every other node unchanged; one AddedEntity record |
| EntityGraph.AdoptLinked | crates/editor_ui/src/hierarchy.rs:244 | add_child keeps Parent and Children in agreement |
| Hierarchy.Editor.Delete | crates/editor_ui/src/hierarchy.rs:250-255 | exactly the entity's subtree is despawned, Selected and ClonedEntity go with it, and a single RemovedEntity record names the entity |
| EntityGraph.DespawnSpawned | crates/editor_ui/src/hierarchy.rs:250-255 | deleting an entity that "+ Add new entity" has just spawned gives back exactly the world before the add |
| EntityGraph.DespawnAdopted | crates/editor_ui/src/hierarchy.rs:250-255 | deleting an entity that "Add child" has just spawned gives back exactly the world before the add: the parent loses the child it gained and nothing else changes |
| EntityGraph.DespawnLinked | crates/editor_ui/src/hierarchy.rs:251 | despawn_recursive removes exactly the subtree and leaves the rest linked |
| Hierarchy.Editor.RequestClone | crates/editor_ui/src/hierarchy.rs:257-260 | the clone request is queued after the pending ones; nothing else changes |
| Hierarchy.Editor.AttachTo | crates/editor_ui/src/hierarchy.rs:261-265 | the button appears exactly when the selection is non-empty and does not hold the target; every selected entity then has the target as its Parent and is listed in the target's Children; the target's Children become its old children that were not selected, in their old order, followed by exactly the selected entities; old parents drop them and keep their other children in order; no other Parent changes; the world stays linked |
| Hierarchy.AttachAll | crates/editor_ui/src/hierarchy.rs:262-264 | add_child for every selected entity, in any order, reaches the attached state above |
| Hierarchy.AttachingStep | crates/editor_ui/src/hierarchy.rs:263 | attaching one more entity keeps the world linked and extends the attached set by exactly that entity |
| Hierarchy.AttachedLastStep | crates/editor_ui/src/hierarchy.rs:263 | add_child keeps the target's unattached old children in front, in order, and puts exactly the attached entities behind them |
| Hierarchy.Editor.Detach | crates/editor_ui/src/hierarchy.rs:266-268 | the button appears exactly when the entity has a Parent; afterwards it has none, its old parent no longer lists it, and the world stays linked |
| EntityGraph.DetachAfterAttach | crates/editor_ui/src/hierarchy.rs:261-268 | detaching an entity just attached anywhere gives the same world as detaching it from its original parent |
| Hierarchy.Editor.Roots | crates/editor_ui/src/hierarchy.rs:70-80 | the traversal roots are listed in strictly increasing id order, and an entity is listed exactly when it is live, shown (all entities or only prefabs) and parentless |
| Hierarchy.Editor.CloneEntities | crates/editor_ui/src/hierarchy.rs:274-311 | every queued request, oldest first, is a `CloneResult` against the world as it was when the pass began, chained through the intermediate worlds and allocator states; the queue is empty afterwards; the ClonedEntity markers are exactly the old ones plus those the requests placed |
| Hierarchy.ServedStep | crates/editor_ui/src/hierarchy.rs:280-308 | serving one more request extends the chain of worlds and allocator states and adds exactly its markers |
| Hierarchy.AllMarksMembers | crates/editor_ui/src/hierarchy.rs:289 | an entity gets ClonedEntity in the pass exactly when one of the requests marks it |
| CloneSpec.DrawnAcyclic | crates/editor_ui/src/hierarchy.rs:79-80 | every entity drawn below a parentless root is not its own descendant, so a Clone request from its context menu meets the clone precondition |
| Hierarchy.Editor.CloneOne | crates/editor_ui/src/hierarchy.rs:280-308 | one request yields a `CloneResult`, whose clones of prefab sources carry PrefabMarker exactly when the component copy carries it over; ClonedEntity is added exactly on the destinations of prefab sources; the class invariant holds again |
| CloneLoop.CloneTree | crates/editor_ui/src/hierarchy.rs:281-308 | the work-stack loop ends, for a source root that is not its own descendant, in a linked world that satisfies `CloneResult`, with the marked set equal to the prefab sources' destinations |
| CloneLoop.Step | crates/editor_ui/src/hierarchy.rs:284-306 | one pop-place-push turn keeps the clone invariant and either pushes a source never pushed before or shrinks the stack |
| CloneLoop.Place | crates/editor_ui/src/hierarchy.rs:286-305 | a prefab source marks its destination, gives it the PrefabMarker flag the component copy yields, attaches it under the remapped parent and owes exactly its Children; any other source changes nothing and owes nothing |
| CloneLoop.PushChildren | crates/editor_ui/src/hierarchy.rs:301-305 | pushing the children grows the stack and the allocator by one per child and keeps the clone invariant |
| CloneSteps.PushStep | crates/editor_ui/src/hierarchy.rs:303 | the destination spawned for a child is not live yet, and pushing it keeps the invariant |
| CloneSteps.PopReady | crates/editor_ui/src/hierarchy.rs:284-285 | the popped source was never popped before and its destination is live, so the parent lookup lands on a live entity other than the destination |
| CloneSteps.Finish | crates/editor_ui/src/hierarchy.rs:284 | once the stack is empty, the world is linked and satisfies `CloneResult` |
| CloneSpec.CloneIsomorphic | crates/editor_ui/src/hierarchy.rs:280-308 | when every entity of the subtree carries PrefabMarker, the clone has exactly its shape: one fresh destination per member, the root's clone under the root's own parent, every other clone under its source parent's clone, Children mirrored in both directions, and PrefabMarker on every clone exactly when the component copy carries it over |
| CloneSpec.CloneCovers | crates/editor_ui/src/hierarchy.rs:301-305 | with an all-prefab subtree, every member is cloned and the allocator advances by exactly the subtree's size |
| CloneSpec.CloneRootParent | crates/editor_ui/src/hierarchy.rs:293-298 | the clone of a prefab root hangs under the root's original parent, or under nothing when the root has none |
| CloneSpec.CloneParent | crates/editor_ui/src/hierarchy.rs:293-295 | every other cloned prefab source has a cloned parent, and its clone hangs under that parent's clone |
| CloneSpec.CloneChildren | crates/editor_ui/src/hierarchy.rs:293-305 | for a cloned source x and a cloned prefab source c, c is a child of x exactly when the clone of c is a child of the clone of x |
| CloneSpec.PlaceholderChildNotMirrored | crates/editor_ui/src/hierarchy.rs:286-305 | a child without PrefabMarker of a cloned prefab source is cloned, but its placeholder is not a child of the parent's clone |
| CloneSpec.ClonePlaceholder | crates/editor_ui/src/hierarchy.rs:286-288 | a source that is missing or lacks PrefabMarker leaves a destination with no Parent, no Children, no PrefabMarker and no ClonedEntity |
| CloneSpec.PlaceholderSkipsChildren | crates/editor_ui/src/hierarchy.rs:287-305 | the children of a source without PrefabMarker are never cloned |
| CloneSpec.PlaceholderNothingUnder | crates/editor_ui/src/hierarchy.rs:286-306 | no entity, old or new, ends up under the clone of a source without PrefabMarker |
| CloneSpec.OldNotUnderClone | crates/editor_ui/src/hierarchy.rs:293-298 | no pre-existing entity is moved under a clone |
| CloneSpec.MarksInsert | crates/editor_ui/src/hierarchy.rs:285-289 | recording one more pair adds its destination to the marked set exactly when the source carries PrefabMarker |
| CloneSpec.CloneBounds | crates/editor_ui/src/hierarchy.rs:281 | a request only adds entities, all below the advanced allocator id, and every marked destination is live |
| Hierarchy.Editor.DetectClonedEntities | crates/editor_ui/src/hierarchy.rs:313-324 | every ClonedEntity marker is removed, and the new log part holds exactly one AddedEntity record per entity that carried it |
| Hierarchy.RecordEach | crates/editor_ui/src/hierarchy.rs:318-323 | one record of the given kind per entity of a set, in any order, and nothing else |
| ChangeLog.OnePerEntityCount | crates/editor_ui/src/hierarchy.rs:318-323 | one record per entity means exactly as many records as entities |

## Left out

- The egui drawing (scroll area, labels, context menus, checkbox) is left out. Each button press is
  a method call, and the shift modifier is a parameter.
- `draw_entity`'s recursive walk over Children is left out. Only the choice of traversal roots
  (`Roots`) is modelled.
- The spawnable-bundle palette (hierarchy.rs:128-144) is left out.
- Plugin wiring, events as a transport and `Arc` wrapping are left out. Changes are appended to a
  log, and clone requests to a queue.
- `clone_entity_flat` (hierarchy.rs:291) copies the registered components through the editor
  registry. That code is not part of this model. Whether it carries PrefabMarker over is the
  parameter `copied` of Hierarchy.Editor.CloneEntities: the clone of a prefab source has the flag
  exactly when `copied` holds. So with `copied` the clones count as prefabs for "Clear all" and
  for the prefab-only roots, and without it they do not. The destination of a source without
  PrefabMarker is never copied onto and has no flag. No other component is modelled.
- CloneSpec.CloneChildren and CloneSpec.CloneIsomorphic state the clones' Children by membership
  only, so their order is left unstated. The code pops siblings last-first, which reverses them:
  a source with Children [B, C] gets a clone whose Children are [C', B'].
- Entity generations are left out. Ids are naturals, handed out in increasing order and never
  reused.
- Query iteration order is left out. The loops over a query pick their next entity arbitrarily, so
  every order is covered.
- Hierarchy.Editor.CloneEntities, Hierarchy.Editor.CloneOne and CloneLoop.CloneTree require
  `Acyclic`: no requested root is its own descendant.
  - "Attach to" has no cycle check, so the world can hold a cycle.
  - In a linked world, any cycle reachable from a root passes through that root.
  - The code's loop diverges on such a root only when every entity on the cycle carries
    PrefabMarker. The push happens only in the PrefabMarker branch (hierarchy.rs:287-305), so an
    entity without the marker ends the walk.
  - The precondition also rules out the cycles that do end. That costs nothing for requests sent
    by the panel. The "Clone" button sits in the context menu `draw_entity` draws
    (hierarchy.rs:257-258). `draw_entity` recurses through Children from the parentless entities
    (hierarchy.rs:79-80, 198-199).
  - CloneSpec.DrawnAcyclic proves that every entity in the subtree of a parentless entity
    satisfies `Acyclic`. A root on a cycle is never drawn, so no request for it is ever sent.
- Hierarchy.Editor.Roots enumerates ids in increasing order. The code collects the rows and sorts
  them by entity. Bevy recycles entity indices and its entity order also involves the generation,
  so the two lists agree only because this model never reuses an id and has no generations.
- Hierarchy.Editor.DetectClonedEntities logs every entity carrying ClonedEntity. The code's query
  takes the markers added since its last run. These are the same entities because the pass removes
  every marker it sees.
- `despawn_recursive` on an entity already despawned only warns. The model leaves the world as it
  is in that case.
- Three behaviours of the code are modelled as written, though a reader might expect otherwise:
  - Delete sends one RemovedEntity record for the clicked entity only, not one per descendant.
  - A clone source without PrefabMarker does not have its children walked.
  - Nothing guards "Attach to" against cycles.
