/**
 * The outbound packet filter installed for one viewer (HideHelmetPacketReceiver). It forwards
 * every packet to the wrapped sink, first rewriting entity-update batches so that the armor
 * slots the viewer hides appear empty in the equipment updates of the viewer's own entity.
 * The rewrite is copy-on-write: nothing reachable from the input is written, and new objects
 * are made only along the changed path. `MaybeModify`, `RewriteBatch` and `RewriteOwnUpdate`
 * have no modifies clause; the helpers `PlaceCopy`, `RewriteEntry` and `PlaceEntry` write only
 * arrays allocated earlier in the same rewrite.
 */
module PacketReceiver {
  import opened ArmorState

  /** The type tag of a component update; only the equipment tag matters here. */
  datatype ComponentUpdateType = EquipmentUpdate | OtherUpdate(ordinal: int)

  class Equipment {
    const armorIds: array?<string>
    const rightHandItemId: string
    const leftHandItemId: string

    constructor (rightHandItemId: string, leftHandItemId: string, armorIds: array?<string>)
      ensures this.rightHandItemId == rightHandItemId && this.leftHandItemId == leftHandItemId
      ensures this.armorIds == armorIds
    {
      this.rightHandItemId := rightHandItemId;
      this.leftHandItemId := leftHandItemId;
      this.armorIds := armorIds;
    }
  }

  class ComponentUpdate {
    const kind: ComponentUpdateType
    const equipment: Equipment?

    constructor (kind: ComponentUpdateType, equipment: Equipment?)
      ensures this.kind == kind && this.equipment == equipment
    {
      this.kind := kind;
      this.equipment := equipment;
    }
  }

  class EntityUpdate {
    const networkId: int
    const removed: array?<ComponentUpdateType>
    const updates: array?<ComponentUpdate?>

    constructor (networkId: int, removed: array?<ComponentUpdateType>, updates: array?<ComponentUpdate?>)
      ensures this.networkId == networkId && this.removed == removed && this.updates == updates
    {
      this.networkId := networkId;
      this.removed := removed;
      this.updates := updates;
    }
  }

  class EntityUpdates {
    const removed: array?<int>
    const updates: array?<EntityUpdate?>

    constructor (removed: array?<int>, updates: array?<EntityUpdate?>)
      ensures this.removed == removed && this.updates == updates
    {
      this.removed := removed;
      this.updates := updates;
    }
  }

  /** The observable content of a rewritten component update: type, hand ids and armor ids. */
  datatype ComponentView = ComponentView(kind: ComponentUpdateType, rightHandItemId: string,
                                         leftHandItemId: string, armorIds: seq<string>)

  /** What one index of a rewritten component array must hold: the original reference, or a copy showing a view. */
  datatype Expected = Kept(original: ComponentUpdate?) | Replaced(view: ComponentView)

  /** An outbound packet: an entity-update batch, or any other packet, passed by reference. */
  datatype Packet = Batch(batch: EntityUpdates) | OtherPacket(payload: object)

  /** One call on the wrapped sink. */
  datatype Sent = Written(packet: Packet) | WrittenNoCache(packet: Packet)

  /** The wrapped sink, observed as the sequence of calls it receives. */
  class PacketSink {
    var sent: seq<Sent>

    constructor ()
      ensures sent == []
    {
      sent := [];
    }

    method Write(packet: Packet)
      modifies this
      ensures sent == old(sent) + [Written(packet)]
    {
      sent := sent + [Written(packet)];
    }

    method WriteNoCache(packet: Packet)
      modifies this
      ensures sent == old(sent) + [WrittenNoCache(packet)]
    {
      sent := sent + [WrittenNoCache(packet)];
    }
  }

  /** Some slot constant that is hidden under `mask` indexes an armor-id array of length `n`. */
  predicate HidesSlotWithin(mask: int, slots: seq<int>, n: int) {
    exists s :: 0 <= s < |slots| && IsHiddenIn(mask, slots[s]) && 0 <= slots[s] < n
  }

  /** Index `index` of an armor-id array is blanked: it is one of the first `k` slot constants and hidden. */
  predicate BlankedBy(mask: int, slots: seq<int>, k: int, index: int) {
    exists s :: 0 <= s < k && s < |slots| && slots[s] == index && IsHiddenIn(mask, index)
  }

  /** The armor ids with every hidden slot within bounds replaced by "". */
  function Blanked(ids: seq<string>, mask: int, slots: seq<int>): (r: seq<string>)
    ensures |r| == |ids|
    ensures forall i :: 0 <= i < |ids| ==> r[i] == if BlankedBy(mask, slots, |slots|, i) then "" else ids[i]
  {
    seq(|ids|, i requires 0 <= i < |ids| => if BlankedBy(mask, slots, |slots|, i) then "" else ids[i])
  }

  /** The armor-id arrays reachable from a component-update array. */
  ghost function ArmorArrays(a: array?<ComponentUpdate?>): set<array<string>>
    reads a
  {
    if a == null then {}
    else set j | 0 <= j < a.Length && a[j] != null && a[j].equipment != null && a[j].equipment.armorIds != null
               :: a[j].equipment.armorIds
  }

  /** The entity-update array of a batch packet; null for any other packet. */
  function Entities(p: Packet): array?<EntityUpdate?> {
    if p.Batch? then p.batch.updates else null
  }

  /** The component-update arrays of the entity updates in an entity-update array. */
  ghost function ComponentArrays(a: array?<EntityUpdate?>): set<array<ComponentUpdate?>>
    reads a
  {
    if a == null then {} else set k | 0 <= k < a.Length && a[k] != null && a[k].updates != null :: a[k].updates
  }

  /** Every array reachable from an entity-update array: itself, the component arrays and the armor-id arrays. */
  ghost function BatchFootprint(a: array?<EntityUpdate?>): set<object>
    reads a, ComponentArrays(a)
  {
    (if a == null then {} else {a as object}) + ComponentArrays(a) +
    (set c, o | c in ComponentArrays(a) && o in ArmorArrays(c) :: o)
  }

  class HideHelmetPacketReceiver {
    const delegate: PacketSink
    const store: ArmorStore
    const viewerUuid: Uuid
    const selfNetworkId: int
    /** The slot indices of head, chest, hands and legs (constants of the store). */
    const slots: seq<int>

    constructor (delegate: PacketSink, store: ArmorStore, viewerUuid: Uuid, selfNetworkId: int, slots: seq<int>)
      ensures this.delegate == delegate && this.store == store && this.viewerUuid == viewerUuid
      ensures this.selfNetworkId == selfNetworkId && this.slots == slots
    {
      this.delegate := delegate;
      this.store := store;
      this.viewerUuid := viewerUuid;
      this.selfNetworkId := selfNetworkId;
      this.slots := slots;
    }

    /** The viewer's current mask. */
    function Mask(): int
      reads store
    {
      store.GetMask(viewerUuid)
    }

    /** The component update is an equipment update with armor ids, one of whose hidden slots is in range. */
    predicate Rewrites(cu: ComponentUpdate?)
      reads store
    {
      cu != null && cu.kind == EquipmentUpdate && cu.equipment != null &&
      cu.equipment.armorIds != null && cu.equipment.armorIds.Length > 0 &&
      HidesSlotWithin(Mask(), slots, cu.equipment.armorIds.Length)
    }

    /** The entity update is the viewer's own, and one of its component updates is rewritten. */
    predicate EntityRewrites(upd: EntityUpdate?)
      reads store, if upd != null then upd.updates else null
    {
      upd != null && upd.networkId == selfNetworkId && upd.updates != null && upd.updates.Length > 0 &&
      exists j :: 0 <= j < upd.updates.Length && Rewrites(upd.updates[j])
    }

    /** The entry `out` meets what is expected of it. */
    predicate Holds(out: ComponentUpdate?, e: Expected)
      reads if out != null && out.equipment != null then out.equipment.armorIds else null
    {
      match e
      case Kept(original) => out == original
      case Replaced(v) => Shows(out, v)
    }

    /** What the rewrite makes of one component update: a blanked copy when it is rewritten, else itself. */
    function ExpectedComponent(cu: ComponentUpdate?): (e: Expected)
      reads store, if cu != null && cu.equipment != null then cu.equipment.armorIds else null
    {
      if Rewrites(cu) then Replaced(BlankedView(cu)) else Kept(cu)
    }

    /**
     * `out` is the copy of the viewer's entity update `orig`: same network id and removal
     * list, and a component array of the same length holding at each index what the rewrite
     * makes of the original component there.
     */
    predicate IsEntityCopy(orig: EntityUpdate, out: EntityUpdate?)
      requires orig.updates != null
      reads store, orig.updates, ArmorArrays(orig.updates)
      reads if out != null then out.updates else null, if out != null then ArmorArrays(out.updates) else {}
    {
      out != null && out.networkId == orig.networkId && out.removed == orig.removed &&
      out.updates != null && out.updates.Length == orig.updates.Length &&
      ComponentsCopied(orig.updates, out.updates, out.updates.Length)
    }

    /** Each of the first `n` entries of `outs` holds what the rewrite makes of the entry of `origs` at that index. */
    predicate ComponentsCopied(origs: array<ComponentUpdate?>, outs: array<ComponentUpdate?>, n: int)
      requires 0 <= n <= origs.Length && n <= outs.Length
      reads store, origs, ArmorArrays(origs), outs, ArmorArrays(outs)
      decreases n
    {
      n == 0 || (ComponentsCopied(origs, outs, n - 1) && Holds(outs[n - 1], ExpectedComponent(origs[n - 1])))
    }

    /** `ComponentsCopied` is the index-wise statement. */
    lemma {:induction false} ComponentsCopiedIff(origs: array<ComponentUpdate?>, outs: array<ComponentUpdate?>, n: int)
      requires 0 <= n <= origs.Length && n <= outs.Length
      ensures ComponentsCopied(origs, outs, n) <==>
        forall k :: 0 <= k < n ==> Holds(outs[k], ExpectedComponent(origs[k]))
      decreases n
    {
      if n > 0 {
        ComponentsCopiedIff(origs, outs, n - 1);
      }
    }

    /** An entity copy stays a copy across a step that leaves the store and both footprints alone. */
    twostate lemma EntityCopyFrame(pair: (EntityUpdate, EntityUpdate))
      requires pair.0.updates != null && pair.1.updates != null && old(IsEntityCopy(pair.0, pair.1))
      requires unchanged(store, pair.0.updates, pair.1.updates)
      requires unchanged(ArmorArrays(pair.0.updates), ArmorArrays(pair.1.updates))
      ensures IsEntityCopy(pair.0, pair.1)
    {
    }

    /**
     * The same for every pair of `t.0`, each original with its copy, which also stays built
     * from the objects of `t.1`.
     */
    twostate lemma EntityCopiesFrame(t: (set<(EntityUpdate, EntityUpdate)>, set<object>))
      requires unchanged(store)
      requires forall pair :: pair in t.0 ==>
        pair.0.updates != null && pair.1.updates != null &&
        old(IsEntityCopy(pair.0, pair.1)) && old(CopyWithin(pair.0, pair.1, t.1))
      requires forall pair :: pair in t.0 ==>
        unchanged(pair.0.updates, pair.1.updates) &&
        unchanged(ArmorArrays(pair.0.updates), ArmorArrays(pair.1.updates))
      ensures forall pair :: pair in t.0 ==> IsEntityCopy(pair.0, pair.1) && CopyWithin(pair.0, pair.1, t.1)
    {
      forall pair | pair in t.0
        ensures IsEntityCopy(pair.0, pair.1) && CopyWithin(pair.0, pair.1, t.1)
      {
        EntityCopyFrame(pair);
        CopyWithinFrame((pair.0, pair.1, t.1));
      }
    }

    /**
     * The component update `c` was made since the previous state, over equipment and an
     * armor-id array that were made since then too.
     */
    twostate predicate FreshComponent(new c: ComponentUpdate?)
    {
      c != null && fresh(c) && c.equipment != null && fresh(c.equipment) &&
      c.equipment.armorIds != null && fresh(c.equipment.armorIds)
    }

    /**
     * The copy `out` of the entity update `orig` shares nothing that is written: its component
     * array was made since the previous state, and so was every component it holds at an index
     * where the original component is rewritten, with that component's equipment and armor ids.
     */
    twostate predicate FreshCopy(orig: EntityUpdate, new out: EntityUpdate)
      requires orig.updates != null
      reads out.updates
    {
      out.updates != null && fresh(out.updates) && out.updates.Length == orig.updates.Length &&
      forall j :: 0 <= j < out.updates.Length && old(Rewrites(orig.updates[j])) ==> FreshComponent(out.updates[j])
    }

    /** The component `c`, its equipment and its armor-id array are all objects of `parts`. */
    predicate PartsIn(c: ComponentUpdate?, parts: set<object>)
    {
      c != null && c in parts && c.equipment != null && c.equipment in parts &&
      c.equipment.armorIds != null && c.equipment.armorIds in parts
    }

    /**
     * The copy `out` of `orig` is built from objects of `parts`: its component array, and the
     * component with its equipment and armor ids at every index where the original is rewritten.
     */
    predicate CopyWithin(orig: EntityUpdate, out: EntityUpdate, parts: set<object>)
      requires orig.updates != null
      reads store, orig.updates, out.updates
    {
      out in parts && out.updates != null && out.updates in parts && out.updates.Length == orig.updates.Length &&
      forall j :: 0 <= j < out.updates.Length && Rewrites(orig.updates[j]) ==> PartsIn(out.updates[j], parts)
    }

    /** A copy stays built from `t.2` across a step that leaves the store and both arrays alone. */
    twostate lemma CopyWithinFrame(t: (EntityUpdate, EntityUpdate, set<object>))
      requires t.0.updates != null && old(CopyWithin(t.0, t.1, t.2))
      requires unchanged(store, t.0.updates, t.1.updates)
      ensures CopyWithin(t.0, t.1, t.2)
    {
    }

    /** Copies built from `parts` are built from any larger set. */
    lemma CopiesWithinGrow(pairs: set<(EntityUpdate, EntityUpdate)>, parts: set<object>, more: set<object>)
      requires forall pair :: pair in pairs ==> pair.0.updates != null && CopyWithin(pair.0, pair.1, parts)
      requires parts <= more
      ensures forall pair :: pair in pairs ==> CopyWithin(pair.0, pair.1, more)
    {
    }

    /** The slot test of the source: some hidden slot is within an armor-id array of length `n`. */
    method ShouldHide(n: int) returns (shouldHide: bool)
      ensures shouldHide == HidesSlotWithin(Mask(), slots, n)
    {
      shouldHide := false;
      var k := 0;
      while k < |slots|
        invariant 0 <= k <= |slots|
        invariant forall s :: 0 <= s < k ==> !(store.IsHidden(viewerUuid, slots[s]) && 0 <= slots[s] < n)
      {
        var slot := slots[k];
        if store.IsHidden(viewerUuid, slot) && 0 <= slot < n {
          shouldHide := true;
          break;
        }
        k := k + 1;
      }
    }

    /** A clone of the armor-id array in which every hidden slot within bounds is "". */
    method BlankHiddenSlots(armorIds: array<string>) returns (copy: array<string>)
      ensures fresh(copy) && copy.Length == armorIds.Length
      ensures copy[..] == Blanked(armorIds[..], Mask(), slots)
    {
      copy := new string[armorIds.Length](i reads armorIds requires 0 <= i < armorIds.Length => armorIds[i]);
      var k := 0;
      while k < |slots|
        invariant 0 <= k <= |slots|
        invariant forall s :: 0 <= s < copy.Length ==>
          copy[s] == if BlankedBy(Mask(), slots, k, s) then "" else armorIds[s]
      {
        var slot := slots[k];
        if store.IsHidden(viewerUuid, slot) && 0 <= slot < copy.Length {
          copy[slot] := "";
        }
        k := k + 1;
      }
    }

    /**
     * The test the inner loop applies to one component update: it is non-null, an equipment
     * update with equipment, its armor ids are present and non-empty, and the slot test holds.
     */
    method NeedsRewrite(cu: ComponentUpdate?) returns (rewrite: bool)
      ensures rewrite == Rewrites(cu)
    {
      if cu == null {
        return false;
      }
      if cu.kind != EquipmentUpdate || cu.equipment == null {
        return false;
      }
      var armorIds := cu.equipment.armorIds;
      if armorIds == null || armorIds.Length == 0 {
        return false;
      }
      rewrite := ShouldHide(armorIds.Length);
    }

    /** The rewritten component: a fresh component update over a fresh equipment with blanked armor ids. */
    method CopyComponent(cu: ComponentUpdate) returns (cuCopy: ComponentUpdate)
      requires Rewrites(cu)
      ensures fresh(cuCopy) && cuCopy.equipment != null && fresh(cuCopy.equipment)
      ensures cuCopy.equipment.armorIds != null && fresh(cuCopy.equipment.armorIds)
      ensures Shows(cuCopy, BlankedView(cu))
    {
      var ids := BlankHiddenSlots(cu.equipment.armorIds);
      var eqCopy := new Equipment(cu.equipment.rightHandItemId, cu.equipment.leftHandItemId, ids);
      cuCopy := new ComponentUpdate(cu.kind, eqCopy);
    }

    /**
     * `out` shows view `v`: it is a component update of `v`'s type over an equipment with
     * `v`'s hand ids and an armor-id array holding `v`'s armor ids.
     */
    predicate Shows(out: ComponentUpdate?, v: ComponentView)
      reads if out != null && out.equipment != null then out.equipment.armorIds else null
    {
      out != null && out.kind == v.kind && out.equipment != null &&
      out.equipment.rightHandItemId == v.rightHandItemId &&
      out.equipment.leftHandItemId == v.leftHandItemId &&
      out.equipment.armorIds != null && out.equipment.armorIds[..] == v.armorIds
    }

    /** What the rewrite of `cu` must show: its type and hand ids, and its armor ids with the hidden slots blanked. */
    function BlankedView(cu: ComponentUpdate): (v: ComponentView)
      requires cu.equipment != null && cu.equipment.armorIds != null
      reads store, cu.equipment.armorIds
    {
      ComponentView(cu.kind, cu.equipment.rightHandItemId, cu.equipment.leftHandItemId,
                    Blanked(cu.equipment.armorIds[..], Mask(), slots))
    }

    /**
     * The work done for one rewritten component: the entity update is cloned (once, on first
     * need) with a shallow clone of its component array, and index `j` of that array receives
     * a fresh blanked copy of the component.
     */
    method PlaceCopy(upd: EntityUpdate, updCopy: EntityUpdate?, j: int, cu: ComponentUpdate)
      returns (result: EntityUpdate)
      requires upd.updates != null && 0 <= j < upd.updates.Length && upd.updates[j] == cu && Rewrites(cu)
      requires updCopy != null ==> updCopy.updates != null && updCopy.updates.Length == upd.updates.Length
      requires updCopy != null ==> updCopy.networkId == upd.networkId && updCopy.removed == upd.removed
      modifies if updCopy != null then {updCopy.updates} else {}
      ensures updCopy != null ==> result == updCopy
      ensures updCopy == null ==> fresh(result) && fresh(result.updates)
      ensures result.networkId == upd.networkId && result.removed == upd.removed
      ensures result.updates != null && result.updates.Length == upd.updates.Length
      ensures forall k :: 0 <= k < result.updates.Length && k != j ==>
        result.updates[k] == if updCopy != null then old(updCopy.updates[k]) else upd.updates[k]
      ensures Shows(result.updates[j], old(BlankedView(cu))) && FreshComponent(result.updates[j])
    {
      if updCopy == null {
        var components := upd.updates;
        var n := components.Length;
        var componentsCopy := new ComponentUpdate?[n](i reads components requires 0 <= i < n => components[i]);
        result := new EntityUpdate(upd.networkId, upd.removed, componentsCopy);
      } else {
        result := updCopy;
      }
      var cuCopy := CopyComponent(cu);
      result.updates[j] := cuCopy;
    }

    /**
     * The inner loop over the component updates of the viewer's own entity update: null when
     * none is rewritten; otherwise one fresh copy of the entity update (made at the first
     * rewritten component) with the same network id and removal list, whose component array
     * is a fresh clone in which each rewritten component is replaced by a blanked copy and
     * every other entry is the original reference.
     */
    method RewriteOwnUpdate(upd: EntityUpdate) returns (updCopy: EntityUpdate?, ghost parts: set<object>)
      requires upd.updates != null
      ensures updCopy == null <==> old(forall j :: 0 <= j < upd.updates.Length ==> !Rewrites(upd.updates[j]))
      ensures updCopy != null ==>
        fresh(updCopy) && updCopy.updates != null && fresh(updCopy.updates) &&
        updCopy.networkId == upd.networkId && updCopy.removed == upd.removed &&
        updCopy.updates.Length == upd.updates.Length
      ensures updCopy != null ==> IsEntityCopy(upd, updCopy)
      ensures updCopy != null ==> FreshCopy(upd, updCopy)
      ensures updCopy != null ==> fresh(parts) && CopyWithin(upd, updCopy, parts)
    {
      var components := upd.updates;
      var n := components.Length;
      updCopy := null;
      parts := {};
      for j := 0 to n
        invariant updCopy == null <==> forall k :: 0 <= k < j ==> !old(Rewrites(components[k]))
        invariant fresh(parts) && (updCopy != null ==> updCopy in parts && updCopy.updates in parts)
        invariant updCopy != null ==>
          fresh(updCopy) && updCopy.updates != null && fresh(updCopy.updates) &&
          updCopy.networkId == upd.networkId && updCopy.removed == upd.removed &&
          updCopy.updates.Length == n
        invariant updCopy != null ==> forall k :: j <= k < n ==> updCopy.updates[k] == components[k]
        invariant updCopy != null ==> forall k :: 0 <= k < j ==>
          Holds(updCopy.updates[k], old(ExpectedComponent(components[k]))) &&
          (old(Rewrites(components[k])) ==> PartsIn(updCopy.updates[k], parts))
      {
        var cu := components[j];
        var rewrite := NeedsRewrite(cu);
        if rewrite {
          updCopy := PlaceCopy(upd, updCopy, j, cu);
          var cuCopy := updCopy.updates[j];
          parts := parts + {updCopy as object, updCopy.updates, cuCopy, cuCopy.equipment, cuCopy.equipment.armorIds};
        }
      }
      if updCopy != null {
        assert forall k :: 0 <= k < n ==> Holds(updCopy.updates[k], ExpectedComponent(components[k]));
        ComponentsCopiedIff(components, updCopy.updates, n);
      }
    }

    /**
     * One step of the outer loop, at index `i` of the batch's update array: when the entry is
     * the viewer's own entity update with components and one of them is rewritten, its copy
     * is placed at index `i` of the clone of the update array, which is made on first need.
     */
    method RewriteEntry(entities: array<EntityUpdate?>, i: int, updatesCopy: array?<EntityUpdate?>,
                        ghost copies: seq<EntityUpdate?>, ghost made: set<(EntityUpdate, EntityUpdate)>,
                        ghost news: set<object>, ghost rewrites: bool)
      returns (result: array?<EntityUpdate?>, ghost copiesOut: seq<EntityUpdate?>,
               ghost madeOut: set<(EntityUpdate, EntityUpdate)>, ghost newsOut: set<object>)
      requires 0 <= i < entities.Length && |copies| == entities.Length
      requires rewrites == EntityRewrites(entities[i])
      requires updatesCopy != null ==> updatesCopy.Length == entities.Length && updatesCopy != entities
      requires updatesCopy != null ==> forall k :: 0 <= k < entities.Length ==> updatesCopy[k] == copies[k]
      requires updatesCopy == null ==> forall k :: 0 <= k < entities.Length ==> copies[k] == entities[k]
      requires forall pair :: pair in made ==>
        pair.0.updates != null && pair.1.updates != null && IsEntityCopy(pair.0, pair.1) &&
        CopyWithin(pair.0, pair.1, news)
      modifies if updatesCopy != null then {updatesCopy} else {}
      ensures |copiesOut| == entities.Length
      ensures forall k :: 0 <= k < entities.Length && k != i ==> copiesOut[k] == copies[k]
      ensures result == null <==> updatesCopy == null && !rewrites
      ensures result != null ==> (updatesCopy != null ==> result == updatesCopy) && (updatesCopy == null ==> fresh(result))
      ensures result != null ==> result.Length == entities.Length && forall k :: 0 <= k < entities.Length ==> result[k] == copiesOut[k]
      ensures result == null ==> copiesOut == copies
      ensures !rewrites ==> copiesOut[i] == copies[i] && madeOut == made
      ensures rewrites ==>
        fresh(copiesOut[i]) && entities[i] != null && copiesOut[i] != null &&
        madeOut == made + {(entities[i], copiesOut[i])}
      ensures news <= newsOut && fresh(newsOut - news)
      ensures forall pair :: pair in madeOut ==>
        pair.0.updates != null && pair.1.updates != null && IsEntityCopy(pair.0, pair.1) &&
        CopyWithin(pair.0, pair.1, newsOut)
    {
      result := updatesCopy;
      copiesOut := copies;
      madeOut := made;
      newsOut := news;
      var upd := entities[i];
      if upd != null && upd.networkId == selfNetworkId && upd.updates != null && upd.updates.Length > 0 {
        var updCopy, parts := RewriteOwnUpdate(upd);
        EntityCopiesFrame((made, news));
        if updCopy != null {
          result, copiesOut, madeOut, newsOut :=
            PlaceEntry(entities, i, updatesCopy, copies, made, news, updCopy, parts);
        }
      }
    }

    /**
     * Places the copy `updCopy` of the entity update at index `i` into the clone of the update
     * array, cloning `entities` first when no clone exists yet.
     */
    method PlaceEntry(entities: array<EntityUpdate?>, i: int, updatesCopy: array?<EntityUpdate?>,
                      ghost copies: seq<EntityUpdate?>, ghost made: set<(EntityUpdate, EntityUpdate)>,
                      ghost news: set<object>, updCopy: EntityUpdate, ghost parts: set<object>)
      returns (result: array<EntityUpdate?>, ghost copiesOut: seq<EntityUpdate?>,
               ghost madeOut: set<(EntityUpdate, EntityUpdate)>, ghost newsOut: set<object>)
      requires 0 <= i < entities.Length && |copies| == entities.Length && entities[i] != null
      requires updatesCopy != null ==> updatesCopy.Length == entities.Length && updatesCopy != entities
      requires updatesCopy != null ==> forall k :: 0 <= k < entities.Length ==> updatesCopy[k] == copies[k]
      requires updatesCopy == null ==> forall k :: 0 <= k < entities.Length ==> copies[k] == entities[k]
      requires entities[i].updates != null && updCopy.updates != null
      requires IsEntityCopy(entities[i], updCopy) && CopyWithin(entities[i], updCopy, parts)
      requires forall pair :: pair in made ==>
        pair.0.updates != null && pair.1.updates != null && IsEntityCopy(pair.0, pair.1) &&
        CopyWithin(pair.0, pair.1, news)
      modifies if updatesCopy != null then {updatesCopy} else {}
      ensures updatesCopy != null ==> result == updatesCopy
      ensures updatesCopy == null ==> fresh(result)
      ensures copiesOut == copies[i := updCopy] && madeOut == made + {(entities[i], updCopy)} && newsOut == news + parts
      ensures result.Length == entities.Length && forall k :: 0 <= k < entities.Length ==> result[k] == copiesOut[k]
      ensures forall pair :: pair in madeOut ==>
        pair.0.updates != null && pair.1.updates != null && IsEntityCopy(pair.0, pair.1) &&
        CopyWithin(pair.0, pair.1, newsOut)
    {
      var upd := entities[i];
      if updatesCopy == null {
        var n := entities.Length;
        result := new EntityUpdate?[n](k reads entities requires 0 <= k < n => entities[k]);
      } else {
        result := updatesCopy;
      }
      result[i] := updCopy;
      copiesOut := copies[i := updCopy];
      madeOut := made + {(upd, updCopy)};
      newsOut := news + parts;
      EntityCopiesFrame((made, news));
      EntityCopyFrame((upd, updCopy));
      CopyWithinFrame((upd, updCopy, parts));
      CopiesWithinGrow(made, news, newsOut);
      CopiesWithinGrow({(upd, updCopy)}, parts, newsOut);
    }

    /**
     * The outer loop over the batch's entity updates: null when none is rewritten; otherwise
     * one fresh clone of the update array (made at the first rewritten entity update) in
     * which exactly the rewritten entity updates are replaced by their fresh copies.
     */
    method RewriteBatch(entities: array<EntityUpdate?>) returns (updatesCopy: array?<EntityUpdate?>)
      ensures updatesCopy == null <==> forall i :: 0 <= i < entities.Length ==> !old(EntityRewrites(entities[i]))
      ensures updatesCopy != null ==> fresh(updatesCopy) && updatesCopy.Length == entities.Length
      ensures updatesCopy != null ==> forall i :: 0 <= i < entities.Length ==>
        if old(EntityRewrites(entities[i]))
        then fresh(updatesCopy[i]) && IsEntityCopy(entities[i], updatesCopy[i]) && FreshCopy(entities[i], updatesCopy[i])
        else updatesCopy[i] == entities[i]
    {
      var n := entities.Length;
      updatesCopy := null;
      ghost var es := entities[..];
      ghost var copies := es;
      ghost var made: set<(EntityUpdate, EntityUpdate)> := {};
      ghost var news: set<object> := {};
      ghost var rw := seq(n, k reads * requires 0 <= k < n => EntityRewrites(es[k]));
      for i := 0 to n
        invariant updatesCopy == null <==> forall k :: 0 <= k < i ==> !rw[k]
        invariant updatesCopy != null ==> fresh(updatesCopy) && updatesCopy.Length == n
        invariant |copies| == n && entities[..] == es
        invariant |rw| == n && forall k :: 0 <= k < n ==> rw[k] == old(EntityRewrites(es[k]))
        invariant updatesCopy != null ==> forall k :: 0 <= k < n ==> updatesCopy[k] == copies[k]
        invariant forall k :: 0 <= k < n ==> (copies[k] != es[k] <==> k < i && rw[k])
        invariant forall k :: 0 <= k < n && copies[k] != es[k] ==>
          es[k] != null && copies[k] != null && (es[k], copies[k]) in made
        invariant fresh(news)
        invariant forall pair :: pair in made ==>
          pair.0.updates != null && pair.1.updates != null && IsEntityCopy(pair.0, pair.1) &&
          CopyWithin(pair.0, pair.1, news)
      {
        updatesCopy, copies, made, news := RewriteEntry(entities, i, updatesCopy, copies, made, news, rw[i]);
      }
      if updatesCopy != null {
        forall i | 0 <= i < n && old(EntityRewrites(entities[i]))
          ensures fresh(updatesCopy[i]) && FreshCopy(entities[i], updatesCopy[i])
        {
          assert CopyWithin(entities[i], copies[i], news);
        }
      }
    }

    /** Under the zero mask no slot is hidden, so no component update is rewritten. */
    lemma NothingHiddenUnderZeroMask(n: int)
      requires Mask() == 0
      ensures !HidesSlotWithin(Mask(), slots, n)
    {
      forall s | 0 <= s < |slots| && 0 <= slots[s]
        ensures !IsHiddenIn(Mask(), slots[s])
      {
        NoBitOfZero(slots[s]);
      }
    }

    /**
     * `r` is the rewrite of `packet` made since the previous state. `packet` itself is the
     * rewrite unless the packet is an entity-update batch and one of its entity updates is
     * rewritten (under a zero mask none is); then the rewrite is a fresh batch with the same
     * removal list over a fresh clone of the update array, in which exactly the rewritten entity
     * updates are replaced by fresh copies, sharing no written array with the input, and every
     * other entry is the original reference.
     */
    twostate predicate IsRewriteOf(packet: Packet, new r: Packet)
      reads store, BatchFootprint(Entities(packet)), BatchFootprint(Entities(r))
    {
      (old(Mask()) == 0 || packet.OtherPacket? ==> r == packet) &&
      (r == packet <==>
        !(packet.Batch? && packet.batch.updates != null &&
          old(exists i :: 0 <= i < packet.batch.updates.Length && EntityRewrites(packet.batch.updates[i])))) &&
      (r != packet ==>
        r.Batch? && fresh(r.batch) && r.batch.removed == packet.batch.removed &&
        r.batch.updates != null && fresh(r.batch.updates) && packet.batch.updates != null &&
        r.batch.updates.Length == packet.batch.updates.Length && unchanged(packet.batch.updates) &&
        forall i :: 0 <= i < r.batch.updates.Length ==>
          if old(EntityRewrites(packet.batch.updates[i]))
          then fresh(r.batch.updates[i]) && IsEntityCopy(packet.batch.updates[i], r.batch.updates[i]) &&
               FreshCopy(packet.batch.updates[i], r.batch.updates[i])
          else r.batch.updates[i] == packet.batch.updates[i])
    }

    /**
     * The rewrite of an outbound packet. The packet itself is returned unless the mask is
     * non-zero, the packet is an entity-update batch and one of its entity updates is
     * rewritten; then the result is a fresh batch with the same removal list over a fresh
     * clone of the update array, in which exactly the rewritten entity updates are replaced
     * by their fresh copies and every other entry is the original reference.
     */
    method MaybeModify(packet: Packet) returns (r: Packet)
      ensures IsRewriteOf(packet, r)
    {
      var mask := Mask();
      if mask == 0 {
        forall n: int ensures !HidesSlotWithin(Mask(), slots, n) {
          NothingHiddenUnderZeroMask(n);
        }
        return packet;
      }
      if !packet.Batch? {
        return packet;
      }
      var eu := packet.batch;
      var entities := eu.updates;
      if entities == null || entities.Length == 0 {
        return packet;
      }
      var updatesCopy := RewriteBatch(entities);
      if updatesCopy == null {
        return packet;
      }
      label Rewritten:
      var out := new EntityUpdates(eu.removed, updatesCopy);
      r := Batch(out);
      forall i | 0 <= i < entities.Length && old(EntityRewrites(entities[i]))
        ensures IsEntityCopy(entities[i], updatesCopy[i])
      {
        EntityCopyFrame@Rewritten((entities[i], updatesCopy[i]));
      }
    }

    /** Forwards the rewrite of `packet` to the delegate's cached write path. */
    method Write(packet: Packet) returns (forwarded: Packet)
      modifies delegate
      ensures IsRewriteOf(packet, forwarded)
      ensures delegate.sent == old(delegate.sent) + [Written(forwarded)]
    {
      forwarded := MaybeModify(packet);
      label Rewritten:
      delegate.Write(forwarded);
      if forwarded != packet {
        var entities, outs := packet.batch.updates, forwarded.batch.updates;
        forall i | 0 <= i < outs.Length && old(EntityRewrites(entities[i]))
          ensures IsEntityCopy(entities[i], outs[i])
        {
          EntityCopyFrame@Rewritten((entities[i], outs[i]));
        }
      }
    }

    /** Forwards the rewrite of `packet` to the delegate's uncached write path. */
    method WriteNoCache(packet: Packet) returns (forwarded: Packet)
      modifies delegate
      ensures IsRewriteOf(packet, forwarded)
      ensures delegate.sent == old(delegate.sent) + [WrittenNoCache(forwarded)]
    {
      forwarded := MaybeModify(packet);
      label Rewritten:
      delegate.WriteNoCache(forwarded);
      if forwarded != packet {
        var entities, outs := packet.batch.updates, forwarded.batch.updates;
        forall i | 0 <= i < outs.Length && old(EntityRewrites(entities[i]))
          ensures IsEntityCopy(entities[i], outs[i])
        {
          EntityCopyFrame@Rewritten((entities[i], outs[i]));
        }
      }
    }
  }
}
