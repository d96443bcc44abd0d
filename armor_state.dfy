/**
 * The per-player visibility store that the plugin and the packet filter consult
 * (HideArmorState in the repository). Only the interface the core uses is modelled:
 * a map from player identity to a hidden-slot mask, read with a default of 0.
 */
module ArmorState {
  import opened Wrappers

  predicate IsHexDigit(c: char) {
    '0' <= c <= '9' || 'a' <= c <= 'f' || 'A' <= c <= 'F'
  }

  predicate IsDashPosition(i: int) {
    i == 8 || i == 13 || i == 18 || i == 23
  }

  /** The 36-character textual form of a UUID: hex groups of 8-4-4-4-12 digits separated by dashes. */
  predicate IsUuidText(s: string) {
    |s| == 36 &&
    forall i :: 0 <= i < |s| ==> if IsDashPosition(i) then s[i] == '-' else IsHexDigit(s[i])
  }

  /** A player identity; its textual form is the string itself. */
  type Uuid = s: string | IsUuidText(s) witness "00000000-0000-0000-0000-000000000000"

  /** Parsing a document key as a player identity. */
  function ParseUuid(s: string): (r: Option<Uuid>)
    ensures r.Some? <==> IsUuidText(s)
    ensures r.Some? ==> r.value == s
  {
    if IsUuidText(s) then Some(s) else None
  }

  /** Bit `slot` of a non-negative mask. */
  function Bit(mask: nat, slot: nat): bool {
    if slot == 0 then mask % 2 == 1 else Bit(mask / 2, slot - 1)
  }

  /** The zero mask has no bit set, so it hides no slot. */
  lemma {:induction false} NoBitOfZero(slot: nat)
    ensures !Bit(0, slot)
  {
    if slot > 0 {
      NoBitOfZero(slot - 1);
    }
  }

  /** Slot `slot` is hidden under `mask`: bit `slot` of the (non-negative) mask is set. */
  predicate IsHiddenIn(mask: int, slot: int) {
    0 <= mask && 0 <= slot && Bit(mask, slot)
  }

  class ArmorStore {
    /**
     * The stored masks. The core writes only masks it has clamped into [0, 15] (the load
     * installs `Clamp` results, the plugin's own writes are in range), so out-of-range masks
     * never arise from it; the field stays `int` because the store's other writers are not
     * part of this model, and `IsHiddenIn` reads a negative mask as hiding nothing.
     */
    var masks: map<Uuid, int>

    constructor ()
      ensures masks == map[]
    {
      masks := map[];
    }

    /** The player's mask; a player the store has never seen has nothing hidden. */
    function GetMask(u: Uuid): (m: int)
      reads this
      ensures u !in masks ==> m == 0
      ensures u in masks ==> m == masks[u]
    {
      if u in masks then masks[u] else 0
    }

    /** Slot `slot` is hidden for player `u`: bit `slot` of the player's mask is set. */
    predicate IsHidden(u: Uuid, slot: int)
      reads this
    {
      IsHiddenIn(GetMask(u), slot)
    }

    /** Stores a mask without notifying the change hook (so without arming a save). */
    method SetMaskSilently(u: Uuid, mask: int)
      modifies this
      ensures masks == old(masks)[u := mask]
    {
      masks := masks[u := mask];
    }
  }
}
