/**
 * The plugin object (HideHelmetPlugin): the load/save of the visibility store with its
 * dirty flag and save debounce, and the per-player throttle that decides when an
 * equipment resynchronization is dispatched now, deferred once, or dropped.
 * Time is an explicit `now` argument in milliseconds; a dispatched resynchronization
 * is an entry appended to `dispatched`.
 */
module Plugin {
  import opened Wrappers
  import opened ArmorState
  import opened Persistence

  /** A task handed to a scheduled executor: when it fires, and whether it has completed. */
  datatype PendingTask = PendingTask(fireAt: int, done: bool)

  /** The interaction kinds the host reports for a player interaction event. */
  datatype InteractionType =
    | Primary | Secondary | Use | Pick | Pickup | SwapTo | SwapFrom | Wielding | Equipped
    | OtherInteraction(ordinal: int)

  /** The interaction kinds after which the equipment is resent with a deferred request. */
  predicate IsDeferredKind(t: InteractionType) {
    t == Primary || t == Secondary || t == Use || t == Pick ||
    t == SwapTo || t == SwapFrom || t == Wielding || t == Equipped
  }

  /**
   * The request an interaction event issues for a player with a nonzero mask:
   * None for no request, Some(immediate) otherwise.
   */
  function InteractionRequest(t: Option<InteractionType>, pickupImmediate: bool): (r: Option<bool>)
    ensures r.Some? <==> t.Some? && (t.value == Pickup || IsDeferredKind(t.value))
    ensures t == Some(Pickup) ==> r == Some(pickupImmediate)
    ensures t.Some? && IsDeferredKind(t.value) ==> r == Some(false)
  {
    if t.None? then None
    else if t.value == Pickup then Some(pickupImmediate)
    else if IsDeferredKind(t.value) then Some(false)
    else None
  }

  /** The remaining cooldown: how long a standard request within the cooldown waits. */
  function DeferDelay(cooldownMs: int, now: int, last: int): (r: int)
    ensures now - last < cooldownMs ==> 0 < r
    ensures last <= now ==> r <= cooldownMs
    ensures last + cooldownMs == now + r
  {
    cooldownMs - (now - last)
  }

  /** Math.max(0, delayMs): a scheduled delay is never negative. */
  function ScheduleDelay(delayMs: int): (r: int)
    ensures 0 <= r && delayMs <= r
    ensures 0 <= delayMs ==> r == delayMs
    ensures delayMs < 0 ==> r == 0
  {
    Max(0, delayMs)
  }

  class HideHelmetPlugin {
    const store: ArmorStore
    /** Whether the data file is configured. */
    const hasDataFile: bool
    /** Whether the save executor was created. */
    const hasSaveExecutor: bool
    /** Whether the invalidation executor was created. */
    const hasInvalidateExecutor: bool

    var dirty: bool
    var pendingSave: Option<PendingTask>
    var invalidateCooldownMs: int
    var pickupImmediate: bool
    var lastInvalidateByPlayer: map<Uuid, int>
    var pendingInvalidates: map<Uuid, PendingTask>
    /** The document the last successful save wrote. */
    var disk: Option<SaveModel>
    /** The players for whom an equipment resynchronization was dispatched, in order. */
    var dispatched: seq<Uuid>

    constructor (store: ArmorStore, hasDataFile: bool, hasSaveExecutor: bool, hasInvalidateExecutor: bool)
      ensures this.store == store && this.hasDataFile == hasDataFile
      ensures this.hasSaveExecutor == hasSaveExecutor && this.hasInvalidateExecutor == hasInvalidateExecutor
      ensures !dirty && pendingSave == None && disk == None && dispatched == []
      ensures invalidateCooldownMs == DEFAULT_INVALIDATE_COOLDOWN_MS
      ensures pickupImmediate == DEFAULT_PICKUP_IMMEDIATE
      ensures lastInvalidateByPlayer == map[] && pendingInvalidates == map[]
    {
      this.store := store;
      this.hasDataFile := hasDataFile;
      this.hasSaveExecutor := hasSaveExecutor;
      this.hasInvalidateExecutor := hasInvalidateExecutor;
      dirty := false;
      pendingSave := None;
      invalidateCooldownMs := DEFAULT_INVALIDATE_COOLDOWN_MS;
      pickupImmediate := DEFAULT_PICKUP_IMMEDIATE;
      lastInvalidateByPlayer := map[];
      pendingInvalidates := map[];
      disk := None;
      dispatched := [];
    }

    // ---------------------------------------------------------------- persistence

    /**
     * Marks the state dirty and, when no save is pending or the pending one has
     * completed, schedules one save after the debounce window.
     */
    method MarkDirtyAndScheduleSave(now: int)
      modifies this`dirty, this`pendingSave
      ensures dirty
      ensures pendingSave ==
        if hasSaveExecutor && (old(pendingSave).None? || old(pendingSave).value.done)
        then Some(PendingTask(now + SAVE_DELAY_MS, false))
        else old(pendingSave)
      ensures hasSaveExecutor ==> pendingSave.Some? && !pendingSave.value.done
    {
      dirty := true;
      if !hasSaveExecutor {
        return;
      }
      if pendingSave.None? || pendingSave.value.done {
        pendingSave := Some(PendingTask(now + SAVE_DELAY_MS, false));
      }
    }

    /** The save executor running the pending save once its delay has elapsed. */
    method RunPendingSave(now: int, writeSucceeds: bool) returns (saved: int)
      modifies this`dirty, this`disk, this`pendingSave
      ensures old(pendingSave).Some? && !old(pendingSave).value.done && old(pendingSave).value.fireAt <= now
              ==> pendingSave == Some(PendingTask(old(pendingSave).value.fireAt, true))
                  && SaveOutcome(old(dirty), old(disk), writeSucceeds, saved)
      ensures !(old(pendingSave).Some? && !old(pendingSave).value.done && old(pendingSave).value.fireAt <= now)
              ==> saved == 0 && unchanged(this)
    {
      saved := 0;
      if pendingSave.Some? && !pendingSave.value.done && pendingSave.value.fireAt <= now {
        saved := SaveStateToDisk(writeSucceeds);
        pendingSave := Some(PendingTask(pendingSave.value.fireAt, true));
      }
    }

    /**
     * What SaveStateToDisk leaves behind, given `dirty` and the written document before the
     * call: nothing is written when there is no data file or the state is clean; a failed
     * write writes nothing and re-arms `dirty`; a successful write stores the filtered
     * snapshot and both configuration values.
     */
    ghost predicate SaveOutcome(wasDirty: bool, oldDisk: Option<SaveModel>, writeSucceeds: bool, saved: int)
      reads this, store
    {
      if !hasDataFile then saved == 0 && dirty == wasDirty && disk == oldDisk
      else if !wasDirty then saved == 0 && !dirty && disk == oldDisk
      else if !writeSucceeds then saved == 0 && dirty && disk == oldDisk
      else !dirty && saved == |SavedPlayers(store.masks)| &&
           disk == Some(Document(SavedPlayers(store.masks), invalidateCooldownMs, pickupImmediate))
    }

    /** A save: gated by `dirty`, writes the nonzero, clamped entries of a snapshot of the store. */
    method SaveStateToDisk(writeSucceeds: bool) returns (saved: int)
      modifies this`dirty, this`disk
      ensures SaveOutcome(old(dirty), old(disk), writeSucceeds, saved)
    {
      if !hasDataFile {
        return 0;
      }
      if !dirty {
        return 0;
      }
      dirty := false;

      var snapshot := store.masks;
      var out: map<Uuid, int> := map[];
      var remaining := snapshot.Keys;
      while remaining != {}
        invariant remaining <= snapshot.Keys
        invariant out == SavedPlayers(snapshot - remaining)
        invariant !dirty && disk == old(disk) && snapshot == store.masks
        decreases remaining
      {
        var u :| u in remaining;
        SavedPlayersStep(snapshot, remaining, u);
        remaining := remaining - {u};
        var clamped := Clamp(snapshot[u]);
        if clamped == 0 {
          continue;
        }
        out := out[u := clamped];
      }
      assert snapshot - {} == snapshot;

      if !writeSucceeds {
        dirty := true;
        return 0;
      }
      disk := Some(Document(out, invalidateCooldownMs, pickupImmediate));
      saved := |out|;
    }

    /**
     * A load: applies the two configuration overrides that are present and valid, then installs
     * every document entry whose mask is present, clamps to nonzero and whose key parses,
     * without notifying the change hook. Returns how many entries it installed.
     */
    method LoadStateFromDisk(read: ReadOutcome) returns (loaded: int)
      modifies this`invalidateCooldownMs, this`pickupImmediate, store
      ensures dirty == old(dirty) && pendingSave == old(pendingSave)
      ensures !(read.Parsed? && read.model.Some?) ==>
                loaded == 0 && store.masks == old(store.masks) &&
                invalidateCooldownMs == old(invalidateCooldownMs) && pickupImmediate == old(pickupImmediate)
      ensures read.Parsed? && read.model.Some? ==>
                var m := read.model.value;
                (invalidateCooldownMs ==
                   if m.config.Some? && m.config.value.invalidateCooldownMs.Some?
                      && m.config.value.invalidateCooldownMs.value > 0
                   then m.config.value.invalidateCooldownMs.value else old(invalidateCooldownMs)) &&
                (pickupImmediate ==
                   if m.config.Some? && m.config.value.pickupImmediate.Some?
                   then m.config.value.pickupImmediate.value else old(pickupImmediate)) &&
                (m.players.None? ==> loaded == 0 && store.masks == old(store.masks)) &&
                (m.players.Some? ==>
                   store.masks == old(store.masks) + LoadedEntries(m.players.value) &&
                   loaded == |LoadedEntries(m.players.value)|)
    {
      if !read.Parsed? || read.model.None? {
        return 0;
      }
      var model := read.model.value;
      if model.config.Some? {
        var config := model.config.value;
        if config.invalidateCooldownMs.Some? && config.invalidateCooldownMs.value > 0 {
          invalidateCooldownMs := config.invalidateCooldownMs.value;
        }
        if config.pickupImmediate.Some? {
          pickupImmediate := config.pickupImmediate.value;
        }
      }
      if model.players.None? {
        return 0;
      }
      loaded := InstallEntries(model.players.value);
    }

    /** The loop of a load: installs every entry of the document's player map that passes the rules. */
    method InstallEntries(players: map<string, Option<int>>) returns (loaded: int)
      modifies store
      ensures store.masks == old(store.masks) + LoadedEntries(players)
      ensures loaded == |LoadedEntries(players)|
    {
      var installed: map<Uuid, int> := map[];
      var remaining := players.Keys;
      loaded := 0;
      while remaining != {}
        invariant remaining <= players.Keys
        invariant installed == LoadedEntries(players - remaining)
        invariant store.masks == old(store.masks) + installed
        invariant loaded == |installed|
        decreases remaining
      {
        var key :| key in remaining;
        LoadedEntriesStep(players, remaining, key);
        remaining := remaining - {key};
        var mask := players[key];
        if mask.None? {
          continue;
        }
        var clamped := Clamp(mask.value);
        if clamped == 0 {
          continue;
        }
        var uuid := ParseUuid(key);
        if uuid.None? {
          continue;
        }
        assert Installs(key, players[key]) && uuid.value !in installed;
        MapUnionUpdate(old(store.masks), installed, uuid.value, clamped);
        store.SetMaskSilently(uuid.value, clamped);
        installed := installed[uuid.value := clamped];
        loaded := loaded + 1;
      }
      assert players - {} == players;
    }

    // ---------------------------------------------------------------- invalidation throttle

    /**
     * The throttle's invariant at time `now`: no recorded execution lies in the future, and every
     * pending deferred task belongs to a player with a recorded execution and fires no later than
     * one cooldown after it.
     */
    ghost predicate Throttled(now: int)
      reads this
    {
      (forall p :: p in lastInvalidateByPlayer ==> lastInvalidateByPlayer[p] <= now) &&
      (forall p :: p in pendingInvalidates ==>
         p in lastInvalidateByPlayer &&
         pendingInvalidates[p].fireAt <= lastInvalidateByPlayer[p] + invalidateCooldownMs)
    }

    /** Dispatches one equipment resynchronization for the player. */
    method ExecuteInvalidate(player: Uuid)
      modifies this`dispatched
      ensures dispatched == old(dispatched) + [player]
    {
      dispatched := dispatched + [player];
    }

    /** Removes the player's pending deferred task, if any (cancelling it). */
    method CancelPendingInvalidate(player: Uuid)
      modifies this`pendingInvalidates
      ensures pendingInvalidates == old(pendingInvalidates) - {player}
    {
      pendingInvalidates := pendingInvalidates - {player};
    }

    /**
     * Schedules one deferred resynchronization for the player after `delayMs` (floored at 0),
     * unless a live (not done) task is already pending for them, which is left untouched.
     */
    method ScheduleDeferredInvalidate(player: Uuid, delayMs: int, now: int)
      modifies this`pendingInvalidates
      ensures pendingInvalidates ==
        if !hasInvalidateExecutor ||
           (player in old(pendingInvalidates) && !old(pendingInvalidates)[player].done)
        then old(pendingInvalidates)
        else old(pendingInvalidates)[player := PendingTask(now + ScheduleDelay(delayMs), false)]
      ensures hasInvalidateExecutor ==> player in pendingInvalidates && !pendingInvalidates[player].done
    {
      if !hasInvalidateExecutor {
        return;
      }
      if player in pendingInvalidates && !pendingInvalidates[player].done {
        return;
      }
      pendingInvalidates := pendingInvalidates[player := PendingTask(now + ScheduleDelay(delayMs), false)];
    }

    /**
     * The invalidation executor running the player's deferred task once it is due: it dispatches,
     * removes the pending entry and records the fire time as the last execution. A task that was
     * cancelled (its entry removed) never runs.
     */
    method FireDeferredInvalidate(player: Uuid, now: int)
      modifies this`dispatched, this`pendingInvalidates, this`lastInvalidateByPlayer
      ensures old(Throttled(now)) ==> Throttled(now)
      ensures player in old(pendingInvalidates) && !old(pendingInvalidates)[player].done &&
              old(pendingInvalidates)[player].fireAt <= now
              ==> dispatched == old(dispatched) + [player] &&
                  pendingInvalidates == old(pendingInvalidates) - {player} &&
                  lastInvalidateByPlayer == old(lastInvalidateByPlayer)[player := now]
      ensures !(player in old(pendingInvalidates) && !old(pendingInvalidates)[player].done &&
                old(pendingInvalidates)[player].fireAt <= now)
              ==> unchanged(this)
    {
      if player in pendingInvalidates && !pendingInvalidates[player].done &&
         pendingInvalidates[player].fireAt <= now {
        ExecuteInvalidate(player);
        pendingInvalidates := pendingInvalidates - {player};
        lastInvalidateByPlayer := lastInvalidateByPlayer[player := now];
      }
    }

    /**
     * What a request for player `p` with a nonzero mask leaves behind. An immediate request
     * cancels the pending task, records `now` and dispatches. A standard request with no
     * recorded execution or an elapsed cooldown records `now` and dispatches. Otherwise it only
     * defers to the end of the cooldown, leaving a live pending task untouched.
     */
    twostate predicate RequestOutcome(p: Uuid, immediate: bool, now: int)
      reads this
    {
      var last := old(lastInvalidateByPlayer);
      if immediate then
        pendingInvalidates == old(pendingInvalidates) - {p} &&
        lastInvalidateByPlayer == last[p := now] && dispatched == old(dispatched) + [p]
      else if p !in last || now - last[p] >= old(invalidateCooldownMs) then
        pendingInvalidates == old(pendingInvalidates) &&
        lastInvalidateByPlayer == last[p := now] && dispatched == old(dispatched) + [p]
      else
        lastInvalidateByPlayer == last && dispatched == old(dispatched) &&
        pendingInvalidates ==
          if !hasInvalidateExecutor || (p in old(pendingInvalidates) && !old(pendingInvalidates)[p].done)
          then old(pendingInvalidates)
          else old(pendingInvalidates)[p := PendingTask(last[p] + old(invalidateCooldownMs), false)]
    }

    /**
     * A request to resend the player's equipment. Nothing happens for an absent player or a zero
     * mask. An immediate request cancels any pending task, records `now` and dispatches. A standard
     * request dispatches and records `now` when there is no recorded execution or the cooldown has
     * elapsed; otherwise it defers by the remaining cooldown.
     */
    method RequestEquipmentInvalidate(player: Option<Uuid>, immediate: bool, now: int)
      modifies this`dispatched, this`pendingInvalidates, this`lastInvalidateByPlayer
      ensures old(Throttled(now)) ==> Throttled(now)
      ensures player.None? || store.GetMask(player.value) == 0 ==> unchanged(this)
      ensures player.Some? && store.GetMask(player.value) != 0 ==> RequestOutcome(player.value, immediate, now)
    {
      if player.None? {
        return;
      }
      var p := player.value;
      if store.GetMask(p) == 0 {
        return;
      }
      if immediate {
        CancelPendingInvalidate(p);
        lastInvalidateByPlayer := lastInvalidateByPlayer[p := now];
        ExecuteInvalidate(p);
        return;
      }
      if p !in lastInvalidateByPlayer || now - lastInvalidateByPlayer[p] >= invalidateCooldownMs {
        lastInvalidateByPlayer := lastInvalidateByPlayer[p := now];
        ExecuteInvalidate(p);
        return;
      }
      var delay := DeferDelay(invalidateCooldownMs, now, lastInvalidateByPlayer[p]);
      ScheduleDeferredInvalidate(p, delay, now);
    }

    /**
     * The player-interaction event handler: a Pickup requests with the configured pickup flag,
     * the eight tracked kinds request a deferred resend, anything else issues no request.
     */
    method OnPlayerInteract(player: Option<Uuid>, t: Option<InteractionType>, now: int)
      modifies this`dispatched, this`pendingInvalidates, this`lastInvalidateByPlayer
      ensures old(Throttled(now)) ==> Throttled(now)
      ensures (player.None? || store.GetMask(player.value) == 0 ||
               InteractionRequest(t, pickupImmediate).None?) ==> unchanged(this)
      ensures player.Some? && store.GetMask(player.value) != 0 && InteractionRequest(t, old(pickupImmediate)).Some? ==>
                RequestOutcome(player.value, InteractionRequest(t, old(pickupImmediate)).value, now)
    {
      if player.None? {
        return;
      }
      if store.GetMask(player.value) == 0 {
        return;
      }
      var request := InteractionRequest(t, pickupImmediate);
      if request.Some? {
        RequestEquipmentInvalidate(player, request.value, now);
      }
    }
  }

  /**
   * Coalescing with the default 150 ms cooldown: a first request executes at once, requests at
   * 50 and 100 ms share one deferred task due at 150 ms, and a second fire finds nothing pending.
   */
  method CoalescingExample(u: Uuid) returns (dispatched: seq<Uuid>, pendingAfter: map<Uuid, PendingTask>)
    ensures dispatched == [u, u]
    ensures pendingAfter == map[]
  {
    var store := new ArmorStore();
    store.SetMaskSilently(u, 1);
    var plugin := new HideHelmetPlugin(store, true, true, true);
    plugin.RequestEquipmentInvalidate(Some(u), false, 0);
    plugin.RequestEquipmentInvalidate(Some(u), false, 50);
    plugin.RequestEquipmentInvalidate(Some(u), false, 100);
    assert plugin.pendingInvalidates == map[u := PendingTask(150, false)];
    plugin.FireDeferredInvalidate(u, 150);
    plugin.FireDeferredInvalidate(u, 200);
    dispatched, pendingAfter := plugin.dispatched, plugin.pendingInvalidates;
  }

  /**
   * Loading a document with one valid identity mapped to 20 and an empty config installs one
   * entry with mask 15 and keeps both configuration defaults.
   */
  method LoadExample(u: Uuid) returns (loaded: int, mask: int, cooldownMs: int, pickup: bool)
    ensures loaded == 1 && mask == MAX_MASK
    ensures cooldownMs == DEFAULT_INVALIDATE_COOLDOWN_MS && pickup == DEFAULT_PICKUP_IMMEDIATE
  {
    var store := new ArmorStore();
    var plugin := new HideHelmetPlugin(store, true, true, true);
    var doc := SaveModel(Some(map[u := Some(20)]), Some(SaveConfig(None, None)));
    LoadClampsExample(u);
    loaded := plugin.LoadStateFromDisk(Parsed(Some(doc)));
    mask, cooldownMs, pickup := store.GetMask(u), plugin.invalidateCooldownMs, plugin.pickupImmediate;
  }

  lemma MapUnionUpdate<K, V>(base: map<K, V>, m: map<K, V>, k: K, v: V)
    ensures base + m[k := v] == (base + m)[k := v]
  {
  }

  /** One step of the save loop: taking key `u` out of the unvisited keys. */
  lemma SavedPlayersStep(snapshot: map<Uuid, int>, remaining: set<Uuid>, u: Uuid)
    requires u in remaining && remaining <= snapshot.Keys
    ensures u !in SavedPlayers(snapshot - remaining)
    ensures SavedPlayers(snapshot - (remaining - {u})) ==
      if Clamp(snapshot[u]) == 0 then SavedPlayers(snapshot - remaining)
      else SavedPlayers(snapshot - remaining)[u := Clamp(snapshot[u])]
  {
  }

  /** One step of the load loop: taking `key` out of the unvisited keys. */
  lemma LoadedEntriesStep(players: map<string, Option<int>>, remaining: set<string>, key: string)
    requires key in remaining && remaining <= players.Keys
    ensures ParseUuid(key).Some? ==> ParseUuid(key).value !in LoadedEntries(players - remaining)
    ensures LoadedEntries(players - (remaining - {key})) ==
      if Installs(key, players[key])
      then LoadedEntries(players - remaining)[ParseUuid(key).value := Clamp(players[key].value)]
      else LoadedEntries(players - remaining)
  {
  }
}
