# HideHelmet, modelled in Dafny

HideHelmet is a server plugin for a voxel game. Each player keeps a bit mask of armor slots
(head, chest, hands, legs) that they want hidden *from their own view*. The plugin enforces that mask in three places:

- **Persistence.** The masks are loaded from a JSON document at start-up and saved back through a
  dirty flag and a 1500 ms debounce. Every mask is clamped into [0, 15]. Zero masks and unparsable
  identities are skipped.
- **Resend throttle.** Many gameplay events make the client forget the hidden look. The plugin
  then asks the host to resend the player's equipment. Standard requests are coalesced per
  player: one that arrives inside the cooldown window (150 ms by default) after the last resend
  becomes a single deferred resend at the end of the window. Immediate requests (item pickups,
  when so configured) bypass the cooldown and resend at once.
- **Outbound filter.** A packet filter sits in front of each player's connection. In equipment
  updates about the player's own entity, it blanks the hidden armor slots. It does this
  copy-on-write: nothing reachable from the input packet is written, and fresh objects are made
  only along the changed path.

A fourth piece is a toggle command: it flips a player's membership in a set of enabled players.

The model is split into these Dafny modules:

- `Wrappers`: `Option`.
- `ArmorState`: the visibility store the core consults. It is a map from player identity to mask,
  read with a default of 0, and a slot is hidden when the mask's bit for it is set.
- `Persistence`: the clamp, and which document entries a load installs and which store entries
  a save writes, as functions with lemmas relating them.
- `Plugin`: the plugin object, as a class. Its methods update the dirty flag, the pending save,
  the two configuration values, the per-player maps `lastInvalidateByPlayer` and
  `pendingInvalidates`, and a log of dispatched resends.
- `PacketReceiver`: the packet classes and the filter class. Packet records and arrays are heap
  objects, so "the same packet is returned", "a fresh copy was made" and "the other entries are
  shared by reference" are postconditions on identity and `fresh`. `MaybeModify`, `RewriteBatch`
  and `RewriteOwnUpdate` have no `modifies` clause, so the verifier confirms that they write
  nothing that existed before the call. The helpers `PlaceCopy`, `RewriteEntry` and `PlaceEntry`
  write only arrays that were allocated earlier in the same rewrite.
- `Command`: the toggle command, as a class over a set of player references.

Time is an explicit `now` argument in milliseconds. A scheduled task is a record of its fire time
and a done flag. Each executor running a task is a method (`RunPendingSave`,
`FireDeferredInvalidate`) that runs the task once it is due. Reading the data file is an input
value (`ReadOutcome`). Whether a write succeeds is a boolean argument. A successful write is
recorded in the field `disk`.

## Model

| member | source | states |
|---|---|---|
| ArmorState.ParseUuid | src/main/java/dev/smugtox/hidehelmet/HideHelmetPlugin.java:241-246 | a key yields an identity exactly when it has the 36-character UUID form, and the identity is the key itself |
| ArmorState.NoBitOfZero | src/main/java/dev/smugtox/hidehelmet/net/HideHelmetPacketReceiver.java:43-44 | the zero mask has no bit set, so a zero mask hides no slot |
| ArmorState.ArmorStore.GetMask | src/main/java/dev/smugtox/hidehelmet/HideHelmetPlugin.java:306 | the stored mask of a known player, 0 for a player the store has never seen |
| ArmorState.ArmorStore.SetMaskSilently | src/main/java/dev/smugtox/hidehelmet/HideHelmetPlugin.java:243 | stores the mask for exactly that player and changes no other entry (the plugin's dirty flag is untouched) |
| Persistence.Clamp | src/main/java/dev/smugtox/hidehelmet/HideHelmetPlugin.java:238 | the result lies in [0, 15]; an in-range mask is kept, a negative one becomes 0, a larger one becomes 15 |
| Persistence.LoadedEntries | src/main/java/dev/smugtox/hidehelmet/HideHelmetPlugin.java:233-247 | every installed identity comes from the document and carries a mask in [1, 15] |
| Persistence.SavedPlayers | src/main/java/dev/smugtox/hidehelmet/HideHelmetPlugin.java:264-273 | every written identity comes from the snapshot and carries a mask in [1, 15] |
| Persistence.LoadInstallsExactly | src/main/java/dev/smugtox/hidehelmet/HideHelmetPlugin.java:234-247 | an entry is installed if and only if its mask is present, its clamp is nonzero and its key parses; its installed mask is the clamp; the other entries are not abandoned |
| Persistence.SaveWritesExactly | src/main/java/dev/smugtox/hidehelmet/HideHelmetPlugin.java:267-273 | a store entry is written if and only if its clamped mask is nonzero, and it is written clamped |
| Persistence.SaveThenLoad | src/main/java/dev/smugtox/hidehelmet/HideHelmetPlugin.java:233-284 | loading the document a save writes installs exactly the saved entries with their saved masks |
| Persistence.SaveOfSavedIsSaved | src/main/java/dev/smugtox/hidehelmet/HideHelmetPlugin.java:267-273 | saving what a save wrote writes the same map: the filter and the clamp are idempotent |
| Persistence.LoadClampsExample | src/main/java/dev/smugtox/hidehelmet/HideHelmetPlugin.java:238-239 | a document mapping one valid identity to 20 installs that identity with mask 15 |
| Plugin.InteractionRequest | src/main/java/dev/smugtox/hidehelmet/HideHelmetPlugin.java:137-151 | a request is issued if and only if the kind is Pickup or one of the eight tracked kinds; Pickup requests with the configured pickup flag, the others request a deferred resend; a missing kind issues none |
| Plugin.DeferDelay | src/main/java/dev/smugtox/hidehelmet/HideHelmetPlugin.java:322 | inside the cooldown the remaining delay is positive and at most the cooldown (when `now` is not before the last execution), and last execution plus cooldown equals `now` plus delay |
| Plugin.ScheduleDelay | src/main/java/dev/smugtox/hidehelmet/HideHelmetPlugin.java:338 | the scheduled delay is never negative and never below the requested delay; a negative delay becomes 0 and a non-negative one is kept |
| Plugin.HideHelmetPlugin.constructor | src/main/java/dev/smugtox/hidehelmet/HideHelmetPlugin.java:37-52 | clean state, no pending save, cooldown 150 ms, immediate pickup, empty maps, nothing written or dispatched |
| Plugin.HideHelmetPlugin.MarkDirtyAndScheduleSave | src/main/java/dev/smugtox/hidehelmet/HideHelmetPlugin.java:205-214 | always sets `dirty`; with a save executor, schedules a save 1500 ms ahead only when no save is pending or the pending one is done, so there is always exactly one live pending save afterwards; otherwise the pending save is unchanged |
| Plugin.HideHelmetPlugin.RunPendingSave | src/main/java/dev/smugtox/hidehelmet/HideHelmetPlugin.java:211 | a due, live pending save runs the save once and is then done: without a data file, when clean, or when the write fails, the disk is unchanged; otherwise nothing changes |
| Plugin.HideHelmetPlugin.SaveStateToDisk | src/main/java/dev/smugtox/hidehelmet/HideHelmetPlugin.java:255-292 | without a data file or when clean: returns 0 and writes nothing; otherwise it clears `dirty`, a failed write re-arms `dirty` and returns 0, and a successful write stores exactly the filtered, clamped snapshot with the current cooldown and pickup flag and returns its size |
| Plugin.HideHelmetPlugin.LoadStateFromDisk | src/main/java/dev/smugtox/hidehelmet/HideHelmetPlugin.java:216-253 | a missing, unreadable or empty document changes nothing and returns 0; otherwise the cooldown is overridden only by a present value above 0 and the pickup flag whenever present, even when the player map is absent (then 0 is returned); with a player map, the store gains exactly the installed entries and the count returned is their number; `dirty` and the pending save are untouched |
| Plugin.HideHelmetPlugin.InstallEntries | src/main/java/dev/smugtox/hidehelmet/HideHelmetPlugin.java:233-248 | the store gains exactly the installable entries and the counter equals their number |
| Plugin.HideHelmetPlugin.ExecuteInvalidate | src/main/java/dev/smugtox/hidehelmet/HideHelmetPlugin.java:349-357 | appends exactly one resend for the player to the dispatch log |
| Plugin.HideHelmetPlugin.CancelPendingInvalidate | src/main/java/dev/smugtox/hidehelmet/HideHelmetPlugin.java:342-347 | removes the player's pending entry and no other |
| Plugin.HideHelmetPlugin.ScheduleDeferredInvalidate | src/main/java/dev/smugtox/hidehelmet/HideHelmetPlugin.java:326-340 | without an executor, or with a live task pending for the player, the pending map is unchanged; otherwise one task due `now` plus the delay floored at 0 is installed; with an executor a live task is pending afterwards |
| Plugin.HideHelmetPlugin.FireDeferredInvalidate | src/main/java/dev/smugtox/hidehelmet/HideHelmetPlugin.java:331-337 | a due, live pending task dispatches once, removes its entry and records the fire time as the last execution; a cancelled or not yet due task changes nothing; the throttle invariant is kept |
| Plugin.HideHelmetPlugin.RequestEquipmentInvalidate | src/main/java/dev/smugtox/hidehelmet/HideHelmetPlugin.java:304-324 | a missing player or a zero mask changes nothing; otherwise the outcome is `RequestOutcome`: an immediate request cancels the pending task, records `now` and dispatches; a standard request with no recorded execution or an elapsed cooldown records `now` and dispatches; otherwise it only defers to the end of the cooldown, leaving a live pending task untouched; the throttle invariant is kept |
| Plugin.HideHelmetPlugin.OnPlayerInteract | src/main/java/dev/smugtox/hidehelmet/HideHelmetPlugin.java:132-152 | a missing player, a zero mask or a kind that maps to no request changes nothing; otherwise the outcome is that of `RequestEquipmentInvalidate` for the request the kind maps to (Pickup with the pickup flag, the tracked kinds deferred); the throttle invariant is kept |
| Plugin.CoalescingExample | src/main/java/dev/smugtox/hidehelmet/HideHelmetPlugin.java:304-340 | with the 150 ms cooldown, requests at 0, 50 and 100 ms and fires at 150 and 200 ms dispatch exactly twice and leave nothing pending |
| Plugin.LoadExample | src/main/java/dev/smugtox/hidehelmet/HideHelmetPlugin.java:216-248 | a document with one valid identity mapped to 20 and an empty config loads one entry with mask 15 and keeps the defaults 150 and true |
| PacketReceiver.Blanked | src/main/java/dev/smugtox/hidehelmet/net/HideHelmetPacketReceiver.java:116-122 | same length; an index is "" when it is one of the slot constants and hidden, and holds the original id otherwise |
| PacketReceiver.Equipment.constructor | src/main/java/dev/smugtox/hidehelmet/net/HideHelmetPacketReceiver.java:112-116 | the record holds the given hand ids and armor array |
| PacketReceiver.ComponentUpdate.constructor | src/main/java/dev/smugtox/hidehelmet/net/HideHelmetPacketReceiver.java:108-109 | the record holds the given type and equipment |
| PacketReceiver.EntityUpdate.constructor | src/main/java/dev/smugtox/hidehelmet/net/HideHelmetPacketReceiver.java:100-103 | the record holds the given network id, removal list and component array |
| PacketReceiver.EntityUpdates.constructor | src/main/java/dev/smugtox/hidehelmet/net/HideHelmetPacketReceiver.java:135-137 | the batch holds the given removal list and update array |
| PacketReceiver.HideHelmetPacketReceiver.constructor | src/main/java/dev/smugtox/hidehelmet/net/HideHelmetPacketReceiver.java:26-30 | the filter holds its delegate, viewer identity and own network id |
| PacketReceiver.HideHelmetPacketReceiver.ComponentsCopiedIff | src/main/java/dev/smugtox/hidehelmet/net/HideHelmetPacketReceiver.java:67-127 | the recursive statement of a copied component array is equivalent to the index-wise one: each index holds the original reference, or a blanked copy where the original is rewritten |
| PacketReceiver.HideHelmetPacketReceiver.ShouldHide | src/main/java/dev/smugtox/hidehelmet/net/HideHelmetPacketReceiver.java:75-89 | true exactly when some slot constant is hidden and within the armor array's bounds |
| PacketReceiver.HideHelmetPacketReceiver.BlankHiddenSlots | src/main/java/dev/smugtox/hidehelmet/net/HideHelmetPacketReceiver.java:116-122 | a fresh array of the same length holding the blanked armor ids |
| PacketReceiver.HideHelmetPacketReceiver.NeedsRewrite | src/main/java/dev/smugtox/hidehelmet/net/HideHelmetPacketReceiver.java:68-91 | true exactly for a non-null equipment update with equipment and a non-empty armor array in which the slot test holds |
| PacketReceiver.HideHelmetPacketReceiver.CopyComponent | src/main/java/dev/smugtox/hidehelmet/net/HideHelmetPacketReceiver.java:108-124 | a fresh component update over fresh equipment and a fresh armor array, with the original type and hand ids and the blanked armor ids |
| PacketReceiver.HideHelmetPacketReceiver.PlaceCopy | src/main/java/dev/smugtox/hidehelmet/net/HideHelmetPacketReceiver.java:98-127 | the entity update is cloned only on first need, with the same network id, removal list and a fresh shallow clone of its component array; index `j` receives a blanked copy that is a fresh component over fresh equipment and a fresh armor array; every other index is unchanged |
| PacketReceiver.HideHelmetPacketReceiver.RewriteOwnUpdate | src/main/java/dev/smugtox/hidehelmet/net/HideHelmetPacketReceiver.java:65-130 | null exactly when no component is rewritten; otherwise one fresh entity copy with a fresh component array of the same length, the same network id and removal list, the original reference at every index that is not rewritten, and at each rewritten index a blanked copy that is a fresh component over fresh equipment and a fresh armor array; it also names the set of new objects the copy is built from |
| PacketReceiver.HideHelmetPacketReceiver.RewriteEntry | src/main/java/dev/smugtox/hidehelmet/net/HideHelmetPacketReceiver.java:56-105 | null entries, other entities and own entities without a rewritten component leave the batch state alone; an own rewritten entity update is replaced at its index by a fresh entity copy, built only from objects new in this step, and the update array is cloned only once |
| PacketReceiver.HideHelmetPacketReceiver.PlaceEntry | src/main/java/dev/smugtox/hidehelmet/net/HideHelmetPacketReceiver.java:93-104 | the update array is cloned on first need and the entity copy is placed at its index; every other entry keeps its value, and every earlier copy stays a copy built from the recorded new objects |
| PacketReceiver.HideHelmetPacketReceiver.RewriteBatch | src/main/java/dev/smugtox/hidehelmet/net/HideHelmetPacketReceiver.java:52-131 | null exactly when no entity update is rewritten; otherwise one fresh array of the same length in which every other entry is the original reference and each rewritten entity update is replaced by a fresh entity copy whose component array is fresh and whose blanked components, with their equipment and armor arrays, are fresh |
| PacketReceiver.HideHelmetPacketReceiver.NothingHiddenUnderZeroMask | src/main/java/dev/smugtox/hidehelmet/net/HideHelmetPacketReceiver.java:43-44 | under a zero mask no slot of any armor array is hidden |
| PacketReceiver.HideHelmetPacketReceiver.MaybeModify | src/main/java/dev/smugtox/hidehelmet/net/HideHelmetPacketReceiver.java:42-139 | the input packet itself is returned when the mask is 0 or the packet is not a batch, and otherwise exactly when no own equipment update has a hidden slot in bounds; else a fresh batch with the same removal list over a fresh update array of the same length, whose other entries are the input references and whose rewritten entries are fresh entity copies whose component arrays, blanked components, equipment and armor arrays are fresh; the input is never written |
| PacketReceiver.HideHelmetPacketReceiver.Write | src/main/java/dev/smugtox/hidehelmet/net/HideHelmetPacketReceiver.java:32-35 | forwards exactly the rewrite of the packet, once, to the delegate's cached write |
| PacketReceiver.HideHelmetPacketReceiver.WriteNoCache | src/main/java/dev/smugtox/hidehelmet/net/HideHelmetPacketReceiver.java:37-40 | forwards exactly the rewrite of the packet, once, to the delegate's uncached write |
| Command.Toggled | src/main/java/dev/smugtox/hidehelmet/commands/HideHelmetCommand.java:30-37 | the toggled player is in the result if and only if it was not in the set, and no other member changes |
| Command.Feedback | src/main/java/dev/smugtox/hidehelmet/commands/HideHelmetCommand.java:40 | the message is "HideHelmet: ON" exactly when enabled and "HideHelmet: OFF" exactly when not |
| Command.ToggleTwice | src/main/java/dev/smugtox/hidehelmet/commands/HideHelmetCommand.java:31-37 | toggling the same player twice restores the set |
| Command.TogglesCommute | src/main/java/dev/smugtox/hidehelmet/commands/HideHelmetCommand.java:31-37 | toggles of two players may be applied in either order |
| Command.HideHelmetCommand.constructor | src/main/java/dev/smugtox/hidehelmet/commands/HideHelmetCommand.java:19-23 | the command holds the given set and callback, and the callback has not been called |
| Command.HideHelmetCommand.ExecuteSync | src/main/java/dev/smugtox/hidehelmet/commands/HideHelmetCommand.java:26-43 | a present sender is removed and an absent one added; afterwards `enabled` holds exactly when the sender is in the set; the feedback matches the new state; the callback receives the new state once, and only when it exists |

## Left out

- File and JSON I/O: reading, parsing, serialising and writing `players.json`, and the seeding of
  a missing file in `initDataFile`. They are outside the logic; the parsed document, the read
  outcome and the write's success are inputs.
- Executors, threads and the clock: creating and shutting down the two executors,
  `System.currentTimeMillis`, `saveLock` and the concurrent maps. The model is single-threaded;
  time is the `now` argument and an executor's run is an explicit method call.
- Plugin.HideHelmetPlugin.FireDeferredInvalidate: a cancelled task never runs. The race in which a
  cancelled task that is already running removes a newer pending entry (the removal by key in the
  task's `finally` block) is concurrency behaviour and is not modelled.
- Plugin.HideHelmetPlugin.ExecuteInvalidate: the host dispatch (`world.execute`,
  `invalidateEquipmentNetwork`, a missing world, swallowed exceptions) is a foreign SDK call. It
  is an entry in the dispatch log.
- The `PlayerReadyEvent` handler that installs the filter, the inventory, mouse-button and craft
  handlers (each one a plain standard request), command registration and logging are host wiring.
  `OnPlayerInteract` models the interaction handler.
- The visibility store `HideArmorState` is not part of this model beyond its interface: a map
  with a default of 0, a bit test, and a silent write. `HideArmorCommand` and
  `HideHelmetDebugCommand` are not part of this model.
- ArmorState.ArmorStore.IsHidden: the bit test is on the mathematical mask. Java's `1 << slot`
  wraps for slot constants of 32 or more. The slot constants are parameters here.
- ArmorState.ParseUuid: only the canonical 36-character form is accepted. The looser forms that
  `UUID.fromString` also accepts, and its case folding, are not modelled. So two document keys
  never name the same player, and the load counter equals the number of installed players.
- Java's `long` and `int` are unbounded integers here. The clamp bounds the masks, and time and
  cooldown values do not overflow in practice.
- PacketReceiver: the records carry only the fields the filter reads or copies. The other fields
  of a component update, and null strings, are not modelled. The record fields are `const`,
  because the filter never assigns a field of an existing record. The arrays are mutable.
- PacketReceiver.HideHelmetPacketReceiver.MaybeModify: the result is stated by what it holds, not by
  how often it allocates. The model clones the outer array when the first rewritten entity update
  is complete; the source clones it just before it. The observable output is the same.
- Command: the message send and the command context are host calls. The feedback is a returned
  string, and the callback is a log of the values passed to it. The plugin constructs this
  command with two arguments (HideHelmetPlugin.java:68). The class shown has only a
  four-argument constructor (HideHelmetCommand.java:19), so this command is modelled standalone,
  not wired to the mask store.
