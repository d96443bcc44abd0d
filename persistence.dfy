/**
 * The persistence rules of the plugin: the parsed save document, the clamp applied to
 * every mask, which document entries a load installs and which store entries a save
 * writes. The class that applies these rules to its fields is in module Plugin.
 */
module Persistence {
  import opened Wrappers
  import opened ArmorState

  const MAX_MASK: int := 15
  const DEFAULT_INVALIDATE_COOLDOWN_MS: int := 150
  const DEFAULT_PICKUP_IMMEDIATE: bool := true
  /** The debounce window of a scheduled save, in milliseconds. */
  const SAVE_DELAY_MS: int := 1500

  /** The "config" object of the document; each field may be absent (null). */
  datatype SaveConfig = SaveConfig(invalidateCooldownMs: Option<int>, pickupImmediate: Option<bool>)

  /** The parsed document: a map from identity strings to nullable masks, and a nullable config. */
  datatype SaveModel = SaveModel(players: Option<map<string, Option<int>>>, config: Option<SaveConfig>)

  /** What reading and parsing the data file produced. */
  datatype ReadOutcome =
    | Missing                          // no data file is configured, or it does not exist
    | Unreadable                       // reading or parsing threw
    | Parsed(model: Option<SaveModel>) // the parser's result, which is null for an empty text

  function Max(a: int, b: int): int { if a < b then b else a }
  function Min(a: int, b: int): int { if a < b then a else b }

  /** Math.max(0, Math.min(MAX_MASK, mask)). */
  function Clamp(mask: int): (r: int)
    ensures 0 <= r <= MAX_MASK
    ensures 0 <= mask <= MAX_MASK ==> r == mask
    ensures mask < 0 ==> r == 0
    ensures mask > MAX_MASK ==> r == MAX_MASK
  {
    Max(0, Min(MAX_MASK, mask))
  }

  /** A document entry is installed when its mask is present, clamps to nonzero and its key parses. */
  predicate Installs(key: string, mask: Option<int>) {
    mask.Some? && Clamp(mask.value) != 0 && ParseUuid(key).Some?
  }

  /** The entries a load installs into the store, keyed by the parsed identity. */
  function LoadedEntries(players: map<string, Option<int>>): (r: map<Uuid, int>)
    ensures forall u :: u in r ==> u in players && 1 <= r[u] <= MAX_MASK
  {
    map u: Uuid | u in players && Installs(u, players[u]) :: Clamp(players[u].value)
  }

  /** The player map a save writes for a snapshot of the store. */
  function SavedPlayers(snapshot: map<Uuid, int>): (r: map<Uuid, int>)
    ensures forall u :: u in r ==> u in snapshot && 1 <= r[u] <= MAX_MASK
  {
    map u | u in snapshot && Clamp(snapshot[u]) != 0 :: Clamp(snapshot[u])
  }

  /** The document a save writes: every player with its mask, and both configuration values. */
  function Document(players: map<Uuid, int>, cooldownMs: int, pickupImmediate: bool): SaveModel {
    SaveModel(Some(map u: string | u in players :: Some(players[u])),
              Some(SaveConfig(Some(cooldownMs), Some(pickupImmediate))))
  }

  /** A load installs exactly the entries with a present mask, a nonzero clamp and a parsable key. */
  lemma LoadInstallsExactly(players: map<string, Option<int>>, key: string)
    ensures ParseUuid(key).Some? && ParseUuid(key).value in LoadedEntries(players)
            <==> key in players && Installs(key, players[key])
    ensures key in players && Installs(key, players[key]) ==>
            LoadedEntries(players)[ParseUuid(key).value] == Clamp(players[key].value)
  {
  }

  /** A save writes exactly the snapshot entries whose clamped mask is nonzero, clamped. */
  lemma SaveWritesExactly(snapshot: map<Uuid, int>, u: Uuid)
    ensures u in SavedPlayers(snapshot) <==> u in snapshot && Clamp(snapshot[u]) != 0
    ensures u in SavedPlayers(snapshot) ==> SavedPlayers(snapshot)[u] == Clamp(snapshot[u])
  {
  }

  /** Loading what a save wrote installs exactly the saved entries. */
  lemma SaveThenLoad(snapshot: map<Uuid, int>, cooldownMs: int, pickupImmediate: bool)
    ensures Document(SavedPlayers(snapshot), cooldownMs, pickupImmediate).players.Some?
    ensures LoadedEntries(Document(SavedPlayers(snapshot), cooldownMs, pickupImmediate).players.value)
            == SavedPlayers(snapshot)
  {
  }

  /** Saving is idempotent on what it writes: the saved map of a saved map is itself. */
  lemma SaveOfSavedIsSaved(snapshot: map<Uuid, int>)
    ensures SavedPlayers(SavedPlayers(snapshot)) == SavedPlayers(snapshot)
  {
  }

  /** Loading a document with one valid identity mapped to 20 installs it with mask 15. */
  lemma LoadClampsExample(u: Uuid)
    ensures LoadedEntries(map[u := Some(20)]) == map[u := 15]
  {
  }
}
