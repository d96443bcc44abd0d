/**
 * The toggle command: each run flips the sender's membership in the shared set of players
 * who have the feature enabled, answers with an ON/OFF message and, when a callback was
 * supplied, reports the new state to it.
 */
module Command {

  /** The opaque reference the host hands out for a player; only its identity matters. */
  datatype PlayerRef = PlayerRef(id: int)

  /** The enabled set after toggling `ref`: `ref` flips membership and nobody else moves. */
  function Toggled(s: set<PlayerRef>, ref: PlayerRef): (r: set<PlayerRef>)
    ensures ref in r <==> ref !in s
    ensures forall p :: p != ref ==> (p in r <==> p in s)
  {
    if ref in s then s - {ref} else s + {ref}
  }

  /** The feedback line sent to the player after a toggle. */
  function Feedback(enabled: bool): (m: string)
    ensures m == "HideHelmet: ON" <==> enabled
    ensures m == "HideHelmet: OFF" <==> !enabled
  {
    if enabled then "HideHelmet: ON" else "HideHelmet: OFF"
  }

  /** Toggling the same player twice restores the set. */
  lemma ToggleTwice(s: set<PlayerRef>, ref: PlayerRef)
    ensures Toggled(Toggled(s, ref), ref) == s
  { }

  /** Toggles of different players commute. */
  lemma TogglesCommute(s: set<PlayerRef>, a: PlayerRef, b: PlayerRef)
    ensures Toggled(Toggled(s, a), b) == Toggled(Toggled(s, b), a)
  { }

  class HideHelmetCommand {
    /** The players who currently have the feature enabled. */
    var enabledPlayers: set<PlayerRef>
    /** Whether a toggle callback was supplied. */
    const hasCallback: bool
    /** The `enabled` values passed to the callback, oldest first. */
    var callbackLog: seq<bool>

    constructor (enabledPlayers: set<PlayerRef>, hasCallback: bool)
      ensures this.enabledPlayers == enabledPlayers && this.hasCallback == hasCallback
      ensures callbackLog == []
    {
      this.enabledPlayers := enabledPlayers;
      this.hasCallback := hasCallback;
      callbackLog := [];
    }

    /**
     * Runs the command for the sender `ref`: flips its membership, returns the feedback line
     * for the new state and, with a callback present, logs the new state to it.
     */
    method ExecuteSync(ref: PlayerRef) returns (feedback: string)
      modifies this
      ensures enabledPlayers == Toggled(old(enabledPlayers), ref)
      ensures (ref in enabledPlayers) == (ref !in old(enabledPlayers))
      ensures feedback == Feedback(ref in enabledPlayers)
      ensures callbackLog == old(callbackLog) + (if hasCallback then [ref in enabledPlayers] else [])
    {
      var enabled: bool;
      if ref in enabledPlayers {
        enabledPlayers := enabledPlayers - {ref};
        enabled := false;
      } else {
        enabledPlayers := enabledPlayers + {ref};
        enabled := true;
      }
      feedback := Feedback(enabled);
      if hasCallback {
        callbackLog := callbackLog + [enabled];
      }
    }
  }
}
