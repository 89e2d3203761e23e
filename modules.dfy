/**
 The records the module scheduler of the patch works on: the game modules
 (state and the two entrypoints), the game settings and the per-frame game
 signals that the scheduler reads from fixed addresses in game memory.
 */
module GameModules {

  datatype Option<+T> = None | Some(value: T)

  /** The lifecycle state of a module. Off is the least value of the enum;
      the scheduler only ever asks whether a state is above Off. */
  datatype State = Off | TempOn | AlwaysOn {
    /** `State > GAMEMODULE_OFF` */
    predicate Enabled() {
      !Off?
    }
  }

  /** One entry of the module table. An entrypoint is a callback whose body is
      not modelled; only whether it is present (non-null) matters. */
  datatype GameModule = GameModule(state: State, hasGameEntrypoint: bool, hasLobbyEntrypoint: bool) {
    /** The table ends at the first entry with neither entrypoint. */
    predicate IsSentinel() {
      !hasGameEntrypoint && !hasLobbyEntrypoint
    }
  }

  /** The game settings record; absent (a null pointer) outside a game session. */
  datatype GameSettings = GameSettings(gameStartTime: int)

  /** Everything the scheduler reads from the game in one frame:
      the settings pointer, GAME_ACTIVE, GAME_HAS_ENDED, GAME_TIME,
      GAME_TIME_ENDGAME and the TIME_SECOND constant. */
  datatype Frame = Frame(
    settings: Option<GameSettings>,
    gameActive: bool,
    gameHasEnded: bool,
    gameTime: int,
    gameEndTime: int,
    timeSecond: int)

  /** Which of a module's two entrypoints was called. */
  datatype Entrypoint = Game | Lobby

  /** One entrypoint call made during a tick: the module's position in the
      table and the entrypoint. */
  datatype Invocation = Invocation(index: nat, entry: Entrypoint)

  /** The table holds a sentinel somewhere, so the walk over it stops. */
  predicate HasSentinel(s: seq<GameModule>) {
    exists i :: 0 <= i < |s| && s[i].IsSentinel()
  }

  /** Position of the first sentinel: the number of modules a tick visits. */
  function SentinelIndex(s: seq<GameModule>): (n: nat)
    requires HasSentinel(s)
    ensures n < |s| && s[n].IsSentinel()
    ensures forall j :: 0 <= j < n ==> !s[j].IsSentinel()
  {
    if s[0].IsSentinel() then 0
    else
      assert HasSentinel(s[1..]) by {
        var i :| 0 <= i < |s| && s[i].IsSentinel();
        assert i > 0 && s[1..][i - 1] == s[i];
      }
      1 + SentinelIndex(s[1..])
  }
}
