/**
 The per-frame module scheduler (processGameModules): walks the module table
 up to the sentinel, calls each module's game or lobby entrypoint, and turns
 temporarily-on modules off once their game is over.
 */
module Scheduler {
  import opened GameModules

  /** The game is running, or it ended less than one second of game time ago. */
  predicate InGameWindow(f: Frame) {
    !f.gameHasEnded || f.gameTime < f.gameEndTime + f.timeSecond
  }

  /** Whether a temporarily-on module is retired this frame: settings are
      gone, or the game is over and its one-second grace window has passed,
      or a started game has ended and we are back outside it. */
  predicate Retires(f: Frame) {
    match f.settings
    case None => true
    case Some(gs) =>
      if f.gameActive then !InGameWindow(f)
      else gs.gameStartTime > 0 && f.gameTime > gs.gameStartTime && f.gameHasEnded
  }

  /** The state a module has after one tick. */
  function NextState(m: GameModule, f: Frame): (r: State)
    ensures r == m.state || (m.state == TempOn && r == Off)
  {
    if m.state == TempOn && Retires(f) then Off else m.state
  }

  /** The entrypoint, if any, a module gets called this tick. */
  function Invoked(m: GameModule, f: Frame): (r: Option<Entrypoint>)
    ensures r.Some? ==> m.state.Enabled() && NextState(m, f) == m.state
    ensures r == Some(Game) ==> f.settings.Some? && f.gameActive && m.hasGameEntrypoint
    ensures r == Some(Lobby) ==> !f.gameActive && m.hasLobbyEntrypoint
  {
    if f.settings.None? then
      if m.state == AlwaysOn && !f.gameActive && m.hasLobbyEntrypoint then Some(Lobby) else None
    else if f.gameActive then
      if m.state.Enabled() && InGameWindow(f) && m.hasGameEntrypoint then Some(Game) else None
    else if NextState(m, f).Enabled() && m.hasLobbyEntrypoint then Some(Lobby)
    else None
  }

  /** The table after the first k modules have been processed. */
  function Processed(s: seq<GameModule>, f: Frame, k: nat): (r: seq<GameModule>)
    requires k <= |s|
  {
    seq(|s|, i requires 0 <= i < |s| =>
      if i < k then s[i].(state := NextState(s[i], f)) else s[i])
  }

  /** The calls made while processing the first k modules, in table order. */
  function CallsUpTo(s: seq<GameModule>, f: Frame, k: nat): (r: seq<Invocation>)
    requires k <= |s|
    ensures |r| <= k
    ensures forall j :: 0 <= j < |r| ==> r[j].index < k
  {
    if k == 0 then []
    else
      CallsUpTo(s, f, k - 1) +
      match Invoked(s[k - 1], f)
      case None => []
      case Some(e) => [Invocation(k - 1, e)]
  }

  /** The table after a whole tick, and the calls the tick makes. */
  function Tick(s: seq<GameModule>, f: Frame): seq<GameModule>
    requires HasSentinel(s)
  {
    Processed(s, f, SentinelIndex(s))
  }

  function TickCalls(s: seq<GameModule>, f: Frame): seq<Invocation>
    requires HasSentinel(s)
  {
    CallsUpTo(s, f, SentinelIndex(s))
  }

  /** processGameModules: one pass over the module table, in place. */
  method ProcessGameModules(modules: array<GameModule>, f: Frame) returns (calls: seq<Invocation>)
    requires HasSentinel(modules[..])
    modifies modules
    ensures modules[..] == Tick(old(modules[..]), f)
    ensures calls == TickCalls(old(modules[..]), f)
  {
    ghost var s := modules[..];
    ghost var n := SentinelIndex(s);
    var i := 0;
    calls := [];
    while modules[i].hasGameEntrypoint || modules[i].hasLobbyEntrypoint
      invariant 0 <= i <= n
      invariant modules[..] == Processed(s, f, i)
      invariant calls == CallsUpTo(s, f, i)
      decreases n - i
    {
      var m := modules[i];
      if f.settings.Some? {
        if m.state.Enabled() {
          if f.gameActive {
            if !f.gameHasEnded || f.gameTime < f.gameEndTime + f.timeSecond {
              if m.hasGameEntrypoint {
                calls := calls + [Invocation(i, Game)];
              }
            } else if m.state == TempOn {
              modules[i] := m.(state := Off);
            }
          } else {
            var gs := f.settings.value;
            if gs.gameStartTime > 0 && f.gameTime > gs.gameStartTime && f.gameHasEnded && m.state == TempOn {
              modules[i] := m.(state := Off);
            }
          }
        }
        if !f.gameActive && modules[i].state.Enabled() && modules[i].hasLobbyEntrypoint {
          calls := calls + [Invocation(i, Lobby)];
        }
      } else if m.state == TempOn {
        modules[i] := m.(state := Off);
      } else if m.state == AlwaysOn {
        if !f.gameActive && m.hasLobbyEntrypoint {
          calls := calls + [Invocation(i, Lobby)];
        }
      }
      assert modules[..] == Processed(s, f, i + 1);
      i := i + 1;
    }
  }
}
