/**
 What one tick of the module scheduler guarantees, stated over the
 specification that ProcessGameModules is proved against: first for a single
 module in each branch of the decision, then for the whole table.
 */
module SchedulerProperties {
  import opened GameModules
  import opened Scheduler

  // ---------------------------------------------------------------------------
  // One module in one tick
  // ---------------------------------------------------------------------------

  /** An Off module is never called and stays Off, with or without settings. */
  lemma OffModuleUntouched(m: GameModule, f: Frame)
    requires m.state == Off
    ensures NextState(m, f) == Off && Invoked(m, f) == None
  {
  }

  /** The scheduler never promotes a module, and never changes an always-on one. */
  lemma NeverPromotes(m: GameModule, f: Frame)
    ensures NextState(m, f).Enabled() ==> m.state.Enabled()
    ensures m.state == AlwaysOn ==> NextState(m, f) == AlwaysOn
    ensures NextState(m, f) != m.state ==> m.state == TempOn && NextState(m, f) == Off
  {
  }

  /** Settings present and the game running or inside its one-second grace
      window: an enabled module keeps its state and gets exactly its game
      entrypoint, when it has one. */
  lemma InGameCallsGameEntrypoint(m: GameModule, f: Frame)
    requires f.settings.Some? && f.gameActive
    requires !f.gameHasEnded || f.gameTime < f.gameEndTime + f.timeSecond
    requires m.state.Enabled()
    ensures NextState(m, f) == m.state
    ensures Invoked(m, f) == if m.hasGameEntrypoint then Some(Game) else None
  {
  }

  /** The game is running, has ended, and a full second has passed since its
      end (the window is strict: at exactly one second it is closed): a
      temporarily-on module is turned off, and nobody is called. */
  lemma GraceWindowClosed(m: GameModule, f: Frame)
    requires f.gameActive && f.gameHasEnded
    requires f.gameTime >= f.gameEndTime + f.timeSecond
    ensures Invoked(m, f) == None
    ensures NextState(m, f) == if m.state == TempOn then Off else m.state
  {
  }

  /** The boundary of the grace window: at exactly one second after the end
      the game entrypoint is no longer called. */
  lemma GraceWindowIsStrict(m: GameModule, f: Frame)
    requires f.settings.Some? && f.gameActive && f.gameHasEnded
    requires m.state == TempOn && m.hasGameEntrypoint
    ensures f.gameTime == f.gameEndTime + f.timeSecond - 1 ==> Invoked(m, f) == Some(Game) && NextState(m, f) == TempOn
    ensures f.gameTime == f.gameEndTime + f.timeSecond ==> Invoked(m, f) == None && NextState(m, f) == Off
  {
  }

  /** Settings present, game not active: a temporarily-on module is turned off
      exactly when a game was started, game time is past its start, and the
      game has ended. */
  lemma LobbyDemotion(m: GameModule, f: Frame)
    requires f.settings.Some? && !f.gameActive && m.state == TempOn
    ensures NextState(m, f) == Off <==>
      f.settings.value.gameStartTime > 0 &&
      f.gameTime > f.settings.value.gameStartTime &&
      f.gameHasEnded
  {
  }

  /** Settings present, game not active: the lobby entrypoint is called exactly
      when the state after the demotion check is still on and the entrypoint
      exists; in particular a module demoted in this tick is not called. */
  lemma LobbyCallAfterDemotion(m: GameModule, f: Frame)
    requires f.settings.Some? && !f.gameActive
    ensures Invoked(m, f) != Some(Game)
    ensures Invoked(m, f) == Some(Lobby) <==> NextState(m, f).Enabled() && m.hasLobbyEntrypoint
    ensures m.state == TempOn && NextState(m, f) == Off ==> Invoked(m, f) == None
  {
  }

  /** Settings absent: temporarily-on modules are turned off, no game
      entrypoint runs, an always-on module gets its lobby entrypoint only
      outside a game, and an Off module is left alone. */
  lemma SettingsAbsent(m: GameModule, f: Frame)
    requires f.settings.None?
    ensures Invoked(m, f) != Some(Game)
    ensures m.state == TempOn ==> NextState(m, f) == Off && Invoked(m, f) == None
    ensures m.state == AlwaysOn ==>
      NextState(m, f) == AlwaysOn &&
      (Invoked(m, f) == Some(Lobby) <==> !f.gameActive && m.hasLobbyEntrypoint)
    ensures m.state == Off ==> NextState(m, f) == Off && Invoked(m, f) == None
  {
  }

  /** Running the decision again on the module it produced changes nothing. */
  lemma NextStateIdempotent(m: GameModule, f: Frame)
    ensures NextState(m.(state := NextState(m, f)), f) == NextState(m, f)
  {
  }

  // ---------------------------------------------------------------------------
  // The whole table in one tick
  // ---------------------------------------------------------------------------

  /** A call is recorded for module i exactly when i was visited and the
      decision for module i names that entrypoint. */
  lemma {:induction false} CallsUpToMembership(s: seq<GameModule>, f: Frame, k: nat, c: Invocation)
    requires k <= |s|
    ensures c in CallsUpTo(s, f, k) <==> c.index < k && Invoked(s[c.index], f) == Some(c.entry)
  {
    if k > 0 {
      CallsUpToMembership(s, f, k - 1, c);
    }
  }

  /** Calls appear in table order with strictly increasing indices, so no
      module is called twice in one tick. */
  lemma {:induction false} CallsUpToOrdered(s: seq<GameModule>, f: Frame, k: nat)
    requires k <= |s|
    ensures forall a, b :: 0 <= a < b < |CallsUpTo(s, f, k)| ==>
      CallsUpTo(s, f, k)[a].index < CallsUpTo(s, f, k)[b].index
  {
    if k > 0 {
      CallsUpToOrdered(s, f, k - 1);
    }
  }

  /** In one tick every module gets at most one entrypoint call, modules are
      called in table order, and nothing at or after the sentinel is called. */
  lemma TickCallsInOrder(s: seq<GameModule>, f: Frame)
    requires HasSentinel(s)
    ensures forall a, b :: 0 <= a < b < |TickCalls(s, f)| ==>
      TickCalls(s, f)[a].index < TickCalls(s, f)[b].index
    ensures forall c :: c in TickCalls(s, f) ==> c.index < SentinelIndex(s)
  {
    CallsUpToOrdered(s, f, SentinelIndex(s));
  }

  /** The calls of a tick are exactly the per-module decisions of the modules
      before the sentinel. */
  lemma TickCallsExactly(s: seq<GameModule>, f: Frame, c: Invocation)
    requires HasSentinel(s)
    ensures c in TickCalls(s, f) <==>
      c.index < SentinelIndex(s) && Invoked(s[c.index], f) == Some(c.entry)
  {
    CallsUpToMembership(s, f, SentinelIndex(s), c);
  }

  /** Without settings no game entrypoint is called in the whole tick. */
  lemma NoGameCallsWithoutSettings(s: seq<GameModule>, f: Frame)
    requires HasSentinel(s) && f.settings.None?
    ensures forall c :: c in TickCalls(s, f) ==> c.entry == Lobby
  {
    forall c | c in TickCalls(s, f) ensures c.entry == Lobby {
      TickCallsExactly(s, f, c);
    }
  }

  /** A tick changes only states, only before the sentinel, and only by
      turning temporarily-on modules off. */
  lemma TickOnlyDemotes(s: seq<GameModule>, f: Frame)
    requires HasSentinel(s)
    ensures |Tick(s, f)| == |s|
    ensures forall j :: 0 <= j < |s| ==>
      Tick(s, f)[j].hasGameEntrypoint == s[j].hasGameEntrypoint &&
      Tick(s, f)[j].hasLobbyEntrypoint == s[j].hasLobbyEntrypoint
    ensures forall j :: SentinelIndex(s) <= j < |s| ==> Tick(s, f)[j] == s[j]
    ensures forall j :: 0 <= j < |s| ==>
      Tick(s, f)[j].state == s[j].state ||
      (s[j].state == TempOn && Tick(s, f)[j].state == Off)
  {
  }

  /** Two tables with sentinels in the same places stop at the same index. */
  lemma SameSentinelIndex(s: seq<GameModule>, t: seq<GameModule>)
    requires HasSentinel(s) && |s| == |t|
    requires forall j :: 0 <= j < |s| ==> (s[j].IsSentinel() <==> t[j].IsSentinel())
    ensures HasSentinel(t) && SentinelIndex(t) == SentinelIndex(s)
  {
    assert t[SentinelIndex(s)].IsSentinel();
  }

  /** A second tick with the same inputs visits the same modules and changes
      no state: whatever one tick turned off stays off. */
  lemma TickIdempotent(s: seq<GameModule>, f: Frame)
    requires HasSentinel(s)
    ensures HasSentinel(Tick(s, f))
    ensures SentinelIndex(Tick(s, f)) == SentinelIndex(s)
    ensures Tick(Tick(s, f), f) == Tick(s, f)
  {
    var t := Tick(s, f);
    SameSentinelIndex(s, t);
    forall j | 0 <= j < |t| ensures Tick(t, f)[j] == t[j] {
      if j < SentinelIndex(s) {
        NextStateIdempotent(s[j], f);
      }
    }
  }

  /** Without settings, every temporarily-on module before the sentinel is
      off after the tick, and every other module keeps its state. */
  lemma SettingsAbsentRetiresAll(s: seq<GameModule>, f: Frame)
    requires HasSentinel(s) && f.settings.None?
    ensures forall j :: 0 <= j < SentinelIndex(s) ==>
      Tick(s, f)[j].state == if s[j].state == TempOn then Off else s[j].state
  {
  }
}
