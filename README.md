# Module scheduler of the Deadlocked patch

This project models `processGameModules`, the per-frame scheduler of the
Deadlocked/Gladiator game patch. Every frame it walks the table of game
modules up to the first entry that has neither a game nor a lobby
entrypoint. For each module it decides, from the module's state (Off,
temporarily on, always on), whether the game settings are present and the
game clock signals, whether to call the module's game entrypoint, its lobby
entrypoint or neither, and whether to turn a temporarily-on module off.

- `modules.dfy` (module `GameModules`): the module record, its state enum,
  the game settings, the per-frame inputs (`Frame`) and the sentinel search.
- `scheduler.dfy` (module `Scheduler`): the specification of one module's
  decision (`NextState`, `Invoked`) and of a whole tick (`Tick`,
  `TickCalls`), and `ProcessGameModules`, the loop itself over an
  `array<GameModule>`, updating states in place and returning the
  entrypoint calls it makes, proved equal to that specification.
- `properties.dfy` (module `SchedulerProperties`): what a tick guarantees,
  per branch of the decision and for the whole table.

The game memory the source reads at fixed addresses (the module table, the
settings pointer, `GAME_ACTIVE`, `GAME_HAS_ENDED`, `GAME_TIME`,
`GAME_TIME_ENDGAME`) and the `TIME_SECOND` constant are parameters: the
array and a `Frame` value. An entrypoint call is recorded as an
`Invocation(index, Game | Lobby)` in the method's result, in call order.
The enum's numeric values live in a header that is not part of this model;
the code only compares a state with `> GAMEMODULE_OFF`, so Off is taken as
the least value and that comparison is `Enabled()`.

## Model

| member | source | states |
|---|---|---|
| GameModules.SentinelIndex | patch/main.c:106 | the walk stops at the first entry with both entrypoints absent: that entry is a sentinel and no earlier one is |
| Scheduler.NextState | patch/main.c:126-152 | a module's state after a tick is either unchanged or a temporarily-on module turned off; nothing else |
| Scheduler.Invoked | patch/main.c:115-159 | a module is called only if it is enabled and keeps its state; a game call needs settings, an active game and a game entrypoint; a lobby call needs an inactive game and a lobby entrypoint |
| Scheduler.CallsUpTo | patch/main.c:106-162 | the calls made on the first k modules number at most k and all concern those modules |
| Scheduler.ProcessGameModules | patch/main.c:97-164 | the loop leaves the table equal to the specified tick (each visited module's state replaced by its next state, the sentinel and everything after untouched) and makes exactly the specified calls, in table order |
| SchedulerProperties.OffModuleUntouched | patch/main.c:109-160 | an Off module gets no call and stays Off, whether or not settings are present |
| SchedulerProperties.NeverPromotes | patch/main.c:127-152 | no module is turned on; an always-on module's state never changes; the only change is temporarily-on to Off |
| SchedulerProperties.InGameCallsGameEntrypoint | patch/main.c:115-125 | settings present, game active and not ended or within one second of its end: an enabled module keeps its state and gets exactly its game call if it has a game entrypoint |
| SchedulerProperties.GraceWindowClosed | patch/main.c:120-142 | game active, ended and at least one second past its end: no call, a temporarily-on module is turned off, others keep their state |
| SchedulerProperties.GraceWindowIsStrict | patch/main.c:120 | one tick before the second has elapsed the game entrypoint still runs; at exactly one second the module is off and not called |
| SchedulerProperties.LobbyDemotion | patch/main.c:134-137 | settings present, game inactive: a temporarily-on module is turned off if and only if the start time is positive, game time is past it and the game has ended |
| SchedulerProperties.LobbyCallAfterDemotion | patch/main.c:141-145 | settings present, game inactive: no game call; the lobby call happens if and only if the state after the demotion check is on and the lobby entrypoint exists, so a module turned off this tick is not called |
| SchedulerProperties.SettingsAbsent | patch/main.c:147-159 | settings absent: no game call; temporarily-on turns off uncalled; always-on keeps its state and gets its lobby call if and only if the game is inactive and it has one; Off is untouched |
| SchedulerProperties.NextStateIdempotent | patch/main.c:126-152 | deciding again on the module one tick produced leaves its state as it is |
| SchedulerProperties.CallsUpToMembership | patch/main.c:106-162 | a call (i, e) is recorded after k modules if and only if i < k and module i's decision is entrypoint e |
| SchedulerProperties.CallsUpToOrdered | patch/main.c:106-162 | recorded calls have strictly increasing module indices |
| SchedulerProperties.TickCallsInOrder | patch/main.c:106-162 | in one tick modules are called in table order, each at most once, and never at or after the sentinel |
| SchedulerProperties.TickCallsExactly | patch/main.c:106-162 | the calls of a tick are exactly the per-module decisions of the modules before the sentinel |
| SchedulerProperties.NoGameCallsWithoutSettings | patch/main.c:147-159 | without settings a whole tick makes only lobby calls |
| SchedulerProperties.TickOnlyDemotes | patch/main.c:106-162 | a tick keeps the table's length and every entrypoint, leaves the sentinel and everything after it unchanged, and changes a state only from temporarily-on to Off |
| SchedulerProperties.SameSentinelIndex | patch/main.c:106 | tables whose entries are sentinels at the same positions stop at the same index |
| SchedulerProperties.TickIdempotent | patch/main.c:97-164 | a second tick with the same inputs visits the same modules and changes no state |
| SchedulerProperties.SettingsAbsentRetiresAll | patch/main.c:147-152 | without settings every temporarily-on module before the sentinel ends the tick Off and every other keeps its state |

## Left out

- `patchCameraSpeed` (patch/main.c:70-80): a guarded write of two constants to fixed addresses, with no decision beyond one equality test.
- The pad-button comparison and `printf` in `main` (patch/main.c:192-203): debug output over raw pad memory.
- `processSpectate` (patch/main.c:53, 190): only declared, and its call is commented out.
- The bodies of the module entrypoints: opaque callbacks. The model assumes a callback changes neither the module table nor the game signals during the tick; the source re-reads `GAME_ACTIVE` and the module's state after a game call, which a callback could in principle alter.
- C integer width: `GAME_TIME_ENDGAME + TIME_SECOND` and the time comparisons use unbounded integers, so overflow is not modelled.
- The value of `TIME_SECOND` and the numeric values of the state enum: they are defined in headers that are not part of this model; `TIME_SECOND` is the `timeSecond` field of `Frame`, and only the ordering "Off is least" is used.
- patch/include/config.h: plain struct and enum declarations with no behaviour.
