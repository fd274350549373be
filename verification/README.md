# Russian roulette game state, in Dafny

A model of the game logic in the `RussianRoulette` React component. The
component keeps five pieces of state: a nine-chamber `chamber` array, the
`currentChamber` under the hammer, and the flags `isSpinning`, `fired` and
`gameOver`. Three things act on that state:

- `spinChamber` reloads. It puts one round into a randomly drawn chamber of a
  fresh cylinder, goes back to chamber 0, clears `fired` and `gameOver`, and
  starts a spin. A timer ends the spin later.
- `pullTrigger` fires. A hit ends the game where it stands. A miss moves on one
  chamber, wrapping round after the ninth.
- The trigger button is disabled while a spin runs or once the game is lost.

The model is a state datatype with pure transition functions. The random draw
is a parameter `bullet` with `0 <= bullet < 9`. The timer's callback is an
event of its own.

Modules:

- `Cylinder` (`cylinder.dfy`): the chamber count, empty and loaded cylinders,
  and the count of live rounds.
- `Roulette` (`roulette.dfy`): `GameState`, `Spin`, `Pull`, `TimerFires`,
  `TriggerEnabled`, `PressTrigger` (a click: the guard, then the handler),
  `Render` (the panel), and the invariant `Inv` of reachable states.
- `Play` (`play.dfy`): runs of clicks (`Presses`) and of bare handler calls
  (`Pulls`), and the main theorem. After a reload into chamber `b` and the end
  of the spin, the first `b` clicks miss, click `b + 1` loses the game, and
  later clicks do nothing. So nine clicks always end the game.
- `Events` (`events.dfy`): any sequence of reload clicks, timer expiries and
  trigger clicks, and what holds in every state such a sequence reaches.

Three facts about the component shape the model:

- The handler itself accepts every call. A pull during a spin or after a loss
  is prevented only by the button's `disabled` attribute. There is no
  "rejected" result. `Pull` is the unguarded handler and `PressTrigger` is the
  guarded click.
- Reload timers are never cancelled. A timer left over from an earlier reload
  can end a later spin early. In the model a timer expiry is an event that may
  come at any moment, and it only clears `isSpinning`.
- Before the first reload the chamber array is all empty. Pulls then turn the
  cylinder forever and never end the game.

## Model

| member | source | states |
|---|---|---|
| `Cylinder.LoadedAt` | src/RussianRoulette.jsx:34-36 | the reloaded cylinder has nine chambers, holds the round in chamber `bullet` and in no other, and holds exactly one round |
| `Cylinder.Empty` | src/RussianRoulette.jsx:34 | a fresh array of `n` chambers, every one of them empty |
| `Roulette.Initial` | src/RussianRoulette.jsx:27-31 | the component starts with nine chambers and no round in them, at chamber 0, no spin running, nothing fired and the game not lost |
| `Roulette.UnderHammer` | src/RussianRoulette.jsx:46 | with no round loaded the chamber under the hammer never holds one, even past the end of the array; with the round in chamber `b` it is under the hammer exactly at position `b` |
| `Roulette.Spin` | src/RussianRoulette.jsx:33-41 | whatever the prior state, even mid-spin or after a loss, a reload leaves exactly one round, in chamber `bullet`, position 0, `fired` and `gameOver` false, and a spin running |
| `Roulette.TimerFires` | src/RussianRoulette.jsx:42 | the timer ends the spin and touches no other field |
| `Roulette.Pull` | src/RussianRoulette.jsx:45-54 | every pull sets `fired` and leaves the cylinder alone; a hit sets `gameOver` without moving; a miss leaves `gameOver` as it was and moves to the next chamber modulo nine, which is always in 0..8 |
| `Roulette.TriggerEnabled` | src/RussianRoulette.jsx:90 | whenever the trigger button is enabled the loss message is not showing |
| `Roulette.PressTrigger` | src/RussianRoulette.jsx:90 | a click never touches the cylinder or the spin, leaves a lost game exactly as it is, and can only set `fired` when no spin runs and the game is not lost |
| `Roulette.TimerIdle` | src/RussianRoulette.jsx:42 | a timer expiry with no spin running, such as a stale one, changes nothing |
| `Roulette.PressGuard` | src/RussianRoulette.jsx:90 | a click on the disabled trigger changes nothing; an enabled click always fires and loses the game exactly when the round is under the hammer |
| `Roulette.TimerEnablesTrigger` | src/RussianRoulette.jsx:90 | once the timer has fired the trigger is enabled exactly when the game is not lost |
| `Roulette.Render` | src/RussianRoulette.jsx:80-86 | the shown chamber number is at least 1; the loss and survival messages never show together; some message shows exactly when a pull happened or the game is lost |
| `Roulette.RenderInRange` | src/RussianRoulette.jsx:80-86 | in any reachable state the shown chamber number is 1 to 9 and a message shows exactly when the trigger was pulled since the last reload |
| `Roulette.InitialInv` | src/RussianRoulette.jsx:27-31 | the initial state satisfies the reachable-state invariant |
| `Roulette.SpinInv` | src/RussianRoulette.jsx:33-41 | a reload from any state establishes the invariant |
| `Roulette.TimerInv` | src/RussianRoulette.jsx:42 | the timer preserves the invariant |
| `Roulette.PullInv` | src/RussianRoulette.jsx:45-54 | even the unguarded handler preserves the invariant: at most one round, position in range, passed chambers empty, a lost game stopped on the round |
| `Roulette.PressInv` | src/RussianRoulette.jsx:90 | a guarded click preserves the invariant |
| `Play.Armed` | src/RussianRoulette.jsx:33-42 | after a reload and its timer the cylinder holds the round at `b`, the position is 0, nothing is fired and the trigger is enabled |
| `Play.DisabledPressesChangeNothing` | src/RussianRoulette.jsx:90 | any number of clicks on a disabled trigger leave the state as it is |
| `Play.ClicksWhileSpinningIgnored` | src/RussianRoulette.jsx:41 | clicks made before the reload's timer fires are all ignored |
| `Play.MissesBeforeRound` | src/RussianRoulette.jsx:49-52 | after a reload into chamber `b`, each of the first `b` clicks misses, leaving the position at the click count, `fired` set after the first and the game not lost |
| `Play.HitOnRound` | src/RussianRoulette.jsx:46-48 | click `b + 1` loses the game at chamber `b` and disables the trigger |
| `Play.LostGameStays` | src/RussianRoulette.jsx:90 | every click after the hit leaves the lost game unchanged until the next reload |
| `Play.GameOverIffPastRound` | src/RussianRoulette.jsx:33-54 | after a reload into chamber `b`, the game is lost after `n` clicks if and only if `n > b`; nine clicks always end it |
| `Play.RenderDuringPlay` | src/RussianRoulette.jsx:80-86 | after `k <= b` clicks the panel shows chamber `k + 1`, no loss message, and the survival message exactly when `k > 0`; after more than `b` clicks it shows the loss message at chamber `b + 1` and no survival message |
| `Play.EmptyCylinderTurns` | src/RussianRoulette.jsx:49-52 | with no round loaded, `n` pulls move the position to `(start + n) mod 9`, set `fired` if `n > 0`, and change nothing else |
| `Play.InitialNeverLoses` | src/RussianRoulette.jsx:27-28 | before the first reload no number of pulls loses the game, and after `n` pulls the position is `n mod 9` |
| `Play.InitialPressesArePulls` | src/RussianRoulette.jsx:29-31 | before the first reload the button never blocks, so clicks behave as bare handler calls |
| `Events.RunInv` | src/RussianRoulette.jsx:33-54 | every sequence of reloads, timer expiries and clicks preserves the invariant |
| `Events.Reachable` | src/RussianRoulette.jsx:80-86 | every reachable state satisfies the invariant and shows a chamber number from 1 to 9, and the loss message only ever shows with the round in the displayed chamber |
| `Events.RoundsAfterRun` | src/RussianRoulette.jsx:34-37 | the cylinder holds no round until the first reload and exactly one after it; a reload replaces the round and never adds one |
| `Events.OnlySpinRevives` | src/RussianRoulette.jsx:40 | only a reload clears `gameOver`; neither a timer nor a click does |
| `Events.Session` | src/RussianRoulette.jsx:33-54 | reload into chamber `b`, wait for the spin to end, then click `n` times: the game is lost if and only if `n > b`, and always within nine clicks |
| `Events.ExpiriesAmongClicks` | src/RussianRoulette.jsx:42 | once the spin is over, trigger clicks mixed with any number of timer expiries reach the same state as the clicks alone |
| `Events.SessionWithExpiries` | src/RussianRoulette.jsx:33-54 | reload into chamber `b`, let a timer end the spin, then click with any timer expiries in between, the reload's own timer included: the game is lost if and only if there were more than `b` clicks |

## Left out

- The `Revolver` component and its per-frame rotation (src/RussianRoulette.jsx:9-24): 3D rendering with floating-point angles.
- The canvas, lights, camera controls, card and button layout (src/RussianRoulette.jsx:56-97): markup only. Only the trigger's `disabled` condition and the display conditions are modelled.
- The random draw `Math.floor(Math.random() * 9)`: it is a parameter `bullet` in 0..8. Floating-point arithmetic and uniformity are not modelled.
- The 1500 ms timer duration, real time and React's batching of state updates: a timer expiry is an event that may occur at any point after any other event. Pending timers are not counted, so the model admits expiries the component would never produce (for example, one before any reload). Every lemma holds for those extra runs too.
- The display strings: only the conditions that choose them are modelled.
- Roulette.Render: its own contract gives only the bounds and the exclusivity of the messages, not which number and message are shown; `Play.RenderDuringPlay` pins the whole view at every point of a game.
