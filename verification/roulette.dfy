/**
 The game state of the roulette component and the transitions that act on it:
 reloading (`spinChamber`), firing (`pullTrigger`), the expiry of the reload
 timer, the trigger button's enabled guard, and what the panel displays.
 */
module Roulette {
  import opened Cylinder

  /** The component's five pieces of state. */
  datatype GameState = GameState(
    chamber: seq<bool>,
    currentChamber: nat,
    isSpinning: bool,
    fired: bool,
    gameOver: bool)

  /** The state the component starts in: an unloaded cylinder at chamber 0. */
  function Initial(): (s: GameState)
    ensures |s.chamber| == ChamberCount && s.currentChamber == 0
    ensures Rounds(s.chamber) == 0
    ensures !s.isSpinning && !s.fired && !s.gameOver
  {
    RoundsEmpty(ChamberCount);
    GameState(Empty(ChamberCount), 0, false, false, false)
  }

  /**
   True when the chamber under the hammer holds the round. An index past the
   end of the array reads as `undefined`, which counts as empty.
   */
  predicate UnderHammer(s: GameState)
    ensures Rounds(s.chamber) == 0 ==> !UnderHammer(s)
    ensures forall b: nat :: b < ChamberCount && s.chamber == LoadedAt(b) ==>
              (UnderHammer(s) <==> s.currentChamber == b)
  {
    NoRoundsIffAllEmpty(s.chamber);
    s.currentChamber < |s.chamber| && s.chamber[s.currentChamber]
  }

  /**
   Reload: a fresh cylinder with the round in chamber `bullet` (the random
   draw, passed in), back at chamber 0, nothing fired, and the spin running.
   The prior state plays no part.
   */
  function Spin(s: GameState, bullet: nat): (r: GameState)
    requires bullet < ChamberCount
    ensures |r.chamber| == ChamberCount && Rounds(r.chamber) == 1
    ensures forall i :: 0 <= i < ChamberCount ==> (r.chamber[i] <==> i == bullet)
    ensures r.currentChamber == 0 && r.isSpinning && !r.fired && !r.gameOver
  {
    GameState(LoadedAt(bullet), 0, true, false, false)
  }

  /** The reload timer's callback: the spin is over. */
  function TimerFires(s: GameState): (r: GameState)
    ensures !r.isSpinning
    ensures r.chamber == s.chamber && r.currentChamber == s.currentChamber
    ensures r.fired == s.fired && r.gameOver == s.gameOver
  {
    s.(isSpinning := false)
  }

  /**
   The trigger handler itself, which checks neither the spin nor the end of
   the game: a hit ends the game where it stands, a miss moves on one
   chamber, wrapping round after the ninth.
   */
  function Pull(s: GameState): (r: GameState)
    ensures r.fired
    ensures r.chamber == s.chamber && r.isSpinning == s.isSpinning
    ensures UnderHammer(s) ==> r.gameOver && r.currentChamber == s.currentChamber
    ensures !UnderHammer(s) ==>
              r.gameOver == s.gameOver
              && r.currentChamber < ChamberCount
              && r.currentChamber == (s.currentChamber + 1) % ChamberCount
  {
    if UnderHammer(s) then
      s.(fired := true, gameOver := true)
    else
      s.(currentChamber := (s.currentChamber + 1) % ChamberCount, fired := true)
  }

  /** The trigger button is clickable unless a spin runs or the game is lost. */
  predicate TriggerEnabled(s: GameState)
    ensures TriggerEnabled(s) ==> !Render(s).showsLoss
  {
    !s.isSpinning && !s.gameOver
  }

  /** A click on the trigger button: the handler runs only when enabled. */
  function PressTrigger(s: GameState): (r: GameState)
    ensures r.chamber == s.chamber && r.isSpinning == s.isSpinning
    ensures s.gameOver ==> r == s
    ensures r.fired != s.fired ==> !s.isSpinning && !s.gameOver
  {
    if TriggerEnabled(s) then Pull(s) else s
  }

  /** What the panel shows: the chamber number and which message, if any. */
  datatype View = View(chamberNumber: nat, showsLoss: bool, showsSurvival: bool)

  function Render(s: GameState): (v: View)
    ensures 1 <= v.chamberNumber
    ensures !(v.showsLoss && v.showsSurvival)
    ensures v.showsLoss || v.showsSurvival <==> s.fired || s.gameOver
  {
    View(s.currentChamber + 1, s.gameOver, s.fired && !s.gameOver)
  }

  /**
   What holds in every state the component can reach: nine chambers, at most
   one round, the position in range, no round in a chamber already passed, a
   lost game stopped on the round, and an untouched trigger at chamber 0.
   */
  predicate Inv(s: GameState)
  {
    && |s.chamber| == ChamberCount
    && s.currentChamber < ChamberCount
    && Rounds(s.chamber) <= 1
    && (forall i :: 0 <= i < s.currentChamber ==> !s.chamber[i])
    && (s.gameOver ==> s.fired && s.chamber[s.currentChamber])
    && (!s.fired ==> s.currentChamber == 0 && !s.gameOver)
  }

  lemma InitialInv()
    ensures Inv(Initial())
  {
  }

  lemma SpinInv(s: GameState, bullet: nat)
    requires bullet < ChamberCount
    ensures Inv(Spin(s, bullet))
  {
  }

  lemma TimerInv(s: GameState)
    requires Inv(s)
    ensures Inv(TimerFires(s))
  {
  }

  /** Even the unguarded handler keeps the invariant. */
  lemma PullInv(s: GameState)
    requires Inv(s)
    ensures Inv(Pull(s))
  {
  }

  lemma PressInv(s: GameState)
    requires Inv(s)
    ensures Inv(PressTrigger(s))
  {
    PullInv(s);
  }

  /**
   A click in a disabled state changes nothing; an enabled click ends the
   game exactly when the round is under the hammer.
   */
  lemma PressGuard(s: GameState)
    ensures !TriggerEnabled(s) ==> PressTrigger(s) == s
    ensures TriggerEnabled(s) ==> PressTrigger(s).fired
    ensures TriggerEnabled(s) ==> (PressTrigger(s).gameOver <==> UnderHammer(s))
  {
  }

  /** Once the timer has fired, the trigger is enabled unless the game is lost. */
  /** With no spin running, a timer expiry changes nothing. */
  lemma TimerIdle(s: GameState)
    requires !s.isSpinning
    ensures TimerFires(s) == s
  {
  }

  lemma TimerEnablesTrigger(s: GameState)
    ensures TriggerEnabled(TimerFires(s)) <==> !s.gameOver
  {
  }

  /**
   In a reachable state the displayed number is a real chamber, 1 to 9, and
   a message is shown exactly when the trigger was pulled since the last spin.
   */
  lemma RenderInRange(s: GameState)
    requires Inv(s)
    ensures 1 <= Render(s).chamberNumber <= ChamberCount
    ensures Render(s).showsLoss || Render(s).showsSurvival <==> s.fired
  {
  }
}
