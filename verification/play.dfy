/**
 Runs of consecutive trigger pulls, and what they reveal: after a reload with
 the round in chamber `b`, the first `b` clicks miss, click `b + 1` loses the
 game, and the trigger stays disabled until the next reload.
 */
module Play {
  import opened Cylinder
  import opened Roulette

  /** The state after `n` clicks on the trigger button. */
  function Presses(s: GameState, n: nat): GameState
  {
    if n == 0 then s else PressTrigger(Presses(s, n - 1))
  }

  /** The state after `n` direct calls of the handler, bypassing the button. */
  function Pulls(s: GameState, n: nat): GameState
  {
    if n == 0 then s else Pull(Pulls(s, n - 1))
  }

  /** A reload with the round in chamber `b`, once its spin is over. */
  function Armed(s: GameState, b: nat): (r: GameState)
    requires b < ChamberCount
    ensures r.chamber == LoadedAt(b) && r.currentChamber == 0
    ensures TriggerEnabled(r) && !r.fired
  {
    TimerFires(Spin(s, b))
  }

  /** Clicks on a disabled trigger, however many, change nothing. */
  lemma {:induction false} DisabledPressesChangeNothing(s: GameState, n: nat)
    requires !TriggerEnabled(s)
    ensures Presses(s, n) == s
  {
    if n > 0 {
      DisabledPressesChangeNothing(s, n - 1);
    }
  }

  /** Clicks made before the spin's timer fires are all ignored. */
  lemma ClicksWhileSpinningIgnored(s: GameState, b: nat, n: nat)
    requires b < ChamberCount
    ensures Presses(Spin(s, b), n) == Spin(s, b)
  {
    DisabledPressesChangeNothing(Spin(s, b), n);
  }

  /** The first `b` clicks after a reload into chamber `b` all miss. */
  lemma {:induction false} MissesBeforeRound(s: GameState, b: nat, k: nat)
    requires b < ChamberCount && k <= b
    ensures Presses(Armed(s, b), k) == GameState(LoadedAt(b), k, false, k > 0, false)
  {
    if k > 0 {
      MissesBeforeRound(s, b, k - 1);
    }
  }

  /** Click `b + 1` hits the round: the game is lost at chamber `b`. */
  lemma HitOnRound(s: GameState, b: nat)
    requires b < ChamberCount
    ensures Presses(Armed(s, b), b + 1) == GameState(LoadedAt(b), b, false, true, true)
    ensures !TriggerEnabled(Presses(Armed(s, b), b + 1))
  {
    MissesBeforeRound(s, b, b);
  }

  /** After the hit, further clicks leave the lost game as it is. */
  lemma {:induction false} LostGameStays(s: GameState, b: nat, n: nat)
    requires b < ChamberCount && n > b
    ensures Presses(Armed(s, b), n) == GameState(LoadedAt(b), b, false, true, true)
  {
    if n == b + 1 {
      HitOnRound(s, b);
    } else {
      LostGameStays(s, b, n - 1);
    }
  }

  /**
   After a reload into chamber `b`, the game is lost after `n` clicks exactly
   when `n > b`; so nine clicks always end it.
   */
  lemma GameOverIffPastRound(s: GameState, b: nat, n: nat)
    requires b < ChamberCount
    ensures Presses(Armed(s, b), n).gameOver <==> n > b
    ensures Presses(Armed(s, b), ChamberCount).gameOver
  {
    if n > b {
      LostGameStays(s, b, n);
    } else {
      MissesBeforeRound(s, b, n);
    }
    LostGameStays(s, b, ChamberCount);
  }

  /**
   What the panel shows during a game: chamber `k + 1` and, after the first
   click, the survival message while the round has not come up; from click
   `b + 1` on, the loss message at chamber `b + 1`.
   */
  lemma RenderDuringPlay(s: GameState, b: nat, k: nat)
    requires b < ChamberCount
    ensures k <= b ==> Render(Presses(Armed(s, b), k)) == View(k + 1, false, k > 0)
    ensures k > b ==> Render(Presses(Armed(s, b), k)) == View(b + 1, true, false)
  {
    if k <= b {
      MissesBeforeRound(s, b, k);
    } else {
      LostGameStays(s, b, k);
    }
  }

  /**
   Without a round in the cylinder, pulls only turn it: the position moves on
   by one per pull modulo nine, and nothing else but `fired` changes.
   */
  lemma {:induction false} EmptyCylinderTurns(s: GameState, n: nat)
    requires s.currentChamber < ChamberCount
    requires Rounds(s.chamber) == 0
    ensures Pulls(s, n) == s.(currentChamber := (s.currentChamber + n) % ChamberCount,
                              fired := s.fired || n > 0)
  {
    if n > 0 {
      EmptyCylinderTurns(s, n - 1);
      NoRoundsIffAllEmpty(s.chamber);
      assert !UnderHammer(Pulls(s, n - 1));
    }
  }

  /**
   Before the first reload no pull, however many, loses the game, and the
   position runs through every chamber in turn.
   */
  lemma InitialNeverLoses(n: nat)
    ensures !Pulls(Initial(), n).gameOver
    ensures Pulls(Initial(), n).currentChamber == n % ChamberCount
  {
    EmptyCylinderTurns(Initial(), n);
  }

  /** Before the first reload the button never blocks: clicks are plain pulls. */
  lemma {:induction false} InitialPressesArePulls(n: nat)
    ensures Presses(Initial(), n) == Pulls(Initial(), n)
  {
    if n > 0 {
      InitialPressesArePulls(n - 1);
      EmptyCylinderTurns(Initial(), n - 1);
    }
  }
}
