/**
 The component driven by its environment: any sequence of clicks on the two
 buttons and expiries of reload timers. Timers are never cancelled, so an
 expiry may arrive at any moment, including one left over from an earlier
 reload; each one just ends the spin.
 */
module Events {
  import opened Cylinder
  import opened Roulette
  import opened Play

  datatype Event =
    | SpinClick(bullet: nat)   // the reload button, with the chamber the draw picked
    | TimerExpiry              // a reload timer's callback
    | TriggerClick             // the trigger button, subject to its guard

  /** The random draw always yields a chamber of the cylinder. */
  predicate WellFormed(e: Event)
  {
    e.SpinClick? ==> e.bullet < ChamberCount
  }

  predicate AllWellFormed(es: seq<Event>)
  {
    forall i :: 0 <= i < |es| ==> WellFormed(es[i])
  }

  function Step(s: GameState, e: Event): GameState
    requires WellFormed(e)
  {
    match e
    case SpinClick(b) => Spin(s, b)
    case TimerExpiry => TimerFires(s)
    case TriggerClick => PressTrigger(s)
  }

  /** The state after the events `es`, first to last. */
  function Run(s: GameState, es: seq<Event>): GameState
    requires AllWellFormed(es)
    decreases |es|
  {
    if |es| == 0 then s else Run(Step(s, es[0]), es[1..])
  }

  predicate HasSpin(es: seq<Event>)
  {
    exists i :: 0 <= i < |es| && es[i].SpinClick?
  }

  lemma StepInv(s: GameState, e: Event)
    requires WellFormed(e) && Inv(s)
    ensures Inv(Step(s, e))
  {
    match e
    case SpinClick(b) => SpinInv(s, b);
    case TimerExpiry => TimerInv(s);
    case TriggerClick => PressInv(s);
  }

  /** Every event sequence keeps the invariant. */
  lemma {:induction false} RunInv(s: GameState, es: seq<Event>)
    requires AllWellFormed(es) && Inv(s)
    ensures Inv(Run(s, es))
    decreases |es|
  {
    if |es| > 0 {
      StepInv(s, es[0]);
      RunInv(Step(s, es[0]), es[1..]);
    }
  }

  /**
   Every state the component can reach keeps the invariant, so the displayed
   chamber number is always 1 to 9, and the loss message only ever shows with
   the round in the displayed chamber.
   */
  lemma Reachable(es: seq<Event>)
    requires AllWellFormed(es)
    ensures Inv(Run(Initial(), es))
    ensures 1 <= Render(Run(Initial(), es)).chamberNumber <= ChamberCount
    ensures Render(Run(Initial(), es)).showsLoss ==>
              Run(Initial(), es).chamber[Render(Run(Initial(), es)).chamberNumber - 1]
  {
    InitialInv();
    RunInv(Initial(), es);
    RenderInRange(Run(Initial(), es));
  }

  /**
   The cylinder holds no round until the first reload, and exactly one from
   then on: a reload replaces the round, it never adds a second.
   */
  lemma {:induction false} RoundsAfterRun(s: GameState, es: seq<Event>)
    requires AllWellFormed(es)
    ensures Rounds(Run(s, es).chamber) == if HasSpin(es) then 1 else Rounds(s.chamber)
    decreases |es|
  {
    if |es| > 0 {
      var t := Step(s, es[0]);
      RoundsAfterRun(t, es[1..]);
      if HasSpin(es[1..]) {
        var i :| 0 <= i < |es[1..]| && es[1..][i].SpinClick?;
        assert es[i + 1].SpinClick?;
      } else if es[0].SpinClick? {
        assert HasSpin(es) by { assert es[0].SpinClick?; }
      } else {
        assert !HasSpin(es) by {
          forall i | 0 <= i < |es|
            ensures !es[i].SpinClick?
          {
            if i > 0 {
              assert es[i] == es[1..][i - 1];
            }
          }
        }
      }
    } else {
      assert !HasSpin(es);
    }
  }

  /** Only a reload brings a lost game back. */
  lemma OnlySpinRevives(s: GameState, e: Event)
    requires WellFormed(e)
    ensures s.gameOver && !Step(s, e).gameOver ==> e.SpinClick?
  {
  }

  /** `n` clicks on the trigger button, one after another. */
  function Clicks(n: nat): (es: seq<Event>)
    ensures |es| == n && AllWellFormed(es)
  {
    seq(n, _ => TriggerClick)
  }

  lemma {:induction false} PressesShift(s: GameState, n: nat)
    ensures Presses(PressTrigger(s), n) == Presses(s, n + 1)
  {
    if n > 0 {
      PressesShift(s, n - 1);
    }
  }

  /** Running `n` trigger clicks as events is the same as `n` presses. */
  lemma {:induction false} RunClicks(s: GameState, n: nat)
    ensures Run(s, Clicks(n)) == Presses(s, n)
    decreases n
  {
    if n > 0 {
      assert Clicks(n)[0] == TriggerClick;
      assert Clicks(n)[1..] == Clicks(n - 1);
      RunClicks(PressTrigger(s), n - 1);
      PressesShift(s, n - 1);
    }
  }

  /**
   The whole game as the player sees it: reload into chamber `b`, wait for
   the spin to end, then click; the game is lost after `n` clicks exactly when
   `n > b`, and always within nine.
   */
  lemma Session(s: GameState, b: nat, n: nat)
    requires b < ChamberCount
    ensures Run(s, [SpinClick(b), TimerExpiry] + Clicks(n)).gameOver <==> n > b
    ensures Run(s, [SpinClick(b), TimerExpiry] + Clicks(ChamberCount)).gameOver
  {
    forall m: nat
      ensures Run(s, [SpinClick(b), TimerExpiry] + Clicks(m)) == Presses(Armed(s, b), m)
    {
      var es := [SpinClick(b), TimerExpiry] + Clicks(m);
      assert es[0] == SpinClick(b) && es[1..][0] == TimerExpiry;
      assert es[1..][1..] == Clicks(m);
      RunClicks(Armed(s, b), m);
    }
    GameOverIffPastRound(s, b, n);
  }

  /** The events contain no reload click. */
  predicate NoReload(es: seq<Event>)
  {
    forall i :: 0 <= i < |es| ==> !es[i].SpinClick?
  }

  /** The number of trigger clicks among the events. */
  function CountClicks(es: seq<Event>): nat
    decreases |es|
  {
    if |es| == 0 then 0 else (if es[0].TriggerClick? then 1 else 0) + CountClicks(es[1..])
  }

  /**
   Once the spin is over, trigger clicks interleaved with any number of timer
   expiries, stale or not, act as the clicks alone: the expiries do nothing.
   */
  lemma {:induction false} ExpiriesAmongClicks(t: GameState, es: seq<Event>)
    requires !t.isSpinning && NoReload(es)
    ensures AllWellFormed(es)
    ensures Run(t, es) == Presses(t, CountClicks(es))
    decreases |es|
  {
    if |es| > 0 {
      assert NoReload(es[1..]) by {
        forall i | 0 <= i < |es[1..]|
          ensures !es[1..][i].SpinClick?
        {
          assert es[1..][i] == es[i + 1];
        }
      }
      if es[0].TimerExpiry? {
        TimerIdle(t);
        ExpiriesAmongClicks(t, es[1..]);
      } else {
        assert es[0].TriggerClick?;
        ExpiriesAmongClicks(PressTrigger(t), es[1..]);
        PressesShift(t, CountClicks(es[1..]));
      }
    }
  }

  /**
   Reload into chamber `b`, let a timer end the spin, then click with any
   number of timer expiries in between (the reload's own timer among them):
   the game is lost exactly when there were more than `b` clicks.
   */
  lemma SessionWithExpiries(s: GameState, b: nat, es: seq<Event>)
    requires b < ChamberCount && NoReload(es)
    ensures AllWellFormed([SpinClick(b), TimerExpiry] + es)
    ensures Run(s, [SpinClick(b), TimerExpiry] + es).gameOver <==> CountClicks(es) > b
  {
    ExpiriesAmongClicks(Armed(s, b), es);
    var all := [SpinClick(b), TimerExpiry] + es;
    assert all[0] == SpinClick(b) && all[1..][0] == TimerExpiry;
    assert all[1..][1..] == es;
    GameOverIffPastRound(s, b, CountClicks(es));
  }
}
