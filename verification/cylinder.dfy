/**
 The revolver's cylinder: a row of chambers, each of which is either empty
 (`false`) or holds a live round (`true`).
 */
module Cylinder {

  /** The number of chambers; the component hard-codes nine. */
  const ChamberCount: nat := 9

  /** A cylinder of `n` empty chambers, as `Array(n).fill(false)` builds it. */
  function Empty(n: nat): (c: seq<bool>)
    ensures |c| == n
    ensures forall i :: 0 <= i < n ==> !c[i]
  {
    seq(n, _ => false)
  }

  /** A nine-chamber cylinder with one round put into chamber `bullet`. */
  function LoadedAt(bullet: nat): (c: seq<bool>)
    requires bullet < ChamberCount
    ensures |c| == ChamberCount
    ensures forall i :: 0 <= i < ChamberCount ==> (c[i] <==> i == bullet)
    ensures Rounds(c) == 1
  {
    RoundsEmpty(ChamberCount);
    RoundsInsert(Empty(ChamberCount), bullet);
    Empty(ChamberCount)[bullet := true]
  }

  /** The number of live rounds in the cylinder. */
  function Rounds(c: seq<bool>): nat
  {
    if |c| == 0 then 0 else Rounds(c[..|c| - 1]) + (if c[|c| - 1] then 1 else 0)
  }

  /** An empty cylinder holds no round. */
  lemma {:induction false} RoundsEmpty(n: nat)
    ensures Rounds(Empty(n)) == 0
  {
    if n > 0 {
      assert Empty(n)[..n - 1] == Empty(n - 1);
      RoundsEmpty(n - 1);
    }
  }

  /** Putting a round into an empty chamber adds exactly one round. */
  lemma {:induction false} RoundsInsert(c: seq<bool>, i: nat)
    requires i < |c| && !c[i]
    ensures Rounds(c[i := true]) == Rounds(c) + 1
  {
    var n := |c| - 1;
    var d := c[i := true];
    if i == n {
      assert d[..n] == c[..n];
    } else {
      assert d[..n] == c[..n][i := true];
      RoundsInsert(c[..n], i);
    }
  }

  /** A cylinder holds no round exactly when every chamber is empty. */
  lemma {:induction false} NoRoundsIffAllEmpty(c: seq<bool>)
    ensures Rounds(c) == 0 <==> forall i :: 0 <= i < |c| ==> !c[i]
  {
    if |c| > 0 {
      var n := |c| - 1;
      NoRoundsIffAllEmpty(c[..n]);
      assert forall i :: 0 <= i < n ==> c[..n][i] == c[i];
    }
  }
}
