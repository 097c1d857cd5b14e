/**
 Knight selection on a round table.  Knights 0..n-1 sit in a ring; each may
 raise a hand when neither it nor a neighbour is selected or has a raised
 hand, and a selector picks raised hands until enough knights are chosen.
 Every mutex-protected region of the program is one atomic transition on the
 state below; threads, sleeps and the random engine become a free choice of
 the next transition.
 */
module KnightSelection {

  /** The constructor either builds a selection or throws invalid_argument. */
  datatype Result<T> = Ok(value: T) | InvalidArgument

  /** The shared state: table size, how many knights to select, the two
      flag vectors and the selected-count. */
  datatype Knights = Knights(total: nat, required: nat, selected: seq<bool>, handRaised: seq<bool>, count: nat)

  predicate WellFormed(k: Knights)
  {
    k.total > 0 && |k.selected| == k.total && |k.handRaised| == k.total
  }

  /** Construction: rejects a non-positive table size or requirement and a
      requirement above the table size; otherwise nothing is selected and no
      hand is raised. */
  function NewKnights(totalKnights: int, requiredKnights: int): (r: Result<Knights>)
    ensures r.Ok? <==> 0 < requiredKnights <= totalKnights
    ensures r.Ok? ==>
      && WellFormed(r.value)
      && r.value.total == totalKnights && r.value.required == requiredKnights
      && r.value.count == 0
      && forall i :: 0 <= i < totalKnights ==> !r.value.selected[i] && !r.value.handRaised[i]
  {
    if totalKnights <= 0 || requiredKnights <= 0 || requiredKnights > totalKnights then InvalidArgument
    else Ok(Knights(totalKnights, requiredKnights, seq(totalKnights, _ => false), seq(totalKnights, _ => false), 0))
  }

  /* ---------------------------------------------------------------------
     Neighbours on the ring
     --------------------------------------------------------------------- */

  /** Left neighbour: the seat before, wrapping from the first seat to the
      last. */
  function Left(id: nat, n: nat): (l: nat)
    requires id < n
    ensures l < n
  {
    if id == 0 then n - 1 else id - 1
  }

  /** Right neighbour: the seat after, wrapping from the last seat to the
      first. */
  function Right(id: nat, n: nat): (r: nat)
    requires id < n
    ensures r < n
  {
    if id + 1 == n then 0 else id + 1
  }

  /** The neighbour list, left first. */
  function Neighbors(id: nat, n: nat): (r: seq<nat>)
    requires id < n
    ensures |r| == 2 && r[0] < n && r[1] < n
  {
    [Left(id, n), Right(id, n)]
  }

  /** Two seats are adjacent when they are consecutive, or are the last
      and the first seat of the ring. */
  predicate Adjacent(a: nat, b: nat, n: nat)
  {
    b == a + 1 || a == b + 1 || (a == 0 && b + 1 == n) || (b == 0 && a + 1 == n)
  }

  /** The neighbours are the ring arithmetic of the table, (id - 1 + n) % n
      and (id + 1) % n; the operands are never negative, so the C++
      remainder and Dafny's agree. */
  lemma NeighborsAreRemainders(id: nat, n: nat)
    requires id < n
    ensures Left(id, n) == (id - 1 + n) % n
    ensures Right(id, n) == (id + 1) % n
  {
    SmallRemainder(id - 1 + n, n);
    SmallRemainder(id + 1, n);
  }

  /** The remainder of a number below 2n. */
  lemma SmallRemainder(a: int, n: int)
    requires 0 < n && 0 <= a < 2 * n
    ensures a % n == if a < n then a else a - n
  {
  }

  /** The neighbour list holds exactly the seats adjacent on the ring; since
      adjacency is symmetric, so is the neighbour relation. */
  lemma NeighborsAreAdjacent(a: nat, b: nat, n: nat)
    requires a < n && b < n
    ensures b in Neighbors(a, n) <==> Adjacent(a, b, n)
    ensures b in Neighbors(a, n) <==> a in Neighbors(b, n)
  {
  }

  /** On a ring of two or more, no knight is its own neighbour. */
  lemma NotOwnNeighbor(id: nat, n: nat)
    requires id < n && n >= 2
    ensures Left(id, n) != id && Right(id, n) != id
  {
  }

  /** With a single knight, the knight is its own left and right neighbour. */
  lemma LoneKnightIsOwnNeighbor()
    ensures Neighbors(0, 1) == [0, 0]
  {
  }

  /* ---------------------------------------------------------------------
     Transitions
     --------------------------------------------------------------------- */

  /** Neither the knight nor a neighbour is selected or has a raised hand. */
  predicate CanRaiseHand(k: Knights, id: nat)
    requires WellFormed(k) && id < k.total
  {
    && !k.selected[id] && !k.handRaised[id]
    && !k.handRaised[Left(id, k.total)] && !k.selected[Left(id, k.total)]
    && !k.handRaised[Right(id, k.total)] && !k.selected[Right(id, k.total)]
  }

  /** A knight's first locked region: raise the hand when allowed. */
  function RaiseHand(k: Knights, id: nat): (r: Knights)
    requires WellFormed(k) && id < k.total
    ensures WellFormed(r) && r.total == k.total && r.required == k.required
    ensures r.selected == k.selected && r.count == k.count
    ensures r.handRaised[id] == (k.handRaised[id] || CanRaiseHand(k, id))
    ensures forall j :: 0 <= j < k.total && j != id ==> r.handRaised[j] == k.handRaised[j]
  {
    if CanRaiseHand(k, id) then k.(handRaised := k.handRaised[id := true]) else k
  }

  /** A knight's second locked region: lower the hand unless selected. */
  function LowerHand(k: Knights, id: nat): (r: Knights)
    requires WellFormed(k) && id < k.total
    ensures WellFormed(r) && r.total == k.total && r.required == k.required
    ensures r.selected == k.selected && r.count == k.count
    ensures r.handRaised[id] == (k.handRaised[id] && k.selected[id])
    ensures forall j :: 0 <= j < k.total && j != id ==> r.handRaised[j] == k.handRaised[j]
  {
    if !k.selected[id] && k.handRaised[id] then k.(handRaised := k.handRaised[id := false]) else k
  }

  /** The selector's periodic reset: every hand goes down. */
  function ResetHands(k: Knights): (r: Knights)
    requires WellFormed(k)
    ensures WellFormed(r) && r.total == k.total && r.required == k.required
    ensures r.selected == k.selected && r.count == k.count
    ensures forall j :: 0 <= j < k.total ==> !r.handRaised[j]
  {
    k.(handRaised := seq(k.total, _ => false))
  }

  /** The selector's locked selection: re-check that the chosen knight is
      unselected with its hand up, then select it, count it and lower its
      hand and both neighbours' hands. */
  function Select(k: Knights, chosen: nat): (r: Knights)
    requires WellFormed(k) && chosen < k.total
    ensures WellFormed(r) && r.total == k.total && r.required == k.required
    ensures !(!k.selected[chosen] && k.handRaised[chosen]) ==> r == k
    ensures !k.selected[chosen] && k.handRaised[chosen] ==>
      && r.selected == k.selected[chosen := true]
      && r.count == k.count + 1
      && !r.handRaised[chosen]
      && !r.handRaised[Left(chosen, k.total)] && !r.handRaised[Right(chosen, k.total)]
      && forall j :: 0 <= j < k.total && j !in Neighbors(chosen, k.total) && j != chosen ==>
           r.handRaised[j] == k.handRaised[j]
  {
    if !k.selected[chosen] && k.handRaised[chosen] then
      var n := k.total;
      k.(selected := k.selected[chosen := true],
         handRaised := k.handRaised[chosen := false][Left(chosen, n) := false][Right(chosen, n) := false],
         count := k.count + 1)
    else k
  }

  /* ---------------------------------------------------------------------
     Counting and the invariant
     --------------------------------------------------------------------- */

  /** Number of true flags. */
  function CountTrue(s: seq<bool>): nat
    decreases |s|
  {
    if s == [] then 0 else CountTrue(s[..|s| - 1]) + (if s[|s| - 1] then 1 else 0)
  }

  lemma CountTruePrefix(s: seq<bool>, i: nat)
    requires i < |s|
    ensures CountTrue(s[..i + 1]) == CountTrue(s[..i]) + (if s[i] then 1 else 0)
  {
    assert s[..i + 1][..i] == s[..i];
  }

  /** Setting one false flag adds exactly one to the count. */
  lemma {:induction false} CountTrueSet(s: seq<bool>, i: nat)
    requires i < |s| && !s[i]
    ensures CountTrue(s[i := true]) == CountTrue(s) + 1
    decreases |s|
  {
    var t := s[i := true];
    var last := |s| - 1;
    assert t[..last] == if i == last then s[..last] else s[..last][i := true];
    if i < last {
      CountTrueSet(s[..last], i);
    }
  }

  /** No selected knight has a selected neighbour. */
  predicate NoAdjacentSelected(k: Knights)
    requires WellFormed(k)
  {
    forall i :: 0 <= i < k.total && k.selected[i] ==>
      !k.selected[Left(i, k.total)] && !k.selected[Right(i, k.total)]
  }

  /** The invariant every transition keeps, for tables of two or more:
      the count matches the selected flags and stays within the requirement;
      a selected knight's hand is down; a raised hand has no selected and no
      raised neighbour; and no two neighbours are selected. */
  ghost predicate Inv(k: Knights)
  {
    && WellFormed(k) && k.total >= 2
    && k.count == CountTrue(k.selected) && k.count <= k.required
    && (forall i :: 0 <= i < k.total && k.selected[i] ==> !k.handRaised[i])
    && (forall i :: 0 <= i < k.total && k.handRaised[i] ==>
          && !k.selected[Left(i, k.total)] && !k.selected[Right(i, k.total)]
          && !k.handRaised[Left(i, k.total)] && !k.handRaised[Right(i, k.total)])
    && NoAdjacentSelected(k)
  }

  lemma NewKnightsEstablishesInv(totalKnights: int, requiredKnights: int)
    requires NewKnights(totalKnights, requiredKnights).Ok? && totalKnights >= 2
    ensures Inv(NewKnights(totalKnights, requiredKnights).value)
  {
    var k := NewKnights(totalKnights, requiredKnights).value;
    CountTrueAllFalse(k.selected);
  }

  lemma {:induction false} CountTrueAllFalse(s: seq<bool>)
    requires forall i :: 0 <= i < |s| ==> !s[i]
    ensures CountTrue(s) == 0
    decreases |s|
  {
    if s != [] {
      CountTrueAllFalse(s[..|s| - 1]);
    }
  }

  lemma RaisePreservesInv(k: Knights, id: nat)
    requires Inv(k) && id < k.total
    ensures Inv(RaiseHand(k, id))
  {
    var r := RaiseHand(k, id);
    var n := k.total;
    if CanRaiseHand(k, id) {
      NotOwnNeighbor(id, n);
      forall i | 0 <= i < n && r.handRaised[i]
        ensures !r.handRaised[Left(i, n)] && !r.handRaised[Right(i, n)]
      {
        if i != id {
          NeighborsAreAdjacent(i, id, n);
        }
      }
    }
  }

  lemma LowerPreservesInv(k: Knights, id: nat)
    requires Inv(k) && id < k.total
    ensures Inv(LowerHand(k, id))
  {
  }

  lemma ResetPreservesInv(k: Knights)
    requires Inv(k)
    ensures Inv(ResetHands(k))
  {
  }

  /** After a selection, a raised hand still has no selected neighbour. */
  lemma SelectKeepsRaisedApart(k: Knights, chosen: nat)
    requires Inv(k) && chosen < k.total && !k.selected[chosen] && k.handRaised[chosen]
    ensures forall i :: 0 <= i < k.total && Select(k, chosen).handRaised[i] ==>
      !Select(k, chosen).selected[Left(i, k.total)] && !Select(k, chosen).selected[Right(i, k.total)]
  {
    var n := k.total;
    var r := Select(k, chosen);
    forall i | 0 <= i < n && r.handRaised[i]
      ensures !r.selected[Left(i, n)] && !r.selected[Right(i, n)]
    {
      NeighborsAreAdjacent(i, chosen, n);
      NeighborsAreAdjacent(chosen, i, n);
    }
  }

  /** A selection never makes two neighbours both selected. */
  lemma SelectKeepsNoAdjacent(k: Knights, chosen: nat)
    requires Inv(k) && chosen < k.total && !k.selected[chosen] && k.handRaised[chosen]
    ensures NoAdjacentSelected(Select(k, chosen))
  {
    var n := k.total;
    var r := Select(k, chosen);
    forall i | 0 <= i < n && r.selected[i]
      ensures !r.selected[Left(i, n)] && !r.selected[Right(i, n)]
    {
      NeighborsAreAdjacent(i, chosen, n);
      NeighborsAreAdjacent(chosen, i, n);
    }
  }

  /** A selection only lowers hands, and selects only the chosen knight. */
  lemma SelectFrame(k: Knights, chosen: nat)
    requires WellFormed(k) && chosen < k.total
    ensures forall j :: 0 <= j < k.total && Select(k, chosen).handRaised[j] ==> k.handRaised[j]
    ensures forall j :: 0 <= j < k.total && Select(k, chosen).selected[j] ==> k.selected[j] || j == chosen
  {
    var r := Select(k, chosen);
    forall j | 0 <= j < k.total && r.handRaised[j]
      ensures k.handRaised[j]
    {
      if j !in Neighbors(chosen, k.total) && j != chosen {
      }
    }
  }

  /** After a selection, no selected knight has a raised hand and no two
      neighbours have raised hands. */
  lemma SelectKeepsHandsApart(k: Knights, chosen: nat)
    requires Inv(k) && chosen < k.total && !k.selected[chosen] && k.handRaised[chosen]
    ensures forall i :: 0 <= i < k.total && Select(k, chosen).selected[i] ==> !Select(k, chosen).handRaised[i]
    ensures forall i :: 0 <= i < k.total && Select(k, chosen).handRaised[i] ==>
      !Select(k, chosen).handRaised[Left(i, k.total)] && !Select(k, chosen).handRaised[Right(i, k.total)]
  {
    SelectFrame(k, chosen);
  }

  /** Selecting keeps the invariant as long as the requirement is not yet
      met; in particular, no two neighbours become selected. */
  lemma SelectPreservesInv(k: Knights, chosen: nat)
    requires Inv(k) && chosen < k.total && k.count < k.required
    ensures Inv(Select(k, chosen))
  {
    if !k.selected[chosen] && k.handRaised[chosen] {
      CountTrueSet(k.selected, chosen);
      SelectKeepsRaisedApart(k, chosen);
      SelectKeepsNoAdjacent(k, chosen);
      SelectKeepsHandsApart(k, chosen);
    }
  }

  /* ---------------------------------------------------------------------
     Runs
     --------------------------------------------------------------------- */

  /** One atomic step of the program.  Pick stands for the selector's
      locked selection; it is reached only while fewer knights than required
      are selected (the selector checks that before building its list, and
      only the selector changes the count). */
  datatype Action = Raise(id: nat) | Lower(id: nat) | Reset | Pick(chosen: nat)

  predicate ActionFits(n: nat, a: Action)
  {
    match a
    case Raise(id) => id < n
    case Lower(id) => id < n
    case Reset => true
    case Pick(chosen) => chosen < n
  }

  function Apply(k: Knights, a: Action): (r: Knights)
    requires WellFormed(k) && ActionFits(k.total, a)
    ensures WellFormed(r) && r.total == k.total && r.required == k.required
  {
    match a
    case Raise(id) => RaiseHand(k, id)
    case Lower(id) => LowerHand(k, id)
    case Reset => ResetHands(k)
    case Pick(chosen) => if k.count < k.required then Select(k, chosen) else k
  }

  function Run(k: Knights, actions: seq<Action>): (r: Knights)
    requires WellFormed(k)
    requires forall i :: 0 <= i < |actions| ==> ActionFits(k.total, actions[i])
    ensures WellFormed(r) && r.total == k.total && r.required == k.required
    decreases |actions|
  {
    if actions == [] then k
    else
      var k' := Apply(k, actions[0]);
      assert forall i :: 0 <= i < |actions[1..]| ==> actions[1..][i] == actions[i + 1];
      Run(k', actions[1..])
  }

  lemma ApplyPreservesInv(k: Knights, a: Action)
    requires Inv(k) && ActionFits(k.total, a)
    ensures Inv(Apply(k, a))
  {
    match a
    case Raise(id) => RaisePreservesInv(k, id);
    case Lower(id) => LowerPreservesInv(k, id);
    case Reset => ResetPreservesInv(k);
    case Pick(chosen) =>
      if k.count < k.required {
        SelectPreservesInv(k, chosen);
      }
  }

  /** Any interleaving of the program's atomic steps keeps the invariant. */
  lemma {:induction false} RunPreservesInv(k: Knights, actions: seq<Action>)
    requires Inv(k)
    requires forall i :: 0 <= i < |actions| ==> ActionFits(k.total, actions[i])
    ensures Inv(Run(k, actions))
    decreases |actions|
  {
    if actions != [] {
      ApplyPreservesInv(k, actions[0]);
      var k' := Apply(k, actions[0]);
      assert forall i :: 0 <= i < |actions[1..]| ==> actions[1..][i] == actions[i + 1];
      RunPreservesInv(k', actions[1..]);
    }
  }

  /** From a freshly built table of two or more knights, every run ends
      with no two neighbours selected and at most the required number
      selected, the count matching the flags. */
  lemma ReachableStatesAreSound(totalKnights: int, requiredKnights: int, actions: seq<Action>)
    requires totalKnights >= 2 && NewKnights(totalKnights, requiredKnights).Ok?
    requires forall i :: 0 <= i < |actions| ==> ActionFits(totalKnights, actions[i])
    ensures NoAdjacentSelected(Run(NewKnights(totalKnights, requiredKnights).value, actions))
    ensures Run(NewKnights(totalKnights, requiredKnights).value, actions).count
      == CountTrue(Run(NewKnights(totalKnights, requiredKnights).value, actions).selected)
      <= requiredKnights
  {
    NewKnightsEstablishesInv(totalKnights, requiredKnights);
    RunPreservesInv(NewKnights(totalKnights, requiredKnights).value, actions);
  }

  /** With one knight the ring degenerates: raising its hand and picking it
      leaves a selected knight whose neighbour (itself) is selected. */
  lemma LoneKnightBreaksNoAdjacent()
    ensures NewKnights(1, 1).Ok?
    ensures !NoAdjacentSelected(Run(NewKnights(1, 1).value, [Raise(0), Pick(0)]))
  {
    var k := NewKnights(1, 1).value;
    var k1 := Apply(k, Raise(0));
    assert CanRaiseHand(k, 0);
    assert k1.handRaised[0];
    var k2 := Apply(k1, Pick(0));
    assert k2.selected[0];
    assert Run(k, [Raise(0), Pick(0)]) == Run(k1, [Pick(0)]);
    assert Run(k1, [Pick(0)]) == Run(k2, []);
  }

  /* ---------------------------------------------------------------------
     Queries
     --------------------------------------------------------------------- */

  /** A knight the selector may pick: hand up, unselected, and neither
      neighbour selected. */
  predicate Available(k: Knights, i: nat)
    requires WellFormed(k) && i < k.total
  {
    k.handRaised[i] && !k.selected[i] && !k.selected[Left(i, k.total)] && !k.selected[Right(i, k.total)]
  }

  /** The selector's list of candidates, in ascending order. */
  method AvailableKnights(k: Knights) returns (available: seq<nat>)
    requires WellFormed(k)
    ensures forall j :: 0 <= j < |available| ==> available[j] < k.total && Available(k, available[j])
    ensures forall i :: 0 <= i < k.total && Available(k, i) ==> i in available
    ensures forall a, b :: 0 <= a < b < |available| ==> available[a] < available[b]
  {
    available := [];
    var i := 0;
    while i < k.total
      invariant 0 <= i <= k.total
      invariant forall j :: 0 <= j < |available| ==> available[j] < i && Available(k, available[j])
      invariant forall j :: 0 <= j < i && Available(k, j) ==> j in available
      invariant forall a, b :: 0 <= a < b < |available| ==> available[a] < available[b]
    {
      if k.handRaised[i] && !k.selected[i] {
        var valid := true;
        var nbs := Neighbors(i, k.total);
        var t := 0;
        while t < |nbs|
          invariant 0 <= t <= |nbs|
          invariant valid <==> forall u :: 0 <= u < t ==> !k.selected[nbs[u]]
        {
          if k.selected[nbs[t]] {
            valid := false;
          }
          t := t + 1;
        }
        if valid {
          available := available + [i];
        }
      }
      i := i + 1;
    }
  }

  /** Under the invariant, the neighbour check in the candidate list is
      redundant: the candidates are exactly the raised hands. */
  lemma AvailableIsRaised(k: Knights, i: nat)
    requires Inv(k) && i < k.total
    ensures Available(k, i) <==> k.handRaised[i]
  {
  }

  /** The selected knights in ascending order. */
  method SelectedKnights(k: Knights) returns (result: seq<nat>)
    requires WellFormed(k)
    ensures forall j :: 0 <= j < |result| ==> result[j] < k.total && k.selected[result[j]]
    ensures forall i :: 0 <= i < k.total && k.selected[i] ==> i in result
    ensures forall a, b :: 0 <= a < b < |result| ==> result[a] < result[b]
    ensures |result| == CountTrue(k.selected)
  {
    result := [];
    var i := 0;
    while i < k.total
      invariant 0 <= i <= k.total
      invariant forall j :: 0 <= j < |result| ==> result[j] < i && k.selected[result[j]]
      invariant forall j :: 0 <= j < i && k.selected[j] ==> j in result
      invariant forall a, b :: 0 <= a < b < |result| ==> result[a] < result[b]
      invariant |result| == CountTrue(k.selected[..i])
    {
      CountTruePrefix(k.selected, i);
      if k.selected[i] {
        ghost var prev := result;
        result := result + [i];
        assert forall j :: j in prev ==> j in result;
      }
      i := i + 1;
    }
    assert k.selected[..k.total] == k.selected;
  }

  /** The final check: at least the required number selected, and no
      selected knight with a selected neighbour. */
  method ValidateSelection(k: Knights) returns (ok: bool)
    requires WellFormed(k)
    ensures ok <==> CountTrue(k.selected) >= k.required && NoAdjacentSelected(k)
  {
    var count := 0;
    var i := 0;
    while i < k.total
      invariant 0 <= i <= k.total
      invariant count == CountTrue(k.selected[..i])
    {
      CountTruePrefix(k.selected, i);
      if k.selected[i] {
        count := count + 1;
      }
      i := i + 1;
    }
    assert k.selected[..k.total] == k.selected;
    if count < k.required {
      return false;
    }
    i := 0;
    while i < k.total
      invariant 0 <= i <= k.total
      invariant forall j :: 0 <= j < i && k.selected[j] ==>
        !k.selected[Left(j, k.total)] && !k.selected[Right(j, k.total)]
    {
      if k.selected[i] {
        var nbs := Neighbors(i, k.total);
        var t := 0;
        while t < |nbs|
          invariant 0 <= t <= |nbs|
          invariant forall u :: 0 <= u < t ==> !k.selected[nbs[u]]
        {
          if k.selected[nbs[t]] {
            assert nbs[t] == Left(i, k.total) || nbs[t] == Right(i, k.total);
            return false;
          }
          t := t + 1;
        }
        assert !k.selected[nbs[0]] && !k.selected[nbs[1]];
      }
      i := i + 1;
    }
    return true;
  }

  /** In every reachable state, validation succeeds exactly when the
      requirement has been met. */
  lemma ValidationReflectsCount(k: Knights)
    requires Inv(k)
    ensures (CountTrue(k.selected) >= k.required && NoAdjacentSelected(k)) <==> k.count == k.required
  {
  }
}
