/** The choice of the storage that serves a download: a draw by weight, then one round over the rest. */
module WeightedChoice {
  import opened Common

  function Sum(weights: seq<nat>, n: nat): nat
    requires n <= |weights|
  {
    if n == 0 then 0 else Sum(weights, n - 1) + weights[n - 1]
  }

  // The first index at or after i whose weight takes what is left of the draw; 0 if there is none.
  function StartFrom(weights: seq<nat>, i: nat, left: nat): (start: nat)
    requires i <= |weights|
    ensures weights != [] ==> start < |weights|
    decreases |weights| - i
  {
    if i == |weights| then 0
    else if left < weights[i] then i
    else StartFrom(weights, i + 1, left - weights[i])
  }

  function Start(weights: seq<nat>, draw: nat): nat { StartFrom(weights, 0, draw) }

  /** The round that begins at start: each entry is the one after the entry before, cyclically. */
  function Round(start: nat, leng: nat): (r: seq<nat>)
    requires start <= leng
    ensures |r| == leng
  {
    seq(leng, k requires 0 <= k < leng => if start + k < leng then start + k else start + k - leng)
  }

  /** How far a round gets: up to the first entry that accepts, and that one too. */
  function Tried(round: seq<nat>, accepts: set<nat>): seq<nat> {
    if round == [] then []
    else if round[0] in accepts then [round[0]]
    else [round[0]] + Tried(round[1..], accepts)
  }

  predicate Refused(round: seq<nat>, accepts: set<nat>) {
    forall k :: 0 <= k < |round| ==> round[k] !in accepts
  }

  lemma {:induction false} TriedUpTo(round: seq<nat>, accepts: set<nat>, n: nat)
    requires n <= |round| && Refused(round[..n], accepts)
    ensures n < |round| && round[n] in accepts ==> Tried(round, accepts) == round[..n + 1]
    ensures n == |round| ==> Tried(round, accepts) == round
  {
    if n > 0 {
      var rest := round[1..];
      assert round[..n][0] == round[0] && rest[..n - 1] == round[..n][1..];
      TriedUpTo(rest, accepts, n - 1);
      if n < |round| {
        assert round[..n + 1] == [round[0]] + rest[..n];
      } else {
        assert round == [round[0]] + rest;
      }
    }
  }

  /** Asks the storages from start to the end and then from the beginning; the callback answers yes for
      those in `accepts`. */
  method TryFrom(start: nat, leng: nat, accepts: set<nat>) returns (done: bool, tried: seq<nat>)
    requires start <= leng
    ensures tried == Tried(Round(start, leng), accepts)
    ensures done == !Refused(Round(start, leng), accepts)
  {
    ghost var round := Round(start, leng);
    tried := [];
    for i := start to leng
      invariant tried == round[..i - start] && Refused(tried, accepts)
    {
      assert round[i - start] == i;
      TriedUpTo(round, accepts, i - start);
      tried := tried + [i];
      if i in accepts {
        return true, tried;
      }
    }
    for i := 0 to start
      invariant tried == round[..leng - start + i] && Refused(tried, accepts)
    {
      assert round[leng - start + i] == i;
      TriedUpTo(round, accepts, leng - start + i);
      tried := tried + [i];
      if i in accepts {
        return true, tried;
      }
    }
    TriedUpTo(round, accepts, leng);
    done := false;
  }

  /** Without weights every storage is as likely as any other. */
  method ForEachFromRandomIndex(leng: nat, draw: nat, accepts: set<nat>) returns (done: bool, tried: seq<nat>)
    requires leng > 0 ==> draw < leng
    ensures tried == if leng == 0 then [] else Tried(Round(draw, leng), accepts)
    ensures done <==> exists i :: i in accepts && i < leng
  {
    if leng <= 0 {
      return false, [];
    }
    AcceptedSomewhere(draw, leng, accepts);
    done, tried := TryFrom(draw, leng, accepts);
  }

  method ForEachFromRandomIndexWithPossibility(weights: seq<nat>, total: nat, draw: nat, accepts: set<nat>)
    returns (done: bool, tried: seq<nat>)
    requires weights != [] ==> draw < if total == 0 then |weights| else total
    ensures tried == if weights == [] then []
      else Tried(Round(if total == 0 then draw else Start(weights, draw), |weights|), accepts)
    ensures done <==> exists i :: i in accepts && i < |weights|
  {
    var leng := |weights|;
    if leng == 0 {
      return false, [];
    }
    if total == 0 {
      done, tried := ForEachFromRandomIndex(leng, draw, accepts);
      return;
    }
    var n, start, i := draw, 0, 0;
    while i < leng
      invariant 0 <= i <= leng && start == 0
      invariant StartFrom(weights, i, n) == Start(weights, draw)
    {
      if n < weights[i] {
        start := i;
        break;
      }
      n := n - weights[i];
      i := i + 1;
    }
    AcceptedSomewhere(start, leng, accepts);
    done, tried := TryFrom(start, leng, accepts);
  }

  /** A round visits every index exactly once. */
  lemma {:induction false} RoundVisitsAll(start: nat, leng: nat)
    requires start <= leng
    ensures forall i: nat :: i < leng <==> i in Round(start, leng)
    ensures forall j, k :: 0 <= j < k < leng ==> Round(start, leng)[j] != Round(start, leng)[k]
  {
    var r := Round(start, leng);
    forall i: nat | i < leng
      ensures i in r
    {
      var k := if i < start then i + leng - start else i - start;
      assert r[k] == i;
    }
  }

  lemma {:induction false} AcceptedSomewhere(start: nat, leng: nat, accepts: set<nat>)
    requires start <= leng
    ensures !Refused(Round(start, leng), accepts) <==> exists i :: i in accepts && i < leng
  {
    var r := Round(start, leng);
    RoundVisitsAll(start, leng);
    if i :| i in accepts && i < leng {
      assert i in r;
    }
  }

  /** What is tried is a prefix of the round; it is the whole round unless its last entry accepted, and
      no entry before the last did. */
  lemma {:induction false} TriedIsPrefix(round: seq<nat>, accepts: set<nat>)
    ensures var t := Tried(round, accepts);
      && |t| <= |round| && t == round[..|t|]
      && (forall k :: 0 <= k < |t| - 1 ==> t[k] !in accepts)
      && (|t| < |round| ==> t != [] && t[|t| - 1] in accepts)
      && (Refused(round, accepts) ==> t == round)
  {
    if round != [] && round[0] !in accepts {
      TriedIsPrefix(round[1..], accepts);
      if Refused(round, accepts) {
        assert Refused(round[1..], accepts);
        assert round == [round[0]] + round[1..];
      }
    }
  }

  // ---- the weights ----

  lemma {:induction false} StartFromExactly(weights: seq<nat>, i: nat, left: nat, j: nat)
    requires i <= j < |weights| && left < Sum(weights, |weights|) - Sum(weights, i)
    ensures StartFrom(weights, i, left) >= i
    ensures StartFrom(weights, i, left) == j
      <==> Sum(weights, j) <= left + Sum(weights, i) < Sum(weights, j + 1)
    decreases |weights| - i
  {
    SumGrows(weights, i + 1, |weights|);
    SumGrows(weights, i, j);
    if left >= weights[i] {
      if i == j {
        StartFromExactly(weights, i + 1, left - weights[i], i + 1);
      } else {
        StartFromExactly(weights, i + 1, left - weights[i], j);
      }
    } else if i < j {
      SumGrows(weights, i + 1, j);
    }
  }

  lemma {:induction false} SumGrows(weights: seq<nat>, i: nat, j: nat)
    requires i <= j <= |weights|
    ensures Sum(weights, i) <= Sum(weights, j)
  {
    if i < j {
      SumGrows(weights, i, j - 1);
    }
  }

  function Draws(weights: seq<nat>, i: nat): set<int> {
    set draw | 0 <= draw < Sum(weights, |weights|) && Start(weights, draw) == i
  }

  /** With the total of the weights, exactly weights[i] of the draws start at storage i. */
  lemma {:induction false} StartsByWeight(weights: seq<nat>, i: nat)
    requires i < |weights|
    ensures |Draws(weights, i)| == weights[i]
  {
    var lo, hi := Sum(weights, i), Sum(weights, i + 1);
    SumGrows(weights, i + 1, |weights|);
    forall draw: int | 0 <= draw < Sum(weights, |weights|)
      ensures draw in Draws(weights, i) <==> lo <= draw < hi
    {
      StartFromExactly(weights, 0, draw, i);
    }
    assert Draws(weights, i) == Below(hi) - Below(lo);
    assert Below(lo) <= Below(hi);
  }

  lemma {:induction false} StartHasWeight(weights: seq<nat>, draw: nat)
    requires draw < Sum(weights, |weights|)
    ensures Start(weights, draw) < |weights| && weights[Start(weights, draw)] > 0
  {
    StartFromExactly(weights, 0, draw, Start(weights, draw));
  }

  lemma {:induction false} TriedAfterRefusal(round: seq<nat>, accepts: set<nat>, i: nat) returns (k: nat)
    requires round != [] && i != round[0] && i in Tried(round, accepts)
    ensures 0 < k < |round| && round[k] == i
    ensures round[k - 1] in Tried(round, accepts) && round[k - 1] !in accepts
  {
    var rest := round[1..];
    assert i in Tried(rest, accepts);
    if i == rest[0] {
      k := 1;
    } else {
      k := TriedAfterRefusal(rest, accepts, i);
      k := k + 1;
    }
  }

  /** A storage of weight 0 is tried only after the one before it, cyclically, was tried and refused. */
  lemma {:induction false} SpareComesAfterFailure(weights: seq<nat>, draw: nat, accepts: set<nat>, i: nat)
    requires i < |weights| && weights[i] == 0 && draw < Sum(weights, |weights|)
    requires i in Tried(Round(Start(weights, draw), |weights|), accepts)
    ensures var before := if i == 0 then |weights| - 1 else i - 1;
      before in Tried(Round(Start(weights, draw), |weights|), accepts) && before !in accepts
  {
    StartHasWeight(weights, draw);
    var k := TriedAfterRefusal(Round(Start(weights, draw), |weights|), accepts, i);
  }
}
