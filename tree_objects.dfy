/**
 * The fair-share allocator that turns the reforested area into whole tree
 * objects (one per 1,000,000 ha) and hands them out to countries in rounds,
 * never giving a country more objects than its own area holds.
 */
module TreeObjects {
  import opened ForestationPotentials

  /** Hectares represented by one tree object. */
  const HA_PER_TREE: real := 1000000.0

  /** The whole number of tree objects `ha` hectares make (rounded down). */
  function Units(ha: real): int { (ha / HA_PER_TREE).Floor }

  /** The most tree objects a country can take. */
  function Cap(pot: Potential): int { Units(pot.ha) }

  /** Objects assigned to `iso` so far; a missing entry counts as none. */
  function Assigned(result: map<string, int>, iso: string): int {
    if iso in result then result[iso] else 0
  }

  /** A country of the table that can still take at least one more object. */
  predicate Open(p: Potentials, result: map<string, int>, iso: string) {
    iso in p.at && Assigned(result, iso) < Cap(p.at[iso])
  }

  function Max(a: int, b: int): int { if a <= b then b else a }
  function MinInt(a: int, b: int): int { if a <= b then a else b }

  // ---------------------------------------------------------------------------
  // What a round does, as functions of the counts before it
  // ---------------------------------------------------------------------------

  /** Objects one country's turn takes from the pool. */
  function Given(p: Potentials, result: map<string, int>, iso: string, treesPerCountry: int): int
    requires iso in p.at
  {
    Max(MinInt(treesPerCountry, Cap(p.at[iso]) - Assigned(result, iso)), 0)
  }

  /**
   * One country's turn in a round: it receives `treesPerCountry` objects, or
   * the room it has left when that is less, and nothing when it has no room.
   */
  function Turn(p: Potentials, result: map<string, int>, iso: string, treesPerCountry: int): map<string, int>
    requires iso in p.at
  {
    var give := Given(p, result, iso, treesPerCountry);
    if give > 0 then result[iso := Assigned(result, iso) + give] else result
  }

  /** The counts after the first `n` countries of `s` have taken their turns, in order. */
  function Turns(p: Potentials, result: map<string, int>, s: seq<string>, n: nat, treesPerCountry: int): map<string, int>
    requires n <= |s| && Known(s, p.at)
  {
    if n == 0 then result
    else Turn(p, Turns(p, result, s, n - 1, treesPerCountry), s[n - 1], treesPerCountry)
  }

  /** The countries among the first `n` of `s` that are still open, in the order of `s`. */
  function OpenAmong(s: seq<string>, n: nat, p: Potentials, result: map<string, int>): seq<string>
    requires n <= |s|
  {
    if n == 0 then []
    else OpenAmong(s, n - 1, p, result) + (if Open(p, result, s[n - 1]) then [s[n - 1]] else [])
  }

  /** The countries of the table that are still open, in enumeration order. */
  function StillOpen(p: Potentials, result: map<string, int>): seq<string> {
    OpenAmong(p.keys, |p.keys|, p, result)
  }

  /** Objects assigned to the first `n` countries of `s`. */
  function TotalOf(s: seq<string>, n: nat, result: map<string, int>): int
    requires n <= |s|
  {
    if n == 0 then 0 else TotalOf(s, n - 1, result) + Assigned(result, s[n - 1])
  }

  /** Objects assigned over the whole table. */
  function Total(p: Potentials, result: map<string, int>): int {
    TotalOf(p.keys, |p.keys|, result)
  }

  // ---------------------------------------------------------------------------
  // The properties of an allocation
  // ---------------------------------------------------------------------------

  /** Every stored count is positive, belongs to a country of the table and fits its area. */
  predicate WithinCaps(p: Potentials, result: map<string, int>) {
    forall iso :: iso in result ==> iso in p.at && 0 < result[iso] <= Cap(p.at[iso])
  }

  /**
   * Water filling: every country holds the common level `level`, or its whole
   * capacity when that is smaller (none when its area makes no object).
   */
  predicate WaterFilled(p: Potentials, result: map<string, int>, level: nat) {
    forall iso :: iso in p.at ==> Assigned(result, iso) == MinInt(Max(Cap(p.at[iso]), 0), level)
  }

  /**
   * What the rounds leave over once at least one round ran: fewer objects
   * than there are open countries (possibly none), or every country is full.
   */
  predicate LeftoverTooSmall(p: Potentials, budget: int, result: map<string, int>) {
    var open := StillOpen(p, result);
    open == [] || budget - Total(p, result) < |open|
  }

  // ---------------------------------------------------------------------------
  // The allocator
  // ---------------------------------------------------------------------------

  /**
   * Distributes `floor(treesPlantedInHa / 1,000,000)` tree objects over the
   * countries of `forestationPotentials` in rounds: each round gives every
   * country still in play `floor(remaining / countries in play)` objects, or
   * what is left of its capacity when less; a full country leaves play; the
   * rounds stop when nothing is left, nobody is in play, or the share rounds
   * down to zero, and the remainder then stays unassigned.
   */
  method CalculateTreeObjectsPerCountry(treesPlantedInHa: real, forestationPotentials: Potentials)
    returns (result: map<string, int>, ghost rounds: nat)
    requires forestationPotentials.Valid()
    ensures WithinCaps(forestationPotentials, result)
    ensures exists level: nat :: WaterFilled(forestationPotentials, result, level)
    ensures forall a, b :: Open(forestationPotentials, result, a) && Open(forestationPotentials, result, b) ==>
              Assigned(result, a) == Assigned(result, b)
    ensures Total(forestationPotentials, result) <= Max(Units(treesPlantedInHa), 0)
    ensures Units(treesPlantedInHa) < |forestationPotentials.keys| ==> result == map[]
    ensures 0 < |forestationPotentials.keys| <= Units(treesPlantedInHa) ==>
              LeftoverTooSmall(forestationPotentials, Units(treesPlantedInHa), result)
    ensures rounds <= |forestationPotentials.keys|
  {
    var p := forestationPotentials;
    result := map[];
    var remainingCountries := p.keys;
    var remainingTrees := Units(treesPlantedInHa);
    ghost var budget := remainingTrees;
    ghost var level: nat := 0;
    ghost var started := false;
    rounds := 0;
    TotalOfNothing(p.keys, |p.keys|);

    while remainingTrees > 0 && |remainingCountries| > 0
      invariant RoundsInvariant(p, budget, result, remainingCountries, remainingTrees, level, started)
      invariant rounds + |remainingCountries| <=
                  |p.keys| + (if 0 <= remainingTrees < |remainingCountries| then 1 else 0)
      decreases remainingTrees
    {
      var treesPerCountry := EvenShare(remainingTrees, |remainingCountries|);
      if treesPerCountry == 0 {
        break;
      }
      ghost var before, treesBefore := result, remainingTrees;
      var nextRound;
      result, remainingTrees, nextRound := GiveRound(p, result, remainingCountries, remainingTrees, treesPerCountry);
      rounds := rounds + 1;
      RoundKeepsInvariant(p, budget, before, remainingCountries, treesBefore, treesPerCountry, level, started,
                          result, remainingTrees, nextRound);
      remainingCountries := nextRound;
      level := level + treesPerCountry;
      started := true;

      if |remainingCountries| == 0 {
        break;
      }
    }
    RoundsDone(p, budget, result, remainingCountries, remainingTrees, level, started);
  }

  /**
   * One round (the body of the outer loop): every country in play, in order,
   * takes its turn; the countries that still have room afterwards make up the
   * next round.
   */
  method GiveRound(p: Potentials, result: map<string, int>, remainingCountries: seq<string>,
                   remainingTrees: int, treesPerCountry: int)
    returns (result': map<string, int>, remainingTrees': int, nextRound: seq<string>)
    requires p.Valid()
    requires Distinct(remainingCountries) && Known(remainingCountries, p.at)
    requires Affords(remainingTrees, |remainingCountries|, treesPerCountry) && 1 <= treesPerCountry
    requires !Affords(remainingTrees, |remainingCountries|, treesPerCountry + 1)
    ensures result' == Turns(p, result, remainingCountries, |remainingCountries|, treesPerCountry)
    ensures Total(p, result') + remainingTrees' == Total(p, result) + remainingTrees
    ensures 0 <= remainingTrees' && remainingTrees' + |nextRound| <= remainingTrees
    ensures nextRound == OpenAmong(remainingCountries, |remainingCountries|, p, result')
    ensures |nextRound| <= |remainingCountries|
    ensures |nextRound| == |remainingCountries| ==> remainingTrees' < |remainingCountries|
  {
    result', remainingTrees', nextRound := result, remainingTrees, [];
    for i := 0 to |remainingCountries|
      invariant result' == Turns(p, result, remainingCountries, i, treesPerCountry)
      invariant nextRound == OpenAmong(remainingCountries, i, p, result')
      invariant Total(p, result') + remainingTrees' == Total(p, result) + remainingTrees
      invariant Affords(remainingTrees', |remainingCountries| - i, treesPerCountry)
      invariant remainingTrees' + |nextRound| <= remainingTrees
      invariant |nextRound| <= i
      invariant |nextRound| == i ==> remainingTrees' == Deducted(remainingTrees, i, treesPerCountry)
    {
      var iso := remainingCountries[i];
      TurnGives(p, result', iso, treesPerCountry);
      TurnTotal(p, result', iso, treesPerCountry);
      TurnOpenAmong(p, result', remainingCountries, i, treesPerCountry);
      AffordsLess(remainingTrees', |remainingCountries| - i, treesPerCountry, Given(p, result', iso, treesPerCountry));

      var stillOpen;
      result', remainingTrees', stillOpen := GiveTurn(p, result', iso, remainingTrees', treesPerCountry);
      if stillOpen {
        nextRound := nextRound + [iso];
      }
    }
    if |nextRound| == |remainingCountries| {
      FullRoundLeavesLittle(remainingTrees, |remainingCountries|, treesPerCountry);
    }
  }

  /**
   * One country's turn (the body of the inner loop): it receives the share,
   * or the room it has left when that is less, and reports whether it still
   * has room afterwards.
   */
  method GiveTurn(p: Potentials, result: map<string, int>, iso: string, remainingTrees: int, treesPerCountry: int)
    returns (result': map<string, int>, remainingTrees': int, stillOpen: bool)
    requires iso in p.at && 1 <= treesPerCountry
    ensures result' == Turn(p, result, iso, treesPerCountry)
    ensures remainingTrees' == remainingTrees - Given(p, result, iso, treesPerCountry)
    ensures stillOpen <==> Open(p, result', iso)
    ensures stillOpen ==> remainingTrees' == remainingTrees - treesPerCountry
  {
    TurnGives(p, result, iso, treesPerCountry);
    result', remainingTrees' := result, remainingTrees;
    var maxTrees := Cap(p.at[iso]);
    var alreadyAssigned := Assigned(result, iso);
    var spaceLeft := maxTrees - alreadyAssigned;
    var treesForThisCountry := MinInt(treesPerCountry, spaceLeft);

    if treesForThisCountry > 0 {
      result' := result[iso := alreadyAssigned + treesForThisCountry];
      remainingTrees' := remainingTrees - treesForThisCountry;
    }

    stillOpen := iso in result' && result'[iso] < maxTrees;
  }

  /**
   * What holds between the rounds: the counts stay within the caps and
   * water-filled at `level`, the pool plus what was handed out is the budget,
   * and after the first round the countries in play are exactly the open ones.
   */
  ghost predicate RoundsInvariant(p: Potentials, budget: int, result: map<string, int>,
                                  remainingCountries: seq<string>, remainingTrees: int, level: nat, started: bool)
  {
    && p.Valid()
    && WithinCaps(p, result)
    && WaterFilled(p, result, level)
    && Total(p, result) + remainingTrees == budget
    && Distinct(remainingCountries) && Known(remainingCountries, p.at)
    && (!started ==> result == map[] && remainingCountries == p.keys && remainingTrees == budget)
    && (started ==> 0 <= remainingTrees && |p.keys| <= budget && remainingCountries == StillOpen(p, result))
  }

  // ---------------------------------------------------------------------------
  // Lemmas
  // ---------------------------------------------------------------------------

  /** A round started from a state between rounds ends in one, with the level raised by the share. */
  lemma RoundKeepsInvariant(p: Potentials, budget: int, before: map<string, int>, rc: seq<string>,
                            treesBefore: int, treesPerCountry: int, level: nat, started: bool,
                            after: map<string, int>, treesAfter: int, nextRound: seq<string>)
    requires RoundsInvariant(p, budget, before, rc, treesBefore, level, started)
    requires 1 <= treesPerCountry && |rc| <= treesBefore
    requires after == Turns(p, before, rc, |rc|, treesPerCountry)
    requires Total(p, after) + treesAfter == Total(p, before) + treesBefore
    requires 0 <= treesAfter
    requires nextRound == OpenAmong(rc, |rc|, p, after)
    ensures RoundsInvariant(p, budget, after, nextRound, treesAfter, level + treesPerCountry, true)
  {
    RoundLevel(p, before, rc, treesPerCountry, level);
    RoundNext(p, before, rc, treesPerCountry);
  }

  /** When the rounds stop, the allocation has all the promised properties. */
  lemma RoundsDone(p: Potentials, budget: int, result: map<string, int>,
                   remainingCountries: seq<string>, remainingTrees: int, level: nat, started: bool)
    requires RoundsInvariant(p, budget, result, remainingCountries, remainingTrees, level, started)
    requires remainingTrees <= 0 || |remainingCountries| == 0 || remainingTrees < |remainingCountries|
    ensures WithinCaps(p, result)
    ensures exists level: nat :: WaterFilled(p, result, level)
    ensures forall a, b :: Open(p, result, a) && Open(p, result, b) ==> Assigned(result, a) == Assigned(result, b)
    ensures Total(p, result) <= Max(budget, 0)
    ensures budget < |p.keys| ==> result == map[]
    ensures 0 < |p.keys| <= budget ==> LeftoverTooSmall(p, budget, result)
  {
    WaterFilledFair(p, result, level);
  }

  /** What one country's turn hands out, and when the country stays open. */
  lemma TurnGives(p: Potentials, result: map<string, int>, iso: string, treesPerCountry: int)
    requires iso in p.at && 1 <= treesPerCountry
    ensures var t := MinInt(treesPerCountry, Cap(p.at[iso]) - Assigned(result, iso));
            && Turn(p, result, iso, treesPerCountry) == (if t > 0 then result[iso := Assigned(result, iso) + t] else result)
            && Given(p, result, iso, treesPerCountry) == (if t > 0 then t else 0)
    ensures var next := Turn(p, result, iso, treesPerCountry);
            && 0 <= Given(p, result, iso, treesPerCountry) <= treesPerCountry
            && (Open(p, next, iso) <==> iso in next && next[iso] < Cap(p.at[iso]))
            && (Open(p, next, iso) ==> Given(p, result, iso, treesPerCountry) == treesPerCountry)
  {
  }

  /** A turn adds what it hands out to the total. */
  lemma TurnTotal(p: Potentials, result: map<string, int>, iso: string, treesPerCountry: int)
    requires p.Valid() && iso in p.at
    ensures Total(p, Turn(p, result, iso, treesPerCountry)) == Total(p, result) + Given(p, result, iso, treesPerCountry)
  {
    var give := Given(p, result, iso, treesPerCountry);
    if give > 0 {
      var k :| 0 <= k < |p.keys| && p.keys[k] == iso;
      TotalUpdate(p.keys, |p.keys|, result, k, Assigned(result, iso) + give);
    }
  }

  /** The turn of `s[i]` extends the open list of the first `i` countries by `s[i]` when it stays open. */
  lemma TurnOpenAmong(p: Potentials, result: map<string, int>, s: seq<string>, i: nat, treesPerCountry: int)
    requires Distinct(s) && Known(s, p.at) && i < |s|
    ensures var next := Turn(p, result, s[i], treesPerCountry);
            OpenAmong(s, i + 1, p, next) == OpenAmong(s, i, p, result) + (if Open(p, next, s[i]) then [s[i]] else [])
  {
    OpenAmongUnaffected(s, i, p, result, Turn(p, result, s[i], treesPerCountry), s[i]);
  }

  /**
   * After a round that started from a water-filled state at `level`, the state
   * is water-filled at `level + treesPerCountry` and still within the caps.
   */
  lemma RoundLevel(p: Potentials, before: map<string, int>, rc: seq<string>, treesPerCountry: int, level: nat)
    requires p.Valid() && Distinct(rc) && Known(rc, p.at) && 1 <= treesPerCountry
    requires WithinCaps(p, before) && WaterFilled(p, before, level)
    requires rc == p.keys || rc == StillOpen(p, before)
    ensures var after := Turns(p, before, rc, |rc|, treesPerCountry);
            WithinCaps(p, after) && WaterFilled(p, after, level + treesPerCountry)
  {
    TurnsWithinCaps(p, before, rc, |rc|, treesPerCountry);
    forall iso | iso in p.at
      ensures Assigned(Turns(p, before, rc, |rc|, treesPerCountry), iso) ==
                MinInt(Max(Cap(p.at[iso]), 0), level + treesPerCountry)
    {
      RoundLevelAt(p, before, rc, treesPerCountry, level, iso);
    }
  }

  lemma RoundLevelAt(p: Potentials, before: map<string, int>, rc: seq<string>, treesPerCountry: int, level: nat,
                     iso: string)
    requires p.Valid() && Distinct(rc) && Known(rc, p.at) && 1 <= treesPerCountry
    requires WaterFilled(p, before, level)
    requires rc == p.keys || rc == StillOpen(p, before)
    requires iso in p.at
    ensures Assigned(Turns(p, before, rc, |rc|, treesPerCountry), iso) ==
              MinInt(Max(Cap(p.at[iso]), 0), level + treesPerCountry)
  {
    if j :| 0 <= j < |rc| && rc[j] == iso {
      TurnsLifted(p, before, rc, |rc|, treesPerCountry, level, j);
    } else {
      // A country out of play was already full before the round.
      TurnsUntouched(p, before, rc, |rc|, treesPerCountry, iso);
      var k :| 0 <= k < |p.keys| && p.keys[k] == iso;
      OpenAmongHas(p.keys, |p.keys|, p, before, k);
    }
  }

  /** The countries that stay open after a round are exactly the open countries of the table. */
  lemma RoundNext(p: Potentials, before: map<string, int>, rc: seq<string>, treesPerCountry: int)
    requires p.Valid() && Distinct(rc) && Known(rc, p.at)
    requires rc == p.keys || rc == StillOpen(p, before)
    ensures var after := Turns(p, before, rc, |rc|, treesPerCountry);
            var nextRound := OpenAmong(rc, |rc|, p, after);
            Distinct(nextRound) && Known(nextRound, p.at) && nextRound == StillOpen(p, after)
  {
    var after := Turns(p, before, rc, |rc|, treesPerCountry);
    OpenAmongDistinct(rc, |rc|, p, after);
    OpenAmongKnown(rc, |rc|, p, after);
    if rc != p.keys {
      forall k | 0 <= k < |p.keys| && !Open(p, before, p.keys[k])
        ensures !Open(p, after, p.keys[k])
      {
        OpenAmongHas(p.keys, |p.keys|, p, before, k);
        assert p.keys[k] !in rc;
        TurnsUntouched(p, before, rc, |rc|, treesPerCountry, p.keys[k]);
      }
      StillOpenRefines(p.keys, |p.keys|, p, before, after);
    }
  }

  /** In a water-filled state every open country holds the common level, which no country exceeds. */
  lemma WaterFilledFair(p: Potentials, result: map<string, int>, level: nat)
    requires WaterFilled(p, result, level)
    ensures forall iso :: Open(p, result, iso) ==> Assigned(result, iso) == level
    ensures forall iso :: iso in p.at ==> Assigned(result, iso) <= level
  {
  }

  /** One country's turn moves it from the old common level to the new one. */
  lemma StepCountry(cap: int, held: int, level: nat, treesPerCountry: int)
    requires 1 <= treesPerCountry && held == MinInt(Max(cap, 0), level)
    ensures var give := MinInt(treesPerCountry, cap - held);
            && (give > 0 ==> held + give == MinInt(Max(cap, 0), level + treesPerCountry))
            && (give <= 0 ==> held == MinInt(Max(cap, 0), level + treesPerCountry))
  {
  }

  /** Taking turns never breaks a country's cap, and stores only positive counts. */
  lemma {:induction false} TurnsWithinCaps(p: Potentials, result: map<string, int>, s: seq<string>, n: nat, treesPerCountry: int)
    requires n <= |s| && Known(s, p.at)
    requires WithinCaps(p, result)
    ensures WithinCaps(p, Turns(p, result, s, n, treesPerCountry))
  {
    if n > 0 {
      TurnsWithinCaps(p, result, s, n - 1, treesPerCountry);
    }
  }

  /** A country whose turn has come is lifted to the new common level, or to its capacity. */
  lemma {:induction false} TurnsLifted(p: Potentials, result: map<string, int>, s: seq<string>, n: nat,
                                       treesPerCountry: int, level: nat, j: nat)
    requires n <= |s| && Known(s, p.at) && Distinct(s) && j < n
    requires 1 <= treesPerCountry && WaterFilled(p, result, level)
    ensures Assigned(Turns(p, result, s, n, treesPerCountry), s[j]) ==
              MinInt(Max(Cap(p.at[s[j]]), 0), level + treesPerCountry)
  {
    if j == n - 1 {
      TurnsUntouched(p, result, s, n - 1, treesPerCountry, s[j]);
      StepCountry(Cap(p.at[s[j]]), Assigned(Turns(p, result, s, n - 1, treesPerCountry), s[j]), level, treesPerCountry);
    } else {
      TurnsLifted(p, result, s, n - 1, treesPerCountry, level, j);
    }
  }

  /** A country whose turn has not come keeps its count. */
  lemma {:induction false} TurnsUntouched(p: Potentials, result: map<string, int>, s: seq<string>, n: nat,
                                          treesPerCountry: int, iso: string)
    requires n <= |s| && Known(s, p.at)
    requires forall j :: 0 <= j < n ==> s[j] != iso
    ensures Assigned(Turns(p, result, s, n, treesPerCountry), iso) == Assigned(result, iso)
  {
    if n > 0 {
      TurnsUntouched(p, result, s, n - 1, treesPerCountry, iso);
    }
  }

  lemma {:induction false} TotalOfNothing(s: seq<string>, n: nat)
    requires n <= |s|
    ensures TotalOf(s, n, map[]) == 0
  {
    if n > 0 {
      TotalOfNothing(s, n - 1);
    }
  }

  /**
   * `n` countries can each receive `share` objects from a pool of `total`
   * (and the pool never runs dry on the way).
   */
  predicate Affords(total: int, n: nat, share: int)
    decreases n
  {
    0 <= total && (n == 0 || (share <= total && Affords(total - share, n - 1, share)))
  }

  /**
   * The share of a round: the pool divided by the number of countries in
   * play, rounded down; that is, the largest share every one of them can get.
   */
  method EvenShare(total: int, n: nat) returns (share: int)
    requires 0 <= total && 0 < n
    ensures 0 <= share
    ensures Affords(total, n, share) && !Affords(total, n, share + 1)
    ensures share == 0 <==> total < n
  {
    share := total / n;
    ShareIsFloor(total, n);
  }

  lemma ShareIsFloor(total: int, n: nat)
    requires 0 <= total && 0 < n
    ensures Affords(total, n, total / n) && !Affords(total, n, total / n + 1)
    ensures total / n == 0 <==> total < n
  {
    var q := total / n;
    FloorDivision(total, n);
    AffordsIsProduct(total, n, q);
    AffordsIsProduct(total, n, q + 1);
  }

  lemma FloorDivision(a: int, n: int)
    requires 0 <= a && 0 < n
    ensures (a / n) * n <= a < (a / n + 1) * n
  {
    assert a == (a / n) * n + a % n;
  }

  /** `Affords` is the product bound `share * n <= total`. */
  lemma {:induction false} AffordsIsProduct(total: int, n: nat, share: int)
    requires 0 <= share
    ensures Affords(total, n, share) <==> 0 <= total && share * n <= total
    decreases n
  {
    if n > 0 {
      AffordsIsProduct(total - share, n - 1, share);
      assert share * n == share * (n - 1) + share;
    }
  }

  /** The pool left after `n` countries each took `share`. */
  function Deducted(total: int, n: nat, share: int): int {
    if n == 0 then total else Deducted(total, n - 1, share) - share
  }

  /** `Deducted` takes `share * n` from the pool. */
  lemma {:induction false} DeductedIsProduct(total: int, n: nat, share: int)
    ensures Deducted(total, n, share) == total - share * n
  {
    if n > 0 {
      DeductedIsProduct(total, n - 1, share);
      assert share * n == share * (n - 1) + share;
    }
  }

  /**
   * When the share is the largest affordable one and every country takes it
   * in full, fewer objects are left than there are countries: the next share
   * is zero.
   */
  lemma FullRoundLeavesLittle(total: int, n: nat, share: int)
    requires 0 < n && 0 <= share && !Affords(total, n, share + 1)
    requires Affords(total, n, share)
    ensures Deducted(total, n, share) < n
  {
    DeductedIsProduct(total, n, share);
    AffordsIsProduct(total, n, share + 1);
    assert (share + 1) * n == share * n + n;
  }

  /** Taking no more than the share from the pool leaves enough for the others. */
  lemma AffordsLess(total: int, n: nat, share: int, taken: int)
    requires 0 < n && Affords(total, n, share) && 0 <= taken <= share
    ensures Affords(total - taken, n - 1, share)
  {
    AffordsMore(total - share, total - taken, n - 1, share);
  }

  lemma {:induction false} AffordsMore(total: int, more: int, n: nat, share: int)
    requires Affords(total, n, share) && total <= more
    ensures Affords(more, n, share)
    decreases n
  {
    if n > 0 {
      AffordsMore(total - share, more - share, n - 1, share);
    }
  }

  /** Setting the count of `s[k]` to `v` moves the total of a prefix holding it by the difference. */
  lemma {:induction false} TotalUpdate(s: seq<string>, n: nat, result: map<string, int>, k: nat, v: int)
    requires n <= |s| && k < |s| && Distinct(s)
    ensures TotalOf(s, n, result[s[k] := v]) ==
              TotalOf(s, n, result) + (if k < n then v - Assigned(result, s[k]) else 0)
  {
    if n > 0 {
      TotalUpdate(s, n - 1, result, k, v);
    }
  }

  /** Changing the count of a country outside the prefix leaves the prefix's open list as it was. */
  lemma {:induction false} OpenAmongUnaffected(s: seq<string>, n: nat, p: Potentials,
                                               r: map<string, int>, r': map<string, int>, iso: string)
    requires n <= |s|
    requires forall j :: 0 <= j < n ==> s[j] != iso
    requires forall k :: k != iso ==> Assigned(r', k) == Assigned(r, k)
    ensures OpenAmong(s, n, p, r') == OpenAmong(s, n, p, r)
  {
    if n > 0 {
      OpenAmongUnaffected(s, n - 1, p, r, r', iso);
    }
  }

  /** A country of the prefix is on the open list exactly when it is open. */
  lemma {:induction false} OpenAmongHas(s: seq<string>, n: nat, p: Potentials, r: map<string, int>, k: nat)
    requires n <= |s| && Distinct(s) && k < n
    ensures s[k] in OpenAmong(s, n, p, r) <==> Open(p, r, s[k])
  {
    if k < n - 1 {
      OpenAmongHas(s, n - 1, p, r, k);
    } else {
      OpenAmongOutside(s, n - 1, p, r, s[k]);
    }
  }

  /** A country outside the prefix is not on its open list. */
  lemma {:induction false} OpenAmongOutside(s: seq<string>, n: nat, p: Potentials, r: map<string, int>, iso: string)
    requires n <= |s|
    requires forall j :: 0 <= j < n ==> s[j] != iso
    ensures iso !in OpenAmong(s, n, p, r)
  {
    if n > 0 {
      OpenAmongOutside(s, n - 1, p, r, iso);
    }
  }

  lemma {:induction false} OpenAmongDistinct(s: seq<string>, n: nat, p: Potentials, r: map<string, int>)
    requires n <= |s| && Distinct(s)
    ensures Distinct(OpenAmong(s, n, p, r))
  {
    if n > 0 {
      OpenAmongDistinct(s, n - 1, p, r);
      OpenAmongOutside(s, n - 1, p, r, s[n - 1]);
    }
  }

  lemma {:induction false} OpenAmongKnown(s: seq<string>, n: nat, p: Potentials, r: map<string, int>)
    requires n <= |s|
    ensures Known(OpenAmong(s, n, p, r), p.at)
  {
    if n > 0 {
      OpenAmongKnown(s, n - 1, p, r);
    }
  }

  /** The open list of a prefix of `o + t` is that of the same prefix of `o`. */
  lemma {:induction false} OpenAmongPrefix(o: seq<string>, t: seq<string>, n: nat, p: Potentials, r: map<string, int>)
    requires n <= |o|
    ensures OpenAmong(o + t, n, p, r) == OpenAmong(o, n, p, r)
  {
    if n > 0 {
      OpenAmongPrefix(o, t, n - 1, p, r);
    }
  }

  /**
   * A round only changes open countries, and a country that was full stays
   * full; so filtering the previously open countries gives the same list as
   * filtering all of them.
   */
  lemma {:induction false} StillOpenRefines(s: seq<string>, n: nat, p: Potentials, r: map<string, int>, r': map<string, int>)
    requires n <= |s|
    requires forall k :: 0 <= k < |s| && !Open(p, r, s[k]) ==> !Open(p, r', s[k])
    ensures var o := OpenAmong(s, n, p, r);
            OpenAmong(o, |o|, p, r') == OpenAmong(s, n, p, r')
  {
    if n > 0 {
      StillOpenRefines(s, n - 1, p, r, r');
      var o := OpenAmong(s, n - 1, p, r);
      var x := s[n - 1];
      if Open(p, r, x) {
        var o' := o + [x];
        assert OpenAmong(s, n, p, r) == o';
        OpenAmongPrefix(o, [x], |o|, p, r');
        assert o'[|o'| - 1] == x;
        assert OpenAmong(o', |o'|, p, r') == OpenAmong(o', |o|, p, r') + (if Open(p, r', x) then [x] else []);
      } else {
        assert OpenAmong(s, n, p, r) == o + [] == o;
        assert !Open(p, r', x);
        assert OpenAmong(s, n, p, r') == OpenAmong(s, n - 1, p, r') + [];
      }
    }
  }
}
