/**
 * Choosing among matchers by observed cost (internal/filter/adaptive.go).
 * Durations are unbounded integers and fractions are reals; the clock may answer anything.
 */
module Adaptive {
  import opened Wrappers
  import opened Filter
  import opened FilterIndex

  // ------------------------------------------------------------------ costs

  function Sum(xs: seq<int>): int {
    if xs == [] then 0 else Sum(xs[..|xs| - 1]) + xs[|xs| - 1]
  }

  lemma {:induction false} SumJoin(a: seq<int>, b: seq<int>)
    ensures Sum(a + b) == Sum(a) + Sum(b)
    decreases |b|
  {
    if b == [] {
      assert a + b == a;
    } else {
      assert (a + b)[..|a + b| - 1] == a + b[..|b| - 1];
      SumJoin(a, b[..|b| - 1]);
    }
  }

  /** Integer division that truncates toward zero. */
  function TruncatedDiv(a: int, n: int): int
    requires n > 0
  {
    if a >= 0 then a / n else -(-a / n)
  }

  /** The last costs a decision compares. */
  function Recent(history: seq<int>, window: nat): seq<int> {
    if |history| <= window then history else history[|history| - window..]
  }

  function Average(xs: seq<int>): int {
    if xs == [] then 0 else TruncatedDiv(Sum(xs), |xs|)
  }

  lemma Remainder(a: nat, n: nat)
    requires n > 0
    ensures a / n * n <= a < a / n * n + n
  {
  }

  /** The average times the count misses the sum by less than the count, on the side of zero. */
  lemma AverageMeans(xs: seq<int>)
    requires xs != []
    ensures Sum(xs) >= 0 ==> Average(xs) * |xs| <= Sum(xs) < Average(xs) * |xs| + |xs|
    ensures Sum(xs) <= 0 ==> Average(xs) * |xs| - |xs| < Sum(xs) <= Average(xs) * |xs|
  {
    var sum := Sum(xs);
    hide Sum;
    if sum >= 0 {
      Remainder(sum, |xs|);
    } else {
      Remainder(-sum, |xs|);
    }
  }

  /** Equal costs are their own average. */
  lemma {:induction false} EqualCosts(xs: seq<int>, d: int)
    requires forall k | 0 <= k < |xs| :: xs[k] == d
    ensures Sum(xs) == d * |xs| && (xs != [] ==> Average(xs) == d)
  {
    if xs != [] {
      EqualCosts(xs[..|xs| - 1], d);
      Divides(d, |xs|);
    }
  }

  lemma {:induction false} Quotient(a: nat, n: nat)
    requires n > 0
    ensures (a * n) / n == a
  {
    if a > 0 {
      Quotient(a - 1, n);
      assert a * n == (a - 1) * n + n;
      assert ((a - 1) * n + n) / n == (a - 1) * n / n + 1;
    }
  }

  lemma Divides(d: int, n: nat)
    requires n > 0
    ensures TruncatedDiv(d * n, n) == d
  {
    if d >= 0 {
      Quotient(d, n);
      assert d * n >= 0;
    } else {
      Quotient(-d, n);
      assert -(d * n) == -d * n > 0;
    }
  }

  // ---------------------------------------------------------------- timings

  /** One timed call: of which candidate, and whether as a shadow. The k-th one reads the clock at 2k and 2k + 1. */
  datatype Timing = Timing(candidate: nat, shadow: bool)

  function CostOf(clock: nat -> int, k: nat): int {
    clock(2 * k + 1) - clock(2 * k)
  }

  /** The costs of a candidate's timed calls, in order. */
  function CostsOf(clock: nat -> int, timed: seq<Timing>, i: nat): seq<int> {
    if timed == [] then []
    else
      var last := |timed| - 1;
      CostsOf(clock, timed[..last], i) + if timed[last].candidate == i then [CostOf(clock, last)] else []
  }

  /** What the shadows have cost together. */
  function ShadowCost(clock: nat -> int, timed: seq<Timing>): int {
    if timed == [] then 0
    else
      var last := |timed| - 1;
      ShadowCost(clock, timed[..last]) + if timed[last].shadow then CostOf(clock, last) else 0
  }

  /** The histories and the shadow time are those of the timed calls. */
  ghost predicate Records(clock: nat -> int, timed: seq<Timing>, history: seq<seq<int>>, shadowTime: int) {
    && (forall i | 0 <= i < |history| :: history[i] == CostsOf(clock, timed, i))
    && shadowTime == ShadowCost(clock, timed)
  }

  lemma RecordsMore(clock: nat -> int, timed: seq<Timing>, history: seq<seq<int>>, shadowTime: int, t: Timing)
    requires Records(clock, timed, history, shadowTime) && t.candidate < |history|
    ensures var cost := CostOf(clock, |timed|);
            Records(clock, timed + [t], history[t.candidate := history[t.candidate] + [cost]],
                    shadowTime + if t.shadow then cost else 0)
  {
    hide CostOf;
    assert (timed + [t])[..|timed|] == timed;
    forall i | 0 <= i < |history|
      ensures CostsOf(clock, timed + [t], i) == history[i] + if i == t.candidate then [CostOf(clock, |timed|)] else []
    {
      assert history[i] == CostsOf(clock, timed, i);
    }
  }

  /** If every timed call of candidate i took d, all its costs are d. */
  lemma {:induction false} SteadyCosts(clock: nat -> int, timed: seq<Timing>, i: nat, d: int)
    requires forall k: nat | k < |timed| && timed[k].candidate == i :: clock(2 * k + 1) - clock(2 * k) == d
    ensures forall k | 0 <= k < |CostsOf(clock, timed, i)| :: CostsOf(clock, timed, i)[k] == d
  {
    if timed != [] {
      SteadyCosts(clock, timed[..|timed| - 1], i, d);
    }
  }

  /** The shadows among the first c candidates at a sampled call, in order. */
  function ShadowTimings(c: nat, sel: nat, shadow: Option<nat>, full: bool): seq<Timing> {
    if c == 0 then []
    else
      ShadowTimings(c - 1, sel, shadow, full) +
      if c - 1 != sel && (full || shadow == Some(c - 1)) then [Timing(c - 1, true)] else []
  }

  /** All the timed calls of one sampled call. */
  function CallTimings(n: nat, sel: nat, shadow: Option<nat>, full: bool, selectedFirst: bool): seq<Timing> {
    var own, shadows := [Timing(sel, false)], ShadowTimings(n, sel, shadow, full);
    if selectedFirst then own + shadows else shadows + own
  }

  /** Outside full shadow there is one timed call besides the selected candidate's exactly when there is a shadow. */
  lemma {:induction false} OneShadow(n: nat, sel: nat, shadow: Option<nat>)
    requires shadow.Some? ==> shadow.value != sel
    ensures ShadowTimings(n, sel, shadow, false) ==
            if shadow.Some? && shadow.value < n then [Timing(shadow.value, true)] else []
  {
    if n > 0 {
      OneShadow(n - 1, sel, shadow);
    }
  }

  /** Under full shadow every other candidate is timed, in order. */
  lemma {:induction false} AllShadows(n: nat, sel: nat, shadow: Option<nat>)
    ensures var all := ShadowTimings(n, sel, shadow, true);
      && |all| == (if sel < n then n - 1 else n)
      && forall k | 0 <= k < |all| :: all[k] == Timing(if k < sel then k else k + 1, true)
  {
    if n > 0 {
      AllShadows(n - 1, sel, shadow);
    }
  }

  lemma ShadowCostMore(clock: nat -> int, timed: seq<Timing>, t: Timing)
    ensures ShadowCost(clock, timed + [t]) ==
            ShadowCost(clock, timed) + if t.shadow then CostOf(clock, |timed|) else 0
  {
    assert (timed + [t])[..|timed|] == timed;
  }

  lemma ShadowCostPair(clock: nat -> int, timed: seq<Timing>, a: Timing, b: Timing)
    ensures ShadowCost(clock, timed + [a, b]) == ShadowCost(clock, timed) +
              (if a.shadow then CostOf(clock, |timed|) else 0) + if b.shadow then CostOf(clock, |timed| + 1) else 0
  {
    ShadowCostMore(clock, timed, a);
    ShadowCostMore(clock, timed + [a], b);
    assert timed + [a] + [b] == timed + [a, b];
    hide ShadowCost, CostOf;
  }

  /** The timed calls of one sampled call outside full shadow. */
  lemma FewTimings(n: nat, sel: nat, shadow: Option<nat>, selectedFirst: bool)
    requires shadow.Some? ==> shadow.value < n && shadow.value != sel
    ensures CallTimings(n, sel, shadow, false, selectedFirst) ==
            if shadow.None? then [Timing(sel, false)]
            else if selectedFirst then [Timing(sel, false), Timing(shadow.value, true)]
            else [Timing(shadow.value, true), Timing(sel, false)]
  {
    OneShadow(n, sel, shadow);
    hide ShadowTimings;
  }

  /** What one sampled call outside full shadow adds to the shadow time: the clock's difference around the shadow. */
  lemma ShadowTimeGrows(clock: nat -> int, timed: seq<Timing>, n: nat, sel: nat, shadow: Option<nat>,
                        selectedFirst: bool)
    requires shadow.Some? ==> shadow.value < n && shadow.value != sel
    ensures var at := |timed| + if selectedFirst then 1 else 0;
            ShadowCost(clock, timed + CallTimings(n, sel, shadow, false, selectedFirst)) ==
              ShadowCost(clock, timed) + if shadow.Some? then CostOf(clock, at) else 0
  {
    FewTimings(n, sel, shadow, selectedFirst);
    hide CallTimings, ShadowCost, CostOf;
    var own := Timing(sel, false);
    if shadow.None? {
      ShadowCostMore(clock, timed, own);
    } else if selectedFirst {
      ShadowCostPair(clock, timed, own, Timing(shadow.value, true));
    } else {
      ShadowCostPair(clock, timed, Timing(shadow.value, true), own);
    }
  }

  // ------------------------------------------------------------------- ring

  /** A ring holds the most recent costs, the oldest at the write position once it is full. */
  predicate RingOf(ring: seq<int>, next: nat, history: seq<int>, window: nat) {
    if |history| < window then ring == history && next == 0
    else |ring| == window && next < window && ring[next..] + ring[..next] == Recent(history, window)
  }

  /** The mean of a ring is the truncated average of the most recent costs. */
  lemma RingMean(ring: seq<int>, next: nat, history: seq<int>, window: nat)
    requires window >= 1 && RingOf(ring, next, history, window)
    ensures |ring| == |Recent(history, window)| && Average(ring) == Average(Recent(history, window))
  {
    if |history| >= window {
      SumJoin(ring[next..], ring[..next]);
      SumJoin(ring[..next], ring[next..]);
      assert ring == ring[..next] + ring[next..];
    }
  }

  lemma RingAppends(ring: seq<int>, next: nat, history: seq<int>, window: nat, cost: int)
    requires RingOf(ring, next, history, window) && |history| < window
    ensures RingOf(ring + [cost], next, history + [cost], window)
  {
    var ring' := ring + [cost];
    assert ring'[0..] + ring'[..0] == ring';
  }

  lemma RingOverwrites(ring: seq<int>, next: nat, history: seq<int>, window: nat, cost: int)
    requires RingOf(ring, next, history, window) && |history| >= window >= 1
    ensures RingOf(ring[next := cost], (next + 1) % window, history + [cost], window)
  {
    var after := if next + 1 == window then 0 else next + 1;
    Wraps(next, window);
    var ring' := ring[next := cost];
    var rotated := ring[next..] + ring[..next];
    assert Recent(history + [cost], window) == Recent(history, window)[1..] + [cost];
    if after == 0 {
      assert ring'[after..] + ring'[..after] == rotated[1..] + [cost];
    } else {
      assert ring'[after..] == ring[next + 1..] && ring'[..after] == ring[..next] + [cost];
      assert ring'[after..] + ring'[..after] == rotated[1..] + [cost];
    }
  }

  lemma Wraps(next: nat, window: nat)
    requires next < window
    ensures (next + 1) % window == if next + 1 == window then 0 else next + 1
  {
  }

  /** What a challenger's mean has to stay below. */
  function Threshold(mean: int, hysteresis: real): real {
    mean as real * (1.0 - hysteresis)
  }

  // ------------------------------------------------------------- controller

  /** The switching policy. The ghost history holds every cost observed of every candidate. */
  class Controller {
    const warmup: nat
    const window: nat
    const cooldown: nat
    const hysteresis: real
    var selected: nat
    var switches: nat
    var sinceSwitch: nat
    var counts: seq<nat>
    var rings: seq<seq<int>>
    var next: seq<nat>
    ghost var history: seq<seq<int>>

    ghost predicate Valid()
      reads this
    {
      && 1 <= warmup && 1 <= window && 0.0 <= hysteresis < 1.0
      && |counts| == |rings| == |next| == |history| && selected < |counts|
      && forall i | 0 <= i < |counts| :: counts[i] == |history[i]| && RingOf(rings[i], next[i], history[i], window)
    }

    constructor (n: nat, warmup: nat, window: nat, cooldown: nat, hysteresis: real)
      requires n >= 1 && 1 <= warmup && 1 <= window && 0.0 <= hysteresis < 1.0
      ensures Valid() && |counts| == n && selected == 0 && switches == 0 && sinceSwitch == 0
      ensures this.warmup == warmup && this.window == window && this.cooldown == cooldown &&
              this.hysteresis == hysteresis
      ensures forall i | 0 <= i < n :: history[i] == []
    {
      this.warmup, this.window, this.cooldown, this.hysteresis := warmup, window, cooldown, hysteresis;
      selected, switches, sinceSwitch := 0, 0, 0;
      counts, rings, next := seq(n, _ => 0), seq(n, _ => []), seq(n, _ => 0);
      history := seq(n, _ => []);
    }

    /** One more cost of a candidate: appended while the ring has room, over the oldest one afterwards. */
    method Observe(candidate: nat, cost: int)
      requires Valid() && candidate < |counts|
      modifies this`counts, this`rings, this`next, this`history
      ensures Valid() && history == old(history)[candidate := old(history)[candidate] + [cost]]
    {
      if |history[candidate]| < window {
        RingAppends(rings[candidate], next[candidate], history[candidate], window, cost);
      } else {
        RingOverwrites(rings[candidate], next[candidate], history[candidate], window, cost);
      }
      counts := counts[candidate := counts[candidate] + 1];
      var ring := rings[candidate];
      if |ring| < window {
        rings := rings[candidate := ring + [cost]];
      } else {
        rings := rings[candidate := ring[next[candidate] := cost]];
        next := next[candidate := (next[candidate] + 1) % |ring|];
      }
      history := history[candidate := history[candidate] + [cost]];
    }

    /** Every candidate has been observed often enough. */
    ghost predicate IsWarm()
      reads this`history
    {
      forall i | 0 <= i < |history| :: |history[i]| >= warmup
    }

    method Warm() returns (warm: bool)
      requires Valid()
      ensures warm <==> IsWarm()
    {
      hide RingOf;
      for i := 0 to |counts|
        invariant forall j | 0 <= j < i :: counts[j] >= warmup
      {
        if counts[i] < warmup {
          return false;
        }
      }
      return true;
    }

    /** The truncated average of a candidate's most recent costs. */
    ghost function MeanOf(candidate: nat): int
      reads this`history
      requires candidate < |history|
    {
      Average(Recent(history[candidate], window))
    }

    method Mean(candidate: nat) returns (mean: int)
      requires Valid() && candidate < |counts|
      ensures mean == MeanOf(candidate) && (history[candidate] == [] ==> mean == 0)
    {
      RingMean(rings[candidate], next[candidate], history[candidate], window);
      var ring := rings[candidate];
      if |ring| == 0 {
        return 0;
      }
      var sum := 0;
      for i := 0 to |ring|
        invariant sum == Sum(ring[..i])
      {
        assert ring[..i + 1][..i] == ring[..i];
        sum := sum + ring[i];
      }
      assert ring[..|ring|] == ring;
      return TruncatedDiv(sum, |ring|);
    }

    /** Candidate b is the cheapest and beats the other one by more than the hysteresis. */
    ghost predicate BeatsOver(b: nat, other: nat)
      reads this`history
      requires b < |history| && other < |history|
    {
      && (forall i | 0 <= i < |history| :: MeanOf(b) <= MeanOf(i))
      && MeanOf(b) < MeanOf(other)
      && MeanOf(b) as real < Threshold(MeanOf(other), hysteresis)
    }

    /**
     * A sampled call is to switch away from a candidate: every candidate is warm, the last switch is past its cooldown,
     * and some candidate beats the one selected.
     */
    ghost predicate ShouldSwitch(selected: nat, switches: nat, sinceSwitch: nat)
      reads this`history
      requires selected < |history|
    {
      && (forall i | 0 <= i < |history| :: |history[i]| >= warmup)
      && (switches > 0 ==> sinceSwitch + 1 > cooldown)
      && exists b :: 0 <= b < |history| && BeatsOver(b, selected)
    }

    /** The decision of one sampled call. */
    method Decide() returns (chosen: nat, switched: bool)
      requires Valid()
      modifies this`selected, this`switches, this`sinceSwitch
      ensures Valid() && chosen == selected && history == old(history)
      ensures switched <==> selected != old(selected)
      ensures switched <==> ShouldSwitch(old(selected), old(switches), old(sinceSwitch))
      ensures switched ==> BeatsOver(chosen, old(selected)) && switches == old(switches) + 1 && sinceSwitch == 0
      ensures !switched ==> switches == old(switches) && sinceSwitch == old(sinceSwitch) + 1
    {
      hide RingOf, Recent, Average, Threshold, MeanOf;
      sinceSwitch := sinceSwitch + 1;
      var warm := Warm();
      if !warm {
        return selected, false;
      }
      if switches > 0 && sinceSwitch <= cooldown {
        return selected, false;
      }
      var best := Cheapest();
      var bestMean := Mean(best);
      var selectedMean := Mean(selected);
      if best == selected || bestMean as real >= Threshold(selectedMean, hysteresis) {
        NoneBeats(best);
        return selected, false;
      }
      assert BeatsOver(best, selected);
      selected := best;
      switches := switches + 1;
      sinceSwitch := 0;
      return best, true;
    }

    /** When the cheapest candidate does not beat the selected one, none does. */
    lemma NoneBeats(best: nat)
      requires best < |history| && selected < |history| && forall i | 0 <= i < |history| :: MeanOf(best) <= MeanOf(i)
      requires best == selected || MeanOf(best) as real >= Threshold(MeanOf(selected), hysteresis)
      ensures forall b | 0 <= b < |history| :: !BeatsOver(b, selected)
    {
      hide MeanOf, Threshold;
    }

    /** The first cheapest candidate, the selected one preferred. */
    method Cheapest() returns (best: nat)
      requires Valid()
      ensures best < |history| && forall i | 0 <= i < |history| :: MeanOf(best) <= MeanOf(i)
      ensures best != selected ==> MeanOf(best) < MeanOf(selected)
    {
      hide RingOf, Recent, Average, MeanOf;
      best := selected;
      for i := 0 to |counts|
        invariant best < |history| && forall j | 0 <= j < i :: MeanOf(best) <= MeanOf(j)
        invariant MeanOf(best) <= MeanOf(selected) && (best != selected ==> MeanOf(best) < MeanOf(selected))
      {
        var a := Mean(i);
        var b := Mean(best);
        if a < b {
          best := i;
        }
      }
    }
  }

  // ------------------------------------------------------------ round robin

  /** After m sampled calls, candidate j of n challengers has been the shadow this often. */
  function Turns(m: nat, n: nat, j: nat): nat
    requires 1 <= j <= n
  {
    (m + n - j) / n
  }

  /** The challenger whose turn it was at sampled call m. */
  function TurnOf(m: nat, n: nat): nat
    requires n >= 1
  {
    if m == 0 then 0 else 1 + (m - 1) % n
  }

  lemma NextTurn(m: nat, n: nat, j: nat)
    requires 1 <= j <= n <= 3
    ensures Turns(m + 1, n, j) == Turns(m, n, j) + if j == TurnOf(m + 1, n) then 1 else 0
    ensures TurnOf(m + 1, n) == (if TurnOf(m, n) == n then 1 else TurnOf(m, n) + 1) <= n
  {
    if n == 2 {
      NextOfTwo(m, j);
    } else if n == 3 {
      NextOfThree(m, j);
    } else {
      NextOfOne(m);
    }
    hide Turns, TurnOf;
  }

  lemma NextOfOne(m: nat)
    ensures Turns(m + 1, 1, 1) == Turns(m, 1, 1) + 1 && TurnOf(m + 1, 1) == 1 && TurnOf(m, 1) <= 1
  {
  }

  lemma NextOfTwo(m: nat, j: nat)
    requires 1 <= j <= 2
    ensures Turns(m + 1, 2, j) == Turns(m, 2, j) + if j == TurnOf(m + 1, 2) then 1 else 0
    ensures TurnOf(m + 1, 2) == if TurnOf(m, 2) == 2 then 1 else TurnOf(m, 2) + 1
  {
  }

  lemma NextOfThree(m: nat, j: nat)
    requires 1 <= j <= 3
    ensures Turns(m + 1, 3, j) == Turns(m, 3, j) + if j == TurnOf(m + 1, 3) then 1 else 0
    ensures TurnOf(m + 1, 3) == if TurnOf(m, 3) == 3 then 1 else TurnOf(m, 3) + 1
  {
  }

  /** Everyone's turns reach the warmup exactly when the last challenger's do. */
  lemma TurnsReach(m: nat, n: nat, w: nat)
    requires 1 <= n <= 3
    ensures m >= n * w ==> forall j | 1 <= j <= n :: Turns(m, n, j) >= w
    ensures m < n * w ==> Turns(m, n, n) < w
  {
    if n == 1 {
    } else if n == 2 {
    } else {
    }
  }

  /** Going round n candidates, the one after k. */
  function After(k: nat, n: nat): nat
    requires k < n
  {
    if k + 1 == n then 0 else k + 1
  }

  /** The challenger whose turn comes after k's: the selected candidate is passed over. */
  function NextChallenger(k: nat, sel: nat, n: nat): (j: nat)
    requires k < n && n >= 2
    ensures j < n && j != sel
  {
    if After(k, n) == sel then After(sel, n) else After(k, n)
  }

  /** The next m challengers. */
  function Challengers(k: nat, sel: nat, n: nat, m: nat): (r: seq<nat>)
    requires k < n && n >= 2
    ensures |r| == m
    decreases m
  {
    if m == 0 then []
    else var j := NextChallenger(k, sel, n); [j] + Challengers(j, sel, n, m - 1)
  }

  /** How many steps round from k lead to j. */
  function Distance(k: nat, j: nat, n: nat): nat
    requires k < n && j < n
  {
    if j > k then j - k else n + j - k
  }

  /** As whose turn after k's candidate j comes, the selected one passed over. */
  function Rank(k: nat, sel: nat, j: nat, n: nat): nat
    requires k < n && sel < n && j < n
  {
    Distance(k, j, n) - if Distance(k, sel, n) < Distance(k, j, n) then 1 else 0
  }

  lemma RankFalls(k: nat, sel: nat, n: nat, j: nat)
    requires k < n && n >= 2 && sel < n && j < n && j != sel
    ensures var a := NextChallenger(k, sel, n);
            if j == a then Rank(k, sel, j, n) == 1 && Rank(a, sel, j, n) == n - 1
            else Rank(a, sel, j, n) == Rank(k, sel, j, n) - 1
    ensures 1 <= Rank(k, sel, j, n) < n
  {
  }

  lemma {:induction false} ChallengerCount(k: nat, sel: nat, n: nat, j: nat, m: nat)
    requires k < n && n >= 2 && sel < n && j < n && j != sel && m < n
    ensures multiset(Challengers(k, sel, n, m))[j] == if Rank(k, sel, j, n) <= m then 1 else 0
    decreases m
  {
    if m > 0 {
      var a := NextChallenger(k, sel, n);
      var rest := Challengers(a, sel, n, m - 1);
      ChallengerCount(a, sel, n, j, m - 1);
      RankFalls(k, sel, n, j);
      hide Rank, NextChallenger;
      var first: seq<nat> := [a];
      assert multiset(first)[j] == if j == a then 1 else 0;
      assert multiset(first + rest) == multiset(first) + multiset(rest);
    } else {
      RankFalls(k, sel, n, j);
    }
  }

  /** While the selected candidate stays, each of the others is the shadow exactly once in every round of n - 1. */
  lemma EveryChallengerComes(k: nat, sel: nat, n: nat, j: nat)
    requires k < n && n >= 2 && sel < n && j < n && j != sel
    ensures multiset(Challengers(k, sel, n, n - 1))[j] == 1
  {
    ChallengerCount(k, sel, n, j, n - 1);
  }

  // --------------------------------------------------------------- adaptive

  datatype Candidate = LinearCandidate(linear: Linear) | IndexCandidate(index: Index)

  ghost function Rep(c: Candidate): set<object>
    reads if c.IndexCandidate? then {c.index, c.index.bits, c.index.fields} else {}
  {
    if c.IndexCandidate? then {c.index} + c.index.Tries() else {}
  }

  /** A candidate compiled from the subscriptions. */
  ghost predicate CandidateOf(c: Candidate, subs: seq<Subscription>)
    reads Rep(c), if c.IndexCandidate? then {c.index, c.index.bits, c.index.fields} else {}
  {
    match c
    case LinearCandidate(linear) => linear.Valid() && linear.subscriptions == subs
    case IndexCandidate(index) => index.Valid() && index.subscriptions == subs
  }

  /** Any candidate gives the one answer of its subscriptions. */
  method Run(c: Candidate, ghost subs: seq<Subscription>, s: Subject, dst: seq<ID>) returns (r: seq<ID>)
    requires CandidateOf(c, subs)
    ensures r == dst + MatchingIDs(subs, |subs|, s)
  {
    match c
    case LinearCandidate(linear) => r := linear.Match(s, dst);
    case IndexCandidate(index) => r := index.Match(s, dst);
  }

  /** A sampled call's bookkeeping before its decision: who has been observed how often. */
  ghost predicate Paced(history: seq<seq<int>>, m: nat, nextShadow: nat, full: bool)
    requires |history| >= 2
  {
    if full then forall i | 0 <= i < |history| :: |history[i]| == m
    else
      && nextShadow == TurnOf(m, |history| - 1)
      && |history[0]| == m
      && forall j | 1 <= j < |history| :: |history[j]| == Turns(m, |history| - 1, j)
  }

  lemma PacedAtStart(history: seq<seq<int>>, full: bool)
    requires 2 <= |history| <= 4 && forall i | 0 <= i < |history| :: history[i] == []
    ensures Paced(history, 0, 0, full)
  {
    var n := |history| - 1;
    forall j | 1 <= j <= n
      ensures Turns(0, n, j) == 0
    {
      assert 0 <= n - j < n;
    }
  }

  /** Warmup ends, outside full shadow, when every challenger has had its turns. */
  function WarmupEnd(k: nat, warmup: nat, full: bool): nat
    requires k >= 1
  {
    if full then warmup else (k - 1) * warmup
  }

  lemma WarmupEnds(history: seq<seq<int>>, m: nat, nextShadow: nat, full: bool, warmup: nat)
    requires 2 <= |history| <= 4 && warmup >= 1 && Paced(history, m, nextShadow, full)
    ensures (forall i | 0 <= i < |history| :: |history[i]| >= warmup) <==> m >= WarmupEnd(|history|, warmup, full)
  {
    var n := |history| - 1;
    TurnsReach(m, n, warmup);
    assert n * warmup >= warmup;
    hide Turns, TurnOf;
    if !full && m < n * warmup {
      assert |history[n]| == Turns(m, n, n);
    }
  }

  /** One more sampled call before the end of warmup: the selected candidate and the next challenger are observed. */
  lemma PaceSampled(history: seq<seq<int>>, m: nat, nextShadow: nat, after: seq<seq<int>>)
    requires 2 <= |history| <= 4 && Paced(history, m, nextShadow, false) && |after| == |history|
    requires var turn := if nextShadow == |history| - 1 then 1 else nextShadow + 1;
      && |after[0]| == m + 1 && |after[turn]| == |history[turn]| + 1
      && forall i | 1 <= i < |history| && i != turn :: |after[i]| == |history[i]|
    ensures Paced(after, m + 1, if nextShadow == |history| - 1 then 1 else nextShadow + 1, false)
  {
    var n := |history| - 1;
    forall j | 1 <= j <= n
      ensures |after[j]| == Turns(m + 1, n, j)
    {
      NextTurn(m, n, j);
    }
    NextTurn(m, n, 1);
    hide Turns, TurnOf;
  }

  /** By sampled call m there were at most so many switches, the last one some decisions ago. */
  predicate SwitchesWithin(m: nat, end: nat, switches: nat, cooldown: nat, since: nat) {
    switches >= 1 ==> m >= end + (switches - 1) * (cooldown + 1) + since
  }

  lemma DecisionPaced(m: nat, end: nat, switches: nat, cooldown: nat, since: nat)
    requires SwitchesWithin(m, end, switches, cooldown, since)
    ensures SwitchesWithin(m + 1, end, switches, cooldown, since + 1)
    ensures m + 1 >= end && (switches > 0 ==> since + 1 > cooldown) ==>
            SwitchesWithin(m + 1, end, switches + 1, cooldown, 0)
  {
    if switches > 0 {
      assert switches * (cooldown + 1) == (switches - 1) * (cooldown + 1) + (cooldown + 1);
    }
  }

  /** Everything the candidate is made of belongs to the footprint. */
  ghost predicate Held(c: Candidate, footprint: set<object>)
    reads footprint
  {
    c.IndexCandidate? ==>
      c.index in footprint && c.index.bits in footprint && c.index.fields in footprint && c.index.Tries() <= footprint
  }

  /** The adaptive matcher, over candidates compiled from the same subscriptions. */
  class Matcher {
    ghost const subscriptions: seq<Subscription>
    ghost const footprint: set<object>
    const candidates: seq<Candidate>
    const every: nat
    const full: bool
    const budget: real
    const clock: nat -> int
    const ctl: Controller
    var ticks: nat
    var selected: nat
    var calls: nat
    var nextShadow: nat
    var sampled: nat
    var skipped: nat
    var shadowTime: int
    ghost var timed: seq<Timing>

    /** Every timed call is on record, and nothing else. */
    ghost predicate Recorded()
      reads this`ticks, this`timed, this`shadowTime, ctl`history
    {
      ticks == 2 * |timed| && Records(clock, timed, ctl.history, shadowTime)
    }

    ghost predicate CandidatesValid()
      reads footprint
    {
      forall i | 0 <= i < |candidates| :: Held(candidates[i], footprint) && CandidateOf(candidates[i], subscriptions)
    }

    /** Switches need a finished warmup and, after the first, a cooldown each. */
    ghost predicate SwitchesPaced()
      reads this`sampled, ctl
      requires |candidates| >= 1
    {
      SwitchesWithin(sampled, WarmupEnd(|candidates|, ctl.warmup, full), ctl.switches, ctl.cooldown, ctl.sinceSwitch)
    }

    ghost predicate Valid()
      reads this, ctl, footprint
    {
      && 2 <= |candidates| <= 4 && (full || every >= 1)
      && this !in footprint && ctl !in footprint && CandidatesValid()
      && ctl.Valid() && |ctl.counts| == |candidates| && selected == ctl.selected && nextShadow < |candidates|
      && (sampled < WarmupEnd(|candidates|, ctl.warmup, full) ==>
            Paced(ctl.history, sampled, nextShadow, full) && ctl.switches == 0 && ctl.selected == 0)
      && (ctl.IsWarm() <==> sampled >= WarmupEnd(|candidates|, ctl.warmup, full))
      && SwitchesPaced() && Recorded()
    }

    constructor (candidates: seq<Candidate>, ghost subs: seq<Subscription>, every: nat, full: bool, budget: real,
                 warmup: nat, window: nat, cooldown: nat, hysteresis: real, clock: nat -> int,
                 ghost footprint: set<object>)
      requires 2 <= |candidates| <= 4 && (full || every >= 1)
      requires warmup >= 1 && window >= 1 && 0.0 <= hysteresis < 1.0
      requires forall i | 0 <= i < |candidates| :: Held(candidates[i], footprint) && CandidateOf(candidates[i], subs)
      ensures Valid() && subscriptions == subs && sampled == 0 && selected == 0 && timed == []
    {
      subscriptions := subs;
      this.footprint := footprint;
      this.candidates, this.every, this.full, this.budget, this.clock := candidates, every, full, budget, clock;
      ctl := new Controller(|candidates|, warmup, window, cooldown, hysteresis);
      ticks, selected, calls, nextShadow, sampled, skipped, shadowTime := 0, 0, 0, 0, 0, 0, 0;
      timed := [];
      new;
      hide CandidateOf, RingOf, Paced;
      assert CandidatesValid();
      PacedAtStart(ctl.history, full);
      assert WarmupEnd(|candidates|, warmup, full) >= 1 by {
        assert (|candidates| - 1) * warmup >= warmup;
      }
      assert |ctl.history[0]| == 0;
    }

    /** One timed call of a candidate. */
    method Timed(c: nat, s: Subject, dst: seq<ID>, shadow: bool) returns (r: seq<ID>)
      requires c < |candidates| == |ctl.counts| && CandidatesValid() && ctl.Valid() && this !in footprint &&
               ctl !in footprint && Recorded()
      modifies this`ticks, this`shadowTime, this`timed, ctl`counts, ctl`rings, ctl`next, ctl`history
      ensures CandidatesValid() && ctl.Valid() && Recorded() && timed == old(timed) + [Timing(c, shadow)]
      ensures r == dst + MatchingIDs(subscriptions, |subscriptions|, s)
      ensures var cost := clock(old(ticks) + 1) - clock(old(ticks));
        && ticks == old(ticks) + 2
        && ctl.history == old(ctl.history)[c := old(ctl.history)[c] + [cost]]
        && shadowTime == old(shadowTime) + if shadow then cost else 0
    {
      hide CandidateOf, RingOf, Records;
      RecordsMore(clock, timed, ctl.history, shadowTime, Timing(c, shadow));
      var start := clock(ticks);
      r := Run(candidates[c], subscriptions, s, dst);
      var cost := clock(ticks + 1) - start;
      ticks := ticks + 2;
      ctl.Observe(c, cost);
      if shadow {
        shadowTime := shadowTime + cost;
      }
      timed := timed + [Timing(c, shadow)];
    }

    /** The turn passes to the next challenger. */
    method PickShadow(sel: nat) returns (shadow: nat)
      requires nextShadow < |candidates| && |candidates| >= 2
      modifies this`nextShadow
      ensures shadow == nextShadow == NextChallenger(old(nextShadow), sel, |candidates|)
    {
      nextShadow := if nextShadow + 1 == |candidates| then 0 else nextShadow + 1;
      if nextShadow == sel {
        nextShadow := if nextShadow + 1 == |candidates| then 0 else nextShadow + 1;
      }
      return nextShadow;
    }

    /**
     * The time spent on shadows may still grow: it is within a fraction of what all calls would have cost the
     * selected candidate.
     */
    ghost predicate Affordable(calls: nat)
      reads this`shadowTime, ctl
      requires ctl.selected < |ctl.history|
    {
      shadowTime as real <= budget * (ctl.MeanOf(ctl.selected) as real * calls as real)
    }

    /**
     * The shadow due at a sampled call: after warmup and outside full shadow there is one only while it is
     * affordable.
     */
    ghost function ShadowDue(calls: nat): Option<nat>
      reads this`shadowTime, this`nextShadow, ctl
      requires ctl.selected < |ctl.history| && nextShadow < |candidates| && |candidates| >= 2
    {
      if full || !ctl.IsWarm() || Affordable(calls) then
        Some(NextChallenger(nextShadow, ctl.selected, |candidates|))
      else None
    }

    method WithinBudget() returns (ok: bool)
      requires ctl.Valid()
      ensures ok <==> Affordable(calls)
    {
      var mean := ctl.Mean(ctl.selected);
      ok := shadowTime as real <= budget * (mean as real * calls as real);
    }

    /** The shadows of one sampled call: every other candidate under full shadow, the picked one otherwise. */
    method RunShadows(s: Subject, sel: nat, shadow: Option<nat>)
      requires sel < |candidates| == |ctl.counts| && CandidatesValid() && ctl.Valid() && this !in footprint &&
               ctl !in footprint && Recorded()
      requires shadow.Some? ==> shadow.value < |candidates| && shadow.value != sel
      modifies this`ticks, this`shadowTime, this`timed, ctl`counts, ctl`rings, ctl`next, ctl`history
      ensures CandidatesValid() && ctl.Valid() && |ctl.history| == |old(ctl.history)|
      ensures Recorded() && timed == old(timed) + ShadowTimings(|candidates|, sel, shadow, full)
    {
      hide RingOf, CandidatesValid, Records;
      for c := 0 to |candidates|
        invariant Recorded() && timed == old(timed) + ShadowTimings(c, sel, shadow, full)
        invariant CandidatesValid() && ctl.Valid() && |ctl.history| == |old(ctl.history)|
      {
        if c != sel && (full || shadow == Some(c)) {
          var scratch := Timed(c, s, [], true);
        }
      }
    }

    /** The observations of one sampled call, the selected candidate before or after the shadows. */
    method ObserveCall(s: Subject, dst: seq<ID>, sel: nat, shadow: Option<nat>) returns (r: seq<ID>)
      requires sel < |candidates| == |ctl.counts| && CandidatesValid() && ctl.Valid() && this !in footprint &&
               ctl !in footprint && Recorded()
      requires shadow.Some? ==> shadow.value < |candidates| && shadow.value != sel
      modifies this`ticks, this`shadowTime, this`timed, this`sampled
      modifies ctl`counts, ctl`rings, ctl`next, ctl`history
      ensures Recorded() && timed == old(timed) + CallTimings(|candidates|, sel, shadow, full, old(sampled) % 2 == 0)
      ensures CandidatesValid() && ctl.Valid() && |ctl.counts| == |candidates| && sampled == old(sampled) + 1
      ensures r == dst + MatchingIDs(subscriptions, |subscriptions|, s)
      ensures |ctl.history| == |old(ctl.history)|
    {
      hide RingOf, CandidatesValid, Records, ShadowTimings;
      var selectedFirst := sampled % 2 == 0;
      sampled := sampled + 1;
      r := dst;
      if selectedFirst {
        r := Timed(sel, s, dst, false);
      }
      RunShadows(s, sel, shadow);
      if !selectedFirst {
        r := Timed(sel, s, dst, false);
      }
    }

    /** The shadow of a sampled call, if warmup or the budget allows one; a call without one counts as skipped. */
    method ChooseShadow() returns (shadow: Option<nat>)
      requires ctl.Valid() && |ctl.counts| == |candidates| && nextShadow < |candidates| && |candidates| >= 2
      modifies this`nextShadow, this`skipped
      ensures shadow == old(ShadowDue(calls))
      ensures nextShadow == (if shadow.Some? then shadow.value else old(nextShadow)) < |candidates|
      ensures skipped == old(skipped) + if shadow.Some? then 0 else 1
    {
      hide RingOf, Affordable, NextChallenger;
      var run := full;
      if !run {
        var warm := ctl.Warm();
        run := !warm;
      }
      if !run {
        run := WithinBudget();
      }
      if run {
        var picked := PickShadow(ctl.selected);
        return Some(picked);
      }
      skipped := skipped + 1;
      return None;
    }

    /** All of Valid but the pace of switches, which the decision still has to account for. */
    ghost predicate Undecided(before: nat)
      reads this, ctl, footprint
    {
      && 2 <= |candidates| <= 4 && (full || every >= 1)
      && this !in footprint && ctl !in footprint && CandidatesValid()
      && ctl.Valid() && |ctl.counts| == |candidates| && selected == ctl.selected && nextShadow < |candidates|
      && sampled == before + 1
      && (sampled < WarmupEnd(|candidates|, ctl.warmup, full) ==>
            Paced(ctl.history, sampled, nextShadow, full) && ctl.switches == 0 && ctl.selected == 0)
      && (ctl.IsWarm() <==> sampled >= WarmupEnd(|candidates|, ctl.warmup, full))
      && SwitchesWithin(before, WarmupEnd(|candidates|, ctl.warmup, full), ctl.switches, ctl.cooldown, ctl.sinceSwitch)
      && Recorded()
    }

    /** The decision of a sampled call. */
    method Conclude(ghost before: nat)
      requires Undecided(before)
      modifies this`selected, ctl`selected, ctl`switches, ctl`sinceSwitch
      ensures Valid() && |ctl.history| == |candidates| && old(selected) < |candidates|
      ensures selected != old(selected) <==>
                ctl.ShouldSwitch(old(selected), old(ctl.switches), old(ctl.sinceSwitch))
      ensures selected != old(selected) ==> ctl.BeatsOver(selected, old(selected))
      ensures ctl.switches == old(ctl.switches) + if selected == old(selected) then 0 else 1
      ensures ctl.sinceSwitch == if selected == old(selected) then old(ctl.sinceSwitch) + 1 else 0
    {
      hide CandidatesValid, RingOf, Paced, SwitchesWithin, WarmupEnd, Records, Controller.BeatsOver;
      DecisionPaced(before, WarmupEnd(|candidates|, ctl.warmup, full), ctl.switches, ctl.cooldown, ctl.sinceSwitch);
      var next, switched := ctl.Decide();
      if switched {
        selected := next;
      }
    }

    /** A sampled call: it answers like any candidate, times them, and lets the controller decide. */
    method Sample(s: Subject, dst: seq<ID>) returns (r: seq<ID>)
      requires Valid()
      modifies this, ctl
      ensures Valid() && sampled == old(sampled) + 1 && calls == old(calls)
      ensures r == dst + MatchingIDs(subscriptions, |subscriptions|, s)
      ensures timed == old(timed) +
                CallTimings(|candidates|, old(selected), old(ShadowDue(calls)), full, old(sampled) % 2 == 0)
      ensures skipped == old(skipped) + if old(ShadowDue(calls)).Some? then 0 else 1
      ensures |ctl.history| == |candidates| && old(selected) < |candidates|
      ensures selected != old(selected) <==>
                ctl.ShouldSwitch(old(selected), old(ctl.switches), old(ctl.sinceSwitch))
      ensures selected != old(selected) ==> ctl.BeatsOver(selected, old(selected))
      ensures ctl.switches == old(ctl.switches) + if selected == old(selected) then 0 else 1
      ensures ctl.sinceSwitch == if selected == old(selected) then old(ctl.sinceSwitch) + 1 else 0
    {
      hide RingOf, CandidatesValid, Paced, MatchingIDs, SwitchesWithin, WarmupEnd, CallObserved, CallTimings, Records;
      hide Controller.ShouldSwitch, Controller.BeatsOver;
      ghost var before, m, was := ctl.history, sampled, nextShadow;
      var sel := ctl.selected;
      var shadow := ChooseShadow();
      ghost var log, first := timed, sampled % 2 == 0;
      r := ObserveCall(s, dst, sel, shadow);
      TimingsObserve(clock, log, before, ctl.history, old(shadowTime), shadowTime, sel, shadow, full, first);
      PaceKept(before, ctl.history, m, was, nextShadow, sel, shadow, full, ctl.warmup);
      Conclude(m);
    }

    /** The number of this call; under full shadow calls are not counted. */
    function NextCall(calls: nat): nat {
      if full then calls else calls + 1
    }

    predicate IsSampled(calls: nat)
      requires full || every >= 1
    {
      full || (calls + 1) % every == 0
    }

    /**
     * Every call gives the one answer of the subscriptions, whichever candidate is selected and whatever the clock
     * says. A sampled call times the selected candidate and the shadows that are due, and switches exactly when every
     * candidate is warm, the cooldown is over and some candidate is cheapest and beats the selected one.
     */
    method Match(s: Subject, dst: seq<ID>) returns (r: seq<ID>)
      requires Valid()
      modifies this, ctl
      ensures Valid()
      ensures r == dst + MatchingIDs(subscriptions, |subscriptions|, s)
      ensures calls == (if full then old(calls) else old(calls) + 1)
      ensures sampled == old(sampled) + if full || calls % every == 0 then 1 else 0
      ensures sampled == old(sampled) + if IsSampled(old(calls)) then 1 else 0
      ensures !IsSampled(old(calls)) ==>
                selected == old(selected) && timed == old(timed) && ctl.history == old(ctl.history) &&
                ctl.switches == old(ctl.switches) && ctl.sinceSwitch == old(ctl.sinceSwitch) && skipped == old(skipped)
      ensures IsSampled(old(calls)) ==>
                && timed == old(timed) + CallTimings(|candidates|, old(selected), old(ShadowDue(NextCall(calls))), full,
                                                     old(sampled) % 2 == 0)
                && skipped == old(skipped) + if old(ShadowDue(NextCall(calls))).Some? then 0 else 1
      ensures |ctl.history| == |candidates| && old(selected) < |candidates|
      ensures IsSampled(old(calls)) ==>
                (selected != old(selected) <==>
                   ctl.ShouldSwitch(old(selected), old(ctl.switches), old(ctl.sinceSwitch)))
      ensures selected != old(selected) ==> ctl.BeatsOver(selected, old(selected))
      ensures IsSampled(old(calls)) ==>
                && ctl.switches == old(ctl.switches) + (if selected == old(selected) then 0 else 1)
                && ctl.sinceSwitch == if selected == old(selected) then old(ctl.sinceSwitch) + 1 else 0
    {
      hide CandidateOf, RingOf, Paced, CallTimings, Records, ShadowDue, WarmupEnd, SwitchesWithin;
      hide Controller.ShouldSwitch, Controller.BeatsOver;
      if !full {
        calls := calls + 1;
        if calls % every != 0 {
          assert CandidatesValid();
          r := Run(candidates[selected], subscriptions, s, dst);
          return;
        }
      }
      r := Sample(s, dst);
    }

    /** Outside full shadow, once warm, a shadow is due exactly while shadows cost at most the budgeted fraction. */
    lemma Due(calls: nat)
      requires Valid() && !full
      ensures ShadowDue(calls).Some? <==>
                sampled < (|candidates| - 1) * ctl.warmup ||
                shadowTime as real <= budget * (ctl.MeanOf(selected) as real * calls as real)
      ensures ShadowDue(calls).Some? ==> ShadowDue(calls).value < |candidates| && ShadowDue(calls).value != selected
    {
      hide CandidatesValid, Paced, SwitchesWithin, RingOf, Records, Controller.MeanOf;
    }

    /**
     * If every call of a candidate takes the time d says, the means are those times, and a candidate beats another
     * exactly when its time is the least and below the other's by more than the hysteresis.
     */
    lemma SteadyChoice(d: seq<int>)
      requires Valid() && |d| == |candidates|
      requires forall k | 0 <= k < |timed| && timed[k].candidate < |d| ::
                 clock(2 * k + 1) - clock(2 * k) == d[timed[k].candidate]
      ensures |ctl.history| == |d|
      ensures forall i | 0 <= i < |d| && ctl.history[i] != [] :: ctl.MeanOf(i) == d[i]
      ensures ctl.IsWarm() ==> forall b, o | 0 <= b < |d| && 0 <= o < |d| ::
                ctl.BeatsOver(b, o) <==>
                  && (forall i | 0 <= i < |d| :: d[b] <= d[i])
                  && d[b] < d[o] && d[b] as real < d[o] as real * (1.0 - ctl.hysteresis)
    {
      hide CandidatesValid, Paced, SwitchesWithin, RingOf, Average;
      forall i | 0 <= i < |d| && ctl.history[i] != []
        ensures ctl.MeanOf(i) == d[i]
      {
        SteadyCosts(clock, timed, i, d[i]);
        EqualCosts(Recent(ctl.history[i], ctl.window), d[i]);
      }
      hide Controller.MeanOf, CostsOf;
    }

    /** The shadow time a call outside full shadow adds is the clock's difference around the shadow. */
    lemma ShadowTimeIs(before: seq<Timing>, sel: nat, shadow: Option<nat>, selectedFirst: bool)
      requires Valid() && timed == before + CallTimings(|candidates|, sel, shadow, false, selectedFirst)
      requires shadow.Some? ==> shadow.value < |candidates| && shadow.value != sel
      ensures var at := 2 * (|before| + if selectedFirst then 1 else 0);
              shadowTime == ShadowCost(clock, before) + if shadow.Some? then clock(at + 1) - clock(at) else 0
    {
      hide CandidatesValid, Paced, SwitchesWithin, RingOf, CostsOf, CallTimings, ShadowCost;
      ShadowTimeGrows(clock, before, |candidates|, sel, shadow, selectedFirst);
    }

    /**
     * What the counters say: warmup ends at a known sampled call, and switches cannot come faster than warmup and
     * cooldown allow.
     */
    lemma Pace()
      requires Valid()
      ensures !full ==> (ctl.IsWarm() <==> sampled >= (|candidates| - 1) * ctl.warmup)
      ensures !full && ctl.switches >= 1 ==>
                sampled >= (|candidates| - 1) * ctl.warmup + (ctl.switches - 1) * (ctl.cooldown + 1)
      ensures forall i | 0 <= i < |candidates| ::
                (|ctl.rings[i]| > 0 ==> Average(ctl.rings[i]) == ctl.MeanOf(i)) && ctl.counts[i] == |ctl.history[i]|
    {
      hide CandidatesValid, Paced;
      forall i | 0 <= i < |candidates|
        ensures Average(ctl.rings[i]) == ctl.MeanOf(i)
      {
        RingMean(ctl.rings[i], ctl.next[i], ctl.history[i], ctl.window);
      }
    }
  }

  /** One sampled call's observations: the selected candidate, and the shadows that ran. */
  ghost predicate CallObserved(before: seq<seq<int>>, after: seq<seq<int>>, sel: nat, shadow: Option<nat>, full: bool) {
    && |after| == |before|
    && forall i | 0 <= i < |before| ::
         |after[i]| == |before[i]| + if i == sel || full || shadow == Some(i) then 1 else 0
  }

  lemma {:induction false} ShadowsObserved(clock: nat -> int, timed: seq<Timing>, c: nat, sel: nat, shadow: Option<nat>,
                                           full: bool, i: nat)
    ensures |CostsOf(clock, timed + ShadowTimings(c, sel, shadow, full), i)| ==
            |CostsOf(clock, timed, i)| + if i < c && i != sel && (full || shadow == Some(i)) then 1 else 0
  {
    hide CostsOf;
    if c == 0 {
      assert timed + [] == timed;
    } else {
      ShadowsObserved(clock, timed, c - 1, sel, shadow, full, i);
      OneMoreShadow(timed, c, sel, shadow, full);
      var front := timed + ShadowTimings(c - 1, sel, shadow, full);
      hide ShadowTimings;
      CostsMore(clock, front, Timing(c - 1, true), i);
    }
  }

  lemma OneMoreShadow(timed: seq<Timing>, c: nat, sel: nat, shadow: Option<nat>, full: bool)
    requires c > 0
    ensures timed + ShadowTimings(c, sel, shadow, full) ==
            if c - 1 != sel && (full || shadow == Some(c - 1)) then
              timed + ShadowTimings(c - 1, sel, shadow, full) + [Timing(c - 1, true)]
            else timed + ShadowTimings(c - 1, sel, shadow, full)
  {
    var front := ShadowTimings(c - 1, sel, shadow, full);
    assert timed + (front + [Timing(c - 1, true)]) == (timed + front) + [Timing(c - 1, true)];
    assert front + [] == front;
  }

  lemma CostsMore(clock: nat -> int, timed: seq<Timing>, t: Timing, i: nat)
    ensures |CostsOf(clock, timed + [t], i)| == |CostsOf(clock, timed, i)| + if t.candidate == i then 1 else 0
  {
    assert (timed + [t])[..|timed|] == timed;
  }

  /** The timed calls of a sampled call are its observations. */
  lemma CallCosts(clock: nat -> int, timed: seq<Timing>, n: nat, sel: nat, shadow: Option<nat>, full: bool, first: bool,
                  i: nat)
    requires i < n
    ensures |CostsOf(clock, timed + CallTimings(n, sel, shadow, full, first), i)| ==
            |CostsOf(clock, timed, i)| + (if i != sel && (full || shadow == Some(i)) then 1 else 0) +
            if i == sel then 1 else 0
  {
    var own, shadows := Timing(sel, false), ShadowTimings(n, sel, shadow, full);
    hide CostsOf, ShadowTimings;
    if first {
      assert timed + ([own] + shadows) == (timed + [own]) + shadows;
      CostsMore(clock, timed, own, i);
      ShadowsObserved(clock, timed + [own], n, sel, shadow, full, i);
    } else {
      assert timed + (shadows + [own]) == (timed + shadows) + [own];
      CostsMore(clock, timed + shadows, own, i);
      ShadowsObserved(clock, timed, n, sel, shadow, full, i);
    }
  }

  lemma TimingsObserve(clock: nat -> int, timed: seq<Timing>, before: seq<seq<int>>, after: seq<seq<int>>, was: int,
                       now: int, sel: nat, shadow: Option<nat>, full: bool, first: bool)
    requires |after| == |before| && Records(clock, timed, before, was)
    requires Records(clock, timed + CallTimings(|before|, sel, shadow, full, first), after, now)
    ensures CallObserved(before, after, sel, shadow, full)
  {
    hide CallTimings, CostsOf;
    forall i | 0 <= i < |before|
      ensures |after[i]| == |before[i]| + if i == sel || full || shadow == Some(i) then 1 else 0
    {
      CallCosts(clock, timed, |before|, sel, shadow, full, first, i);
    }
  }

  lemma PaceKept(before: seq<seq<int>>, after: seq<seq<int>>, m: nat, was: nat, nextShadow: nat, sel: nat,
                 shadow: Option<nat>, full: bool, warmup: nat)
    requires 2 <= |before| <= 4 && warmup >= 1 && sel < |before| && CallObserved(before, after, sel, shadow, full)
    requires m < WarmupEnd(|before|, warmup, full) ==> Paced(before, m, was, full) && sel == 0
    requires m < WarmupEnd(|before|, warmup, full) && !full ==>
               shadow == Some(nextShadow) && nextShadow == if was == |before| - 1 then 1 else was + 1
    requires m >= WarmupEnd(|before|, warmup, full) ==> forall i | 0 <= i < |before| :: |before[i]| >= warmup
    ensures m < WarmupEnd(|before|, warmup, full) ==> Paced(after, m + 1, nextShadow, full)
    ensures (forall i | 0 <= i < |after| :: |after[i]| >= warmup) <==> m + 1 >= WarmupEnd(|before|, warmup, full)
  {
    if m < WarmupEnd(|before|, warmup, full) {
      if !full {
        PaceSampled(before, m, was, after);
      }
      WarmupEnds(after, m + 1, nextShadow, full, warmup);
    }
  }
}
