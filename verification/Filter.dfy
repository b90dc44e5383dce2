/** Subscriptions, the match rule and the linear matcher (internal/filter/filter.go, linear.go). */
module Filter {
  import opened Wrappers
  import opened Bits
  import opened Identity

  type ID = string

  const MAX_SUBSCRIPTIONS := 10000
  const MAX_PATTERNS := 64

  datatype Subscription = Subscription(id: ID, patterns: seq<Pattern>)

  /** One translated tag, as matching sees it. */
  datatype Subject = Subject(identity: Value, scheme: SchemeID, fields: seq<Component>, bits: seq<bv8>, bitLen: nat)

  datatype FilterError = EmptyID | DuplicateID | NoPatterns | ZeroPattern | TooManySubscriptions | TooManyPatterns

  /** The reference rule of every matcher: a published bit test replaces field matching. */
  predicate Matches(p: Pattern, s: Subject) {
    match p.level
    case LevelUnset => false
    case LevelIdentity => MatchValue(p, s.identity)
    case LevelEncoding =>
      p.scheme == s.scheme &&
      if p.bits.Some? then MatchBits(p.bits.value, s.bits, s.bitLen) else MatchComponents(p, s.fields)
  }

  // ------------------------------------------------------------ validation

  /** What the pattern constructors guarantee: zero patterns exist, malformed ones do not. */
  predicate Constructed(subs: seq<Subscription>) {
    forall i, j | 0 <= i < |subs| && 0 <= j < |subs[i].patterns| ::
      subs[i].patterns[j].level.LevelUnset? || WellFormedPattern(subs[i].patterns[j])
  }

  predicate ValidSubscription(s: Subscription) {
    s.id != "" && 1 <= |s.patterns| <= MAX_PATTERNS && forall p | p in s.patterns :: !p.level.LevelUnset?
  }

  predicate DistinctIDs(subs: seq<Subscription>) {
    forall i, j | 0 <= i < j < |subs| :: subs[i].id != subs[j].id
  }

  /** The subscription lists every compiler accepts. */
  predicate ValidSubscriptions(subs: seq<Subscription>) {
    && |subs| <= MAX_SUBSCRIPTIONS && DistinctIDs(subs)
    && forall i | 0 <= i < |subs| :: ValidSubscription(subs[i])
  }

  /** Why subscription i is refused, looking only at it and the ones before it. */
  function SubscriptionError(subs: seq<Subscription>, i: nat): Option<FilterError>
    requires i < |subs|
  {
    var s := subs[i];
    if s.id == "" then Some(EmptyID)
    else if exists j | 0 <= j < i :: subs[j].id == s.id then Some(DuplicateID)
    else if s.patterns == [] then Some(NoPatterns)
    else if |s.patterns| > MAX_PATTERNS then Some(TooManyPatterns)
    else if exists p | p in s.patterns :: p.level.LevelUnset? then Some(ZeroPattern)
    else None
  }

  /** Subscription i is refused for e and none before it is. */
  ghost predicate FirstFault(subs: seq<Subscription>, i: int, e: Option<FilterError>) {
    0 <= i < |subs| && SubscriptionError(subs, i) == e && forall j | 0 <= j < i :: SubscriptionError(subs, j).None?
  }

  /** Validation accepts exactly the valid lists, and otherwise reports the first subscription at fault. */
  method Validate(subs: seq<Subscription>) returns (e: Option<FilterError>)
    ensures e.None? <==> ValidSubscriptions(subs)
    ensures e == Some(TooManySubscriptions) <==> |subs| > 10000
    ensures e.None? ==> forall i | 0 <= i < |subs| :: subs[i].id != "" && 1 <= |subs[i].patterns| <= 64
    ensures e == Some(TooManyPatterns) ==> exists i :: 0 <= i < |subs| && |subs[i].patterns| > 64
    ensures e.Some? && |subs| <= MAX_SUBSCRIPTIONS ==>
      exists i :: FirstFault(subs, i, e)
  {
    if |subs| > MAX_SUBSCRIPTIONS {
      return Some(TooManySubscriptions);
    }
    var seen: set<ID> := {};
    for i := 0 to |subs|
      invariant forall id :: id in seen <==> exists j :: 0 <= j < i && subs[j].id == id
      invariant DistinctIDs(subs[..i])
      invariant forall j | 0 <= j < i :: ValidSubscription(subs[j]) && SubscriptionError(subs, j).None?
    {
      var s := subs[i];
      if s.id == "" {
        assert FirstFault(subs, i, Some(EmptyID));
        return Some(EmptyID);
      }
      if s.id in seen {
        assert FirstFault(subs, i, Some(DuplicateID));
        return Some(DuplicateID);
      }
      seen := seen + {s.id};
      if s.patterns == [] {
        assert FirstFault(subs, i, Some(NoPatterns));
        return Some(NoPatterns);
      }
      if |s.patterns| > MAX_PATTERNS {
        assert FirstFault(subs, i, Some(TooManyPatterns));
        return Some(TooManyPatterns);
      }
      for k := 0 to |s.patterns|
        invariant forall m | 0 <= m < k :: !s.patterns[m].level.LevelUnset?
      {
        if s.patterns[k].level.LevelUnset? {
          assert s.patterns[k] in s.patterns;
          assert FirstFault(subs, i, Some(ZeroPattern));
          return Some(ZeroPattern);
        }
      }
    }
    assert subs[..|subs|] == subs;
    return None;
  }

  // ---------------------------------------------------------------- linear

  predicate AnyMatches(patterns: seq<Pattern>, s: Subject) {
    exists p | p in patterns :: Matches(p, s)
  }

  /** Lists a compiler has accepted. */
  ghost predicate Compiled(subs: seq<Subscription>) {
    ValidSubscriptions(subs) && Constructed(subs)
  }

  lemma CompiledPatterns(subs: seq<Subscription>, i: nat)
    requires Compiled(subs) && i < |subs|
    ensures forall p | p in subs[i].patterns :: WellFormedPattern(p)
  {
    assert ValidSubscription(subs[i]);
    forall p | p in subs[i].patterns
      ensures WellFormedPattern(p)
    {
      var j :| 0 <= j < |subs[i].patterns| && subs[i].patterns[j] == p;
    }
  }

  /** The IDs of the first n subscriptions with a matching pattern, in order. */
  function MatchingIDs(subs: seq<Subscription>, n: nat, s: Subject): (r: seq<ID>)
    requires n <= |subs|
    ensures forall x | x in r :: exists i :: 0 <= i < n && Hits(subs, i, s) && subs[i].id == x
    ensures forall i | 0 <= i < n && Hits(subs, i, s) :: subs[i].id in r
  {
    if n == 0 then [] else MatchingIDs(subs, n - 1, s) + if Hits(subs, n - 1, s) then [subs[n - 1].id] else []
  }

  predicate Hits(subs: seq<Subscription>, i: nat, s: Subject)
    requires i < |subs|
  {
    AnyMatches(subs[i].patterns, s)
  }

  /** The reference matcher: every subscription in order, its first matching pattern ends the inner loop. */
  class Linear {
    const subscriptions: seq<Subscription>

    ghost predicate Valid() {
      Compiled(subscriptions)
    }

    constructor (subs: seq<Subscription>)
      requires Compiled(subs)
      ensures Valid() && subscriptions == subs
    {
      subscriptions := subs;
    }

    method Match(s: Subject, dst: seq<ID>) returns (r: seq<ID>)
      requires Valid()
      ensures r == dst + MatchingIDs(subscriptions, |subscriptions|, s)
    {
      hide Matches, Compiled;
      r := dst;
      for i := 0 to |subscriptions|
        invariant r == dst + MatchingIDs(subscriptions, i, s)
      {
        var sub := subscriptions[i];
        ghost var before := r;
        var j := 0;
        var hit := false;
        while j < |sub.patterns| && !hit
          invariant 0 <= j <= |sub.patterns|
          invariant !hit ==> r == before && forall k | 0 <= k < j :: !Matches(sub.patterns[k], s)
          invariant hit ==> Hits(subscriptions, i, s) && r == before + [sub.id]
          decreases |sub.patterns| - j, !hit
        {
          if Matches(sub.patterns[j], s) {
            assert sub.patterns[j] in sub.patterns;
            r := r + [sub.id];
            hit := true;
          } else {
            j := j + 1;
          }
        }
      }
    }
  }
}
