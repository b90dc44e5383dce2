/** The prefix index and its agreement with the linear matcher (internal/filter/index.go). */
module FilterIndex {
  import opened Wrappers
  import opened Identity
  import opened Filter
  import opened Entries
  import opened RankOrder
  import BitTrie
  import FieldTrie

  // ----------------------------------------------------------------- index

  /** The entries of the first n subscriptions and of the first m patterns of subscription n. */
  ghost predicate Covers(entries: set<Entry>, subs: seq<Subscription>, n: nat, m: nat)
    requires n <= |subs| && (n < |subs| ==> m <= |subs[n].patterns|) && (n == |subs| ==> m == 0)
  {
    forall e :: e in entries <==> Listed(e, subs, n, m)
  }

  /** e is one of the first n subscriptions' patterns, or one of the first m of subscription n. */
  ghost predicate Listed(e: Entry, subs: seq<Subscription>, n: nat, m: nat)
    requires n <= |subs| && (n < |subs| ==> m <= |subs[n].patterns|) && (n == |subs| ==> m == 0)
  {
    || (e.rank < n && e.pattern in subs[e.rank].patterns)
    || (e.rank == n < |subs| && e.pattern in subs[n].patterns[..m])
  }

  ghost function IDsOf(subs: seq<Subscription>): (r: seq<ID>)
    ensures |r| == |subs| && forall i | 0 <= i < |subs| :: r[i] == subs[i].id
  {
    seq(|subs|, i requires 0 <= i < |subs| => subs[i].id)
  }

  /** The rank of an ID is its position. */
  ghost predicate RanksOf(ranks: map<ID, nat>, ids: seq<ID>) {
    && (forall x :: x in ranks <==> x in ids)
    && (forall i | 0 <= i < |ids| :: ids[i] in ranks && ranks[ids[i]] == i)
  }

  lemma RanksInjective(ranks: map<ID, nat>, ids: seq<ID>)
    requires RanksOf(ranks, ids)
    ensures Injective(ranks)
  {
    forall x, y | x in ranks && y in ranks && ranks[x] == ranks[y]
      ensures x == y
    {
      var i :| 0 <= i < |ids| && ids[i] == x;
      var j :| 0 <= j < |ids| && ids[j] == y;
    }
  }

  lemma NewID(subs: seq<Subscription>, rank: nat)
    requires DistinctIDs(subs) && rank < |subs|
    ensures subs[rank].id !in IDsOf(subs)[..rank]
  {
  }

  lemma OneMoreRank(ranks: map<ID, nat>, ids: seq<ID>, x: ID)
    requires RanksOf(ranks, ids) && x !in ids
    ensures RanksOf(ranks[x := |ids|], ids + [x])
  {
  }

  lemma NothingListed(subs: seq<Subscription>)
    ensures Covers({}, subs, 0, 0)
  {
    forall e
      ensures !Listed(e, subs, 0, 0)
    {
    }
  }

  lemma OneMore(entries: set<Entry>, subs: seq<Subscription>, n: nat, m: nat)
    requires n < |subs| && m < |subs[n].patterns| && Covers(entries, subs, n, m)
    ensures Covers(entries + {Entry(n, subs[n].patterns[m])}, subs, n, m + 1)
  {
    var e' := Entry(n, subs[n].patterns[m]);
    assert subs[n].patterns[..m + 1] == subs[n].patterns[..m] + [subs[n].patterns[m]];
    forall e
      ensures e in entries + {e'} <==> Listed(e, subs, n, m + 1)
    {
    }
  }

  lemma WholeSubscription(entries: set<Entry>, subs: seq<Subscription>, n: nat)
    requires n < |subs| && Covers(entries, subs, n, |subs[n].patterns|)
    ensures Covers(entries, subs, n + 1, 0)
  {
    assert subs[n].patterns[..|subs[n].patterns|] == subs[n].patterns;
    forall e
      ensures e in entries <==> Listed(e, subs, n + 1, 0)
    {
      assert e in entries <==> Listed(e, subs, n, |subs[n].patterns|);
    }
  }

  ghost function EntrySet(entries: seq<Entry>): set<Entry> {
    set e | e in entries
  }

  /** Three structures that only prune: byte tries, field tries and a list scanned linearly. */
  class Index {
    ghost const subscriptions: seq<Subscription>
    var ids: seq<ID>
    var ranks: map<ID, nat>
    var bits: BitTrie.BitTries
    var fields: FieldTrie.FieldTries
    var residual: seq<Entry>

    /** Every entry the index holds. */
    ghost function Entries(): set<Entry>
      reads this`bits, this`fields, this`residual, bits, fields
    {
      bits.stored + fields.stored + EntrySet(residual)
    }

    /** The tries and all their nodes. */
    ghost function Tries(): set<object>
      reads this`bits, this`fields, bits, fields
    {
      {bits, fields} + bits.at.Values + fields.at.Values
    }

    ghost predicate Structured()
      reads this`bits, this`fields, Tries()
    {
      bits.Valid() && fields.Valid()
    }

    ghost predicate Valid()
      reads this, Tries()
    {
      && Compiled(subscriptions) && ids == IDsOf(subscriptions) && RanksOf(ranks, ids) && Structured()
      && Covers(Entries(), subscriptions, |subscriptions|, 0)
    }

    /** Compiling an accepted list: every pattern of every subscription is added under its rank. */
    constructor (subs: seq<Subscription>)
      requires Compiled(subs)
      ensures Valid() && subscriptions == subs && fresh(Tries())
    {
      hide Covers, Compiled, BitTrie.BitTries.Valid, FieldTrie.FieldTries.Valid;
      subscriptions := subs;
      ids, ranks, residual := [], map[], [];
      bits := new BitTrie.BitTries();
      fields := new FieldTrie.FieldTries();
      new;
      assert Entries() == {};
      NothingListed(subs);
      assert RanksOf(ranks, ids);
      hide Structured, RanksOf;
      EnterAll(subs);
    }

    /** Every subscription in order. */
    method EnterAll(subs: seq<Subscription>)
      requires Compiled(subs) && Structured() && ids == [] && RanksOf(ranks, ids) && Covers(Entries(), subs, 0, 0)
      modifies Tries(), this`ids, this`ranks, this`residual
      ensures Structured() && ids == IDsOf(subs) && RanksOf(ranks, ids) && Covers(Entries(), subs, |subs|, 0)
      ensures bits == old(bits) && fields == old(fields) && fresh(Tries() - old(Tries()))
    {
      hide Structured, Covers, RanksOf, Compiled;
      for rank := 0 to |subs|
        invariant Structured() && ids == IDsOf(subs)[..rank] && RanksOf(ranks, ids) && Covers(Entries(), subs, rank, 0)
        invariant bits == old(bits) && fields == old(fields) && fresh(Tries() - old(Tries()))
      {
        Enter(subs, rank);
      }
      assert IDsOf(subs)[..|subs|] == IDsOf(subs);
    }

    /** One subscription: its rank and all its patterns. */
    method Enter(subs: seq<Subscription>, rank: nat)
      requires Structured() && rank < |subs| && Compiled(subs)
      requires ids == IDsOf(subs)[..rank] && RanksOf(ranks, ids) && Covers(Entries(), subs, rank, 0)
      modifies Tries(), this`ids, this`ranks, this`residual
      ensures Structured() && ids == IDsOf(subs)[..rank + 1] && RanksOf(ranks, ids) &&
              Covers(Entries(), subs, rank + 1, 0)
      ensures bits == old(bits) && fields == old(fields) && fresh(Tries() - old(Tries()))
    {
      hide Structured, Covers, RanksOf;
      AddAll(subs, rank);
      NewID(subs, rank);
      assert IDsOf(subs)[..rank + 1] == IDsOf(subs)[..rank] + [subs[rank].id];
      OneMoreRank(ranks, ids, subs[rank].id);
      ranks := ranks[subs[rank].id := rank];
      ids := ids + [subs[rank].id];
    }

    /** Every pattern of one subscription. */
    method AddAll(subs: seq<Subscription>, rank: nat)
      requires Structured() && rank < |subs| && Compiled(subs) && Covers(Entries(), subs, rank, 0)
      modifies Tries(), this`residual
      ensures Structured() && Covers(Entries(), subs, rank + 1, 0)
      ensures bits == old(bits) && fields == old(fields) && fresh(Tries() - old(Tries()))
    {
      hide Structured, Covers;
      var patterns := subs[rank].patterns;
      for j := 0 to |patterns|
        invariant Structured() && Covers(Entries(), subs, rank, j)
        invariant bits == old(bits) && fields == old(fields) && fresh(Tries() - old(Tries()))
      {
        CompiledPatterns(subs, rank);
        OneMore(Entries(), subs, rank, j);
        Add(Entry(rank, patterns[j]));
      }
      WholeSubscription(Entries(), subs, rank);
    }

    /** Adding one pattern: a bit trie, a field trie or the residual list takes it. */
    method Add(e: Entry)
      requires Structured() && !e.pattern.level.LevelUnset?
      modifies Tries(), this`residual
      ensures Structured() && Entries() == old(Entries()) + {e}
      ensures bits == old(bits) && fields == old(fields) && fresh(Tries() - old(Tries()))
    {
      hide BitTrie.BitTries.Valid, FieldTrie.FieldTries.Valid;
      var p := e.pattern;
      if p.level.LevelEncoding? && p.bits.Some? {
        bits.Add(e);
        return;
      }
      var exact, ok := FieldTrie.ExactPrefix(p);
      if !ok {
        residual := residual + [e];
        return;
      }
      fields.Add(e, exact);
    }

    // ---------------------------------------------------------------- match

    /** The residual list, confirmed entry by entry. */
    method ScanResidual(s: Subject, dst: seq<ID>) returns (r: seq<ID>, ghost found: seq<ID>)
      requires RankedWithin(EntrySet(residual), ids)
      ensures r == dst + found && Reports(found, ids, EntrySet(residual), s)
      ensures ReportsAfter(r, dst, ids, EntrySet(residual), s)
    {
      hide Matches, Reports;
      r, found := dst, [];
      ghost var seen: set<Entry> := {};
      ReportsNothing(ids, s);
      for i := 0 to |residual|
        invariant seen == EntrySet(residual[..i]) && RankedWithin(seen, ids)
        invariant r == dst + found && Reports(found, ids, seen, s)
      {
        var e := residual[i];
        assert residual[..i + 1] == residual[..i] + [e];
        assert e in residual;
        ReportsOne(e, ids, s);
        ReportsBoth(found, if Matches(e.pattern, s) then [ids[e.rank]] else [], ids, seen, {e}, s);
        if Matches(e.pattern, s) {
          r := r + [ids[e.rank]];
          found := found + [ids[e.rank]];
        } else {
          assert found + [] == found;
        }
        seen := seen + {e};
      }
      assert residual[..|residual|] == residual;
      ReportAppended(r, dst, found, ids, EntrySet(residual), s);
    }

    /** The tries and the residual list together report the matching entries of the whole index. */
    method Collect(s: Subject, dst: seq<ID>) returns (r: seq<ID>, ghost found: seq<ID>)
      requires Structured() && RankedWithin(Entries(), ids)
      ensures r == dst + found && Reports(found, ids, Entries(), s)
      ensures ReportsAfter(r, dst, ids, Entries(), s)
    {
      hide BitTrie.BitTries.Valid, FieldTrie.FieldTries.Valid, Reports;
      ghost var a, b, c: seq<ID>;
      r, a := bits.Lookup(ids, s, dst);
      r, b := fields.Lookup(ids, s, r);
      r, c := ScanResidual(s, r);
      ReportsBoth(a, b, ids, bits.stored, fields.stored, s);
      ReportsBoth(a + b, c, ids, bits.stored + fields.stored, EntrySet(residual), s);
      found := a + b + c;
      ReportAppended(r, dst, found, ids, Entries(), s);
    }

    /** The index answers exactly what the linear matcher answers, after the caller's buffer. */
    method Match(s: Subject, dst: seq<ID>) returns (r: seq<ID>)
      requires Valid()
      ensures r == dst + MatchingIDs(subscriptions, |subscriptions|, s)
    {
      hide Structured, Reports, Covers, RanksOf, Compiled, Tries;
      EntriesRanked(Entries(), subscriptions);
      ghost var found: seq<ID>;
      r, found := Collect(s, dst);
      assert r[|dst|..] == found && r[..|dst|] == dst;
      FoundRanked(found, ids, ranks, Entries(), s);
      RanksInjective(ranks, ids);
      r := Order(r, |dst|, ranks);
      OrderedIsMatching(r[|dst|..], found, ranks, Entries(), subscriptions, s);
      assert r == r[..|dst|] + r[|dst|..];
    }
  }

  /** The compiler of the index: it validates like every other matcher and indexes what it accepts. */
  method CompileIndex(subs: seq<Subscription>) returns (e: Option<FilterError>, m: Index?)
    requires Constructed(subs)
    ensures e.None? <==> ValidSubscriptions(subs)
    ensures e.None? ==> m != null && fresh(m) && m.Valid() && m.subscriptions == subs
  {
    e := Validate(subs);
    m := null;
    if e.None? {
      m := new Index(subs);
    }
  }

  lemma EntriesRanked(entries: set<Entry>, subs: seq<Subscription>)
    requires Covers(entries, subs, |subs|, 0)
    ensures RankedWithin(entries, IDsOf(subs))
  {
    forall e | e in entries
      ensures e.rank < |subs|
    {
      assert Listed(e, subs, |subs|, 0);
    }
  }

  lemma FoundRanked(found: seq<ID>, ids: seq<ID>, ranks: map<ID, nat>, entries: set<Entry>, s: Subject)
    requires RankedWithin(entries, ids) && Reports(found, ids, entries, s) && RanksOf(ranks, ids)
    ensures Ranked(found, ranks)
  {
    hide Matches;
  }

  /** The linear answer is in rank order, each ID once. */
  lemma {:induction false} MatchingInOrder(ranks: map<ID, nat>, subs: seq<Subscription>, n: nat, s: Subject)
    requires n <= |subs| && RanksOf(ranks, IDsOf(subs))
    ensures Ranked(MatchingIDs(subs, n, s), ranks) && InStrictOrder(MatchingIDs(subs, n, s), ranks)
    ensures forall x | x in MatchingIDs(subs, n, s) :: ranks[x] < n
  {
    hide Hits;
    if n > 0 {
      MatchingInOrder(ranks, subs, n - 1, s);
      assert ranks[IDsOf(subs)[n - 1]] == n - 1;
    }
  }

  /** The reported IDs, put in strict rank order, are the linear answer. */
  lemma OrderedIsMatching(ordered: seq<ID>, found: seq<ID>, ranks: map<ID, nat>, entries: set<Entry>,
                          subs: seq<Subscription>, s: Subject)
    requires Covers(entries, subs, |subs|, 0) && RanksOf(ranks, IDsOf(subs)) && RankedWithin(entries, IDsOf(subs))
    requires Reports(found, IDsOf(subs), entries, s)
    requires Ranked(ordered, ranks) && InStrictOrder(ordered, ranks) && SameIDs(ordered, found)
    ensures ordered == MatchingIDs(subs, |subs|, s)
  {
    var matching := MatchingIDs(subs, |subs|, s);
    hide Matches;
    forall x | x in found
      ensures x in matching
    {
      var e :| e in entries && Matches(e.pattern, s) && IDsOf(subs)[e.rank] == x;
      assert Listed(e, subs, |subs|, 0);
      assert Hits(subs, e.rank, s);
    }
    forall x | x in matching
      ensures x in found
    {
      var i :| 0 <= i < |subs| && Hits(subs, i, s) && subs[i].id == x;
      var p :| p in subs[i].patterns && Matches(p, s);
      assert Listed(Entry(i, p), subs, |subs|, 0);
      assert IDsOf(subs)[Entry(i, p).rank] in found;
    }
    MatchingInOrder(ranks, subs, |subs|, s);
    StrictOrderUnique(ordered, matching, ranks);
  }
}
