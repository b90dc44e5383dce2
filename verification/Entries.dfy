/** Index entries and what it means to report them (internal/filter/index.go). */
module Entries {
  import opened Identity
  import opened Filter

  /** A pattern of the subscription with the given rank. */
  datatype Entry = Entry(rank: nat, pattern: Pattern)

  ghost predicate RankedWithin(entries: set<Entry>, ids: seq<ID>) {
    forall e | e in entries :: e.rank < |ids|
  }

  ghost predicate Sound(found: seq<ID>, ids: seq<ID>, entries: set<Entry>, s: Subject)
    requires RankedWithin(entries, ids)
  {
    forall x | x in found :: exists e :: e in entries && Matches(e.pattern, s) && ids[e.rank] == x
  }

  /** found lists exactly the IDs of the entries of some set that match the subject. */
  ghost predicate Reports(found: seq<ID>, ids: seq<ID>, entries: set<Entry>, s: Subject)
    requires RankedWithin(entries, ids)
  {
    Sound(found, ids, entries, s) && forall e | e in entries && Matches(e.pattern, s) :: ids[e.rank] in found
  }

  lemma ReportsNothing(ids: seq<ID>, s: Subject)
    ensures Reports([], ids, {}, s)
  {
  }

  /** Two reports one after the other report both sets. */
  lemma ReportsBoth(a: seq<ID>, b: seq<ID>, ids: seq<ID>, ea: set<Entry>, eb: set<Entry>, s: Subject)
    requires RankedWithin(ea, ids) && RankedWithin(eb, ids) && Reports(a, ids, ea, s) && Reports(b, ids, eb, s)
    ensures RankedWithin(ea + eb, ids) && Reports(a + b, ids, ea + eb, s)
  {
    hide Matches;
  }

  lemma ReportsOne(e: Entry, ids: seq<ID>, s: Subject)
    requires e.rank < |ids|
    ensures RankedWithin({e}, ids) && Reports(if Matches(e.pattern, s) then [ids[e.rank]] else [], ids, {e}, s)
  {
  }

  /** r is the caller's buffer with a report of the entries behind it. */
  ghost predicate ReportsAfter(r: seq<ID>, dst: seq<ID>, ids: seq<ID>, entries: set<Entry>, s: Subject)
    requires RankedWithin(entries, ids)
  {
    dst <= r && Reports(r[|dst|..], ids, entries, s)
  }

  lemma ReportAppended(r: seq<ID>, dst: seq<ID>, found: seq<ID>, ids: seq<ID>, entries: set<Entry>, s: Subject)
    requires r == dst + found && RankedWithin(entries, ids) && Reports(found, ids, entries, s)
    ensures ReportsAfter(r, dst, ids, entries, s)
  {
    hide Reports;
    assert r[|dst|..] == found;
  }
}
