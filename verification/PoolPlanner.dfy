/** The pool of an auto selector: order, cap, build prefix, and what planning
    again changes. */
module PoolPlanner {
  import opened LatencyOrder
  import opened SelectorPlan
  import opened Options

  predicate NoDup(s: seq<int>) {
    forall i, j :: 0 <= i < j < |s| ==> s[i] != s[j]
  }

  // Pool members that are still eligible, each once, in pool order.
  function Kept(pool: seq<int>, members: seq<int>): seq<int> {
    if pool == [] then []
    else
      var kept, id := Kept(pool[..|pool| - 1], members), pool[|pool| - 1];
      if id in members && id !in kept then kept + [id] else kept
  }

  function Newcomers(members: seq<int>, kept: seq<int>): seq<int> {
    if members == [] then []
    else
      Newcomers(members[..|members| - 1], kept) +
      if members[|members| - 1] in kept then [] else [members[|members| - 1]]
  }

  function Measured(w: World, st: Settings, untrusted: seq<int>, ids: seq<int>): Latencies {
    map id | id in ids :: if id in untrusted then 0 else EffectiveLatency(w, st, id)
  }

  function ByRank(w: World, st: Settings, untrusted: seq<int>, ids: seq<int>): seq<int> {
    StableSort(ids, Measured(w, st, untrusted, ids))
  }

  function Ordered(w: World, st: Settings, members: seq<int>, pool: seq<int>): seq<int> {
    var kept := Kept(pool, members);
    kept + ByRank(w, st, [], Newcomers(members, kept))
  }

  function Prefix(s: seq<int>, cap: nat): (p: seq<int>)
    ensures p <= s
  {
    if |s| > cap then s[..cap] else s
  }

  // -------------------------------------------------------------------
  // Lists without repetition
  // -------------------------------------------------------------------

  lemma {:induction false} FirstsDistinct(es: seq<Entry>, self: int)
    ensures NoDup(Ids(Firsts(es, self))) && self !in Ids(Firsts(es, self))
    ensures forall e :: e in Firsts(es, self) ==> e in es
  {
    if es != [] { FirstsDistinct(es[..|es| - 1], self); }
  }

  // Conversely every id of the groups is tracked, but for the selector's own.
  lemma {:induction false} FirstsComplete(es: seq<Entry>, self: int, e: Entry)
    requires e in es && e.id != self
    ensures e.id in Ids(Firsts(es, self))
  {
    var init, last := es[..|es| - 1], es[|es| - 1];
    var ts := Firsts(init, self);
    assert forall i :: 0 <= i < |ts| ==> Ids(ts + [last])[i] == Ids(ts)[i];
    assert Ids(ts + [last])[|ts|] == last.id;
    if e in init { FirstsComplete(init, self, e); }
  }

  lemma {:induction false} JudgedMembers(w: World, st: Settings, ts: seq<Entry>, k: Skip)
    ensures forall id :: id in Judged(w, st, ts, k) <==> exists e :: e in ts && e.id == id && Verdict(w, st, e) == k
    ensures NoDup(Ids(ts)) ==> NoDup(Judged(w, st, ts, k))
  {
    hide Verdict;
    if ts != [] {
      var init, e := ts[..|ts| - 1], ts[|ts| - 1];
      JudgedMembers(w, st, init, k);
      assert forall i :: 0 <= i < |init| ==> Ids(init)[i] == Ids(ts)[i];
      assert NoDup(Ids(ts)) ==> NoDup(Ids(init));
      if NoDup(Ids(ts)) {
        forall d | d in init ensures d.id != e.id {
          var i :| 0 <= i < |init| && init[i] == d;
          assert Ids(ts)[i] == d.id && Ids(ts)[|ts| - 1] == e.id;
        }
        assert e.id !in Judged(w, st, init, k);
      }
    }
  }

  lemma MembersDistinct(w: World, st: Settings)
    ensures NoDup(Members(w, st, Tracked(w, st)))
  {
    var ts := Tracked(w, st);
    FirstsDistinct(Flat(Existing(w, st.gids)), w.self);
    JudgedMembers(w, st, ts, Eligible);
    JudgedMembers(w, st, ts, Unavailable);
  }

  lemma {:induction false} KeptDistinct(pool: seq<int>, members: seq<int>)
    ensures NoDup(Kept(pool, members))
    ensures forall id :: id in Kept(pool, members) <==> id in pool && id in members
  {
    if pool != [] { KeptDistinct(pool[..|pool| - 1], members); }
  }

  // Keeping changes nothing about a list of distinct members.
  lemma {:induction false} KeptAll(pool: seq<int>, members: seq<int>)
    requires NoDup(pool) && forall id :: id in pool ==> id in members
    ensures Kept(pool, members) == pool
  {
    if pool != [] {
      var init, id := pool[..|pool| - 1], pool[|pool| - 1];
      KeptAll(init, members);
      assert pool == init + [id];
    }
  }

  lemma {:induction false} NewcomersDistinct(members: seq<int>, kept: seq<int>)
    requires NoDup(members)
    ensures NoDup(Newcomers(members, kept))
    ensures forall id :: id in Newcomers(members, kept) <==> id in members && id !in kept
  {
    if members != [] { NewcomersDistinct(members[..|members| - 1], kept); }
  }

  lemma {:induction false} DistinctCount(s: seq<int>, id: int)
    requires NoDup(s)
    ensures multiset(s)[id] == if id in s then 1 else 0
  {
    if s != [] {
      var init, last := s[..|s| - 1], s[|s| - 1];
      assert s == init + [last];
      DistinctCount(init, id);
    }
  }

  lemma {:induction false} CountDistinct(s: seq<int>)
    requires forall id :: multiset(s)[id] <= 1
    ensures NoDup(s)
  {
    if s != [] {
      var init, last := s[..|s| - 1], s[|s| - 1];
      assert s == init + [last];
      forall id ensures multiset(init)[id] <= 1 { assert multiset(s)[id] >= multiset(init)[id]; }
      CountDistinct(init);
      assert multiset(s)[last] == multiset(init)[last] + 1;
      assert last !in multiset(init);
    }
  }

  /** Ordering neither loses, adds nor repeats a member. */
  lemma OrderedPermutes(w: World, st: Settings, members: seq<int>, pool: seq<int>)
    requires NoDup(members)
    ensures multiset(Ordered(w, st, members, pool)) == multiset(members)
    ensures NoDup(Ordered(w, st, members, pool))
  {
    var kept := Kept(pool, members);
    var fresh_ := Newcomers(members, kept);
    KeptDistinct(pool, members);
    NewcomersDistinct(members, kept);
    StableSortIsStable(fresh_, Measured(w, st, [], fresh_));
    var o := Ordered(w, st, members, pool);
    assert multiset(o) == multiset(kept) + multiset(fresh_);
    forall id ensures multiset(o)[id] == multiset(members)[id] <= 1 {
      DistinctCount(kept, id);
      DistinctCount(fresh_, id);
      DistinctCount(members, id);
    }
    CountDistinct(o);
  }

  lemma SameMembers(a: seq<int>, b: seq<int>)
    requires multiset(a) == multiset(b)
    ensures |a| == |b| && forall id :: id in a <==> id in b
  {
    assert |multiset(a)| == |a| && |multiset(b)| == |b|;
    forall id ensures id in a <==> id in b {
      assert id in a <==> id in multiset(a);
      assert id in b <==> id in multiset(b);
    }
  }

  // -------------------------------------------------------------------
  // The plan
  // -------------------------------------------------------------------

  datatype PlanError = Fine | TracksNoGroup | GroupGone | NoUsableMembers

  datatype Plan = Plan(
    pool: seq<int>, build: seq<int>, membersInGroups: nat, missingGroups: nat, eligible: nat,
    rankedByTest: nat, keptUnavailable: nat, skipped: seq<(Skip, nat)>, truncated: bool,
    needsRanking: bool, error: PlanError)

  const EMPTY_PLAN: Plan := Plan([], [], 0, 0, 0, 0, 0, [], false, false, Fine)

  function RankedCount(w: World, st: Settings, ids: seq<int>): nat {
    if ids == [] then 0
    else RankedCount(w, st, ids[..|ids| - 1]) + if EffectiveLatency(w, st, ids[|ids| - 1]) > 0 then 1 else 0
  }

  // The counters, before any ordering.
  function Counted(w: World, st: Settings): Plan {
    var missing := |st.gids| - |Existing(w, st.gids)|;
    ExistingBound(w, st.gids);
    if st.gids == [] then EMPTY_PLAN.(error := TracksNoGroup)
    else if Existing(w, st.gids) == [] then EMPTY_PLAN.(missingGroups := missing, error := GroupGone)
    else
      var ts := Tracked(w, st);
      var usable, failed := Judged(w, st, ts, Eligible), Judged(w, st, ts, Unavailable);
      EMPTY_PLAN.(missingGroups := missing, membersInGroups := |ts|, rankedByTest := RankedCount(w, st, usable),
                  keptUnavailable := if usable == [] then |failed| else 0, skipped := Skipped(w, st, ts, 13))
  }

  lemma {:induction false} ExistingBound(w: World, gids: seq<int>)
    ensures |Existing(w, gids)| <= |gids|
  {
    if gids != [] { ExistingBound(w, gids[..|gids| - 1]); }
  }

  function PlanOf(w: World, st: Settings, pool: seq<int>): Plan {
    var counted := Counted(w, st);
    var members := Members(w, st, Tracked(w, st));
    if counted.error != Fine then counted
    else if members == [] then counted.(error := NoUsableMembers)
    else
      var ordered := Ordered(w, st, members, pool);
      var capped := Prefix(ordered, st.poolCap);
      var build := Prefix(capped, st.buildLimit);
      counted.(eligible := |members|, truncated := |ordered| > st.poolCap, pool := capped, build := build,
               needsRanking := |capped| > st.buildLimit && exists id :: id in build && EffectiveLatency(w, st, id) == 0)
  }

  // Tracked, and eligible, or kept although its last test failed.
  predicate Admitted(w: World, st: Settings, ts: seq<Entry>, outage: bool, id: int) {
    exists e :: e in ts && e.id == id && (Verdict(w, st, e) == Eligible || (outage && Verdict(w, st, e) == Unavailable))
  }

  /** What a plan promises about its pool. */
  lemma PoolIsSound(w: World, st: Settings, pool: seq<int>)
    ensures var plan, ts := PlanOf(w, st, pool), Tracked(w, st);
      && NoDup(plan.pool) && |plan.pool| <= st.poolCap && |plan.build| <= st.buildLimit && plan.build <= plan.pool
      && w.self !in plan.pool
      && (forall id :: id in plan.pool ==> Admitted(w, st, ts, plan.keptUnavailable > 0, id))
      && (plan.error == Fine ==> (plan.truncated <==> |plan.pool| < plan.eligible)
                                 && |plan.pool| == if plan.truncated then st.poolCap else plan.eligible)
      && (plan.error == Fine ==> plan.membersInGroups == plan.eligible + Total(plan.skipped))
  {
    hide Verdict, EligibilityOf, Skipped, Total, Ordered;
    var plan, ts := PlanOf(w, st, pool), Tracked(w, st);
    var members := Members(w, st, ts);
    MembersDistinct(w, st);
    FirstsDistinct(Flat(Existing(w, st.gids)), w.self);
    JudgedMembers(w, st, ts, Eligible);
    JudgedMembers(w, st, ts, Unavailable);
    OrderedPermutes(w, st, members, pool);
    var o := Ordered(w, st, members, pool);
    SameMembers(o, members);
    Conservation(w, st, ts);
    forall id | id in plan.pool ensures id != w.self && Admitted(w, st, ts, plan.keptUnavailable > 0, id) {
      assert id in o && id in members;
      var e :| e in ts && e.id == id;
      var i :| 0 <= i < |ts| && ts[i] == e;
      assert Ids(ts)[i] == id;
    }
  }

  /** Persisted members come first, in their order; newcomers follow, stably
      sorted by latency. */
  lemma PoolKeepsOrder(w: World, st: Settings, members: seq<int>, pool: seq<int>)
    requires NoDup(members)
    ensures var kept := Kept(pool, members);
      var fresh_ := Newcomers(members, kept);
      var m := Measured(w, st, [], fresh_);
      && kept <= Ordered(w, st, members, pool)
      && (forall id :: id in kept <==> id in pool && id in members)
      && Sorted(Ordered(w, st, members, pool)[|kept|..], m)
      && Stable(fresh_, Ordered(w, st, members, pool)[|kept|..], m)
  {
    var kept := Kept(pool, members);
    KeptDistinct(pool, members);
    var fresh_ := Newcomers(members, kept);
    StableSortIsStable(fresh_, Measured(w, st, [], fresh_));
    assert Ordered(w, st, members, pool)[|kept|..] == ByRank(w, st, [], fresh_);
  }

  // A stored pool of distinct members that is full, or has them all, is kept.
  lemma StoredPoolStays(w: World, st: Settings, members: seq<int>, pool: seq<int>)
    requires NoDup(members) && NoDup(pool) && forall id :: id in pool ==> id in members
    requires |pool| == st.poolCap || (|pool| <= st.poolCap && forall id :: id in members ==> id in pool)
    ensures Prefix(Ordered(w, st, members, pool), st.poolCap) == pool
  {
    KeptAll(pool, members);
    NewcomersDistinct(members, pool);
    var fresh_ := Newcomers(members, pool);
    var o := Ordered(w, st, members, pool);
    assert o == pool + ByRank(w, st, [], fresh_);
    if |pool| < st.poolCap || |o| <= st.poolCap {
      StableSortIsStable(fresh_, Measured(w, st, [], fresh_));
      SameMembers(ByRank(w, st, [], fresh_), fresh_);
      if fresh_ != [] { HasElement(fresh_); }
    }
  }

  lemma HasElement(s: seq<int>)
    requires s != []
    ensures s[0] in s
  {
  }

  /** Planning again with the planned pool stored changes nothing. */
  lemma PlanIsFixedPoint(w: World, st: Settings, pool: seq<int>)
    ensures PlanOf(w, st, PlanOf(w, st, pool).pool) == PlanOf(w, st, pool)
  {
    hide Counted, Ordered, Members, Tracked, EffectiveLatency;
    var members := Members(w, st, Tracked(w, st));
    var plan := PlanOf(w, st, pool);
    if Counted(w, st).error == Fine && members != [] {
      MembersDistinct(w, st);
      OrderedPermutes(w, st, members, pool);
      SameMembers(Ordered(w, st, members, pool), members);
      StoredPoolStays(w, st, members, plan.pool);
      OrderedPermutes(w, st, members, plan.pool);
      SameMembers(Ordered(w, st, members, plan.pool), members);
    }
  }
}
