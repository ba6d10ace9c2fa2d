/** The auto selector's loops and its stored pool. */
module AutoSelector {
  import opened LatencyOrder
  import opened SelectorPlan
  import opened PoolPlanner
  import opened Options

  // -------------------------------------------------------------------
  // Eligible members
  // -------------------------------------------------------------------

  type Skips = map<Skip, nat>

  // The running state of the scan agrees with the members seen so far.
  ghost predicate Scanned(w: World, st: Settings, ts: seq<Entry>, seen: set<int>, members: seq<int>, unavailable: seq<int>,
                          skips: Skips, membersInGroups: nat, ranked: nat)
  {
    && seen == (set id | id in Ids(ts))
    && members == Judged(w, st, ts, Eligible) && unavailable == Judged(w, st, ts, Unavailable)
    && membersInGroups == |ts| && ranked == RankedCount(w, st, members)
    && CountsAre(w, st, ts, skips)
  }

  ghost predicate CountsAre(w: World, st: Settings, ts: seq<Entry>, skips: Skips) {
    && Eligible !in skips && Unavailable !in skips
    && forall k :: k != Eligible && k != Unavailable ==> CountIs(w, st, ts, skips, k)
  }

  ghost predicate CountIs(w: World, st: Settings, ts: seq<Entry>, skips: Skips, k: Skip) {
    var n := |Judged(w, st, ts, k)|;
    (k in skips <==> n > 0) && (k in skips ==> skips[k] == n)
  }

  function Bump(skips: Skips, k: Skip, n: nat): Skips {
    skips[k := (if k in skips then skips[k] else 0) + n]
  }

  lemma JudgedAppend(w: World, st: Settings, ts: seq<Entry>, e: Entry, k: Skip)
    ensures Judged(w, st, ts + [e], k) == Judged(w, st, ts, k) + if Verdict(w, st, e) == k then [e.id] else []
  {
    assert (ts + [e])[..|ts|] == ts;
  }

  lemma CountsAfter(w: World, st: Settings, ts: seq<Entry>, e: Entry, skips: Skips)
    requires CountsAre(w, st, ts, skips)
    ensures var v := Verdict(w, st, e);
      CountsAre(w, st, ts + [e], if v == Eligible || v == Unavailable then skips else Bump(skips, v, 1))
  {
    hide Judged, Verdict;
    var v := Verdict(w, st, e);
    var after := if v == Eligible || v == Unavailable then skips else Bump(skips, v, 1);
    forall k | k != Eligible && k != Unavailable ensures CountIs(w, st, ts + [e], after, k) {
      JudgedAppend(w, st, ts, e, k);
      assert CountIs(w, st, ts, skips, k);
    }
  }

  lemma MemberExists(w: World, st: Settings, e: Entry)
    ensures EligibilityOf(w, st, Find(w, e.id)) == Eligible || EligibilityOf(w, st, Find(w, e.id)) == Unavailable ==>
      Find(w, e.id).Some? && Find(w, e.id).value.outbound.Some?
  {
  }

  // One member: its verdict, computed step by step as the scan does.
  method Judge(w: World, st: Settings, e: Entry, landing: Option<Profile>, front: Option<Profile>) returns (v: Skip)
    requires landing == ProxyOf(w, e.group.landing) && front == ProxyOf(w, e.group.front)
    ensures v == Verdict(w, st, e)
    ensures v == Eligible || v == Unavailable ==> ChainFits(w, e) && v == EligibilityOf(w, st, Find(w, e.id))
    ensures v == CoreTransitions ==> OnXray(landing) && !OnXray(Find(w, e.id)) && OnXray(front)
  {
    hide Transitions, Cores, Switches, ChainFits, OnXray, XrayFullConfigFits, EligibilityOf;
    VerdictMeans(w, st, e);
    MemberExists(w, st, e);
    var member := Find(w, e.id);
    var skip := EligibilityOf(w, st, member);
    if skip != Eligible && skip != Unavailable {
      return skip;
    }
    if member.value.outbound.value.xrayFullConfig {
      if !XrayFullConfigFits(landing, front) {
        return XrayFullChained;
      }
    } else {
      var transitions := CountTransitions([landing, member, front]);
      if transitions > 2 {
        return CoreTransitions;
      }
    }
    v := skip;
  }

  method FindGroups(w: World, gids: seq<int>) returns (groups: seq<Group>, missing: nat)
    ensures groups == Existing(w, gids) && missing == |gids| - |groups|
  {
    groups, missing := [], 0;
    for i := 0 to |gids|
      invariant groups == Existing(w, gids[..i]) && missing == i - |groups|
    {
      assert gids[..i + 1][..i] == gids[..i];
      if gids[i] in w.groups {
        groups := groups + [w.groups[gids[i]]];
      } else {
        missing := missing + 1;
      }
    }
    assert gids[..|gids|] == gids;
  }

  // The scan of all groups, one entry at a time.
  method Scan(w: World, st: Settings, groups: seq<Group>)
    returns (members: seq<int>, unavailable: seq<int>, skips: Skips, membersInGroups: nat, ranked: nat)
    ensures var ts := Firsts(Flat(groups), w.self);
      && members == Judged(w, st, ts, Eligible) && unavailable == Judged(w, st, ts, Unavailable)
      && membersInGroups == |ts| && ranked == RankedCount(w, st, members) && CountsAre(w, st, ts, skips)
  {
    hide Judged, Verdict, RankedCount, CountsAre, Firsts, EntriesOf, Flat, ChainFits, OnXray, EligibilityOf, EffectiveLatency, Bump;
    members, unavailable, skips, membersInGroups, ranked := [], [], map[], 0, 0;
    var seen: set<int> := {};
    NothingScanned(w, st);
    ghost var ts: seq<Entry> := Firsts([], w.self);
    for i := 0 to |groups|
      invariant ts == Firsts(Flat(groups[..i]), w.self)
      invariant Scanned(w, st, ts, seen, members, unavailable, skips, membersInGroups, ranked)
    {
      var group := groups[i];
      var landing := if group.landing >= 0 then Find(w, group.landing) else None;
      var front := if group.front >= 0 then Find(w, group.front) else None;
      ghost var flat := Flat(groups[..i]);
      NoEntries(group, flat);
      for j := 0 to |group.profiles|
        invariant ts == Firsts(flat + EntriesOf(group, j), w.self)
        invariant Scanned(w, st, ts, seen, members, unavailable, skips, membersInGroups, ranked)
      {
        var id := group.profiles[j];
        NextEntry(group, flat, j, w.self);
        if id != w.self && id !in seen {
          seen := seen + {id};
          membersInGroups := membersInGroups + 1;
          var e := Entry(id, group);
          var v := Judge(w, st, e, landing, front);
          ScanStep(w, st, ts, e, members, skips);
          ts := ts + [e];
          if v == Unavailable {
            unavailable := unavailable + [id];
          } else if v == Eligible {
            members := members + [id];
            if EffectiveLatency(w, st, id) > 0 {
              ranked := ranked + 1;
            }
          } else {
            skips := Bump(skips, v, 1);
          }
        }
      }
      FlatStep(groups, i);
    }
    assert groups[..|groups|] == groups;
  }

  lemma NothingScanned(w: World, st: Settings)
    ensures Scanned(w, st, Firsts([], w.self), {}, [], [], map[], 0, 0)
    ensures Flat([]) == []
  {
  }

  lemma NoEntries(g: Group, flat: seq<Entry>)
    ensures flat + EntriesOf(g, 0) == flat
  {
  }

  lemma NextEntry(g: Group, flat: seq<Entry>, j: nat, self: int)
    requires j < |g.profiles|
    ensures var ts, e := Firsts(flat + EntriesOf(g, j), self), Entry(g.profiles[j], g);
      Firsts(flat + EntriesOf(g, j + 1), self) == if e.id == self || e.id in Ids(ts) then ts else ts + [e]
  {
    var es := flat + EntriesOf(g, j + 1);
    assert es[..|es| - 1] == flat + EntriesOf(g, j);
  }

  lemma FlatStep(groups: seq<Group>, i: nat)
    requires i < |groups|
    ensures Flat(groups[..i + 1]) == Flat(groups[..i]) + EntriesOf(groups[i], |groups[i].profiles|)
  {
    assert groups[..i + 1][..i] == groups[..i];
  }

  lemma ScanStep(w: World, st: Settings, ts: seq<Entry>, e: Entry, members: seq<int>, skips: Skips)
    requires CountsAre(w, st, ts, skips)
    ensures var v := Verdict(w, st, e);
      && (forall k :: Judged(w, st, ts + [e], k) == Judged(w, st, ts, k) + if v == k then [e.id] else [])
      && RankedCount(w, st, members + [e.id]) == RankedCount(w, st, members) + (if EffectiveLatency(w, st, e.id) > 0 then 1 else 0)
      && CountsAre(w, st, ts + [e], if v == Eligible || v == Unavailable then skips else Bump(skips, v, 1))
      && (set id | id in Ids(ts + [e])) == (set id | id in Ids(ts)) + {e.id}
  {
    forall k ensures Judged(w, st, ts + [e], k) == Judged(w, st, ts, k) + if Verdict(w, st, e) == k then [e.id] else [] {
      JudgedAppend(w, st, ts, e, k);
    }
    CountsAfter(w, st, ts, e, skips);
    assert (members + [e.id])[..|members|] == members;
    assert Ids(ts + [e]) == Ids(ts) + [e.id];
  }

  method ListSkips(w: World, st: Settings, ghost ts: seq<Entry>, skips: Skips) returns (skipped: seq<(Skip, nat)>)
    requires forall k :: (k in skips <==> SkipCount(w, st, ts, k) > 0) && (k in skips ==> skips[k] == SkipCount(w, st, ts, k))
    ensures skipped == Skipped(w, st, ts, 13)
  {
    hide SkipCount, Order;
    skipped := [];
    for i := 0 to 13
      invariant skipped == Skipped(w, st, ts, i)
    {
      if Order(i) in skips {
        skipped := skipped + [(Order(i), skips[Order(i)])];
      }
    }
  }

  /** The members that may enter the pool, and the plan's counters. */
  method EligibleMembers(w: World, st: Settings) returns (members: seq<int>, plan: Plan)
    ensures plan == Counted(w, st)
    ensures plan.error == Fine ==> members == Members(w, st, Tracked(w, st))
    ensures plan.error != Fine ==> members == []
  {
    hide Judged, RankedCount, Skipped, Firsts, Flat;
    members, plan := [], EMPTY_PLAN;
    if st.gids == [] {
      plan := plan.(error := TracksNoGroup);
      return;
    }
    var groups, missing := FindGroups(w, st.gids);
    plan := plan.(missingGroups := missing);
    if groups == [] {
      plan := plan.(error := GroupGone);
      return;
    }
    var unavailable, skips, membersInGroups, ranked;
    members, unavailable, skips, membersInGroups, ranked := Scan(w, st, groups);
    plan := plan.(membersInGroups := membersInGroups, rankedByTest := ranked);
    ghost var ts, counted := Tracked(w, st), skips;
    if members == [] && unavailable != [] {
      members := unavailable;
      plan := plan.(keptUnavailable := |unavailable|);
    } else if unavailable != [] {
      skips := Bump(skips, Unavailable, |unavailable|);
    }
    forall k ensures (k in skips <==> SkipCount(w, st, ts, k) > 0) && (k in skips ==> skips[k] == SkipCount(w, st, ts, k)) {
      assert k != Eligible && k != Unavailable ==> CountIs(w, st, ts, counted, k);
    }
    var skipped := ListSkips(w, st, ts, skips);
    plan := plan.(skipped := skipped);
  }

  // -------------------------------------------------------------------
  // Order
  // -------------------------------------------------------------------

  // The latencies are read once, before sorting.
  method SortByLatency(w: World, st: Settings, ids: seq<int>, untrusted: seq<int>) returns (sorted: seq<int>)
    ensures sorted == ByRank(w, st, untrusted, ids)
  {
    hide StableSort, EffectiveLatency;
    var latency: Latencies := map[];
    for i := 0 to |ids|
      invariant latency == Measured(w, st, untrusted, ids[..i])
    {
      latency := latency[ids[i] := if ids[i] in untrusted then 0 else EffectiveLatency(w, st, ids[i])];
      assert ids[..i + 1] == ids[..i] + [ids[i]];
    }
    assert ids[..|ids|] == ids;
    sorted := StableSort(ids, latency);
  }

  method OrderMembers(w: World, st: Settings, members: seq<int>, persisted: seq<int>) returns (ordered: seq<int>)
    ensures ordered == Ordered(w, st, members, persisted)
  {
    hide ByRank;
    ordered := [];
    var placed: set<int> := {};
    for i := 0 to |persisted|
      invariant ordered == Kept(persisted[..i], members) && placed == (set id | id in ordered)
    {
      assert persisted[..i + 1][..i] == persisted[..i];
      var id := persisted[i];
      if id in members && id !in placed {
        ordered := ordered + [id];
        placed := placed + {id};
      }
    }
    assert persisted[..|persisted|] == persisted;
    var newcomers: seq<int> := [];
    for i := 0 to |members|
      invariant newcomers == Newcomers(members[..i], ordered)
    {
      assert members[..i + 1][..i] == members[..i];
      if members[i] !in placed {
        newcomers := newcomers + [members[i]];
      }
    }
    assert members[..|members|] == members;
    var sorted := SortByLatency(w, st, newcomers, []);
    ordered := ordered + sorted;
  }

  // -------------------------------------------------------------------
  // The selector
  // -------------------------------------------------------------------

  // Would the build drop a built member or add one that works?
  predicate Changed(w: World, st: Settings, plan: Plan, lastBuilt: seq<int>) {
    plan.error == Fine &&
    ((exists id :: id in lastBuilt && id !in plan.build)
     || (exists id :: id in plan.build && id !in lastBuilt && EffectiveLatency(w, st, id) > 0))
  }

  lemma Drops(w: World, st: Settings, plan: Plan, lastBuilt: seq<int>, i: nat)
    requires plan.error == Fine && i < |lastBuilt| && lastBuilt[i] !in plan.build
    ensures Changed(w, st, plan, lastBuilt)
  {
    var id := lastBuilt[i];
    assert id in lastBuilt && id !in plan.build;
  }

  /** Once the plan is stored and built, nothing is left to change. */
  lemma BuiltPlanIsUnchanged(w: World, st: Settings, pool: seq<int>)
    ensures var plan := PlanOf(w, st, pool);
      !Changed(w, st, PlanOf(w, st, plan.pool), plan.build)
  {
    hide PlanOf;
    PlanIsFixedPoint(w, st, pool);
  }

  // The pool a rerank stores.
  function Reranked(w: World, st: Settings, untrusted: seq<int>): seq<int> {
    var members := if Counted(w, st).error == Fine then Members(w, st, Tracked(w, st)) else [];
    Prefix(ByRank(w, st, untrusted, members), st.poolCap)
  }

  /** Planning after a rerank takes the reranked pool as it is. */
  lemma PlanTakesRerankedPool(w: World, st: Settings, untrusted: seq<int>)
    ensures PlanOf(w, st, Reranked(w, st, untrusted)).pool == Reranked(w, st, untrusted)
  {
    hide Counted, Ordered, Members, Tracked, EffectiveLatency;
    var members := Members(w, st, Tracked(w, st));
    if Counted(w, st).error == Fine {
      var sorted := ByRank(w, st, untrusted, members);
      var m := Measured(w, st, untrusted, members);
      MembersDistinct(w, st);
      StableSortIsStable(members, m);
      SameMembers(sorted, members);
      DistinctAgain(sorted, members);
      if members != [] {
        StoredPoolStays(w, st, members, Reranked(w, st, untrusted));
      }
    }
    CountedPool(w, st);
  }

  lemma CountedPool(w: World, st: Settings)
    ensures Counted(w, st).pool == [] && Counted(w, st).eligible == 0
  {
    hide Tracked, Existing;
  }

  lemma DistinctAgain(a: seq<int>, b: seq<int>)
    requires multiset(a) == multiset(b) && NoDup(b)
    ensures NoDup(a)
  {
    forall id ensures multiset(a)[id] <= 1 { DistinctCount(b, id); }
    CountDistinct(a);
  }

  class Selector {
    const st: Settings
    var pool: seq<int>
    var lastBuilt: seq<int>
    var poolRankedAt: int

    constructor (st: Settings, pool: seq<int>, lastBuilt: seq<int>)
      ensures this.st == st && this.pool == pool && this.lastBuilt == lastBuilt
    {
      this.st := st;
      this.pool := pool;
      this.lastBuilt := lastBuilt;
      poolRankedAt := 0;
    }

    method PlanAutoSelector(w: World) returns (plan: Plan)
      ensures plan == PlanOf(w, st, pool)
    {
      hide Counted, Ordered, EffectiveLatency, Members, Tracked;
      var members;
      members, plan := EligibleMembers(w, st);
      if plan.error != Fine {
        return;
      }
      plan := plan.(eligible := |members|);
      if members == [] {
        CountedPool(w, st);
        plan := plan.(error := NoUsableMembers);
        return;
      }
      var ordered := OrderMembers(w, st, members, pool);
      var truncated := |ordered| > st.poolCap;
      if truncated {
        ordered := ordered[..st.poolCap];
      }
      var build := ordered[..if |ordered| < st.buildLimit then |ordered| else st.buildLimit];
      var needsRanking := false;
      if |ordered| > st.buildLimit {
        var unranked := CountUnranked(w, st, build);
        needsRanking := unranked > 0;
      } else {
        assert build == ordered;
      }
      plan := plan.(truncated := truncated, pool := ordered, build := build, needsRanking := needsRanking);
    }

    method AutoSelectorBuildChanged(w: World) returns (changed: bool)
      ensures changed == Changed(w, st, PlanOf(w, st, pool), lastBuilt)
    {
      hide PlanOf, EffectiveLatency;
      var plan := PlanAutoSelector(w);
      if plan.error != Fine {
        return false;
      }
      for i := 0 to |lastBuilt|
        invariant forall k :: 0 <= k < i ==> lastBuilt[k] in plan.build
      {
        if lastBuilt[i] !in plan.build {
          Drops(w, st, plan, lastBuilt, i);
          return true;
        }
      }
      for i := 0 to |plan.build|
        invariant forall k :: 0 <= k < i ==> plan.build[k] in lastBuilt || EffectiveLatency(w, st, plan.build[k]) <= 0
      {
        if plan.build[i] !in lastBuilt && EffectiveLatency(w, st, plan.build[i]) > 0 {
          assert plan.build[i] in plan.build;
          return true;
        }
      }
      changed := false;
    }

    method RerankAutoSelectorPool(w: World, untrusted: seq<int>) returns (members: seq<int>)
      modifies this`pool, this`poolRankedAt
      ensures members == pool == Reranked(w, st, untrusted) && poolRankedAt == w.now
      ensures PlanOf(w, st, pool).pool == pool
    {
      hide PlanOf, Counted, ByRank, Members, Tracked;
      var plan;
      members, plan := EligibleMembers(w, st);
      members := SortByLatency(w, st, members, untrusted);
      if |members| > st.poolCap {
        members := members[..st.poolCap];
      }
      pool := members;
      poolRankedAt := w.now;
      PlanTakesRerankedPool(w, st, untrusted);
    }
  }

  method CountUnranked(w: World, st: Settings, build: seq<int>) returns (unranked: nat)
    ensures unranked > 0 <==> exists id :: id in build && EffectiveLatency(w, st, id) == 0
  {
    hide EffectiveLatency;
    unranked := 0;
    for i := 0 to |build|
      invariant unranked > 0 <==> exists k :: 0 <= k < i && EffectiveLatency(w, st, build[k]) == 0
    {
      if EffectiveLatency(w, st, build[i]) == 0 {
        unranked := unranked + 1;
      }
    }
  }
}
