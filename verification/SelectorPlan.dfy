/** Auto selector planning: which members may enter the pool, in which order,
    and which of them are built. */
module SelectorPlan {
  import opened LatencyOrder
  import opened Options

  datatype CustomKind = CustomOutbound | CustomXrayOutbound | CustomXrayFullConfig | CustomFullConfig
  datatype CustomConfig = CustomConfig(kind: CustomKind, parses: bool)
  datatype Outbound = Outbound(displayName: string, extraCore: bool, xray: bool, xrayFullConfig: bool, custom: Option<CustomConfig>)
  datatype Profile = Profile(kind: string, outbound: Option<Outbound>, country: string, latency: int, latencyAt: int)
  datatype Group = Group(landing: int, front: int, profiles: seq<int>)

  /** The repositories and the clock; `self` is the selector's own profile. */
  datatype World = World(self: int, groups: map<int, Group>, profiles: map<int, Profile>, now: int)

  /** A selector's settings, its caps already normalised and its filters parsed. */
  datatype Settings = Settings(
    gids: seq<int>, poolCap: nat, buildLimit: nat, validityMins: int, excludeUnavailable: bool,
    nameMatches: Option<string -> bool>, countries: set<string>, excludedCountries: set<string>)

  datatype Skip = Eligible | Missing | MetaType | CoreTransitions | ExtraCore | FullConfig | Malformed | Tailscale
                | ManagementEndpoint | NameFilter | CountryFilter | Unavailable | XrayFullChained

  function Find(w: World, id: int): Option<Profile> {
    if id in w.profiles then Some(w.profiles[id]) else None
  }

  predicate Fresh(w: World, st: Settings, p: Profile) {
    && p.latency != 0 && st.validityMins > 0 && p.latencyAt > 0
    && w.now - p.latencyAt <= st.validityMins * 60
  }

  function EffectiveLatency(w: World, st: Settings, id: int): int {
    var p := Find(w, id);
    if p.Some? && Fresh(w, st, p.value) then p.value.latency else 0
  }

  predicate CountryRefused(st: Settings, country: string) {
    country == "" || country in st.excludedCountries || (st.countries != {} && country !in st.countries)
  }

  function EligibilityOf(w: World, st: Settings, member: Option<Profile>): Skip {
    if member.None? || member.value.outbound.None? then Missing
    else
      var p, o := member.value, member.value.outbound.value;
      if p.kind == "chain" || p.kind == "autoselector" then MetaType
      else if p.kind == "tailscale" then Tailscale
      else if p.kind == "openvpn" || p.kind == "openconnect" then ManagementEndpoint
      else if o.extraCore then ExtraCore
      else if p.kind == "custom" && o.custom.None? then Missing
      else if p.kind == "custom" && o.custom.value.kind == CustomFullConfig then FullConfig
      else if p.kind == "custom" && !o.custom.value.parses then Malformed
      else if st.nameMatches.Some? && !st.nameMatches.value(o.displayName) then NameFilter
      else if (st.countries != {} || st.excludedCountries != {}) && CountryRefused(st, p.country) then CountryFilter
      else if st.excludeUnavailable && p.latency < 0 && Fresh(w, st, p) then Unavailable
      else Eligible
  }

  // How often a chain of hops changes between the two cores, starting outside Xray.
  function Transitions(hops: seq<Option<Profile>>): (r: (nat, bool)) {
    if hops == [] then (0, false)
    else
      var (n, inXray) := Transitions(hops[..|hops| - 1]);
      var hop := hops[|hops| - 1];
      if hop.None? || hop.value.outbound.None? then (n, inXray)
      else
        var xray := hop.value.outbound.value.xray;
        (if xray != inXray then n + 1 else n, xray)
  }

  // Which of the hops that exist run on Xray.
  function Cores(hops: seq<Option<Profile>>): (cores: seq<bool>)
    ensures |cores| <= |hops|
  {
    if hops == [] then []
    else
      var hop := hops[|hops| - 1];
      Cores(hops[..|hops| - 1]) + if hop.None? || hop.value.outbound.None? then [] else [hop.value.outbound.value.xray]
  }

  // Hops on another core than the one before; sing-box comes first.
  function Switches(cores: seq<bool>): set<nat> {
    set i: nat | i < |cores| && cores[i] != XrayBefore(cores, i)
  }

  predicate XrayBefore(cores: seq<bool>, i: nat)
    requires i <= |cores|
  {
    i > 0 && cores[i - 1]
  }

  lemma XrayBeforePrefix(cores: seq<bool>, xray: bool, i: nat)
    requires i <= |cores|
    ensures XrayBefore(cores + [xray], i) == XrayBefore(cores, i)
  {
  }

  lemma SwitchesAppend(cores: seq<bool>, xray: bool)
    ensures |Switches(cores + [xray])| == |Switches(cores)| + if xray != XrayBefore(cores, |cores|) then 1 else 0
  {
    hide XrayBefore;
    var after := cores + [xray];
    forall i: nat | i <= |cores| ensures XrayBefore(after, i) == XrayBefore(cores, i) {
      XrayBeforePrefix(cores, xray, i);
    }
    if xray != XrayBefore(cores, |cores|) {
      assert Switches(after) == Switches(cores) + {|cores|};
    } else {
      assert Switches(after) == Switches(cores);
    }
  }

  /** What the fold counts. */
  lemma {:induction false} TransitionsAreSwitches(hops: seq<Option<Profile>>)
    ensures var cores := Cores(hops); Transitions(hops) == (|Switches(cores)|, XrayBefore(cores, |cores|))
    decreases |hops|
  {
    hide Switches;
    if hops == [] {
      NoSwitches();
    } else {
      var init, hop := hops[..|hops| - 1], hops[|hops| - 1];
      TransitionsAreSwitches(init);
      if hop.Some? && hop.value.outbound.Some? {
        SwitchesAppend(Cores(init), hop.value.outbound.value.xray);
      } else {
        assert Cores(init) + [] == Cores(init);
      }
    }
  }

  lemma NoSwitches()
    ensures Switches([]) == {}
  {
  }

  method CountTransitions(hops: seq<Option<Profile>>) returns (transitions: nat)
    ensures transitions == |Switches(Cores(hops))| == Transitions(hops).0
  {
    transitions := 0;
    var inXray := false;
    for i := 0 to |hops|
      invariant (transitions, inXray) == Transitions(hops[..i])
    {
      assert hops[..i + 1][..i] == hops[..i];
      var hop := hops[i];
      if hop.Some? && hop.value.outbound.Some? {
        var xray := hop.value.outbound.value.xray;
        if xray != inXray {
          transitions := transitions + 1;
        }
        inXray := xray;
      }
    }
    assert hops[..|hops|] == hops;
    TransitionsAreSwitches(hops);
  }

  // A sing-box chain, an Xray chain and a sing-box chain, each of them optional.
  ghost predicate Stretch(cores: seq<bool>, from: nat, to: nat) {
    from <= to <= |cores| && forall k :: 0 <= k < |cores| ==> (cores[k] <==> from <= k < to)
  }

  ghost predicate Buildable(cores: seq<bool>) {
    exists from: nat, to: nat :: Stretch(cores, from, to)
  }

  // Xray, then sing-box, then Xray again.
  ghost predicate Returns(cores: seq<bool>, p: nat, q: nat, r: nat) {
    p < q < r < |cores| && cores[p] && !cores[q] && cores[r]
  }

  lemma ReturnsUnbuildable(cores: seq<bool>, p: nat, q: nat, r: nat)
    requires Returns(cores, p, q, r)
    ensures !Buildable(cores)
  {
  }

  // The shape of the hops, by how often they switch.
  ghost predicate Shaped(cores: seq<bool>, n: nat, inXray: bool) {
    && (n == 0 ==> !inXray && Stretch(cores, |cores|, |cores|))
    && (n == 1 ==> inXray && exists from: nat :: from < |cores| && Stretch(cores, from, |cores|))
    && (n == 2 ==> !inXray && exists from: nat, to: nat :: from < to < |cores| && Stretch(cores, from, to))
    && (n >= 3 ==> exists p: nat, q: nat, r: nat :: Returns(cores, p, q, r))
  }

  lemma ShapeStep(cores: seq<bool>, n: nat, inXray: bool, xray: bool)
    requires Shaped(cores, n, inXray)
    ensures Shaped(cores + [xray], if xray != inXray then n + 1 else n, xray)
  {
    var after := cores + [xray];
    if n == 0 {
      assert xray ==> Stretch(after, |cores|, |after|);
    } else if n == 1 {
      var from: nat :| from < |cores| && Stretch(cores, from, |cores|);
      assert if xray then Stretch(after, from, |after|) else Stretch(after, from, |cores|);
    } else if n == 2 {
      var from: nat, to: nat :| from < to < |cores| && Stretch(cores, from, to);
      if xray {
        assert Returns(after, from, to, |cores|);
      } else {
        assert Stretch(after, from, to);
      }
    } else {
      var p: nat, q: nat, r: nat :| Returns(cores, p, q, r);
      assert Returns(after, p, q, r);
    }
  }

  lemma {:induction false} TransitionsShape(hops: seq<Option<Profile>>)
    ensures Shaped(Cores(hops), Transitions(hops).0, Transitions(hops).1)
    decreases |hops|
  {
    hide Shaped;
    if hops == [] {
      EmptyShape();
    } else {
      var init, hop := hops[..|hops| - 1], hops[|hops| - 1];
      TransitionsShape(init);
      if hop.Some? && hop.value.outbound.Some? {
        ShapeStep(Cores(init), Transitions(init).0, Transitions(init).1, hop.value.outbound.value.xray);
      } else {
        assert Cores(init) + [] == Cores(init);
      }
    }
  }

  lemma EmptyShape()
    ensures Shaped([], 0, false)
  {
  }

  /** A chain can be built exactly if it switches at most twice. */
  lemma BuildableIff(hops: seq<Option<Profile>>)
    ensures Buildable(Cores(hops)) <==> Transitions(hops).0 <= 2
  {
    hide Cores, Transitions, Stretch, Returns;
    TransitionsShape(hops);
    if Transitions(hops).0 >= 3 {
      var p: nat, q: nat, r: nat :| Returns(Cores(hops), p, q, r);
      ReturnsUnbuildable(Cores(hops), p, q, r);
    }
  }

  predicate XrayFullConfigFits(landing: Option<Profile>, front: Option<Profile>) {
    front.None? &&
    (landing.None? || landing.value.outbound.None? ||
     (var o := landing.value.outbound.value; !o.xray && !o.xrayFullConfig && !o.extraCore))
  }

  function ProxyOf(w: World, id: int): Option<Profile> {
    if id >= 0 then Find(w, id) else None
  }

  // -------------------------------------------------------------------
  // Who is tracked, and what becomes of each
  // -------------------------------------------------------------------

  // A member and the group whose proxies wrap it.
  datatype Entry = Entry(id: int, group: Group)

  function Existing(w: World, gids: seq<int>): seq<Group> {
    if gids == [] then []
    else
      var gid := gids[|gids| - 1];
      Existing(w, gids[..|gids| - 1]) + if gid in w.groups then [w.groups[gid]] else []
  }

  function EntriesOf(g: Group, n: nat): (es: seq<Entry>)
    requires n <= |g.profiles|
    ensures |es| == n
  {
    seq(n, i requires 0 <= i < n => Entry(g.profiles[i], g))
  }

  function Flat(gs: seq<Group>): seq<Entry> {
    if gs == [] then [] else Flat(gs[..|gs| - 1]) + EntriesOf(gs[|gs| - 1], |gs[|gs| - 1].profiles|)
  }

  function Ids(es: seq<Entry>): (ids: seq<int>)
    ensures |ids| == |es| && forall i :: 0 <= i < |ids| ==> ids[i] == es[i].id
  {
    seq(|es|, i requires 0 <= i < |es| => es[i].id)
  }

  // The first entry of every id but the selector's own.
  function Firsts(es: seq<Entry>, self: int): (ts: seq<Entry>)
    ensures |ts| <= |es|
  {
    if es == [] then []
    else
      var ts, e := Firsts(es[..|es| - 1], self), es[|es| - 1];
      if e.id == self || e.id in Ids(ts) then ts else ts + [e]
  }

  function Tracked(w: World, st: Settings): seq<Entry> {
    Firsts(Flat(Existing(w, st.gids)), w.self)
  }

  function Verdict(w: World, st: Settings, e: Entry): Skip {
    var member := Find(w, e.id);
    var skip := EligibilityOf(w, st, member);
    if skip != Eligible && skip != Unavailable then skip
    else
      var landing, front := ProxyOf(w, e.group.landing), ProxyOf(w, e.group.front);
      if member.value.outbound.value.xrayFullConfig then
        if XrayFullConfigFits(landing, front) then skip else XrayFullChained
      else if Transitions([landing, member, front]).0 > 2 then CoreTransitions
      else skip
  }

  predicate OnXray(hop: Option<Profile>) {
    hop.Some? && hop.value.outbound.Some? && hop.value.outbound.value.xray
  }

  // Whether a member can be built between its group's proxies.
  ghost predicate ChainFits(w: World, e: Entry) {
    var landing, member, front := ProxyOf(w, e.group.landing), Find(w, e.id), ProxyOf(w, e.group.front);
    && member.Some? && member.value.outbound.Some?
    && if member.value.outbound.value.xrayFullConfig then XrayFullConfigFits(landing, front)
       else Buildable(Cores([landing, member, front]))
  }

  // Three hops switch three times only as Xray, sing-box, Xray.
  lemma ThreeHops(landing: Option<Profile>, member: Option<Profile>, front: Option<Profile>)
    requires member.Some? && member.value.outbound.Some?
    ensures Transitions([landing, member, front]).0 > 2 <==> OnXray(landing) && !OnXray(member) && OnXray(front)
  {
    assert [] + [landing] == [landing] && [landing] + [member] == [landing, member];
    assert [landing, member] + [front] == [landing, member, front];
    TransitionsPrefix([], landing);
    TransitionsPrefix([landing], member);
    TransitionsPrefix([landing, member], front);
  }

  lemma TransitionsPrefix(hops: seq<Option<Profile>>, hop: Option<Profile>)
    ensures Transitions(hops + [hop]) ==
      var (n, inXray) := Transitions(hops);
      if hop.None? || hop.value.outbound.None? then (n, inXray)
      else (if hop.value.outbound.value.xray != inXray then n + 1 else n, hop.value.outbound.value.xray)
  {
    assert (hops + [hop])[..|hops|] == hops;
  }

  /** What a verdict means: members that pass can be built in their chain, those
      refused for core changes sit on sing-box between two Xray proxies, and the
      chain is looked at only if nothing else speaks against the member. */
  lemma VerdictMeans(w: World, st: Settings, e: Entry)
    ensures var v, own := Verdict(w, st, e), EligibilityOf(w, st, Find(w, e.id));
      var passes := own == Eligible || own == Unavailable;
      && (v == Eligible || v == Unavailable <==> passes && ChainFits(w, e))
      && (v == Eligible || v == Unavailable || !passes ==> v == own)
      && (v == XrayFullChained <==> passes && !ChainFits(w, e) && Find(w, e.id).value.outbound.value.xrayFullConfig)
      && (v == CoreTransitions <==>
            && passes && !Find(w, e.id).value.outbound.value.xrayFullConfig
            && OnXray(ProxyOf(w, e.group.landing)) && !OnXray(Find(w, e.id)) && OnXray(ProxyOf(w, e.group.front)))
  {
    hide Transitions, Cores, Buildable, XrayFullConfigFits, OnXray;
    var member := Find(w, e.id);
    var landing, front := ProxyOf(w, e.group.landing), ProxyOf(w, e.group.front);
    if member.Some? && member.value.outbound.Some? {
      BuildableIff([landing, member, front]);
      ThreeHops(landing, member, front);
    }
  }

  function Judged(w: World, st: Settings, ts: seq<Entry>, k: Skip): seq<int> {
    if ts == [] then []
    else
      var e := ts[|ts| - 1];
      Judged(w, st, ts[..|ts| - 1], k) + if Verdict(w, st, e) == k then [e.id] else []
  }

  // A fresh failure excludes a member only while another member remains.
  function Members(w: World, st: Settings, ts: seq<Entry>): seq<int> {
    var usable, failed := Judged(w, st, ts, Eligible), Judged(w, st, ts, Unavailable);
    if usable == [] && failed != [] then failed else usable
  }

  function SkipCount(w: World, st: Settings, ts: seq<Entry>, k: Skip): nat {
    if k == Eligible then 0
    else if k == Unavailable && Judged(w, st, ts, Eligible) == [] then 0
    else |Judged(w, st, ts, k)|
  }

  function Order(i: nat): Skip {
    match i
    case 0 => Eligible case 1 => Missing case 2 => MetaType case 3 => CoreTransitions case 4 => ExtraCore
    case 5 => FullConfig case 6 => Malformed case 7 => Tailscale case 8 => ManagementEndpoint
    case 9 => NameFilter case 10 => CountryFilter case 11 => Unavailable case _ => XrayFullChained
  }

  // The nonzero counts, in the order of the reasons.
  function Skipped(w: World, st: Settings, ts: seq<Entry>, n: nat): seq<(Skip, nat)> {
    if n == 0 then []
    else
      var k := Order(n - 1);
      Skipped(w, st, ts, n - 1) + if SkipCount(w, st, ts, k) > 0 then [(k, SkipCount(w, st, ts, k))] else []
  }

  function Total(skipped: seq<(Skip, nat)>): nat {
    if skipped == [] then 0 else Total(skipped[..|skipped| - 1]) + skipped[|skipped| - 1].1
  }

  function CountSum(w: World, st: Settings, ts: seq<Entry>, n: nat): nat {
    if n == 0 then 0 else CountSum(w, st, ts, n - 1) + |Judged(w, st, ts, Order(n - 1))|
  }

  lemma {:induction false} EmptyCounts(w: World, st: Settings, n: nat)
    ensures CountSum(w, st, [], n) == 0
  {
    if n > 0 { EmptyCounts(w, st, n - 1); }
  }

  predicate Comes(k: Skip, n: nat) { exists i :: 0 <= i < n && Order(i) == k }

  lemma {:induction false} OneMoreCounted(w: World, st: Settings, ts: seq<Entry>, e: Entry, n: nat)
    requires n <= 13
    ensures CountSum(w, st, ts + [e], n) == CountSum(w, st, ts, n) + if Comes(Verdict(w, st, e), n) then 1 else 0
  {
    hide Verdict;
    if n > 0 {
      OneMoreCounted(w, st, ts, e, n - 1);
      assert (ts + [e])[..|ts|] == ts;
      var k := Verdict(w, st, e);
      if Order(n - 1) == k {
        assert !Comes(k, n - 1) && Comes(k, n);
      } else {
        assert Comes(k, n) == Comes(k, n - 1);
      }
    }
  }

  // Every tracked member gets exactly one verdict.
  lemma {:induction false} EveryoneCounted(w: World, st: Settings, ts: seq<Entry>)
    ensures CountSum(w, st, ts, 13) == |ts|
  {
    hide Verdict;
    if ts == [] {
      EmptyCounts(w, st, 13);
    } else {
      var init, e := ts[..|ts| - 1], ts[|ts| - 1];
      assert ts == init + [e];
      EveryoneCounted(w, st, init);
      OneMoreCounted(w, st, init, e, 13);
      AllOrdered(Verdict(w, st, e));
    }
  }

  lemma AllOrdered(k: Skip)
    ensures Comes(k, 13)
  {
    var i := match k
      case Eligible => 0 case Missing => 1 case MetaType => 2 case CoreTransitions => 3 case ExtraCore => 4
      case FullConfig => 5 case Malformed => 6 case Tailscale => 7 case ManagementEndpoint => 8
      case NameFilter => 9 case CountryFilter => 10 case Unavailable => 11 case XrayFullChained => 12;
    assert Order(i) == k;
  }

  lemma TotalAppend(s: seq<(Skip, nat)>, x: (Skip, nat))
    ensures Total(s + [x]) == Total(s) + x.1
  {
    assert (s + [x])[..|s|] == s;
  }

  // Only the reason behind the eligible ones is left uncounted, and the failed
  // ones while they stand in for them.
  lemma CountOf(w: World, st: Settings, ts: seq<Entry>, n: nat)
    requires n < 13
    ensures var usable, k := Judged(w, st, ts, Eligible), Order(n);
      SkipCount(w, st, ts, k) + (if n == 0 then |usable| else 0)
      + (if n == 11 && usable == [] then |Judged(w, st, ts, Unavailable)| else 0) == |Judged(w, st, ts, k)|
  {
    hide Judged;
  }

  lemma SkippedAppend(w: World, st: Settings, ts: seq<Entry>, n: nat)
    requires n > 0
    ensures Total(Skipped(w, st, ts, n)) == Total(Skipped(w, st, ts, n - 1)) + SkipCount(w, st, ts, Order(n - 1))
  {
    hide SkipCount, Order;
    var k := Order(n - 1);
    TotalAppend(Skipped(w, st, ts, n - 1), (k, SkipCount(w, st, ts, k)));
    assert Skipped(w, st, ts, n - 1) + [] == Skipped(w, st, ts, n - 1);
  }

  lemma {:induction false} SkippedTotal(w: World, st: Settings, ts: seq<Entry>, n: nat)
    requires n <= 13
    ensures Total(Skipped(w, st, ts, n)) + (if n > 0 then |Judged(w, st, ts, Eligible)| else 0)
            + (if n > 11 && Judged(w, st, ts, Eligible) == [] then |Judged(w, st, ts, Unavailable)| else 0)
            == CountSum(w, st, ts, n)
  {
    hide Judged, SkipCount, Order;
    if n > 0 {
      SkippedTotal(w, st, ts, n - 1);
      SkippedAppend(w, st, ts, n);
      CountOf(w, st, ts, n - 1);
    }
  }

  /** Members in the groups are the eligible ones and the skipped ones. */
  lemma Conservation(w: World, st: Settings, ts: seq<Entry>)
    ensures |ts| == |Members(w, st, ts)| + Total(Skipped(w, st, ts, 13))
  {
    EveryoneCounted(w, st, ts);
    SkippedTotal(w, st, ts, 13);
  }
}
