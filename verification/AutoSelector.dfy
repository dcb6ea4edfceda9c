/** Stable sorting of pool members by latency (`AutoSelectorPlan.cpp`). */
module LatencyOrder {

  /** Untested (0) comes after a success (positive) and before a failure (negative). */
  function LatencyRank(latency: int): nat {
    if latency > 0 then 0 else if latency == 0 then 1 else 2
  }

  predicate ByLatency(left: int, right: int) {
    if LatencyRank(left) != LatencyRank(right) then LatencyRank(left) < LatencyRank(right)
    else LatencyRank(left) == 0 && left < right
  }

  /** Neither comes before the other. */
  predicate Tied(left: int, right: int) {
    !ByLatency(left, right) && !ByLatency(right, left)
  }

  /** The comparison is one that std::stable_sort may be given. */
  lemma StrictWeakOrder(a: int, b: int, c: int)
    ensures !ByLatency(a, a)
    ensures ByLatency(a, b) ==> !ByLatency(b, a)
    ensures ByLatency(a, b) && ByLatency(b, c) ==> ByLatency(a, c)
    ensures Tied(a, b) && Tied(b, c) ==> Tied(a, c)
  {
  }

  /** Puts `x` in front of the first element it does not come after. */
  function Insert(x: int, s: seq<int>, latency: int -> int): seq<int> {
    if s == [] || !ByLatency(latency(s[0]), latency(x)) then [x] + s
    else [s[0]] + Insert(x, s[1..], latency)
  }

  /** std::stable_sort with the latencies as keys. */
  function StableSort(s: seq<int>, latency: int -> int): seq<int> {
    if s == [] then [] else Insert(s[0], StableSort(s[1..], latency), latency)
  }

  ghost predicate Ordered(s: seq<int>, latency: int -> int) {
    forall i, j :: 0 <= i < j < |s| ==> !ByLatency(latency(s[j]), latency(s[i]))
  }

  /** Working entries (positive latency) first and the faster before the slower, then untested (0), then failed ones. */
  ghost predicate FastestFirst(s: seq<int>, latency: int -> int) {
    forall i, j :: 0 <= i < j < |s| ==> NotSlower(latency(s[i]), latency(s[j]))
  }

  /** What may stand in front of a latency. */
  predicate NotSlower(front: int, behind: int) {
    && (behind > 0 ==> 0 < front <= behind)
    && (behind == 0 ==> front >= 0)
  }

  /** The order of the comparison is that of the numbers. */
  lemma OrderedIsFastestFirst(s: seq<int>, latency: int -> int)
    ensures Ordered(s, latency) <==> FastestFirst(s, latency)
  {
    forall left, right
      ensures !ByLatency(right, left) <==> NotSlower(left, right)
    {
    }
  }

  /** Sorting puts the fastest first, keeps the elements and the order of equally good ones. */
  lemma SortMeans(s: seq<int>, latency: int -> int)
    ensures FastestFirst(StableSort(s, latency), latency) && multiset(StableSort(s, latency)) == multiset(s)
  {
    SortIsStable(s, 0, latency);
    OrderedIsFastestFirst(StableSort(s, latency), latency);
  }

  /** Entries with equal latencies keep their order; so do failed ones among each other. */
  lemma TiesAre(left: int, right: int)
    ensures Tied(left, right) <==> left == right || (left < 0 && right < 0)
  {
  }

  /** The elements tied with a given latency, in the order they stand. */
  function TiedWith(s: seq<int>, key: int, latency: int -> int): seq<int> {
    if s == [] then []
    else if Tied(latency(s[0]), key) then [s[0]] + TiedWith(s[1..], key, latency)
    else TiedWith(s[1..], key, latency)
  }

  lemma {:induction false} InsertElements(x: int, s: seq<int>, latency: int -> int)
    ensures multiset(Insert(x, s, latency)) == multiset{x} + multiset(s)
  {
    if s != [] && ByLatency(latency(s[0]), latency(x)) {
      InsertElements(x, s[1..], latency);
      assert s == [s[0]] + s[1..];
    }
  }

  lemma {:induction false} SortElements(s: seq<int>, latency: int -> int)
    ensures multiset(StableSort(s, latency)) == multiset(s)
  {
    if s != [] {
      SortElements(s[1..], latency);
      InsertElements(s[0], StableSort(s[1..], latency), latency);
      assert s == [s[0]] + s[1..];
    }
  }

  lemma {:induction false} InsertOrdered(x: int, s: seq<int>, latency: int -> int)
    requires Ordered(s, latency)
    ensures Ordered(Insert(x, s, latency), latency)
  {
    var r := Insert(x, s, latency);
    if s == [] {
    } else if ByLatency(latency(s[0]), latency(x)) {
      InsertOrdered(x, s[1..], latency);
      InsertElements(x, s[1..], latency);
      var t := Insert(x, s[1..], latency);
      forall j | 0 <= j < |t|
        ensures !ByLatency(latency(t[j]), latency(s[0]))
      {
        assert t[j] in multiset(t);
        assert t[j] == x || t[j] in s[1..];
      }
    } else {
      forall j | 0 <= j < |s|
        ensures !ByLatency(latency(s[j]), latency(x))
      {
        StrictWeakOrder(latency(s[j]), latency(x), latency(s[0]));
        StrictWeakOrder(latency(s[j]), latency(s[0]), latency(x));
      }
    }
  }

  lemma {:induction false} InsertStable(x: int, s: seq<int>, key: int, latency: int -> int)
    requires Ordered(s, latency)
    ensures TiedWith(Insert(x, s, latency), key, latency) == TiedWith([x] + s, key, latency)
  {
    assert ([x] + s)[1..] == s;
    if s != [] && ByLatency(latency(s[0]), latency(x)) {
      InsertStable(x, s[1..], key, latency);
      assert ([x] + s[1..])[1..] == s[1..];
      var t := Insert(x, s[1..], latency);
      assert ([s[0]] + t)[1..] == t;
      StrictWeakOrder(latency(s[0]), key, latency(x));
    }
  }

  /** Sorted, the same elements, and ties in their original order. */
  lemma {:induction false} SortIsStable(s: seq<int>, key: int, latency: int -> int)
    ensures Ordered(StableSort(s, latency), latency)
    ensures multiset(StableSort(s, latency)) == multiset(s)
    ensures TiedWith(StableSort(s, latency), key, latency) == TiedWith(s, key, latency)
  {
    SortElements(s, latency);
    if s != [] {
      var t := StableSort(s[1..], latency);
      SortIsStable(s[1..], key, latency);
      InsertOrdered(s[0], t, latency);
      InsertStable(s[0], t, key, latency);
      assert ([s[0]] + t)[1..] == t;
    }
  }
}

/** Which profiles may join the pool of an auto selector (`AutoSelectorPlan.cpp`). */
module SelectorMembers {
  import opened Wrappers

  datatype Skip =
    | Eligible | Missing | MetaType | CoreTransitions | ExtraCore | FullConfig | Malformed | Tailscale
    | ManagementEndpoint | NameFilter | CountryFilter | Unavailable | XrayFullChained

  datatype ProfileType = Chain | Selector | TailscaleType | OpenVpn | OpenConnect | CustomType | OtherType

  datatype CustomKind = CustomOutbound | CustomXrayOutbound | CustomXrayFullConfig | CustomFullConfig

  /** A custom profile; `parses` says that its JSON is a non-empty object. */
  datatype Custom = Custom(kind: CustomKind, parses: bool)

  datatype Outbound = Outbound(displayName: string, extraCore: bool, xray: bool, xrayFullConfig: bool)

  /** `country` is the trimmed upper-case country of the last test. */
  datatype Profile = Profile(kind: ProfileType, outbound: Option<Outbound>, custom: Option<Custom>, country: string,
                             latency: int, latencyAt: int)

  datatype Group = Group(profiles: seq<int>, landing: int, front: int)

  datatype Repo = Repo(profiles: map<int, Profile>, groups: map<int, Group>)

  datatype Filters = Filters(hasName: bool, matches: string -> bool, countries: set<string>, excluded: set<string>)

  /** The settings of a selector that decide about membership. */
  datatype Settings = Settings(gids: seq<int>, filters: Filters, excludeUnavailable: bool, resultValidityMins: int)

  function Lookup(repo: Repo, id: int): Option<Profile> {
    if id in repo.profiles then Some(repo.profiles[id]) else None
  }

  predicate HasFreshResult(member: Option<Profile>, s: Settings, now: int) {
    && member.Some? && member.value.latency != 0
    && s.resultValidityMins > 0
    && member.value.latencyAt > 0
    && now - member.value.latencyAt <= s.resultValidityMins * 60
  }

  function EffectiveLatency(member: Option<Profile>, s: Settings, now: int): int {
    if HasFreshResult(member, s, now) then member.value.latency else 0
  }

  function EligibilityOf(member: Option<Profile>, s: Settings, now: int): Skip {
    if member.None? || member.value.outbound.None? then Missing
    else
      var m := member.value;
      var f := s.filters;
      if m.kind == Chain || m.kind == Selector then MetaType
      else if m.kind == TailscaleType then Tailscale
      else if m.kind == OpenVpn || m.kind == OpenConnect then ManagementEndpoint
      else if m.outbound.value.extraCore then ExtraCore
      else if m.kind == CustomType && m.custom.None? then Missing
      else if m.kind == CustomType && m.custom.value.kind == CustomFullConfig then FullConfig
      else if m.kind == CustomType && !m.custom.value.parses then Malformed
      else if f.hasName && !f.matches(m.outbound.value.displayName) then NameFilter
      else if (f.countries != {} || f.excluded != {})
              && (m.country == "" || m.country in f.excluded || (f.countries != {} && m.country !in f.countries)) then CountryFilter
      else if s.excludeUnavailable && m.latency < 0 && HasFreshResult(member, s, now) then Unavailable
      else Eligible
  }

  function Xray(hop: Option<Profile>): Option<bool> {
    if hop.None? || hop.value.outbound.None? then None else Some(hop.value.outbound.value.xray)
  }

  /** Exactly when a member passes every check of its own. */
  lemma EligibleExactly(member: Option<Profile>, s: Settings, now: int)
    ensures EligibilityOf(member, s, now) == Eligible <==>
              && member.Some? && member.value.outbound.Some?
              && var m, f := member.value, s.filters;
                 && m.kind !in {Chain, Selector, TailscaleType, OpenVpn, OpenConnect}
                 && !m.outbound.value.extraCore
                 && (m.kind == CustomType ==> m.custom.Some? && m.custom.value.kind != CustomFullConfig && m.custom.value.parses)
                 && (f.hasName ==> f.matches(m.outbound.value.displayName))
                 && (f.countries != {} ==> m.country in f.countries)
                 && (f.countries != {} || f.excluded != {} ==> m.country != "" && m.country !in f.excluded)
                 && !(s.excludeUnavailable && m.latency < 0 && EffectiveLatency(member, s, now) == m.latency)
  {
  }

  /** A latency counts up to the settings' number of minutes after it was measured, the last second included. */
  lemma LatencyCounts(m: Profile, s: Settings, now: int)
    ensures EffectiveLatency(Some(m), s, now) == m.latency <==>
              m.latency == 0 || (s.resultValidityMins > 0 && m.latencyAt > 0 && now <= m.latencyAt + 60 * s.resultValidityMins)
    ensures EffectiveLatency(Some(m), s, now) == m.latency || EffectiveLatency(Some(m), s, now) == 0
    ensures EffectiveLatency(None, s, now) == 0
  {
  }

  /** How often the chain landing, member, front switches cores, starting outside Xray. */
  function Transitions(hops: seq<Option<Profile>>, inXray: bool): nat {
    if hops == [] then 0
    else match Xray(hops[0])
      case None => Transitions(hops[1..], inXray)
      case Some(x) => (if x != inXray then 1 else 0) + Transitions(hops[1..], x)
  }

  /** Of all chains only those that leave Xray for the member and enter it again switch too often. */
  lemma TooManySwitches(landing: Option<Profile>, member: Option<Profile>, front: Option<Profile>)
    ensures Transitions([landing, member, front], false) > 2 <==>
              Xray(landing) == Some(true) && Xray(member) == Some(false) && Xray(front) == Some(true)
  {
    OneHop(landing, [member, front], false);
    OneHop(member, [front], false);
    OneHop(member, [front], true);
    OneHop(front, [], false);
    OneHop(front, [], true);
    assert [landing] + [member, front] == [landing, member, front] && [member] + [front] == [member, front];
    assert [front] + [] == [front];
  }

  lemma OneHop(hop: Option<Profile>, rest: seq<Option<Profile>>, inXray: bool)
    ensures Transitions([hop] + rest, inXray) ==
            match Xray(hop) case None => Transitions(rest, inXray)
                            case Some(x) => (if x != inXray then 1 else 0) + Transitions(rest, x)
  {
    hide Xray;
    assert ([hop] + rest)[1..] == rest;
  }

  predicate XrayFullConfigFitsChain(landing: Option<Profile>, front: Option<Profile>) {
    && front.None?
    && (landing.None? || landing.value.outbound.None?
        || (var o := landing.value.outbound.value; !o.xray && !o.xrayFullConfig && !o.extraCore))
  }

  /** A member met in a group. */
  datatype Visit = Visit(id: int, group: Group)

  function Hop(repo: Repo, id: int): Option<Profile> {
    if id >= 0 then Lookup(repo, id) else None
  }

  /** What becomes of a member: out for a reason, unavailable, or eligible. */
  function Verdict(repo: Repo, v: Visit, s: Settings, now: int): Skip {
    var member := Lookup(repo, v.id);
    var skip := EligibilityOf(member, s, now);
    if skip != Eligible && skip != Unavailable then skip
    else
      var landing, front := Hop(repo, v.group.landing), Hop(repo, v.group.front);
      if member.Some? && member.value.outbound.Some? && member.value.outbound.value.xrayFullConfig then
        if !XrayFullConfigFitsChain(landing, front) then XrayFullChained else skip
      else if Transitions([landing, member, front], false) > 2 then CoreTransitions
      else skip
  }

  /** Exactly when a member joins: it passes its own checks, and the group's proxies do not spoil it. A full Xray
      configuration takes no front proxy and only a plain landing one. */
  lemma JoinsExactly(repo: Repo, v: Visit, s: Settings, now: int)
    ensures var member, landing, front := Lookup(repo, v.id), Hop(repo, v.group.landing), Hop(repo, v.group.front);
            Verdict(repo, v, s, now) == Eligible <==>
              && EligibilityOf(member, s, now) == Eligible
              && if member.value.outbound.value.xrayFullConfig then
                   front.None? && (landing.Some? && landing.value.outbound.Some? ==>
                                     var o := landing.value.outbound.value; !o.xray && !o.xrayFullConfig && !o.extraCore)
                 else !(Xray(landing) == Some(true) && Xray(member) == Some(false) && Xray(front) == Some(true))
  {
    hide Transitions, EligibilityOf, Xray;
    var member, landing, front := Lookup(repo, v.id), Hop(repo, v.group.landing), Hop(repo, v.group.front);
    EligibleExactly(member, s, now);
    TooManySwitches(landing, member, front);
  }

  // ---------- the walk over the groups ----------

  predicate Seen(visits: seq<Visit>, id: int) {
    exists i :: 0 <= i < |visits| && visits[i].id == id
  }

  /** Profiles of one group, those met before and the selector itself left out. */
  function VisitGroup(visits: seq<Visit>, g: Group, ids: seq<int>, self: int): seq<Visit> {
    if ids == [] then visits
    else
      var before := VisitGroup(visits, g, ids[..|ids| - 1], self);
      var id := ids[|ids| - 1];
      if id == self || Seen(before, id) then before else before + [Visit(id, g)]
  }

  function VisitGroups(groups: seq<Group>, self: int): seq<Visit> {
    if groups == [] then []
    else
      var g := groups[|groups| - 1];
      VisitGroup(VisitGroups(groups[..|groups| - 1], self), g, g.profiles, self)
  }

  function Existing(repo: Repo, gids: seq<int>): seq<Group> {
    if gids == [] then []
    else
      var gs := Existing(repo, gids[..|gids| - 1]);
      var gid := gids[|gids| - 1];
      if gid in repo.groups then gs + [repo.groups[gid]] else gs
  }

  /** The ids whose verdict is `want`, in the order they were met. */
  function Select(repo: Repo, visits: seq<Visit>, want: Skip, s: Settings, now: int): seq<int> {
    if visits == [] then []
    else
      var v := visits[|visits| - 1];
      var before := Select(repo, visits[..|visits| - 1], want, s, now);
      if Verdict(repo, v, s, now) == want then before + [v.id] else before
  }

  /** Eligible members; if there is none, the unavailable ones are kept. */
  function MembersOf(repo: Repo, s: Settings, self: int, now: int): seq<int> {
    var visits := VisitGroups(Existing(repo, s.gids), self);
    var eligible := Select(repo, visits, Eligible, s, now);
    if eligible == [] then Select(repo, visits, Unavailable, s, now) else eligible
  }

  ghost predicate DistinctIds(visits: seq<Visit>) {
    forall i, j :: 0 <= i < j < |visits| ==> visits[i].id != visits[j].id
  }

  ghost predicate Distinct(ids: seq<int>) {
    forall i, j :: 0 <= i < j < |ids| ==> ids[i] != ids[j]
  }

  lemma {:induction false} GroupVisitsDistinct(visits: seq<Visit>, g: Group, ids: seq<int>, self: int)
    requires DistinctIds(visits)
    ensures DistinctIds(VisitGroup(visits, g, ids, self))
  {
    if ids != [] { GroupVisitsDistinct(visits, g, ids[..|ids| - 1], self); }
  }

  lemma {:induction false} VisitsDistinct(groups: seq<Group>, self: int)
    ensures DistinctIds(VisitGroups(groups, self))
  {
    if groups != [] {
      var n := |groups| - 1;
      VisitsDistinct(groups[..n], self);
      GroupVisitsDistinct(VisitGroups(groups[..n], self), groups[n], groups[n].profiles, self);
    }
  }

  lemma {:induction false} Selected(repo: Repo, visits: seq<Visit>, want: Skip, s: Settings, now: int, i: nat)
    requires i < |Select(repo, visits, want, s, now)|
    ensures Seen(visits, Select(repo, visits, want, s, now)[i])
  {
    hide Verdict;
    var n := |visits| - 1;
    var before := Select(repo, visits[..n], want, s, now);
    if i < |before| {
      Selected(repo, visits[..n], want, s, now, i);
      var k :| 0 <= k < n && visits[..n][k].id == before[i];
      assert visits[k].id == before[i];
    } else {
      assert visits[n].id == Select(repo, visits, want, s, now)[i];
    }
  }

  lemma {:induction false} SelectDistinct(repo: Repo, visits: seq<Visit>, want: Skip, s: Settings, now: int)
    requires DistinctIds(visits)
    ensures Distinct(Select(repo, visits, want, s, now))
  {
    hide Verdict;
    if visits != [] {
      var n := |visits| - 1;
      var before := Select(repo, visits[..n], want, s, now);
      SelectDistinct(repo, visits[..n], want, s, now);
      forall i | 0 <= i < |before|
        ensures before[i] != visits[n].id
      {
        Selected(repo, visits[..n], want, s, now, i);
        var k :| 0 <= k < n && visits[..n][k].id == before[i];
        assert visits[k].id == before[i];
      }
    }
  }

  /** No member twice. */
  lemma MembersDistinct(repo: Repo, s: Settings, self: int, now: int)
    ensures Distinct(MembersOf(repo, s, self, now))
  {
    var visits := VisitGroups(Existing(repo, s.gids), self);
    VisitsDistinct(Existing(repo, s.gids), self);
    SelectDistinct(repo, visits, Eligible, s, now);
    SelectDistinct(repo, visits, Unavailable, s, now);
  }

  // ---------- the tally ----------

  function Count(skips: map<Skip, nat>, k: Skip): nat {
    if k in skips then skips[k] else 0
  }

  const REASONS: seq<Skip> := [
    Eligible, Missing, MetaType, CoreTransitions, ExtraCore, FullConfig, Malformed, Tailscale,
    ManagementEndpoint, NameFilter, CountryFilter, Unavailable, XrayFullChained]

  /** skippedCount: the entries for the first `n` reasons. */
  function Total(skips: map<Skip, nat>, n: nat): nat
    requires n <= |REASONS|
  {
    if n == 0 then 0 else Total(skips, n - 1) + Count(skips, REASONS[n - 1])
  }

  function SkippedCount(skips: map<Skip, nat>): nat {
    Total(skips, |REASONS|)
  }

  function IndexOf(k: Skip): (i: nat)
    ensures i < |REASONS| && REASONS[i] == k
  {
    match k
    case Eligible => 0 case Missing => 1 case MetaType => 2 case CoreTransitions => 3 case ExtraCore => 4
    case FullConfig => 5 case Malformed => 6 case Tailscale => 7 case ManagementEndpoint => 8 case NameFilter => 9
    case CountryFilter => 10 case Unavailable => 11 case XrayFullChained => 12
  }

  lemma IndexIsUnique(i: nat)
    requires i < |REASONS|
    ensures IndexOf(REASONS[i]) == i
  {
  }

  lemma {:induction false} TotalBump(skips: map<Skip, nat>, k: Skip, more: nat, n: nat)
    requires n <= |REASONS|
    ensures Total(skips[k := Count(skips, k) + more], n) == Total(skips, n) + if IndexOf(k) < n then more else 0
  {
    hide IndexOf;
    if n > 0 {
      TotalBump(skips, k, more, n - 1);
      IndexIsUnique(n - 1);
    }
  }

  lemma CountBump(skips: map<Skip, nat>, k: Skip, more: nat)
    ensures SkippedCount(skips[k := Count(skips, k) + more]) == SkippedCount(skips) + more
  {
    hide Total;
    TotalBump(skips, k, more, |REASONS|);
  }

  datatype Tally = Tally(error: string, missingGroups: nat, membersInGroups: nat, rankedByTest: nat, keptUnavailable: nat,
                         skips: map<Skip, nat>)

  const NO_GROUP := "Auto selector tracks no group"
  const GROUPS_GONE := "Auto selector points at a group that no longer exists"

  /** The accounts add up: whoever was met is eligible or skipped. */
  method EligibleMembers(repo: Repo, s: Settings, self: int, now: int) returns (members: seq<int>, t: Tally)
    ensures t.error == "" ==> members == MembersOf(repo, s, self, now)
    ensures t.error == "" ==> t.membersInGroups == |VisitGroups(Existing(repo, s.gids), self)| == |members| + SkippedCount(t.skips)
    ensures t.error == "" <==> Existing(repo, s.gids) != []
    ensures t.error != "" ==> members == [] && t.membersInGroups == 0 && SkippedCount(t.skips) == 0
    ensures s.gids != [] ==> t.missingGroups + |Existing(repo, s.gids)| == |s.gids|
    ensures t.keptUnavailable == if members != [] && Select(repo, VisitGroups(Existing(repo, s.gids), self), Eligible, s, now) == []
                                 then |members| else 0
  {
    hide Verdict, SkippedCount;
    members := [];
    t := Tally("", 0, 0, 0, 0, map[]);
    NoSkips();
    if s.gids == [] { return [], t.(error := NO_GROUP); }
    var groups: seq<Group> := [];
    for i := 0 to |s.gids|
      invariant groups == Existing(repo, s.gids[..i]) && t.missingGroups + |groups| == i
      invariant t == Tally("", t.missingGroups, 0, 0, 0, map[])
    {
      assert s.gids[..i + 1][..i] == s.gids[..i];
      if s.gids[i] in repo.groups {
        groups := groups + [repo.groups[s.gids[i]]];
      } else {
        t := t.(missingGroups := t.missingGroups + 1);
      }
    }
    assert s.gids[..|s.gids|] == s.gids;
    if groups == [] { return [], t.(error := GROUPS_GONE); }
    var unavailable: seq<int> := [];
    var seen: set<int> := {};
    ghost var visits: seq<Visit> := [];
    for i := 0 to |groups|
      invariant forall id :: id in seen <==> Seen(visits, id)
      invariant visits == VisitGroups(groups[..i], self)
      invariant Tallied(repo, visits, s, now, members, unavailable, t)
      invariant t.error == "" && t.missingGroups + |groups| == |s.gids| && t.keptUnavailable == 0
    {
      assert groups[..i + 1][..i] == groups[..i];
      members, unavailable, t, visits, seen := WalkGroup(repo, groups[i], s, self, now, members, unavailable, t, visits, seen);
    }
    assert groups[..|groups|] == groups;
    if members == [] && unavailable != [] {
      members := unavailable;
      t := t.(keptUnavailable := |unavailable|);
    } else if unavailable != [] {
      CountBump(t.skips, Unavailable, |unavailable|);
      t := t.(skips := t.skips[Unavailable := Count(t.skips, Unavailable) + |unavailable|]);
    }
  }

  ghost predicate Tallied(repo: Repo, visits: seq<Visit>, s: Settings, now: int, members: seq<int>, unavailable: seq<int>, t: Tally) {
    && members == Select(repo, visits, Eligible, s, now)
    && unavailable == Select(repo, visits, Unavailable, s, now)
    && t.membersInGroups == |visits| == |members| + |unavailable| + SkippedCount(t.skips)
  }

  lemma NoSkips()
    ensures SkippedCount(map[]) == 0
  {
    NoTotal(|REASONS|);
  }

  lemma {:induction false} NoTotal(n: nat)
    requires n <= |REASONS|
    ensures Total(map[], n) == 0
  {
    if n > 0 { NoTotal(n - 1); }
  }

  /** One group: every profile not met before gets its verdict. */
  method WalkGroup(repo: Repo, g: Group, s: Settings, self: int, now: int, members0: seq<int>, unavailable0: seq<int>, t0: Tally,
                   ghost visits0: seq<Visit>, seen0: set<int>)
    returns (members: seq<int>, unavailable: seq<int>, t: Tally, ghost visits: seq<Visit>, seen: set<int>)
    requires Tallied(repo, visits0, s, now, members0, unavailable0, t0)
    requires forall id :: id in seen0 <==> Seen(visits0, id)
    ensures visits == VisitGroup(visits0, g, g.profiles, self)
    ensures Tallied(repo, visits, s, now, members, unavailable, t)
    ensures t.error == t0.error && t.missingGroups == t0.missingGroups && t.keptUnavailable == t0.keptUnavailable
    ensures forall id :: id in seen <==> Seen(visits, id)
  {
    hide Verdict, SkippedCount;
    members, unavailable, t, visits, seen := members0, unavailable0, t0, visits0, seen0;
    var ids := g.profiles;
    for i := 0 to |ids|
      invariant visits == VisitGroup(visits0, g, ids[..i], self)
      invariant Tallied(repo, visits, s, now, members, unavailable, t)
      invariant t.error == t0.error && t.missingGroups == t0.missingGroups && t.keptUnavailable == t0.keptUnavailable
      invariant forall id :: id in seen <==> Seen(visits, id)
    {
      assert ids[..i + 1][..i] == ids[..i];
      var id := ids[i];
      if id == self || id in seen { continue; }
      ghost var before := visits;
      visits := visits + [Visit(id, g)];
      SeenNext(before, Visit(id, g));
      assert visits[..|before|] == before;
      seen := seen + {id};
      t := t.(membersInGroups := t.membersInGroups + 1);
      var skip := Verdict(repo, Visit(id, g), s, now);
      if skip == Eligible {
        members := members + [id];
        if EffectiveLatency(Lookup(repo, id), s, now) > 0 { t := t.(rankedByTest := t.rankedByTest + 1); }
      } else if skip == Unavailable {
        unavailable := unavailable + [id];
      } else {
        CountBump(t.skips, skip, 1);
        t := t.(skips := t.skips[skip := Count(t.skips, skip) + 1]);
      }
    }
    assert ids[..|ids|] == ids;
  }

  lemma SeenNext(visits: seq<Visit>, v: Visit)
    ensures forall id :: Seen(visits + [v], id) <==> Seen(visits, id) || id == v.id
  {
    forall id
      ensures Seen(visits + [v], id) <==> Seen(visits, id) || id == v.id
    {
      if Seen(visits, id) {
        var k :| 0 <= k < |visits| && visits[k].id == id;
        assert (visits + [v])[k].id == id;
      }
      assert (visits + [v])[|visits|] == v;
    }
  }
}

/** Ordering, capping and re-ranking the pool (`AutoSelectorPlan.cpp`). */
module SelectorPlan {
  import opened Wrappers
  import opened LatencyOrder
  import opened SelectorMembers

  const MAX_POOL_CAP := 3000
  const MAX_BUILD_LIMIT := 500

  /** The persisted ids that are still members, each once. */
  function Kept(members: seq<int>, persisted: seq<int>): seq<int> {
    if persisted == [] then []
    else
      var before := Kept(members, persisted[..|persisted| - 1]);
      var id := persisted[|persisted| - 1];
      if id !in members || id in before then before else before + [id]
  }

  function Newcomers(members: seq<int>, placed: seq<int>): seq<int> {
    if members == [] then []
    else
      var before := Newcomers(members[..|members| - 1], placed);
      var id := members[|members| - 1];
      if id in placed then before else before + [id]
  }

  /** Persisted order first, newcomers behind it by latency. */
  function OrderOf(members: seq<int>, persisted: seq<int>, latency: int -> int): seq<int> {
    var kept := Kept(members, persisted);
    kept + StableSort(Newcomers(members, kept), latency)
  }

  lemma {:induction false} KeptIs(members: seq<int>, persisted: seq<int>)
    ensures Distinct(Kept(members, persisted))
    ensures forall id :: id in Kept(members, persisted) <==> id in persisted && id in members
  {
    if persisted != [] {
      var n := |persisted| - 1;
      KeptIs(members, persisted[..n]);
      assert persisted == persisted[..n] + [persisted[n]];
    }
  }

  lemma {:induction false} NewcomersAre(members: seq<int>, placed: seq<int>)
    requires Distinct(members)
    ensures Distinct(Newcomers(members, placed))
    ensures forall id :: id in Newcomers(members, placed) <==> id in members && id !in placed
  {
    if members != [] {
      var n := |members| - 1;
      NewcomersAre(members[..n], placed);
      assert members == members[..n] + [members[n]];
      assert members[n] !in members[..n];
    }
  }

  lemma {:induction false} DistinctOnce(s: seq<int>, id: int)
    requires Distinct(s)
    ensures multiset(s)[id] == if id in s then 1 else 0
  {
    if s != [] {
      var n := |s| - 1;
      DistinctOnce(s[..n], id);
      assert s == s[..n] + [s[n]] && s[n] !in s[..n];
    }
  }

  lemma {:induction false} OnceDistinct(s: seq<int>)
    requires forall id :: multiset(s)[id] <= 1
    ensures Distinct(s)
  {
    if s != [] {
      var n := |s| - 1;
      assert s == s[..n] + [s[n]];
      assert forall id :: multiset(s[..n])[id] <= multiset(s)[id];
      OnceDistinct(s[..n]);
      assert s[n] in s[..n] ==> multiset(s)[s[n]] >= 2;
    }
  }

  /** The ordered list has exactly the members, each once, the persisted ones in front. */
  lemma OrderIsPermutation(members: seq<int>, persisted: seq<int>, latency: int -> int)
    requires Distinct(members)
    ensures var o := OrderOf(members, persisted, latency);
            multiset(o) == multiset(members) && Distinct(o) && |o| == |members| && Kept(members, persisted) <= o
  {
    var kept := Kept(members, persisted);
    var fresh_ := Newcomers(members, kept);
    var o := OrderOf(members, persisted, latency);
    KeptIs(members, persisted);
    NewcomersAre(members, kept);
    SortElements(fresh_, latency);
    forall id
      ensures multiset(o)[id] == multiset(members)[id]
    {
      DistinctOnce(kept, id);
      DistinctOnce(fresh_, id);
      DistinctOnce(members, id);
    }
    assert multiset(o) == multiset(members);
    assert |multiset(o)| == |o| && |multiset(members)| == |members|;
    forall id ensures multiset(o)[id] <= 1 { DistinctOnce(members, id); }
    OnceDistinct(o);
  }

  /** QList::mid from the start: a negative length takes everything. */
  function Mid(s: seq<int>, len: int): seq<int> {
    if len < 0 || len > |s| then s else s[..len]
  }

  function Capped(s: seq<int>, cap: int): seq<int> {
    if |s| > cap then Mid(s, cap) else s
  }

  function PoolOf(members: seq<int>, persisted: seq<int>, latency: int -> int, cap: int): seq<int> {
    Capped(OrderOf(members, persisted, latency), cap)
  }

  function ClampCap(cap: int): int {
    if cap < 1 then 1 else if cap > MAX_POOL_CAP then MAX_POOL_CAP else cap
  }

  lemma {:induction false} KeepsItself(members: seq<int>, p: seq<int>)
    requires Distinct(p) && forall id :: id in p ==> id in members
    ensures Kept(members, p) == p
  {
    if p != [] {
      var n := |p| - 1;
      assert p == p[..n] + [p[n]] && p[n] !in p[..n];
      KeepsItself(members, p[..n]);
    }
  }

  /** Planning on a pool that is a prefix of an ordering of the members starts with that pool. */
  lemma PlanStartsWith(members: seq<int>, sorted: seq<int>, p: seq<int>, latency: int -> int)
    requires Distinct(members) && multiset(sorted) == multiset(members) && p <= sorted
    ensures p <= OrderOf(members, p, latency) && |OrderOf(members, p, latency)| == |sorted|
  {
    forall id ensures multiset(sorted)[id] <= 1 { DistinctOnce(members, id); }
    OnceDistinct(sorted);
    forall id | id in p ensures id in members {
      assert id in sorted;
      assert id in multiset(sorted);
    }
    KeepsItself(members, p);
    OrderIsPermutation(members, p, latency);
    assert |multiset(sorted)| == |sorted| && |multiset(members)| == |members|;
  }

  /** Planning right after a re-rank gives the re-ranked pool, exactly when the cap in force at the re-rank was not
      out of range in a way that shows. */
  lemma ReplanKeepsPool(members: seq<int>, sorted: seq<int>, latency: int -> int, cap: int)
    requires members != [] && Distinct(members) && multiset(sorted) == multiset(members)
    ensures var p := Capped(sorted, cap);
            PoolOf(members, p, latency, ClampCap(cap)) == p <==>
              1 <= cap <= MAX_POOL_CAP || (cap < 0 && |members| == 1) || (cap > MAX_POOL_CAP && |members| <= MAX_POOL_CAP)
  {
    var p := Capped(sorted, cap);
    assert |multiset(sorted)| == |sorted| && |multiset(members)| == |members|;
    PlanStartsWith(members, sorted, p, latency);
    var o := OrderOf(members, p, latency);
    var q := PoolOf(members, p, latency, ClampCap(cap));
    assert |q| == if |o| > ClampCap(cap) then ClampCap(cap) else |o|;
    if |q| == |p| {
      assert q == o[..|p|] == p;
    }
  }

  /** The pool consists of members, as many as the cap allows, and whoever is left out is not better. */
  ghost predicate Leaves(members: seq<int>, pool: seq<int>, latency: int -> int, cap: int) {
    && (forall id :: id in pool ==> id in members)
    && |pool| == (if 0 <= cap < |members| then cap else |members|)
    && (forall id, kept :: id in members && id !in pool && kept in pool ==> NotSlower(latency(kept), latency(id)))
  }

  lemma CutIsFine(members: seq<int>, sorted: seq<int>, latency: int -> int, cap: int)
    requires multiset(sorted) == multiset(members) && FastestFirst(sorted, latency)
    ensures Leaves(members, Capped(sorted, cap), latency, cap) && FastestFirst(Capped(sorted, cap), latency)
  {
    hide NotSlower;
    var pool := Capped(sorted, cap);
    assert |multiset(sorted)| == |sorted| && |multiset(members)| == |members|;
    forall id | id in pool ensures id in members {
      assert id in sorted;
      assert id in multiset(sorted);
    }
    forall id, kept | id in members && id !in pool && kept in pool ensures NotSlower(latency(kept), latency(id)) {
      assert id in multiset(members);
      assert id in sorted;
      var j :| 0 <= j < |sorted| && sorted[j] == id;
      var i :| 0 <= i < |pool| && pool[i] == kept;
      assert sorted[i] == kept && i < |pool| <= j;
    }
  }

  // ---------- the methods ----------

  function LatencyOf(repo: Repo, s: Settings, now: int, untrusted: set<int>): int -> int {
    (id: int) => if id in untrusted then 0 else EffectiveLatency(Lookup(repo, id), s, now)
  }

  lemma {:induction false} SortAgrees(ids: seq<int>, f: int -> int, g: int -> int)
    requires forall id :: id in ids ==> f(id) == g(id)
    ensures StableSort(ids, f) == StableSort(ids, g)
  {
    if ids != [] {
      SortAgrees(ids[1..], f, g);
      SortElements(ids[1..], f);
      var t := StableSort(ids[1..], f);
      forall id | id in t ensures id in ids { assert id in multiset(t); assert id in ids[1..]; }
      InsertAgrees(ids[0], t, f, g);
    }
  }

  lemma {:induction false} InsertAgrees(x: int, s: seq<int>, f: int -> int, g: int -> int)
    requires f(x) == g(x) && forall id :: id in s ==> f(id) == g(id)
    ensures Insert(x, s, f) == Insert(x, s, g)
  {
    if s == [] {
      assert Insert(x, s, f) == [x] == Insert(x, s, g);
    } else {
      var h := s[0];
      assert h in s && f(h) == g(h);
      InsertAgrees(x, s[1..], f, g);
    }
  }

  /** Latencies are read once, before sorting. */
  method SortByLatency(ids: seq<int>, repo: Repo, s: Settings, now: int, untrusted: set<int>) returns (sorted: seq<int>)
    ensures sorted == StableSort(ids, LatencyOf(repo, s, now, untrusted)) && multiset(sorted) == multiset(ids)
    ensures FastestFirst(sorted, LatencyOf(repo, s, now, untrusted))
  {
    hide EffectiveLatency;
    var latency: map<int, int> := map[];
    for i := 0 to |ids|
      invariant forall k :: 0 <= k < i ==> ids[k] in latency
      invariant forall id :: id in latency ==> latency[id] == LatencyOf(repo, s, now, untrusted)(id)
    {
      var id := ids[i];
      latency := latency[id := if id in untrusted then 0 else EffectiveLatency(Lookup(repo, id), s, now)];
    }
    var value := (id: int) => if id in latency then latency[id] else 0;
    SortAgrees(ids, value, LatencyOf(repo, s, now, untrusted));
    SortMeans(ids, LatencyOf(repo, s, now, untrusted));
    sorted := StableSort(ids, value);
  }

  method OrderMembers(members: seq<int>, persistedPool: seq<int>, repo: Repo, s: Settings, now: int) returns (ordered: seq<int>)
    ensures ordered == OrderOf(members, persistedPool, LatencyOf(repo, s, now, {}))
    ensures Kept(members, persistedPool) <= ordered
    ensures FastestFirst(ordered[|Kept(members, persistedPool)|..], LatencyOf(repo, s, now, {}))
  {
    hide LatencyOf;
    ordered := [];
    for i := 0 to |persistedPool|
      invariant ordered == Kept(members, persistedPool[..i])
    {
      assert persistedPool[..i + 1][..i] == persistedPool[..i];
      var id := persistedPool[i];
      if id !in members || id in ordered { continue; }
      ordered := ordered + [id];
    }
    assert persistedPool[..|persistedPool|] == persistedPool;
    var newcomers: seq<int> := [];
    for i := 0 to |members|
      invariant newcomers == Newcomers(members[..i], ordered)
    {
      assert members[..i + 1][..i] == members[..i];
      if members[i] !in ordered { newcomers := newcomers + [members[i]]; }
    }
    assert members[..|members|] == members;
    newcomers := SortByLatency(newcomers, repo, s, now, {});
    assert (ordered + newcomers)[|ordered|..] == newcomers;
    ordered := ordered + newcomers;
  }

  datatype Plan = Plan(tally: Tally, eligible: nat, pool: seq<int>, build: seq<int>, truncated: bool, needsRanking: bool,
                       poolCapUsed: int, buildLimitUsed: int, error: string)

  const NO_MEMBERS := "Auto selector has no usable members"

  class AutoSelector {
    var gids: seq<int>
    var filters: Filters
    var excludeUnavailable: bool
    var poolCap: int
    var buildLimit: int
    var resultValidityMins: int
    var pool: seq<int>
    var poolRankedAt: int

    constructor (gids: seq<int>, filters: Filters, poolCap: int, buildLimit: int, pool: seq<int>)
      ensures this.gids == gids && this.filters == filters && this.poolCap == poolCap && this.buildLimit == buildLimit
      ensures this.pool == pool && excludeUnavailable && resultValidityMins == 1440
    {
      this.gids, this.filters, this.poolCap, this.buildLimit, this.pool := gids, filters, poolCap, buildLimit, pool;
      excludeUnavailable, resultValidityMins, poolRankedAt := true, 1440, 0;
    }

    function Current(): Settings
      reads this
    {
      Settings(gids, filters, excludeUnavailable, resultValidityMins)
    }

    predicate IsNormal()
      reads this
    {
      && (forall i :: 0 <= i < |gids| ==> gids[i] >= 0) && (forall i, j :: 0 <= i < j < |gids| ==> gids[i] != gids[j])
      && 1 <= buildLimit <= MAX_BUILD_LIMIT && buildLimit <= poolCap && 1 <= poolCap <= MAX_POOL_CAP && resultValidityMins >= 0
    }

    /** Clamps the settings into range; settings in range stay as they are. */
    method Normalize()
      modifies `gids, `poolCap, `buildLimit, `resultValidityMins
      ensures IsNormal() && poolCap == ClampCap(old(poolCap))
      ensures forall g :: g in gids <==> g in old(gids) && g >= 0
      ensures old(IsNormal()) ==> gids == old(gids) && buildLimit == old(buildLimit) && resultValidityMins == old(resultValidityMins)
    {
      var tracked: seq<int> := [];
      for i := 0 to |gids|
        invariant gids == old(gids) && poolCap == old(poolCap) && buildLimit == old(buildLimit)
        invariant resultValidityMins == old(resultValidityMins)
        invariant forall g :: g in tracked <==> g in gids[..i] && g >= 0
        invariant forall k, j :: 0 <= k < j < |tracked| ==> tracked[k] != tracked[j]
        invariant old(IsNormal()) ==> tracked == gids[..i]
      {
        assert gids[..i + 1] == gids[..i] + [gids[i]];
        if gids[i] >= 0 && gids[i] !in tracked { tracked := tracked + [gids[i]]; }
      }
      assert gids[..|gids|] == gids;
      gids := tracked;
      assert forall i :: 0 <= i < |gids| ==> gids[i] in gids;
      if poolCap < 1 { poolCap := 1; }
      if poolCap > MAX_POOL_CAP { poolCap := MAX_POOL_CAP; }
      if buildLimit < 1 { buildLimit := 1; }
      if buildLimit > MAX_BUILD_LIMIT { buildLimit := MAX_BUILD_LIMIT; }
      if buildLimit > poolCap { buildLimit := poolCap; }
      if resultValidityMins < 0 { resultValidityMins := 0; }
    }

    /** PlanAutoSelector for the selector profile `self`. */
    method PlanPool(repo: Repo, self: int, now: int) returns (p: Plan)
      modifies `gids, `poolCap, `buildLimit, `resultValidityMins
      ensures IsNormal() && poolCap == ClampCap(old(poolCap)) && p.poolCapUsed == poolCap && p.buildLimitUsed == buildLimit
      ensures old(IsNormal()) ==> Current() == old(Current()) && buildLimit == old(buildLimit)
      ensures p.error == "" <==> Existing(repo, gids) != [] && MembersOf(repo, Current(), self, now) != []
      ensures p.tally.membersInGroups == p.eligible + SkippedCount(p.tally.skips)
      ensures p.error == "" ==>
                var members := MembersOf(repo, Current(), self, now);
                && p.eligible == |members| && p.truncated == (|members| > poolCap)
                && p.pool == PoolOf(members, pool, LatencyOf(repo, Current(), now, {}), poolCap)
                && p.build <= p.pool && |p.build| == (if |p.pool| < buildLimit then |p.pool| else buildLimit)
                && p.needsRanking == (|p.pool| > buildLimit
                     && exists id :: id in p.build && EffectiveLatency(Lookup(repo, id), Current(), now) == 0)
    {
      hide MembersOf, SkippedCount, EffectiveLatency, OrderOf, LatencyOf, Existing, VisitGroups, Select;
      Normalize();
      var s := Current();
      p := Plan(Tally("", 0, 0, 0, 0, map[]), 0, [], [], false, false, poolCap, buildLimit, "");
      var members, t := EligibleMembers(repo, s, self, now);
      p := p.(tally := t, error := t.error);
      if p.error != "" { return; }
      p := p.(eligible := |members|);
      if members == [] { return p.(error := NO_MEMBERS); }
      var ordered := OrderMembers(members, pool, repo, s, now);
      OrderLength(repo, s, self, now, pool);
      var truncated := |ordered| > poolCap;
      if truncated { ordered := Mid(ordered, poolCap); }
      var build := Mid(ordered, if |ordered| < buildLimit then |ordered| else buildLimit);
      var unranked := Unranked(repo, s, now, build);
      p := p.(truncated := truncated, pool := ordered, build := build, needsRanking := |ordered| > buildLimit && unranked > 0);
    }

    /** RerankAutoSelectorPool: the settings are taken as they are. The pool is sorted, fastest first, and no member
        left out is better than one that is in. */
    method Rerank(repo: Repo, self: int, now: int, untrusted: set<int>) returns (members: seq<int>)
      modifies `pool, `poolRankedAt
      ensures pool == members && poolRankedAt == now
      ensures Existing(repo, gids) != [] ==>
                members == Capped(StableSort(MembersOf(repo, Current(), self, now), LatencyOf(repo, Current(), now, untrusted)), poolCap)
      ensures FastestFirst(members, LatencyOf(repo, Current(), now, untrusted))
      ensures Existing(repo, gids) != [] ==>
                Leaves(MembersOf(repo, Current(), self, now), members, LatencyOf(repo, Current(), now, untrusted), poolCap)
    {
      hide MembersOf, SkippedCount, EffectiveLatency, LatencyOf;
      var t;
      members, t := EligibleMembers(repo, Current(), self, now);
      ghost var all := members;
      members := SortByLatency(members, repo, Current(), now, untrusted);
      MembersDistinct(repo, Current(), self, now);
      CutIsFine(all, members, LatencyOf(repo, Current(), now, untrusted), poolCap);
      if |members| > poolCap { members := Mid(members, poolCap); }
      pool, poolRankedAt := members, now;
    }

    /** A plan made right after a re-rank, at the same time and with settings in range, is the re-ranked pool. */
    method RerankThenPlan(repo: Repo, self: int, now: int, untrusted: set<int>) returns (ranked: seq<int>, p: Plan)
      requires IsNormal()
      modifies this
      ensures p.error == "" ==> p.pool == ranked
    {
      hide MembersOf, SkippedCount, EffectiveLatency, OrderOf, LatencyOf, StableSort;
      ranked := Rerank(repo, self, now, untrusted);
      p := PlanPool(repo, self, now);
      if p.error == "" {
        ghost var members := MembersOf(repo, Current(), self, now);
        MembersDistinct(repo, Current(), self, now);
        SortElements(members, LatencyOf(repo, Current(), now, untrusted));
        ReplanKeepsPool(members, StableSort(members, LatencyOf(repo, Current(), now, untrusted)), LatencyOf(repo, Current(), now, {}), poolCap);
      }
    }
  }

  /** How many of the members to build have no usable latency. */
  method Unranked(repo: Repo, s: Settings, now: int, build: seq<int>) returns (unranked: nat)
    ensures unranked > 0 <==> exists id :: id in build && EffectiveLatency(Lookup(repo, id), s, now) == 0
  {
    hide EffectiveLatency;
    unranked := 0;
    for i := 0 to |build|
      invariant unranked > 0 <==> exists id :: id in build[..i] && EffectiveLatency(Lookup(repo, id), s, now) == 0
    {
      assert build[..i + 1] == build[..i] + [build[i]];
      if EffectiveLatency(Lookup(repo, build[i]), s, now) == 0 {
        assert build[i] in build[..i + 1];
        unranked := unranked + 1;
      }
    }
    assert build[..|build|] == build;
  }

  lemma OrderLength(repo: Repo, s: Settings, self: int, now: int, persisted: seq<int>)
    ensures var members := MembersOf(repo, s, self, now);
            |OrderOf(members, persisted, LatencyOf(repo, s, now, {}))| == |members|
  {
    MembersDistinct(repo, s, self, now);
    OrderIsPermutation(MembersOf(repo, s, self, now), persisted, LatencyOf(repo, s, now, {}));
  }
}
