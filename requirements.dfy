/** The trust-level requirement table `TL_REQUIREMENTS` shared by the three
    userscripts, and the in-place rewrite of its two dynamic tier-2 entries. */
module Requirements {
  import opened JsValues

  /** One property `key: need` of a tier object. */
  datatype Req = Req(key: string, need: int)

  /** A tier object, its properties in insertion order (the order in which
      `Object.keys` and `Object.entries` list them). */
  type Tier = seq<Req>

  function Keys(t: Tier): seq<string>
  {
    seq(|t|, i requires 0 <= i < |t| => t[i].key)
  }

  predicate DistinctKeys(t: Tier)
  {
    forall i, j :: 0 <= i < j < |t| ==> t[i].key != t[j].key
  }

  /** `t[k]`: the value of property k, None when the tier has no such key. */
  function NeedOf(t: Tier, k: string): Option<int>
  {
    if t == [] then None
    else if t[0].key == k then Some(t[0].need)
    else NeedOf(t[1..], k)
  }

  /** The assignment `t[k] = v`: an existing property keeps its place and
      takes the new value; a new property goes at the end. */
  function SetNeed(t: Tier, k: string, v: int): (r: Tier)
    ensures NeedOf(r, k) == Some(v)
    ensures k in Keys(t) ==> |r| == |t|
    ensures k !in Keys(t) ==> r == t + [Req(k, v)]
  {
    if t == [] then [Req(k, v)]
    else if t[0].key == k then
      assert Keys(t)[0] == k;
      [Req(k, v)] + t[1..]
    else
      assert Keys(t) == [t[0].key] + Keys(t[1..]);
      [t[0]] + SetNeed(t[1..], k, v)
  }

  lemma {:induction false} NeedOfFound(t: Tier, i: nat)
    requires DistinctKeys(t) && i < |t|
    ensures NeedOf(t, t[i].key) == Some(t[i].need)
  {
    if i > 0 {
      assert t[0].key != t[i].key;
      assert t[1..][i - 1] == t[i];
      NeedOfFound(t[1..], i - 1);
    }
  }

  /** Assigning an existing key changes that one value and nothing else:
      the keys and their order stay, every other property stays. */
  lemma {:induction false} SetNeedExisting(t: Tier, k: string, v: int)
    requires DistinctKeys(t) && k in Keys(t)
    ensures |SetNeed(t, k, v)| == |t|
    ensures forall i :: 0 <= i < |t| ==>
      SetNeed(t, k, v)[i] == (if t[i].key == k then Req(k, v) else t[i])
  {
    if t[0].key == k {
      forall i | 0 < i < |t| ensures t[i].key != k {
        assert t[0].key != t[i].key;
      }
    } else {
      var j :| 0 <= j < |t| && Keys(t)[j] == k;
      assert Keys(t[1..])[j - 1] == k;
      SetNeedExisting(t[1..], k, v);
    }
  }

  /** Consequences for the keys of the tier: they stay as they were. */
  lemma SetNeedKeys(t: Tier, k: string, v: int)
    requires DistinctKeys(t) && k in Keys(t)
    ensures Keys(SetNeed(t, k, v)) == Keys(t) && DistinctKeys(SetNeed(t, k, v))
    ensures NeedOf(SetNeed(t, k, v), k) == Some(v)
  {
    SetNeedExisting(t, k, v);
    var r := SetNeed(t, k, v);
    assert forall i :: 0 <= i < |t| ==> r[i].key == t[i].key;
    var j :| 0 <= j < |t| && Keys(t)[j] == k;
    NeedOfFound(r, j);
  }

  /** A dynamic threshold: `Math.min(Math.floor(count / 4), cap)`. Dafny's
      `/` by the positive divisor 4 rounds toward negative infinity, as
      `Math.floor` does, for negative counts too. */
  function DynamicThreshold(count: int, cap: int): (r: int)
    ensures (4 * cap <= count && r == cap) || (count < 4 * cap && 4 * r <= count < 4 * r + 4)
    ensures 0 <= count && 0 <= cap ==> 0 <= r <= cap
    ensures count == 0 && 0 <= cap ==> r == 0
  {
    if count / 4 < cap then count / 4 else cap
  }

  const PostsReadCap: int := 20000
  const TopicsEnteredCap: int := 500

  const Tier0: Tier := [Req("topics_entered", 5), Req("posts_read_count", 30), Req("time_read", 600)]

  /** Tier 1 of progress.js and progress.user.js (`60 * 60` seconds). */
  const Tier1: Tier :=
    [Req("days_visited", 15), Req("likes_given", 1), Req("likes_received", 1), Req("posts_count", 3),
     Req("topics_entered", 20), Req("posts_read_count", 100), Req("time_read", 3600)]

  /** Tier 1 of progress-widget.user.js, which also asks for replies. */
  const WidgetTier1: Tier := Tier1 + [Req("replies_to_different_topics", 3)]

  /** Tier 2, whose `posts_read_count` and `topics_entered` are rewritten at run time. */
  const Tier2: Tier :=
    [Req("days_visited", 50), Req("posts_read_count", 0), Req("topics_entered", 0),
     Req("likes_given", 30), Req("likes_received", 20), Req("posts_count", 10)]

  const WidgetDefaults: map<int, Tier> := map[0 := Tier0, 1 := WidgetTier1, 2 := Tier2]
  const TrackerDefaults: map<int, Tier> := map[0 := Tier0, 1 := Tier1, 2 := Tier2]

  /** What every table keeps: tiers 0, 1 and 2, no tier empty, no key twice
      in a tier, and the two dynamic keys present in tier 2. */
  ghost predicate WellFormed(tiers: map<int, Tier>)
  {
    && tiers.Keys == {0, 1, 2}
    && (forall l :: l in tiers ==> |tiers[l]| > 0 && DistinctKeys(tiers[l]))
    && "posts_read_count" in Keys(tiers[2])
    && "topics_entered" in Keys(tiers[2])
  }

  lemma DefaultsWellFormed()
    ensures WellFormed(WidgetDefaults) && WellFormed(TrackerDefaults)
  {
    Tier1Distinct();
    Tier2Distinct();
    assert Keys(Tier2)[1] == "posts_read_count";
    assert Keys(Tier2)[2] == "topics_entered";
  }

  lemma Tier1Distinct()
    ensures DistinctKeys(Tier1) && DistinctKeys(WidgetTier1)
  {
    forall i | 0 <= i < |Tier1| ensures WidgetTier1[i].key != "replies_to_different_topics" { }
  }

  lemma Tier2Distinct()
    ensures DistinctKeys(Tier2)
  {
  }

  /** The table after the two assignments of a refresh that computes dynamic
      thresholds from the site's 30-day post and topic counts. */
  function WithDynamicThresholds(tiers: map<int, Tier>, posts30Days: int, topics30Days: int): (r: map<int, Tier>)
    requires 2 in tiers
    ensures r.Keys == tiers.Keys
    ensures forall l :: l in tiers && l != 2 ==> r[l] == tiers[l]
  {
    var t2 := SetNeed(tiers[2], "posts_read_count", DynamicThreshold(posts30Days, PostsReadCap));
    tiers[2 := SetNeed(t2, "topics_entered", DynamicThreshold(topics30Days, TopicsEnteredCap))]
  }

  /** What the rewrite makes of one tier-2 property. */
  function Rewritten(e: Req, posts30Days: int, topics30Days: int): Req
  {
    if e.key == "posts_read_count" then Req(e.key, DynamicThreshold(posts30Days, PostsReadCap))
    else if e.key == "topics_entered" then Req(e.key, DynamicThreshold(topics30Days, TopicsEnteredCap))
    else e
  }

  /** The rewrite sets exactly the two dynamic tier-2 values; tiers 0 and 1,
      the order of tier 2's keys and every other tier-2 property are kept. */
  lemma DynamicThresholdsUpdate(tiers: map<int, Tier>, posts30Days: int, topics30Days: int)
    requires WellFormed(tiers)
    ensures var r := WithDynamicThresholds(tiers, posts30Days, topics30Days);
      && WellFormed(r)
      && r[0] == tiers[0] && r[1] == tiers[1]
      && |r[2]| == |tiers[2]| && Keys(r[2]) == Keys(tiers[2])
      && NeedOf(r[2], "posts_read_count") == Some(DynamicThreshold(posts30Days, PostsReadCap))
      && NeedOf(r[2], "topics_entered") == Some(DynamicThreshold(topics30Days, TopicsEnteredCap))
      && forall i :: 0 <= i < |tiers[2]| ==>
           r[2][i] == Rewritten(tiers[2][i], posts30Days, topics30Days)
  {
    var p := DynamicThreshold(posts30Days, PostsReadCap);
    var q := DynamicThreshold(topics30Days, TopicsEnteredCap);
    var t1 := SetNeed(tiers[2], "posts_read_count", p);
    SetNeedExisting(tiers[2], "posts_read_count", p);
    SetNeedKeys(tiers[2], "posts_read_count", p);
    var t2 := SetNeed(t1, "topics_entered", q);
    SetNeedExisting(t1, "topics_entered", q);
    SetNeedKeys(t1, "topics_entered", q);
    var j :| 0 <= j < |t2| && Keys(t2)[j] == "posts_read_count";
    NeedOfFound(t2, j);
  }

  /** Each refresh overwrites what an earlier one computed, so the table
      depends only on the latest site counts; in particular the rewrite is
      idempotent. */
  lemma DynamicThresholdsLastWins(tiers: map<int, Tier>, p1: int, t1: int, p2: int, t2: int)
    requires WellFormed(tiers)
    ensures WithDynamicThresholds(WithDynamicThresholds(tiers, p1, t1), p2, t2)
         == WithDynamicThresholds(tiers, p2, t2)
  {
    var once := WithDynamicThresholds(tiers, p1, t1);
    var a := WithDynamicThresholds(once, p2, t2);
    var b := WithDynamicThresholds(tiers, p2, t2);
    LastWinsTier2(tiers, p1, t1, p2, t2);
    assert a.Keys == b.Keys;
    forall l | l in a ensures a[l] == b[l] {
      if l != 2 {
        assert a[l] == once[l] == tiers[l];
      }
    }
  }

  /** The tier-2 part of the above: each entry is rewritten from scratch. */
  lemma LastWinsTier2(tiers: map<int, Tier>, p1: int, t1: int, p2: int, t2: int)
    requires WellFormed(tiers)
    ensures 2 in WithDynamicThresholds(tiers, p1, t1)
    ensures WithDynamicThresholds(WithDynamicThresholds(tiers, p1, t1), p2, t2)[2]
         == WithDynamicThresholds(tiers, p2, t2)[2]
  {
    var once := WithDynamicThresholds(tiers, p1, t1);
    DynamicThresholdsUpdate(tiers, p1, t1);
    DynamicThresholdsUpdate(once, p2, t2);
    DynamicThresholdsUpdate(tiers, p2, t2);
    var a := WithDynamicThresholds(once, p2, t2)[2];
    var b := WithDynamicThresholds(tiers, p2, t2)[2];
    forall i | 0 <= i < |b| ensures a[i] == b[i] {
      assert once[2][i] == Rewritten(tiers[2][i], p1, t1);
    }
  }

  /** `TL_REQUIREMENTS[level] ?? TL_REQUIREMENTS[0]` (and, alike for these
      always-truthy objects, `||`): a level without a tier uses tier 0. */
  function TierOrDefault(tiers: map<int, Tier>, level: Option<int>): (t: Tier)
    requires 0 in tiers
    ensures level.Some? && level.value in tiers ==> t == tiers[level.value]
    ensures (level.None? || level.value !in tiers) ==> t == tiers[0]
  {
    if level.Some? && level.value in tiers then tiers[level.value] else tiers[0]
  }

  /** The module-global, mutable `TL_REQUIREMENTS` object. */
  class RequirementTable {
    var tiers: map<int, Tier>

    ghost predicate Valid()
      reads this
    {
      WellFormed(tiers)
    }

    constructor (initial: map<int, Tier>)
      requires WellFormed(initial)
      ensures Valid() && tiers == initial
    {
      tiers := initial;
    }

    /** `TL_REQUIREMENTS[2].posts_read_count = ...; TL_REQUIREMENTS[2].topics_entered = ...`. */
    method ApplyDynamicThresholds(posts30Days: int, topics30Days: int)
      requires Valid()
      modifies this
      ensures Valid()
      ensures tiers == WithDynamicThresholds(old(tiers), posts30Days, topics30Days)
    {
      DynamicThresholdsUpdate(tiers, posts30Days, topics30Days);
      tiers := tiers[2 := SetNeed(tiers[2], "posts_read_count", DynamicThreshold(posts30Days, PostsReadCap))];
      tiers := tiers[2 := SetNeed(tiers[2], "topics_entered", DynamicThreshold(topics30Days, TopicsEnteredCap))];
    }
  }
}
