/** progress.js: annotates the forum's own profile summary page. A refresh
    reads the user's trust level, rewrites the dynamic tier-2 thresholds at
    level exactly 2, and paints each stat of the target tier green or red. */
module Tracker {
  import opened JsValues
  import opened Api
  import opened Requirements
  import Paths

  /** What `paintStats` writes into one stat element: the current value
      (possibly undefined or null), the needed value, and green or red. */
  datatype Paint = Paint(key: string, current: Value, needed: int, green: bool)

  /** One element: green iff `Number(current) >= Number(needed)`. */
  function PaintOf(r: Req, stats: Record): (p: Paint)
    ensures p.key == r.key && p.needed == r.need && p.current == Get(stats, r.key)
    ensures p.green ==> r.key in stats
    ensures r.key in stats ==> (p.green <==> Numeric(stats[r.key]) >= r.need)
  {
    AtLeastGet(stats, r.key, r.need);
    Paint(r.key, Get(stats, r.key), r.need, AtLeast(Get(stats, r.key), r.need))
  }

  /** `Object.keys(target).forEach(...)`: exactly the keys of the target
      tier are painted, in the tier's order. */
  method PaintStats(target: Tier, stats: Record) returns (painted: seq<Paint>)
    ensures |painted| == |target|
    ensures forall i :: 0 <= i < |target| ==> painted[i] == PaintOf(target[i], stats)
  {
    painted := [];
    var i := 0;
    while i < |target|
      invariant 0 <= i <= |target|
      invariant |painted| == i
      invariant forall j :: 0 <= j < i ==> painted[j] == PaintOf(target[j], stats)
    {
      painted := painted + [PaintOf(target[i], stats)];
      i := i + 1;
    }
  }

  /** What a refresh leaves on the page: nothing (no user name in the path,
      or a fetch failed and the error was only logged), or painted stats. */
  datatype Outcome = NoUsername | Failed | Painted(paints: seq<Paint>)

  /** `refresh` on the page at `path`; the two fetches are inputs. */
  method Refresh(table: RequirementTable, path: string,
                 site: Response<SiteStats>, user: Response<SummaryResponse>) returns (o: Outcome)
    requires table.Valid()
    modifies table
    ensures table.Valid()
    ensures Paths.Username(path).None? ==> o == NoUsername && table.tiers == old(table.tiers)
    ensures Paths.Username(path).Some? && (site.Rejected? || user.Rejected?) ==>
      o == Failed && table.tiers == old(table.tiers)
    ensures Paths.Username(path).Some? && site.Received? && user.Received? ==>
      var level := FirstUserLevel(user.body.users);
      var target := TierOrDefault(table.tiers, level);
      && (table.tiers == if level == Some(2)
            then WithDynamicThresholds(old(table.tiers), site.body.posts30Days, site.body.topics30Days)
            else old(table.tiers))
      && o.Painted? && |o.paints| == |target|
      && forall i :: 0 <= i < |target| ==> o.paints[i] == PaintOf(target[i], user.body.userSummary)
  {
    if Paths.Username(path).None? {
      return NoUsername;
    }
    if site.Rejected? || user.Rejected? {
      return Failed;
    }
    var level := FirstUserLevel(user.body.users);
    if level == Some(2) {
      table.ApplyDynamicThresholds(site.body.posts30Days, site.body.topics30Days);
    }
    var painted := PaintStats(TierOrDefault(table.tiers, level), user.body.userSummary);
    o := Painted(painted);
  }
}
