/** progress.user.js: the profile-page tracker that also reads the fresher
    `directory_items` endpoint. A refresh selects the user's directory
    record, lets its non-null counters override the summary's, maps every
    level of 3 or more to tier 2 ("maintain" mode), rewrites the dynamic
    thresholds whenever tier 2 is used, and paints the stats that have a
    value. */
module DirTracker {
  import opened JsValues
  import opened Api
  import opened Requirements
  import Paths

  /** An item's `user`: its name and level, either of which may be missing. */
  datatype DirUser = DirUser(username: Option<string>, trustLevel: Option<int>)

  /** One entry of `directory_items`: its `user` (possibly missing) and its
      counters, under the directory's own field names. */
  datatype DirectoryItem = DirectoryItem(user: Option<DirUser>, fields: Record)

  /** `i.user?.username === username`. */
  predicate Matches(item: DirectoryItem, username: string)
  {
    item.user.Some? && item.user.value.username == Some(username)
  }

  /** `directory_items.find(...)`: the index of the first matching item. */
  function FindByName(items: seq<DirectoryItem>, username: string): (r: Option<nat>)
    ensures r.Some? ==>
      && r.value < |items| && Matches(items[r.value], username)
      && forall j :: 0 <= j < r.value ==> !Matches(items[j], username)
    ensures r.None? ==> forall j :: 0 <= j < |items| ==> !Matches(items[j], username)
  {
    if items == [] then None
    else if Matches(items[0], username) then Some(0)
    else
      var rest := FindByName(items[1..], username);
      assert forall j :: 1 <= j < |items| ==> items[j] == items[1..][j - 1];
      match rest
      case None => None
      case Some(i) => Some(i + 1)
  }

  datatype Selection = Found(item: DirectoryItem) | UserNotFound

  /** `find(...) || directory_items[0]`, and `throw Error('user not found')`
      when there is no item at all. When no item matches, the first item is
      taken although it belongs to some other user. */
  function SelectItem(items: seq<DirectoryItem>, username: string): (r: Selection)
    ensures r.UserNotFound? <==> items == []
    ensures (exists i :: 0 <= i < |items| && Matches(items[i], username)) ==>
      r.Found? && Matches(r.item, username) &&
      exists i :: 0 <= i < |items| && r.item == items[i] && forall j :: 0 <= j < i ==> !Matches(items[j], username)
    ensures items != [] && (forall i :: 0 <= i < |items| ==> !Matches(items[i], username)) ==>
      r == Found(items[0])
  {
    match FindByName(items, username)
    case Some(i) => Found(items[i])
    case None => if items == [] then UserNotFound else Found(items[0])
  }

  /** `Object.entries` of an object whose values are numbers, `null` or
      `undefined` (None stands for both of the last two). */
  type Entries = seq<(string, Option<int>)>

  /** `item[k]`, where `undefined` and `null` are alike for what follows. */
  function Field(item: DirectoryItem, k: string): Option<int>
  {
    if k in item.fields then item.fields[k] else None
  }

  /** `item.user?.trust_level ?? 0`. */
  function ItemTrustLevel(item: DirectoryItem): int
  {
    if item.user.Some? && item.user.value.trustLevel.Some? then item.user.value.trustLevel.value else 0
  }

  const RecordKeys: seq<string> := ["days_visited", "likes_given", "likes_received", "posts_count",
                                    "topics_entered", "posts_read_count", "time_read", "trust_level"]

  /** The object `fetchUserDirStats` returns, as its entries in order:
      `post_count` is renamed `posts_count`, `posts_read` is renamed
      `posts_read_count`, `time_read` is null, `trust_level` is the item
      user's level or 0, and the other counters keep their names. */
  function DirRecordOf(item: DirectoryItem): (r: Entries)
    ensures |r| == |RecordKeys| && forall i :: 0 <= i < |r| ==> r[i].0 == RecordKeys[i]
    ensures r[3].1 == Field(item, "post_count") && r[5].1 == Field(item, "posts_read")
    ensures r[0].1 == Field(item, "days_visited") && r[1].1 == Field(item, "likes_given")
    ensures r[2].1 == Field(item, "likes_received") && r[4].1 == Field(item, "topics_entered")
    ensures r[6].1 == None && r[7].1 == Some(ItemTrustLevel(item))
  {
    [ ("days_visited", Field(item, "days_visited")),
      ("likes_given", Field(item, "likes_given")),
      ("likes_received", Field(item, "likes_received")),
      ("posts_count", Field(item, "post_count")),
      ("topics_entered", Field(item, "topics_entered")),
      ("posts_read_count", Field(item, "posts_read")),
      ("time_read", None),
      ("trust_level", Some(ItemTrustLevel(item))) ]
  }

  /** `obj[k]` read from the entries: the value of the last entry with key
      k, None when there is none. */
  function EntryValue(e: Entries, k: string): Option<int>
  {
    if e == [] then None
    else if e[|e| - 1].0 == k then e[|e| - 1].1
    else EntryValue(e[..|e| - 1], k)
  }

  /** `dir.trust_level ?? summaryObj.trust_level ?? 0`, where the summary's
      level is already a number. */
  function EffectiveTrustLevel(dir: Entries, summaryLevel: int): int
  {
    match EntryValue(dir, "trust_level")
    case Some(l) => l
    case None => summaryLevel
  }

  /** The directory record always carries a level, so it decides: the item
      user's level, or 0 when the item has no user or no level. */
  lemma EffectiveTrustLevelFromItem(item: DirectoryItem, summaryLevel: int)
    ensures EffectiveTrustLevel(DirRecordOf(item), summaryLevel) == ItemTrustLevel(item)
    ensures item.user.None? ==> EffectiveTrustLevel(DirRecordOf(item), summaryLevel) == 0
  {
  }

  /** Whether the forEach in `refresh` copies this directory entry. */
  predicate Overrides(e: (string, Option<int>))
  {
    e.1.Some? && e.0 != "trust_level"
  }

  /** The stats after `{ ...summary }` and the forEach over the first
      entries of the directory record. */
  function Merged(summary: Record, dir: Entries): Record
  {
    if dir == [] then summary
    else
      var prior := Merged(summary, dir[..|dir| - 1]);
      var e := dir[|dir| - 1];
      if Overrides(e) then prior[e.0 := e.1] else prior
  }

  /** The merge as the source writes it: copy, then assign key by key. */
  method MergeStats(summary: Record, dir: Entries) returns (stats: Record)
    ensures stats == Merged(summary, dir)
  {
    stats := summary;
    var i := 0;
    while i < |dir|
      invariant 0 <= i <= |dir|
      invariant stats == Merged(summary, dir[..i])
    {
      var (k, v) := dir[i];
      assert dir[..i + 1][..i] == dir[..i];
      if v.Some? && k != "trust_level" {
        stats := stats[k := v];
      }
      i := i + 1;
    }
    assert dir[..|dir|] == dir;
  }

  /** The merged stats hold every summary key and every key the directory
      overrides, and nothing else. */
  lemma {:induction false} MergedKeys(summary: Record, dir: Entries)
    ensures Merged(summary, dir).Keys
         == summary.Keys + (set i | 0 <= i < |dir| && Overrides(dir[i]) :: dir[i].0)
  {
    if dir != [] {
      var front := dir[..|dir| - 1];
      MergedKeys(summary, front);
      assert forall i :: 0 <= i < |front| ==> front[i] == dir[i];
      var sf := set i | 0 <= i < |front| && Overrides(front[i]) :: front[i].0;
      var sd := set i | 0 <= i < |dir| && Overrides(dir[i]) :: dir[i].0;
      assert sd == sf + (if Overrides(dir[|dir| - 1]) then {dir[|dir| - 1].0} else {});
    }
  }

  /** A summary value that no directory entry overrides is kept. */
  lemma {:induction false} MergedKeeps(summary: Record, dir: Entries, k: string)
    requires k in summary
    requires forall j :: 0 <= j < |dir| && dir[j].0 == k ==> !Overrides(dir[j])
    ensures k in Merged(summary, dir) && Merged(summary, dir)[k] == summary[k]
  {
    if dir != [] {
      var front := dir[..|dir| - 1];
      assert forall j :: 0 <= j < |front| ==> front[j] == dir[j];
      MergedKeeps(summary, front, k);
    }
  }

  /** The last overriding directory entry for a key decides its value. */
  lemma {:induction false} MergedOverrides(summary: Record, dir: Entries, i: nat)
    requires i < |dir| && Overrides(dir[i])
    requires forall j :: i < j < |dir| && dir[j].0 == dir[i].0 ==> !Overrides(dir[j])
    ensures dir[i].0 in Merged(summary, dir) && Merged(summary, dir)[dir[i].0] == dir[i].1
  {
    if i < |dir| - 1 {
      var front := dir[..|dir| - 1];
      assert forall j :: 0 <= j < |front| ==> front[j] == dir[j];
      MergedOverrides(summary, front, i);
    }
  }

  /** A directory record whose every value other than `trust_level` is
      null changes nothing. */
  lemma {:induction false} MergedAllNull(summary: Record, dir: Entries)
    requires forall j :: 0 <= j < |dir| ==> !Overrides(dir[j])
    ensures Merged(summary, dir) == summary
  {
    if dir != [] {
      MergedAllNull(summary, dir[..|dir| - 1]);
    }
  }

  /** The record of a directory item whose six counters are all null leaves
      the summary stats as they are, although its `trust_level` is a number. */
  lemma MergedNullCounters(summary: Record, item: DirectoryItem)
    requires Field(item, "days_visited").None? && Field(item, "likes_given").None?
    requires Field(item, "likes_received").None? && Field(item, "post_count").None?
    requires Field(item, "topics_entered").None? && Field(item, "posts_read").None?
    ensures Merged(summary, DirRecordOf(item)) == summary
  {
    MergedAllNull(summary, DirRecordOf(item));
  }

  /** What the merge does with the record of a directory item: `time_read`
      and `trust_level` stay as the summary has them (present or not);
      every other summary key stays present; the six counters take the
      directory's value when it is not null. */
  lemma MergedRecord(summary: Record, item: DirectoryItem)
    ensures var m := Merged(summary, DirRecordOf(item));
      && summary.Keys <= m.Keys
      && ("time_read" in m <==> "time_read" in summary)
      && ("time_read" in summary ==> m["time_read"] == summary["time_read"])
      && ("trust_level" in m <==> "trust_level" in summary)
      && ("trust_level" in summary ==> m["trust_level"] == summary["trust_level"])
      && forall i :: 0 <= i < 6 && DirRecordOf(item)[i].1.Some? ==>
           RecordKeys[i] in m && m[RecordKeys[i]] == DirRecordOf(item)[i].1
  {
    var r := DirRecordOf(item);
    MergedKeys(summary, r);
    var m := Merged(summary, r);
    var over := set i | 0 <= i < |r| && Overrides(r[i]) :: r[i].0;
    assert "time_read" !in over && "trust_level" !in over;
    if "time_read" in summary {
      MergedKeeps(summary, r, "time_read");
    }
    if "trust_level" in summary {
      MergedKeeps(summary, r, "trust_level");
    }
    forall i | 0 <= i < 6 && r[i].1.Some? ensures RecordKeys[i] in m && m[RecordKeys[i]] == r[i].1 {
      MergedOverrides(summary, r, i);
    }
  }

  const MaintainTier: int := 2

  /** `isMaintain ? TL3_MAINTAIN_IDX : trustLevel`: every level of 3 or more
      is measured against tier 2. */
  function TierIndex(level: int): (idx: int)
    ensures level >= 3 ==> idx == MaintainTier
    ensures level < 3 ==> idx == level
    ensures idx <= 2 && (idx == 2 <==> level >= 2)
  {
    if level >= 3 then MaintainTier else level
  }

  /** What `paintStats` writes into one stat element: the value (known to
      be a number here), the target, and green or red. */
  datatype Paint = Paint(key: string, current: int, needed: int, green: bool)

  /** `if (stats[k] == null) return;` and otherwise one painted element,
      green iff `Number(stats[k]) >= Number(target[k])`. */
  function PaintIfPresent(r: Req, stats: Record): seq<Paint>
  {
    if r.key in stats && stats[r.key].Some?
    then [Paint(r.key, stats[r.key].value, r.need, stats[r.key].value >= r.need)]
    else []
  }

  /** The elements painted for the first requirements of the target. */
  function DirPaints(target: Tier, stats: Record): seq<Paint>
  {
    if target == [] then []
    else DirPaints(target[..|target| - 1], stats) + PaintIfPresent(target[|target| - 1], stats)
  }

  /** Stats that are null or undefined are skipped; every other key of the
      target is painted, green iff its value reaches the target. */
  lemma {:induction false} DirPaintsSpec(target: Tier, stats: Record)
    ensures forall p :: p in DirPaints(target, stats) ==>
      && Req(p.key, p.needed) in target
      && p.key in stats && stats[p.key] == Some(p.current)
      && (p.green <==> p.current >= p.needed)
    ensures forall i :: 0 <= i < |target| && target[i].key in stats && stats[target[i].key].Some? ==>
      Paint(target[i].key, stats[target[i].key].value, target[i].need,
            stats[target[i].key].value >= target[i].need) in DirPaints(target, stats)
    ensures |DirPaints(target, stats)| <= |target|
  {
    if target != [] {
      var front := target[..|target| - 1];
      DirPaintsSpec(front, stats);
      assert forall i :: 0 <= i < |front| ==> front[i] == target[i];
      assert target == front + [target[|target| - 1]];
    }
  }

  /** `paintStats(trustLevel, stats)` for the tier index chosen above. */
  method PaintStats(tiers: map<int, Tier>, tierIndex: int, stats: Record) returns (painted: seq<Paint>)
    requires 0 in tiers
    ensures painted == DirPaints(TierOrDefault(tiers, Some(tierIndex)), stats)
  {
    var target := TierOrDefault(tiers, Some(tierIndex));
    painted := [];
    var i := 0;
    while i < |target|
      invariant 0 <= i <= |target|
      invariant painted == DirPaints(target[..i], stats)
    {
      assert target[..i + 1][..i] == target[..i];
      var k := target[i].key;
      if k in stats && stats[k].Some? {
        painted := painted + [Paint(k, stats[k].value, target[i].need, stats[k].value >= target[i].need)];
      }
      i := i + 1;
    }
    assert target[..|target|] == target;
  }

  datatype Outcome = NoUsername | Failed | Painted(paints: seq<Paint>)

  /** `refresh` on the page at `path`; the three fetches are inputs. A
      rejected fetch, or a directory with no item at all, aborts the
      refresh (the error is only logged) before anything is changed. */
  method Refresh(table: RequirementTable, path: string, site: Response<SiteStats>,
                 summary: Response<SummaryResponse>, directory: Response<seq<DirectoryItem>>)
    returns (o: Outcome)
    requires table.Valid()
    modifies table
    ensures table.Valid()
    ensures Paths.Username(path).None? ==> o == NoUsername && table.tiers == old(table.tiers)
    ensures (Paths.Username(path).Some? &&
             (site.Rejected? || summary.Rejected? || directory.Rejected? ||
              SelectItem(directory.body, Paths.Username(path).value).UserNotFound?)) ==>
      o == Failed && table.tiers == old(table.tiers)
    ensures (Paths.Username(path).Some? && site.Received? && summary.Received? && directory.Received? &&
             SelectItem(directory.body, Paths.Username(path).value).Found?) ==>
      var dir := DirRecordOf(SelectItem(directory.body, Paths.Username(path).value).item);
      var stats := Merged(summary.body.userSummary, dir);
      var idx := TierIndex(EffectiveTrustLevel(dir, SummaryTrustLevel(summary.body.users)));
      && (table.tiers == if idx == 2
            then WithDynamicThresholds(old(table.tiers), site.body.posts30Days, site.body.topics30Days)
            else old(table.tiers))
      && o == Painted(DirPaints(TierOrDefault(table.tiers, Some(idx)), stats))
  {
    var username := Paths.Username(path);
    if username.None? {
      return NoUsername;
    }
    if site.Rejected? || summary.Rejected? || directory.Rejected? {
      return Failed;
    }
    var selection := SelectItem(directory.body, username.value);
    if selection.UserNotFound? {
      return Failed;
    }
    var dir := DirRecordOf(selection.item);
    var stats := MergeStats(summary.body.userSummary, dir);
    var trustLevel := EffectiveTrustLevel(dir, SummaryTrustLevel(summary.body.users));
    var tierIndex := TierIndex(trustLevel);
    if tierIndex == 2 {
      table.ApplyDynamicThresholds(site.body.posts30Days, site.body.topics30Days);
    }
    var painted := PaintStats(table.tiers, tierIndex, stats);
    o := Painted(painted);
  }
}
