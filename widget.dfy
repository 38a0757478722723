/** progress-widget.user.js: the floating widget. A refresh reads the
    user's trust level, stops at level 3 or more, rewrites the dynamic tier-2
    thresholds at level 2, and evaluates the tier of the current level into a
    list of items, a met count, a percentage and a status message. */
module Widget {
  import opened JsValues
  import opened Api
  import opened Requirements

  /** One row of the popup: the requirement's key, the current value
      `cur`, the needed value and whether it is met (`ok`). */
  datatype Item = Item(key: string, cur: Value, need: int, ok: bool)

  /** `cur`: `time_read` is read as it is, every other key through `?? 0`. */
  function Current(stats: Record, key: string): Value
  {
    if key == "time_read" then Get(stats, key) else OrZero(Get(stats, key))
  }

  /** `Object.entries(req).map(...)`: one item per property of the tier, in
      the tier's order. A missing stat counts as 0, except `time_read`,
      which is then never met. */
  function Items(req: Tier, stats: Record): (items: seq<Item>)
    ensures |items| == |req|
    ensures forall i :: 0 <= i < |req| ==> items[i].key == req[i].key && items[i].need == req[i].need
    ensures forall i :: 0 <= i < |req| && req[i].key != "time_read" ==>
      items[i].cur == Num(if req[i].key in stats then Numeric(stats[req[i].key]) else 0)
    ensures forall i :: 0 <= i < |req| && req[i].key == "time_read" ==>
      items[i].cur == Get(stats, "time_read")
    ensures forall i :: 0 <= i < |req| && req[i].key != "time_read" ==>
      items[i].cur.Num? &&
      (items[i].ok <==> (if req[i].key in stats then Numeric(stats[req[i].key]) else 0) >= req[i].need)
    ensures forall i :: 0 <= i < |req| && req[i].key == "time_read" ==>
      (items[i].ok <==> req[i].key in stats && Numeric(stats[req[i].key]) >= req[i].need)
  {
    if req == [] then []
    else
      var r := req[0];
      var cur := Current(stats, r.key);
      AtLeastGet(stats, r.key, r.need);
      [Item(r.key, cur, r.need, AtLeast(cur, r.need))] + Items(req[1..], stats)
  }

  /** `items.filter(i => i.ok).length`. */
  function CountOk(items: seq<Item>): (n: nat)
    ensures n == multiset(seq(|items|, i requires 0 <= i < |items| => items[i].ok))[true]
    ensures n <= |items|
    ensures n == |items| <==> forall i :: 0 <= i < |items| ==> items[i].ok
    ensures n == 0 <==> forall i :: 0 <= i < |items| ==> !items[i].ok
  {
    if items == [] then 0
    else
      var rest := CountOk(items[1..]);
      assert forall i :: 1 <= i < |items| ==> items[i] == items[1..][i - 1];
      assert seq(|items|, i requires 0 <= i < |items| => items[i].ok)
          == [items[0].ok] + seq(|items[1..]|, i requires 0 <= i < |items[1..]| => items[1..][i].ok);
      (if items[0].ok then 1 else 0) + rest
  }

  /** `Math.round(okCnt / total * 100)` in exact integer arithmetic: the
      nearest integer to 100 * okCnt / total, halves rounded up. With no
      items the source divides 0 by 0 and gets NaN, here None. */
  function Percent(okCnt: nat, total: nat): (pct: Option<int>)
    ensures pct.None? <==> total == 0
    ensures pct.Some? ==> total * (2 * pct.value - 1) <= 200 * okCnt < total * (2 * pct.value + 1)
    ensures pct.Some? && okCnt <= total ==> 0 <= pct.value <= 100
    ensures pct.Some? && okCnt <= total < 200 ==> (pct.value == 100 <==> okCnt == total)
  {
    if total == 0 then None
    else
      var p := (200 * okCnt + total) / (2 * total);
      RoundingBounds(200 * okCnt + total, 2 * total, p);
      RoundingRange(okCnt, total, p);
      Some(p)
  }

  lemma RoundingBounds(a: nat, d: nat, p: int)
    requires d > 0 && p == a / d
    ensures d * p <= a < d * p + d
  {
  }

  lemma RoundingRange(k: nat, n: nat, p: int)
    requires 0 < n
    requires 2 * n * p <= 200 * k + n < 2 * n * p + 2 * n
    ensures k <= n ==> 0 <= p <= 100
    ensures k <= n < 200 ==> (p == 100 <==> k == n)
  {
    if k <= n {
      if p < 0 {
        MulLe(n, p, -1);
      }
      if p > 100 {
        MulLe(n, 101, p);
      }
      if p < 100 {
        MulLe(n, p, 99);
      }
    }
  }

  lemma MulLe(n: int, a: int, b: int)
    requires 0 <= n && a <= b
    ensures n * a <= n * b
  {
  }

  /** The footer message: congratulations on the next level, or how many
      targets are still missing. */
  datatype Status = Congrats(nextLevel: int) | NeedMore(missing: int)

  function StatusOf(tl: int, okCnt: nat, total: nat): (s: Status)
    ensures s.Congrats? <==> okCnt == total
    ensures s.Congrats? ==> s.nextLevel == tl + 1
    ensures s.NeedMore? ==> okCnt + s.missing == total
  {
    if okCnt == total then Congrats(tl + 1) else NeedMore(total - okCnt)
  }

  /** `${n}` for an integer n: its decimal digits, with a leading `-` when
      negative. */
  function DecimalText(n: int): string
  {
    if n < 0 then "-" + NaturalText(-n) else NaturalText(n)
  }

  function NaturalText(n: nat): string
  {
    if n < 10 then [DigitChar(n)] else NaturalText(n / 10) + [DigitChar(n % 10)]
  }

  function DigitChar(d: nat): char
    requires d < 10
  {
    "0123456789"[d]
  }

  /** Reading the digits back, the partner of `NaturalText`. */
  function ParseNatural(s: string): nat
  {
    if s == [] then 0
    else
      var c := s[|s| - 1];
      ParseNatural(s[..|s| - 1]) * 10 + (if '0' <= c <= '9' then (c as int) - ('0' as int) else 0)
  }

  lemma {:induction false} NaturalTextRoundTrip(n: nat)
    ensures |NaturalText(n)| > 0
    ensures forall i :: 0 <= i < |NaturalText(n)| ==> '0' <= NaturalText(n)[i] <= '9'
    ensures ParseNatural(NaturalText(n)) == n
  {
    if n >= 10 {
      NaturalTextRoundTrip(n / 10);
      var s := NaturalText(n / 10) + [DigitChar(n % 10)];
      assert s[..|s| - 1] == NaturalText(n / 10);
    }
  }

  /** `$('#ld-msg').innerText` after a successful refresh. */
  function Message(s: Status): string
  {
    match s
    case Congrats(l) => "Congrats! You meet TL" + DecimalText(l) + "."
    case NeedMore(m) => "Need " + DecimalText(m) + " more target(s)."
  }

  /** The message tells the two cases apart. */
  lemma MessageKind(s: Status)
    ensures s.Congrats? <==> "Congrats!" <= Message(s)
  {
    if s.NeedMore? {
      assert Message(s)[0] == 'N';
    }
  }

  /** Everything a successful refresh puts on screen, for level `tl`. */
  datatype Report = Report(level: int, items: seq<Item>, okCnt: nat, pct: Option<int>, status: Status)

  function Evaluate(tl: int, req: Tier, stats: Record): (r: Report)
    ensures r.level == tl && r.items == Items(req, stats) && r.okCnt == CountOk(r.items)
    ensures r.pct == Percent(r.okCnt, |req|)
    ensures r.okCnt <= |r.items| == |req|
    ensures r.status.Congrats? <==> forall i :: 0 <= i < |r.items| ==> r.items[i].ok
    ensures r.status.Congrats? ==> r.status.nextLevel == tl + 1
    ensures r.status.NeedMore? ==> r.status.missing == |req| - r.okCnt > 0
    ensures |req| > 0 ==> r.pct.Some? && 0 <= r.pct.value <= 100
    ensures 0 < |req| < 200 ==> (r.pct == Some(100) <==> r.status.Congrats?)
  {
    var items := Items(req, stats);
    var okCnt := CountOk(items);
    Report(tl, items, okCnt, Percent(okCnt, |items|), StatusOf(tl, okCnt, |items|))
  }

  /** A missing or null `time_read` is never met when the tier asks for a
      positive reading time, as tiers 0 and 1 of the table do. */
  lemma MissingTimeReadNotMet(tl: int, req: Tier, stats: Record, i: nat)
    requires i < |req| && req[i].key == "time_read" && req[i].need > 0
    requires "time_read" !in stats || stats["time_read"].None?
    ensures !Evaluate(tl, req, stats).items[i].ok
    ensures Evaluate(tl, req, stats).status.NeedMore?
  {
  }

  lemma DefaultTimeReadPositive(l: int, i: nat)
    requires l in WidgetDefaults && i < |WidgetDefaults[l]| && WidgetDefaults[l][i].key == "time_read"
    ensures WidgetDefaults[l][i].need > 0
  {
  }

  datatype Failure = NotLoggedIn | FetchFailed | NoSuchTier

  /** What `refresh` leaves on screen: an error message, nothing new (the
      early return at level 3 or more), or a full report. */
  datatype Outcome = Failed(reason: Failure) | Stopped | Shown(report: Report)

  /** `tl >= 3` for a trust level that may be undefined (false then). */
  predicate AtLeastThree(tl: Option<int>)
  {
    tl.Some? && tl.value >= 3
  }

  /** `refresh`. The user name is resolved by the caller (None: not logged
      in); the two fetches are inputs. */
  method Refresh(table: RequirementTable, username: Option<string>,
                 about: Response<SiteStats>, udata: Response<SummaryResponse>) returns (o: Outcome)
    requires table.Valid()
    modifies table
    ensures table.Valid()
    ensures username.None? ==> o == Failed(NotLoggedIn) && table.tiers == old(table.tiers)
    ensures username.Some? && (about.Rejected? || udata.Rejected?) ==>
      o == Failed(FetchFailed) && table.tiers == old(table.tiers)
    ensures username.Some? && about.Received? && udata.Received? ==>
      var tl := FirstUserLevel(udata.body.users);
      && (AtLeastThree(tl) ==> o == Stopped)
      && (table.tiers == if tl == Some(2)
            then WithDynamicThresholds(old(table.tiers), about.body.posts30Days, about.body.topics30Days)
            else old(table.tiers))
      && (!AtLeastThree(tl) && tl.Some? && tl.value in table.tiers ==>
            o == Shown(Evaluate(tl.value, table.tiers[tl.value], udata.body.userSummary)))
      && (!AtLeastThree(tl) && (tl.None? || tl.value !in table.tiers) ==> o == Failed(NoSuchTier))
  {
    if username.None? {
      return Failed(NotLoggedIn);
    }
    if about.Rejected? || udata.Rejected? {
      return Failed(FetchFailed);
    }
    var stats := udata.body.userSummary;
    var tl := FirstUserLevel(udata.body.users);
    if AtLeastThree(tl) {
      return Stopped;
    }
    if tl == Some(2) {
      table.ApplyDynamicThresholds(about.body.posts30Days, about.body.topics30Days);
    }
    if tl.None? || tl.value !in table.tiers {
      return Failed(NoSuchTier);
    }
    o := Shown(Evaluate(tl.value, table.tiers[tl.value], stats));
  }

  /** A tier-0 user who entered 5 topics, read 10 posts and 700 seconds:
      two of three targets met, 67 percent, one target to go. */
  lemma TierZeroExample()
    ensures var r := Evaluate(0, WidgetDefaults[0],
                              map["topics_entered" := Some(5), "posts_read_count" := Some(10), "time_read" := Some(700)]);
      r.okCnt == 2 && r.pct == Some(67) && r.status == NeedMore(1)
  {
    var stats := map["topics_entered" := Some(5), "posts_read_count" := Some(10), "time_read" := Some(700)];
    assert WidgetDefaults[0] == Tier0;
    var items := Items(Tier0, stats);
    assert items[0].ok && !items[1].ok && items[2].ok;
    assert items[1..][1..][1..] == [];
    assert CountOk(items[1..][1..]) == 1;
    assert CountOk(items[1..]) == 1;
    assert CountOk(items) == 2;
    assert Percent(2, 3) == Some(67);
  }

  /** The message for one missing target. */
  lemma NeedOneMessage()
    ensures Message(NeedMore(1)) == "Need 1 more target(s)."
  {
    assert DecimalText(1) == "1";
  }
}
