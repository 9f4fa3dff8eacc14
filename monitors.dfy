/**
 * The data side of the bot's `fetchMonitors` (Bot/index.js): JSON scalars as
 * the bot reads them, the status glyph, the latest heartbeat, the id -> name
 * and group table built from the status page's group list, one merged record
 * per heartbeat entry, and the (group, name) order the records are sorted into.
 */
module Monitors {
  import opened Wrappers
  import opened Text
  import Assoc

  /** A JSON scalar after `JSON.parse`; a property that is not there reads as `Undefined`. */
  datatype Scalar = Undefined | Null | Flag(b: bool) | Num(r: real) | Str(s: string)

  // ---------- status glyphs ----------

  const EmojiUp: string := "<:Green:1424768725009174610>"
  const EmojiDown: string := "<:Red:1424769166702809200>"
  const EmojiPending: string := "<:Yellow:1424769287171735583>"
  const EmojiUnknown: string := "<:Gray:1424769261313720390>"

  /**
   * The glyph for a heartbeat's numeric status: a strict comparison with the
   * numbers 1, 0 and 2, and the unknown glyph for everything else (another
   * number, a string such as "1", null, or no status at all).
   */
  function EmojiFromStatusNumeric(n: Scalar): (e: string)
    ensures e == EmojiUp <==> n == Num(1.0)
    ensures e == EmojiDown <==> n == Num(0.0)
    ensures e == EmojiPending <==> n == Num(2.0)
    ensures e == EmojiUnknown <==> n != Num(1.0) && n != Num(0.0) && n != Num(2.0)
  {
    if n == Num(1.0) then EmojiUp
    else if n == Num(0.0) then EmojiDown
    else if n == Num(2.0) then EmojiPending
    else EmojiUnknown
  }

  // ---------- JavaScript number and string conversions ----------

  /**
   * `x.toFixed(2)` for `0 <= x`: ECMAScript picks the integer `n` for which
   * `n / 100 - x` is closest to zero, the larger one on a tie, and prints it
   * with two digits after the point.
   */
  function Fixed2NonNeg(x: real): (s: string)
    requires 0.0 <= x
    ensures |s| >= 4 && s[|s| - 3] == '.'
    ensures AllDigits(s[..|s| - 3]) && AllDigits(s[|s| - 2..])
    ensures var v := DigitsValue(s[..|s| - 3]) * 100 + DigitsValue(s[|s| - 2..]);
            x * 100.0 - 0.5 < v as real <= x * 100.0 + 0.5
    ensures |s| == 4 || s[0] != '0'
  {
    var n: int := (x * 100.0 + 0.5).Floor;
    assert 0 <= n;
    var whole := NatToString(n / 100);
    var frac := [DigitChar(n % 100 / 10), DigitChar(n % 100 % 10)];
    var s := whole + "." + frac;
    assert s[..|s| - 3] == whole;
    assert s[|s| - 2..] == frac;
    DigitsValueTwo(frac);
    HundredsSplit(n);
    s
  }

  /** The whole part, the tenths and the hundredths of `n` hundredths put back together. */
  lemma HundredsSplit(n: nat)
    ensures (n / 100) * 100 + (n % 100 / 10) * 10 + n % 100 % 10 == n
  {
    var r := n % 100;
    assert n == (n / 100) * 100 + r;
    assert r == (r / 10) * 10 + r % 10;
  }

  lemma DigitsValueTwo(s: string)
    requires |s| == 2 && AllDigits(s)
    ensures DigitsValue(s) == (s[0] as int - '0' as int) * 10 + (s[1] as int - '0' as int)
  {
    var a := s[..1];
    assert s[..|s| - 1] == a;
    assert a[..|a| - 1] == [];
    assert DigitsValue(a) == a[0] as int - '0' as int;
  }

  /** `x.toFixed(2)`; a negative number gets a `-` in front of the digits of its magnitude. */
  function Fixed2(x: real): string {
    if x < 0.0 then "-" + Fixed2NonNeg(-x) else Fixed2NonNeg(x)
  }

  predicate IsIntegral(r: real) {
    r == r.Floor as real
  }

  /** `String(r)` for a number: integral values print as their decimal digits (non-integral ones: see README). */
  function NumberToString(r: real): (s: string)
    ensures IsIntegral(r) ==> s == IntToString(r.Floor)
  {
    if IsIntegral(r) then IntToString(r.Floor) else Fixed2(r)
  }

  /** `String(v)`, as in a template literal. */
  function ToJsString(v: Scalar): string {
    match v
    case Undefined => "undefined"
    case Null => "null"
    case Flag(b) => if b then "true" else "false"
    case Num(r) => NumberToString(r)
    case Str(s) => s
  }

  /**
   * `Number(key)` for an object key made of decimal digits: that number (the
   * empty key is 0); every other key is taken as NaN, modelled as `None`.
   */
  function NumberOfKey(key: string): (n: Option<int>)
    ensures n.Some? <==> AllDigits(key)
    ensures key == "" ==> n == Some(0)
    ensures forall k: nat :: key == NatToString(k) ==> n == Some(k)
  {
    if AllDigits(key) then Some(DigitsValue(key)) else None
  }

  // ---------- heartbeats ----------

  /** One heartbeat object; a missing property is `Undefined`, and a non-object element reads as two `Undefined`s. */
  datatype Beat = Beat(status: Scalar, ping: Scalar)

  /** The value stored under one monitor id in `heartbeatList`: an array of heartbeats, or something else. */
  datatype Beats = NotAnArray | Beats(items: seq<Beat>)

  /** The newest heartbeat (heartbeats are listed oldest first), or null for a non-array or an empty array. */
  function LatestOf(arr: Beats): (r: Option<Beat>)
    ensures r.None? <==> arr.NotAnArray? || |arr.items| == 0
    ensures r.Some? ==> |arr.items| > 0 && r.value == arr.items[|arr.items| - 1]
  {
    if arr.NotAnArray? || |arr.items| == 0 then None else Some(arr.items[|arr.items| - 1])
  }

  // ---------- the name table built from the status page ----------

  /** An entry of a group's `monitorList`; a missing or falsy `name` is the empty string. */
  datatype MetaMonitor = MetaMonitor(id: Scalar, name: string)

  /** An element of `publicGroupList`; a missing or falsy `name` is the empty string, a non-array `monitorList` is `None`. */
  datatype MetaGroup = MetaGroup(name: string, monitorList: Option<seq<MetaMonitor>>)

  /** What the table remembers of one monitor. */
  datatype Meta = Meta(name: string, group: Option<string>)

  /** `g?.name || null`. */
  function GroupNameOf(g: MetaGroup): (r: Option<string>)
    ensures r.Some? ==> r.value != ""
  {
    if g.name == "" then None else Some(g.name)
  }

  /** The group's monitor list, or the empty list when it is not an array. */
  function MonitorsOf(g: MetaGroup): seq<MetaMonitor> {
    g.monitorList.GetOr([])
  }

  /** `m?.id != null`: both null and undefined are skipped. */
  predicate HasId(m: MetaMonitor) {
    m.id != Undefined && m.id != Null
  }

  /** The table entry for one monitor of a group. */
  function MetaOf(gName: Option<string>, m: MetaMonitor): (r: Meta)
    ensures r.name != ""
    ensures m.name != "" ==> r.name == m.name
    ensures m.name == "" ==> r.name == "Monitor " + ToJsString(m.id)
    ensures r.group == gName
  {
    Meta(if m.name != "" then m.name else "Monitor " + ToJsString(m.id), gName)
  }

  /** `nameById.set(String(m.id), ...)` for one monitor: its key and its entry. */
  function PairOf(gName: Option<string>, m: MetaMonitor): (string, Meta) {
    (ToJsString(m.id), MetaOf(gName, m))
  }

  /** The `(key, entry)` assignments one group makes, in list order, skipping monitors without an id. */
  function GroupPairs(gName: Option<string>, ms: seq<MetaMonitor>): (ps: seq<(string, Meta)>)
    ensures |ps| <= |ms|
    ensures forall i :: 0 <= i < |ps| ==> ps[i].1.name != "" && ps[i].1.group == gName
    decreases |ms|
  {
    if ms == [] then []
    else
      var m := ms[|ms| - 1];
      GroupPairs(gName, ms[..|ms| - 1]) + (if HasId(m) then [PairOf(gName, m)] else [])
  }

  /** The assignments of all groups, group by group. */
  function ListPairs(gs: seq<MetaGroup>): (ps: seq<(string, Meta)>)
    ensures forall i :: 0 <= i < |ps| ==> ps[i].1.name != "" && (ps[i].1.group.Some? ==> ps[i].1.group.value != "")
    decreases |gs|
  {
    if gs == [] then []
    else
      var g := gs[|gs| - 1];
      ListPairs(gs[..|gs| - 1]) + GroupPairs(GroupNameOf(g), MonitorsOf(g))
  }

  /** The `nameById` table: id (as a string) -> name and group. */
  function NameTable(gs: seq<MetaGroup>): map<string, Meta> {
    Assoc.MapOfPairs(ListPairs(gs))
  }

  /** Every entry of the table has a non-empty name, and a group that, when present, is non-empty. */
  lemma {:induction false} NameTableEntries(gs: seq<MetaGroup>, k: string)
    requires k in NameTable(gs)
    ensures NameTable(gs)[k].name != ""
    ensures NameTable(gs)[k].group.Some? ==> NameTable(gs)[k].group.value != ""
  {
    Assoc.MapOfPairsOnlyAssigned(ListPairs(gs), k);
  }

  /**
   * Within one group, assignment `t` is the pair of the `t`-th monitor that has
   * an id: one assignment per such monitor, in list order, and none for a
   * monitor whose id is null or undefined.
   */
  lemma {:induction false} GroupPairsSkipsMissingIds(gName: Option<string>, ms: seq<MetaMonitor>)
    ensures var idx := Positions(ms, HasId); var ps := GroupPairs(gName, ms);
      |ps| == |idx| && forall t :: 0 <= t < |ps| ==> ps[t] == PairOf(gName, ms[idx[t]])
    decreases |ms|
  {
    if ms != [] {
      var n := |ms| - 1;
      var init := ms[..n];
      GroupPairsSkipsMissingIds(gName, init);
      var idx0 := Positions(init, HasId);
      var ps0 := GroupPairs(gName, init);
      var idx := Positions(ms, HasId);
      var ps := GroupPairs(gName, ms);
      assert idx == idx0 + (if HasId(ms[n]) then [n] else []);
      assert ps == ps0 + (if HasId(ms[n]) then [PairOf(gName, ms[n])] else []);
      forall t | 0 <= t < |ps| ensures ps[t] == PairOf(gName, ms[idx[t]]) {
        if t < |ps0| {
          assert ps[t] == ps0[t] && idx[t] == idx0[t];
          assert init[idx0[t]] == ms[idx0[t]];
        }
      }
    }
  }

  /**
   * A later group overrides an earlier one: the table for one more group is the
   * table so far updated with that group's own entries.
   */
  lemma NameTableLaterGroupWins(gs: seq<MetaGroup>, g: MetaGroup)
    ensures NameTable(gs + [g]) == NameTable(gs) + Assoc.MapOfPairs(GroupPairs(GroupNameOf(g), MonitorsOf(g)))
  {
    assert (gs + [g])[..|gs|] == gs;
    Assoc.MapOfPairsAppend(ListPairs(gs), GroupPairs(GroupNameOf(g), MonitorsOf(g)));
  }

  // ---------- merged records ----------

  const FallbackGroup: string := "Allgemein"

  /** One merged monitor record, as pushed to `out`. */
  datatype Monitor = Monitor(id: Option<int>, name: string, group: string, emoji: string,
                             ping: Option<real>, uptime: Option<real>)

  /** `meta.group || "Allgemein"`. */
  function GroupOr(group: Option<string>): (r: string)
    ensures r != ""
    ensures group.Some? && group.value != "" ==> r == group.value
    ensures group.None? || group.value == "" ==> r == FallbackGroup
  {
    if group.Some? && group.value != "" then group.value else FallbackGroup
  }

  /** The key of a monitor's 24-hour uptime fraction in `uptimeList`. */
  function UptimeKey(id: string): string {
    id + "_24"
  }

  /** The status of the latest heartbeat, or undefined when there is none (`latest?.status`). */
  function LatestStatus(arr: Beats): Scalar {
    match LatestOf(arr)
    case Some(b) => b.status
    case None => Undefined
  }

  /**
   * The record for heartbeat entry `(id, arr)`: name and group from the table,
   * or `Monitor {id}` and the fallback group; a ping only when the latest
   * heartbeat's ping is a number; an uptime only when the 24-hour entry is a
   * number, and then that fraction times 100.
   */
  function RecordOf(table: map<string, Meta>, uptimeList: map<string, Scalar>, id: string, arr: Beats): (m: Monitor)
    ensures m.id == NumberOfKey(id)
    ensures m.group != ""
    ensures id !in table ==> m.name == "Monitor " + id && m.group == FallbackGroup
    ensures id in table ==> m.name == table[id].name && m.group == GroupOr(table[id].group)
    ensures m.emoji == EmojiFromStatusNumeric(LatestStatus(arr))
    ensures m.ping.Some? <==> LatestOf(arr).Some? && LatestOf(arr).value.ping.Num?
    ensures m.ping.Some? ==> m.ping.value == LatestOf(arr).value.ping.r
    ensures m.uptime.Some? <==> UptimeKey(id) in uptimeList && uptimeList[UptimeKey(id)].Num?
    ensures m.uptime.Some? ==> m.uptime.value == uptimeList[UptimeKey(id)].r * 100.0
  {
    var latest := LatestOf(arr);
    var meta := if id in table then table[id] else Meta("Monitor " + id, None);
    var key := UptimeKey(id);
    var uptimePct := if key in uptimeList && uptimeList[key].Num? then Some(uptimeList[key].r * 100.0) else None;
    Monitor(NumberOfKey(id), meta.name, GroupOr(meta.group),
            EmojiFromStatusNumeric(LatestStatus(arr)),
            if latest.Some? && latest.value.ping.Num? then Some(latest.value.ping.r) else None,
            uptimePct)
  }

  /** The records in heartbeat-list order, before sorting. */
  function Unsorted(table: map<string, Meta>, uptimeList: map<string, Scalar>, heartbeats: seq<(string, Beats)>): (out: seq<Monitor>)
    ensures |out| == |heartbeats|
    ensures forall i :: 0 <= i < |out| ==> out[i] == RecordOf(table, uptimeList, heartbeats[i].0, heartbeats[i].1)
    decreases |heartbeats|
  {
    if heartbeats == [] then []
    else
      var n := |heartbeats| - 1;
      Unsorted(table, uptimeList, heartbeats[..n]) + [RecordOf(table, uptimeList, heartbeats[n].0, heartbeats[n].1)]
  }

  // ---------- ordering ----------

  /** Strict lexicographic order on code points. */
  predicate LexLess(a: string, b: string)
    decreases |a|
  {
    b != [] && (a == [] || a[0] < b[0] || (a[0] == b[0] && LexLess(a[1..], b[1..])))
  }

  lemma {:induction false} LexLessIrreflexive(a: string)
    ensures !LexLess(a, a)
    decreases |a|
  {
    if a != [] { LexLessIrreflexive(a[1..]); }
  }

  lemma {:induction false} LexLessTransitive(a: string, b: string, c: string)
    requires LexLess(a, b) && LexLess(b, c)
    ensures LexLess(a, c)
    decreases |a|
  {
    if a != [] && a[0] == b[0] && b[0] == c[0] {
      LexLessTransitive(a[1..], b[1..], c[1..]);
    }
  }

  lemma {:induction false} LexLessTotal(a: string, b: string)
    ensures a == b || LexLess(a, b) || LexLess(b, a)
    decreases |a|
  {
    if a != [] && b != [] && a[0] == b[0] {
      LexLessTotal(a[1..], b[1..]);
      if a[1..] == b[1..] {
        assert a == [a[0]] + a[1..] && b == [b[0]] + b[1..];
      }
    }
  }

  /** The comparator of `out.sort`: by group, then by name. */
  predicate RecordLe(a: Monitor, b: Monitor) {
    LexLess(a.group, b.group) || (a.group == b.group && (a.name == b.name || LexLess(a.name, b.name)))
  }

  lemma RecordLeTotal(a: Monitor, b: Monitor)
    ensures RecordLe(a, b) || RecordLe(b, a)
  {
    LexLessTotal(a.group, b.group);
    LexLessTotal(a.name, b.name);
  }

  lemma RecordLeTransitive(a: Monitor, b: Monitor, c: Monitor)
    requires RecordLe(a, b) && RecordLe(b, c)
    ensures RecordLe(a, c)
  {
    if LexLess(a.group, b.group) && LexLess(b.group, c.group) {
      LexLessTransitive(a.group, b.group, c.group);
    }
    if a.group == b.group && b.group == c.group && LexLess(a.name, b.name) && LexLess(b.name, c.name) {
      LexLessTransitive(a.name, b.name, c.name);
    }
  }

  predicate SortedByGroupName(s: seq<Monitor>) {
    forall i, j :: 0 <= i < j < |s| ==> RecordLe(s[i], s[j])
  }

  /** `m` inserted into a sorted list before the first record it does not follow. */
  function Insert(m: Monitor, s: seq<Monitor>): (r: seq<Monitor>)
    requires SortedByGroupName(s)
    ensures SortedByGroupName(r)
    ensures multiset(r) == multiset(s) + multiset{m}
    decreases |s|
  {
    if s == [] then [m]
    else if RecordLe(m, s[0]) then
      assert forall j :: 0 <= j < |s| ==> RecordLe(m, s[j]) by {
        forall j | 0 <= j < |s| ensures RecordLe(m, s[j]) {
          if j > 0 { RecordLeTransitive(m, s[0], s[j]); }
        }
      }
      [m] + s
    else
      var rest := Insert(m, s[1..]);
      RecordLeTotal(m, s[0]);
      InsertBehindHead(s, m, rest);
      [s[0]] + rest
  }

  /** The inductive step of `Insert`: the head of a sorted list may stay in front of the insertion into its tail. */
  lemma InsertBehindHead(s: seq<Monitor>, m: Monitor, rest: seq<Monitor>)
    requires s != [] && SortedByGroupName(s) && RecordLe(s[0], m)
    requires SortedByGroupName(rest) && multiset(rest) == multiset(s[1..]) + multiset{m}
    ensures SortedByGroupName([s[0]] + rest)
    ensures multiset([s[0]] + rest) == multiset(s) + multiset{m}
  {
    assert s == [s[0]] + s[1..];
    forall j | 0 <= j < |rest| ensures RecordLe(s[0], rest[j]) {
      assert rest[j] in multiset(rest);
      if rest[j] != m {
        assert rest[j] in multiset(s[1..]);
        var k :| 0 <= k < |s[1..]| && s[1..][k] == rest[j];
        assert s[k + 1] == rest[j];
      }
    }
  }

  /** `out.sort(...)`: the same records, ordered by group and then name. */
  function SortRecords(s: seq<Monitor>): (r: seq<Monitor>)
    ensures SortedByGroupName(r)
    ensures multiset(r) == multiset(s)
    ensures |r| == |s|
    decreases |s|
  {
    if s == [] then []
    else
      assert s == [s[0]] + s[1..];
      Insert(s[0], SortRecords(s[1..]))
  }

  /** What `fetchMonitors` returns for the two fetched payloads. */
  function Merged(groups: seq<MetaGroup>, heartbeats: seq<(string, Beats)>, uptimeList: map<string, Scalar>): seq<Monitor> {
    SortRecords(Unsorted(NameTable(groups), uptimeList, heartbeats))
  }

  /**
   * The merged list has exactly one record per heartbeat entry, is sorted by
   * group and name, and each record is the record of some heartbeat entry;
   * every record has a non-empty name and group.
   */
  lemma {:induction false} MergedShape(groups: seq<MetaGroup>, heartbeats: seq<(string, Beats)>, uptimeList: map<string, Scalar>)
    ensures var out := Merged(groups, heartbeats, uptimeList);
            |out| == |heartbeats| && SortedByGroupName(out)
            && multiset(out) == multiset(Unsorted(NameTable(groups), uptimeList, heartbeats))
            && (forall m :: m in out ==> m.name != "" && m.group != "")
  {
    var out := Merged(groups, heartbeats, uptimeList);
    forall m | m in out ensures m.name != "" && m.group != "" {
      MergedFromEntry(groups, heartbeats, uptimeList, m);
      var i :| 0 <= i < |heartbeats| && m == RecordOf(NameTable(groups), uptimeList, heartbeats[i].0, heartbeats[i].1);
      RecordOfNamed(groups, uptimeList, heartbeats[i].0, heartbeats[i].1);
    }
  }

  /** Every record built from the name table has a non-empty name and group. */
  lemma RecordOfNamed(groups: seq<MetaGroup>, uptimeList: map<string, Scalar>, id: string, arr: Beats)
    ensures var m := RecordOf(NameTable(groups), uptimeList, id, arr); m.name != "" && m.group != ""
  {
    if id in NameTable(groups) {
      NameTableEntries(groups, id);
    } else {
      assert |"Monitor " + id| > 0;
    }
  }

  /** A record in the merged list was made from one specific heartbeat entry. */
  lemma MergedFromEntry(groups: seq<MetaGroup>, heartbeats: seq<(string, Beats)>, uptimeList: map<string, Scalar>, m: Monitor)
    requires m in Merged(groups, heartbeats, uptimeList)
    ensures exists i :: 0 <= i < |heartbeats| && m == RecordOf(NameTable(groups), uptimeList, heartbeats[i].0, heartbeats[i].1)
  {
    var u := Unsorted(NameTable(groups), uptimeList, heartbeats);
    assert m in multiset(u);
    var i :| 0 <= i < |u| && u[i] == m;
  }
}
