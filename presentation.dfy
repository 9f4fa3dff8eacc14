/**
 * The part of the bot's `updateStatus` (Bot/index.js) between fetching and
 * posting: the include list parsed from its comma-separated setting, the
 * case-insensitive group filter, the buckets per group, and the embed
 * description rendered from them.
 */
module Presentation {
  import opened Wrappers
  import opened Text
  import opened Monitors

  // ---------- the include list ----------

  /** The characters JavaScript's `String.prototype.trim` removes: white space and line terminators. */
  const JsWhitespace: set<char> := {
    '\t', '\n', '\U{000B}', '\U{000C}', '\r', ' ', '\U{00A0}', '\U{1680}',
    '\U{2000}', '\U{2001}', '\U{2002}', '\U{2003}', '\U{2004}', '\U{2005}', '\U{2006}',
    '\U{2007}', '\U{2008}', '\U{2009}', '\U{200A}', '\U{2028}', '\U{2029}', '\U{202F}',
    '\U{205F}', '\U{3000}', '\U{FEFF}'
  }

  /** `.map(f).filter(Boolean)` on strings: the images under `f` that are not empty, in order. */
  function NonEmptyMapped(parts: seq<string>, f: string -> string): (r: seq<string>)
    ensures |r| <= |parts|
    ensures forall i :: 0 <= i < |r| ==> r[i] != ""
    decreases |parts|
  {
    if parts == [] then []
    else
      var n := |parts| - 1;
      var t := f(parts[n]);
      NonEmptyMapped(parts[..n], f) + (if t != "" then [t] else [])
  }

  /** A string is in the list exactly when it is non-empty and is the image of some part. */
  lemma {:induction false} NonEmptyMappedMembers(parts: seq<string>, f: string -> string, x: string)
    ensures x in NonEmptyMapped(parts, f) <==> x != "" && exists i :: 0 <= i < |parts| && f(parts[i]) == x
    decreases |parts|
  {
    if parts != [] {
      var n := |parts| - 1;
      var init := parts[..n];
      var t := f(parts[n]);
      var r0 := NonEmptyMapped(init, f);
      assert NonEmptyMapped(parts, f) == r0 + (if t != "" then [t] else []);
      NonEmptyMappedMembers(init, f, x);
      if x in NonEmptyMapped(parts, f) {
        if x in r0 {
          var i :| 0 <= i < |init| && f(init[i]) == x;
          assert parts[i] == init[i];
        }
      } else if x != "" {
        forall i | 0 <= i < |parts| ensures f(parts[i]) != x {
          if i < n {
            assert parts[i] == init[i];
          }
        }
      }
    }
  }

  /** JavaScript's `s.trim()`. */
  function TrimJs(s: string): string {
    Trim(s, JsWhitespace)
  }

  /**
   * `parseGroupList`: the setting cut at commas, each part trimmed, empty parts
   * dropped. An absent or empty setting yields the empty list; every entry is
   * non-empty, has no surrounding white space and no comma; and a string is an
   * entry exactly when it is a non-empty trimmed comma-separated part.
   */
  function ParseGroupList(v: Option<string>): (r: seq<string>)
    ensures forall i :: 0 <= i < |r| ==> r[i] != "" && IsTrimmed(r[i], JsWhitespace) && ',' !in r[i]
    ensures v.None? || v == Some("") ==> r == []
    ensures forall x :: x in r <==> x != "" && exists p :: p in Split(v.GetOr(""), ',') && TrimJs(p) == x
  {
    var parts := Split(v.GetOr(""), ',');
    var r := NonEmptyMapped(parts, TrimJs);
    forall i | 0 <= i < |r| ensures IsTrimmed(r[i], JsWhitespace) && ',' !in r[i] {
      assert r[i] in r;
      NonEmptyMappedMembers(parts, TrimJs, r[i]);
      var j :| 0 <= j < |parts| && TrimJs(parts[j]) == r[i];
      TrimIsTrimmed(parts[j], JsWhitespace);
      TrimKeepsAbsent(parts[j], JsWhitespace, ',');
    }
    forall x ensures x in r <==> x != "" && exists p :: p in parts && TrimJs(p) == x {
      NonEmptyMappedMembers(parts, TrimJs, x);
      if x in r {
        var j :| 0 <= j < |parts| && TrimJs(parts[j]) == x;
        assert parts[j] in parts;
      } else if x != "" {
        forall p | p in parts ensures TrimJs(p) != x {
          var j :| 0 <= j < |parts| && parts[j] == p;
        }
      }
    }
    r
  }

  // ---------- the group filter ----------

  function LowerAll(xs: seq<string>): (r: seq<string>)
    ensures |r| == |xs| && forall i :: 0 <= i < |xs| ==> r[i] == Lower(xs[i])
    decreases |xs|
  {
    if xs == [] then [] else [Lower(xs[0])] + LowerAll(xs[1..])
  }

  /** Whether a record's lower-cased group is one of `lowered`. */
  function IncludedIn(lowered: seq<string>): Monitor -> bool {
    (m: Monitor) => Lower(m.group) in lowered
  }

  /** The records whose lower-cased group is in `lowered`, in their original order. */
  function KeepIncluded(all: seq<Monitor>, lowered: seq<string>): (r: seq<Monitor>)
    ensures |r| <= |all|
    decreases |all|
  {
    if all == [] then []
    else
      var n := |all| - 1;
      KeepIncluded(all[..n], lowered) + (if Lower(all[n].group) in lowered then [all[n]] else [])
  }

  /** The kept records are the records at the included positions, in order. */
  lemma {:induction false} KeepIncludedPositions(all: seq<Monitor>, lowered: seq<string>)
    ensures var idx := Positions(all, IncludedIn(lowered)); var r := KeepIncluded(all, lowered);
      |r| == |idx| && forall t :: 0 <= t < |r| ==> r[t] == all[idx[t]]
    decreases |all|
  {
    if all != [] {
      var n := |all| - 1;
      var init := all[..n];
      var p := IncludedIn(lowered);
      KeepIncludedPositions(init, lowered);
      var idx0 := Positions(init, p);
      var r0 := KeepIncluded(init, lowered);
      var idx := Positions(all, p);
      var r := KeepIncluded(all, lowered);
      assert idx == idx0 + (if p(all[n]) then [n] else []);
      assert r == r0 + (if p(all[n]) then [all[n]] else []);
      forall t | 0 <= t < |r| ensures r[t] == all[idx[t]] {
        if t < |r0| {
          assert r[t] == r0[t] && idx[t] == idx0[t];
          assert init[idx0[t]] == all[idx0[t]];
        }
      }
    }
  }

  /** Each record occurs among the kept ones as often as in the input when its group is included, and never otherwise. */
  lemma {:induction false} KeepIncludedCounts(all: seq<Monitor>, lowered: seq<string>, m: Monitor)
    ensures multiset(KeepIncluded(all, lowered))[m] == if Lower(m.group) in lowered then multiset(all)[m] else 0
    decreases |all|
  {
    if all != [] {
      var n := |all| - 1;
      var init := all[..n];
      assert all == init + [all[n]];
      KeepIncludedCounts(init, lowered, m);
    }
  }

  /** A record is kept exactly when it is one of the input's and its group is included. */
  lemma KeepIncludedMembers(all: seq<Monitor>, lowered: seq<string>, m: Monitor)
    ensures m in KeepIncluded(all, lowered) <==> m in all && Lower(m.group) in lowered
  {
    KeepIncludedCounts(all, lowered, m);
  }

  /** Keeping some of the records of a sorted list keeps it sorted. */
  lemma KeepIncludedSorted(all: seq<Monitor>, lowered: seq<string>)
    requires SortedByGroupName(all)
    ensures SortedByGroupName(KeepIncluded(all, lowered))
  {
    KeepIncludedPositions(all, lowered);
    var idx := Positions(all, IncludedIn(lowered));
    var r := KeepIncluded(all, lowered);
    forall t, u | 0 <= t < u < |r| ensures RecordLe(r[t], r[u]) {
      assert idx[t] < idx[u];
    }
  }

  /**
   * The case-insensitive include filter: with an empty include list every
   * record is kept; otherwise exactly the records whose group matches an
   * include entry up to case, in their original order.
   */
  function FilterByGroups(all: seq<Monitor>, includes: seq<string>): (r: seq<Monitor>)
    ensures |includes| == 0 ==> r == all
    ensures |r| <= |all|
    ensures forall m :: m in r <==> m in all && (|includes| == 0 || Lower(m.group) in LowerAll(includes))
    ensures forall m :: multiset(r)[m] == if |includes| == 0 || Lower(m.group) in LowerAll(includes) then multiset(all)[m] else 0
    ensures |includes| > 0 ==> var idx := Positions(all, IncludedIn(LowerAll(includes)));
              |r| == |idx| && forall t :: 0 <= t < |r| ==> r[t] == all[idx[t]]
    ensures SortedByGroupName(all) ==> SortedByGroupName(r)
  {
    if |includes| == 0 then all
    else
      var lowered := LowerAll(includes);
      KeepIncludedPositions(all, lowered);
      assert forall m :: multiset(KeepIncluded(all, lowered))[m] == if Lower(m.group) in lowered then multiset(all)[m] else 0 by {
        forall m { KeepIncludedCounts(all, lowered, m); }
      }
      assert forall m :: m in KeepIncluded(all, lowered) <==> m in all && Lower(m.group) in lowered by {
        forall m { KeepIncludedMembers(all, lowered, m); }
      }
      assert SortedByGroupName(all) ==> SortedByGroupName(KeepIncluded(all, lowered)) by {
        if SortedByGroupName(all) {
          KeepIncludedSorted(all, lowered);
        }
      }
      KeepIncluded(all, lowered)
  }

  /** A group matches an include entry exactly when their lower-cased forms are equal. */
  lemma IncludedIff(g: string, includes: seq<string>)
    ensures Lower(g) in LowerAll(includes) <==> exists i :: 0 <= i < |includes| && Lower(includes[i]) == Lower(g)
  {
    var l := LowerAll(includes);
    if Lower(g) in l {
      var i :| 0 <= i < |l| && l[i] == Lower(g);
    }
  }

  // ---------- grouping ----------

  /** `m.group || "Allgemein"`. */
  function GroupKey(m: Monitor): (k: string)
    ensures k != ""
    ensures m.group != "" ==> k == m.group
  {
    if m.group != "" then m.group else FallbackGroup
  }

  /** The group keys in the order they are first met. */
  function GroupOrder(ms: seq<Monitor>): (order: seq<string>)
    ensures forall i, j :: 0 <= i < j < |order| ==> order[i] != order[j]
    decreases |ms|
  {
    if ms == [] then []
    else
      var n := |ms| - 1;
      var before := GroupOrder(ms[..n]);
      var k := GroupKey(ms[n]);
      before + (if k in before then [] else [k])
  }

  /** The key of every record is in the order. */
  lemma {:induction false} GroupOrderHasKey(ms: seq<Monitor>, i: nat)
    requires i < |ms|
    ensures GroupKey(ms[i]) in GroupOrder(ms)
    decreases |ms|
  {
    var n := |ms| - 1;
    var init := ms[..n];
    var before := GroupOrder(init);
    var key := GroupKey(ms[n]);
    assert GroupOrder(ms) == before + (if key in before then [] else [key]);
    if i < n {
      assert init[i] == ms[i];
      GroupOrderHasKey(init, i);
    }
  }

  /** Every key of the order is the key of some record. */
  lemma {:induction false} GroupOrderKeyHasRecord(ms: seq<Monitor>, k: string)
    requires k in GroupOrder(ms)
    ensures exists i :: 0 <= i < |ms| && GroupKey(ms[i]) == k
    decreases |ms|
  {
    var n := |ms| - 1;
    var init := ms[..n];
    var before := GroupOrder(init);
    var key := GroupKey(ms[n]);
    assert GroupOrder(ms) == before + (if key in before then [] else [key]);
    if k in before {
      GroupOrderKeyHasRecord(init, k);
      var i :| 0 <= i < n && GroupKey(init[i]) == k;
      assert init[i] == ms[i];
    } else {
      assert GroupKey(ms[n]) == k;
    }
  }

  /** A key is in the order exactly when some record has it. */
  lemma GroupOrderMembers(ms: seq<Monitor>, k: string)
    ensures k in GroupOrder(ms) <==> exists i :: 0 <= i < |ms| && GroupKey(ms[i]) == k
  {
    if k in GroupOrder(ms) {
      GroupOrderKeyHasRecord(ms, k);
    }
    if exists i :: 0 <= i < |ms| && GroupKey(ms[i]) == k {
      var i :| 0 <= i < |ms| && GroupKey(ms[i]) == k;
      GroupOrderHasKey(ms, i);
    }
  }

  /** The records of group `k`, in their original order. */
  function Bucket(ms: seq<Monitor>, k: string): (b: seq<Monitor>)
    ensures |b| <= |ms|
    decreases |ms|
  {
    if ms == [] then []
    else
      var n := |ms| - 1;
      Bucket(ms[..n], k) + (if GroupKey(ms[n]) == k then [ms[n]] else [])
  }

  /** A record is in the bucket of `k` exactly when it is one of the records and its key is `k`. */
  lemma {:induction false} BucketMembers(ms: seq<Monitor>, k: string, m: Monitor)
    ensures m in Bucket(ms, k) <==> m in ms && GroupKey(m) == k
    decreases |ms|
  {
    if ms != [] {
      var n := |ms| - 1;
      BucketMembers(ms[..n], k, m);
      assert ms == ms[..n] + [ms[n]];
    }
  }

  /** The buckets of `order`, one after the other. */
  function Concat(order: seq<string>, ms: seq<Monitor>): seq<Monitor>
    decreases |order|
  {
    if order == [] then [] else Concat(order[..|order| - 1], ms) + Bucket(ms, order[|order| - 1])
  }

  /** No group appears empty: every key of the order has a non-empty bucket. */
  lemma NoEmptyGroups(ms: seq<Monitor>, k: string)
    requires k in GroupOrder(ms)
    ensures Bucket(ms, k) != []
  {
    GroupOrderMembers(ms, k);
    var i :| 0 <= i < |ms| && GroupKey(ms[i]) == k;
    BucketMembers(ms, k, ms[i]);
  }

  /** A key that is not in the order has an empty bucket. */
  lemma BucketEmptyOutsideOrder(ms: seq<Monitor>, k: string)
    requires k !in GroupOrder(ms)
    ensures Bucket(ms, k) == []
  {
    if Bucket(ms, k) != [] {
      BucketMembers(ms, k, Bucket(ms, k)[0]);
      var i :| 0 <= i < |ms| && ms[i] == Bucket(ms, k)[0];
      GroupOrderMembers(ms, k);
    }
  }

  /** What the merge delivers: sorted by group and name, and every record in a named group. */
  predicate SortedNamedGroups(ms: seq<Monitor>) {
    SortedByGroupName(ms) && forall i :: 0 <= i < |ms| ==> ms[i].group != ""
  }

  /** A prefix of such a list is such a list. */
  lemma SortedNamedGroupsPrefix(ms: seq<Monitor>, n: nat)
    requires n <= |ms| && SortedNamedGroups(ms)
    ensures SortedNamedGroups(ms[..n])
  {
    forall i, j | 0 <= i < j < n ensures RecordLe(ms[..n][i], ms[..n][j]) {
      assert ms[..n][i] == ms[i] && ms[..n][j] == ms[j];
    }
    forall i | 0 <= i < n ensures ms[..n][i].group != "" {
      assert ms[..n][i] == ms[i];
    }
  }

  /** In a list sorted by group, the last group met is the group of the last record. */
  lemma {:induction false} GroupOrderLast(ms: seq<Monitor>)
    requires ms != [] && SortedNamedGroups(ms)
    ensures var order := GroupOrder(ms); |order| > 0 && order[|order| - 1] == ms[|ms| - 1].group
    decreases |ms|
  {
    var n := |ms| - 1;
    var init := ms[..n];
    var before := GroupOrder(init);
    var k := ms[n].group;
    assert GroupKey(ms[n]) == k;
    assert GroupOrder(ms) == before + (if k in before then [] else [k]);
    if k in before {
      SortedNamedGroupsPrefix(ms, n);
      GroupOrderLast(init);
      GroupOrderLastRepeated(ms, init, before);
    }
  }

  /** The step of `GroupOrderLast` where the last record's group was met before. */
  lemma GroupOrderLastRepeated(ms: seq<Monitor>, init: seq<Monitor>, before: seq<string>)
    requires |ms| >= 2 && SortedNamedGroups(ms)
    requires init == ms[..|ms| - 1] && before == GroupOrder(init)
    requires GroupKey(ms[|ms| - 1]) in before
    requires |before| > 0 && before[|before| - 1] == init[|init| - 1].group
    ensures before[|before| - 1] == ms[|ms| - 1].group
  {
    var n := |ms| - 1;
    GroupOrderMembers(init, GroupKey(ms[n]));
    var i :| 0 <= i < |init| && GroupKey(init[i]) == GroupKey(ms[n]);
    assert init[i] == ms[i] && init[n - 1] == ms[n - 1];
    SameGroupAsPrevious(ms, i);
  }

  /** In a sorted list, if some earlier record shares the last record's group, so does the one before the last. */
  lemma SameGroupAsPrevious(ms: seq<Monitor>, i: nat)
    requires SortedByGroupName(ms) && i < |ms| - 1 && ms[i].group == ms[|ms| - 1].group
    ensures ms[|ms| - 2].group == ms[|ms| - 1].group
  {
    var n := |ms| - 1;
    if i < n - 1 {
      RecordLeGroupsBetween(ms[i], ms[n - 1], ms[n]);
    }
  }

  /** If `a <= b <= c` and `a` and `c` share a group, `b` is in that group too. */
  lemma RecordLeGroupsBetween(a: Monitor, b: Monitor, c: Monitor)
    requires RecordLe(a, b) && RecordLe(b, c) && a.group == c.group
    ensures b.group == a.group
  {
    if b.group != a.group {
      assert LexLess(a.group, b.group) && LexLess(b.group, c.group);
      LexLessTransitive(a.group, b.group, c.group);
      LexLessIrreflexive(a.group);
    }
  }

  /** Buckets of keys other than that of one more record do not change. */
  lemma {:induction false} ConcatIgnoresOtherKey(order: seq<string>, ms: seq<Monitor>, m: Monitor)
    requires GroupKey(m) !in order
    ensures Concat(order, ms + [m]) == Concat(order, ms)
    decreases |order|
  {
    if order != [] {
      var n := |order| - 1;
      ConcatIgnoresOtherKey(order[..n], ms, m);
      assert (ms + [m])[..|ms|] == ms;
    }
  }

  /** The last key of a list of distinct keys is not among the others. */
  lemma DistinctLast(order: seq<string>)
    requires order != [] && forall i, j :: 0 <= i < j < |order| ==> order[i] != order[j]
    ensures order[|order| - 1] !in order[..|order| - 1]
  {
  }

  /** The inductive step when the new record joins the group already last in the order. */
  lemma GroupingStepSameGroup(init: seq<Monitor>, m: Monitor)
    requires SortedNamedGroups(init + [m])
    requires GroupKey(m) in GroupOrder(init)
    requires Concat(GroupOrder(init), init) == init
    ensures Concat(GroupOrder(init + [m]), init + [m]) == init + [m]
  {
    var ms := init + [m];
    var n := |init|;
    assert ms[..n] == init && ms[n] == m;
    var before := GroupOrder(init);
    var k := GroupKey(m);
    assert Bucket(ms, k) == Bucket(init, k) + [m];
    assert GroupOrder(ms) == before;
    GroupOrderLast(ms);
    var o := |before| - 1;
    DistinctLast(before);
    ConcatIgnoresOtherKey(before[..o], init, m);
    assert Concat(before, ms) == Concat(before[..o], ms) + Bucket(ms, k);
    assert Concat(before, init) == Concat(before[..o], init) + Bucket(init, k);
  }

  /** The inductive step when the new record opens a group not met before. */
  lemma GroupingStepNewGroup(init: seq<Monitor>, m: Monitor)
    requires GroupKey(m) !in GroupOrder(init)
    requires Concat(GroupOrder(init), init) == init
    ensures Concat(GroupOrder(init + [m]), init + [m]) == init + [m]
  {
    var ms := init + [m];
    var n := |init|;
    assert ms[..n] == init && ms[n] == m;
    var before := GroupOrder(init);
    var k := GroupKey(m);
    assert Bucket(ms, k) == Bucket(init, k) + [m];
    assert GroupOrder(ms) == before + [k];
    ConcatIgnoresOtherKey(before, init, m);
    BucketEmptyOutsideOrder(init, k);
    assert (before + [k])[..|before|] == before;
  }

  /**
   * For records sorted by group (as the merge delivers them), putting the
   * buckets one after the other in first-met order gives back the records
   * exactly: grouping neither loses, duplicates nor reorders a record.
   */
  lemma {:induction false} GroupingSortedIsIdentity(ms: seq<Monitor>)
    requires SortedNamedGroups(ms)
    ensures Concat(GroupOrder(ms), ms) == ms
    decreases |ms|
  {
    if ms != [] {
      var n := |ms| - 1;
      var init := ms[..n];
      var m := ms[n];
      assert ms == init + [m];
      SortedNamedGroupsPrefix(ms, n);
      GroupingSortedIsIdentity(init);
      if GroupKey(m) in GroupOrder(init) {
        GroupingStepSameGroup(init, m);
      } else {
        GroupingStepNewGroup(init, m);
      }
    }
  }

  // ---------- rendering ----------

  const Placeholder: string := "_Keine Monitore gefunden._"

  function HeaderLine(group: string): string {
    "> **" + group + "**"
  }

  /** `${m.uptime.toFixed(2)}%`, or a dash without an uptime. */
  function PctText(uptime: Option<real>): string {
    match uptime
    case Some(u) => Fixed2(u) + "%"
    case None => "—"
  }

  /** `Ping ${m.ping} ms`, or a dash without a ping. */
  function PingText(ping: Option<real>): string {
    match ping
    case Some(p) => "Ping " + NumberToString(p) + " ms"
    case None => "Ping —"
  }

  /** The pieces of a monitor's line, in order. */
  function LinePieces(m: Monitor): seq<string> {
    ["> ", m.emoji, "  **", m.name, "**  •  ", PctText(m.uptime), "  •  ", PingText(m.ping)]
  }

  /** The pieces written one after the other. */
  function Flatten(pieces: seq<string>): string
    decreases |pieces|
  {
    if pieces == [] then "" else Flatten(pieces[..|pieces| - 1]) + pieces[|pieces| - 1]
  }

  /** One record's line: glyph, bold name, uptime and ping, separated by bullets. */
  function MonitorLine(m: Monitor): string {
    Flatten(LinePieces(m))
  }

  /** Eight pieces flattened are the eight pieces concatenated. */
  lemma FlattenEight(p: seq<string>)
    requires |p| == 8
    ensures Flatten(p) == p[0] + p[1] + p[2] + p[3] + p[4] + p[5] + p[6] + p[7]
  {
    assert Flatten(p[..1]) == p[0] by { assert p[..1][..0] == []; }
    assert Flatten(p[..2]) == Flatten(p[..1]) + p[1] by { assert p[..2][..1] == p[..1]; }
    assert Flatten(p[..3]) == Flatten(p[..2]) + p[2] by { assert p[..3][..2] == p[..2]; }
    assert Flatten(p[..4]) == Flatten(p[..3]) + p[3] by { assert p[..4][..3] == p[..3]; }
    assert Flatten(p[..5]) == Flatten(p[..4]) + p[4] by { assert p[..5][..4] == p[..4]; }
    assert Flatten(p[..6]) == Flatten(p[..5]) + p[5] by { assert p[..6][..5] == p[..5]; }
    assert Flatten(p[..7]) == Flatten(p[..6]) + p[6] by { assert p[..7][..6] == p[..6]; }
    assert Flatten(p) == Flatten(p[..7]) + p[7];
  }

  /** The line spelled out as one template string. */
  lemma MonitorLineText(m: Monitor)
    ensures MonitorLine(m) == "> " + m.emoji + "  **" + m.name + "**  •  " + PctText(m.uptime) + "  •  " + PingText(m.ping)
  {
    FlattenEight(LinePieces(m));
  }

  /** One line per monitor of a group. */
  function MonitorLines(list: seq<Monitor>): seq<string> {
    MapSeq(list, MonitorLine)
  }

  /** A group's block: its header, one line per monitor, and a blank line. */
  function GroupLines(group: string, list: seq<Monitor>): seq<string> {
    [HeaderLine(group)] + MonitorLines(list) + [""]
  }

  /** All lines, group block after group block, in the order of `order`. */
  function LinesOf(order: seq<string>, buckets: map<string, seq<Monitor>>): seq<string>
    requires forall k :: k in order ==> k in buckets
    decreases |order|
  {
    if order == [] then []
    else
      var n := |order| - 1;
      LinesOf(order[..n], buckets) + GroupLines(order[n], buckets[order[n]])
  }

  /** The number of lines: two per group plus one per monitor. */
  function LineCount(order: seq<string>, buckets: map<string, seq<Monitor>>): nat
    requires forall k :: k in order ==> k in buckets
    decreases |order|
  {
    if order == [] then 0
    else
      var n := |order| - 1;
      LineCount(order[..n], buckets) + |buckets[order[n]]| + 2
  }

  lemma {:induction false} LinesOfCount(order: seq<string>, buckets: map<string, seq<Monitor>>)
    requires forall k :: k in order ==> k in buckets
    ensures |LinesOf(order, buckets)| == LineCount(order, buckets)
    decreases |order|
  {
    if order != [] {
      LinesOfCount(order[..|order| - 1], buckets);
    }
  }

  /** Every record of every rendered group shows up as its own line. */
  lemma {:induction false} LinesOfShowsMonitor(order: seq<string>, buckets: map<string, seq<Monitor>>, k: string, m: Monitor)
    requires forall k :: k in order ==> k in buckets
    requires k in order && m in buckets[k]
    ensures MonitorLine(m) in LinesOf(order, buckets)
    decreases |order|
  {
    var n := |order| - 1;
    if order[n] == k {
      var i :| 0 <= i < |buckets[k]| && buckets[k][i] == m;
      MapSeqAt(buckets[k], MonitorLine, i);
      assert MonitorLine(m) in GroupLines(k, buckets[k]);
    } else {
      assert k in order[..n];
      LinesOfShowsMonitor(order[..n], buckets, k, m);
    }
  }

  /** `lines.join("\n") || "_Keine Monitore gefunden._"`. */
  function Description(lines: seq<string>): (d: string)
    ensures d != ""
  {
    var body := Join(lines, '\n');
    if body == "" then Placeholder else body
  }

  lemma {:induction false} JoinStartsWithFirst(lines: seq<string>, sep: char)
    requires |lines| >= 1 && lines[0] != ""
    ensures Join(lines, sep) != [] && Join(lines, sep)[0] == lines[0][0]
  {
  }

  lemma {:induction false} LinesOfStartWithHeader(order: seq<string>, buckets: map<string, seq<Monitor>>)
    requires forall k :: k in order ==> k in buckets
    requires order != []
    ensures var lines := LinesOf(order, buckets); |lines| >= 1 && lines[0] == HeaderLine(order[0])
    decreases |order|
  {
    var n := |order| - 1;
    if n > 0 {
      LinesOfStartWithHeader(order[..n], buckets);
      LinesOfCount(order[..n], buckets);
    }
  }

  /**
   * The description is never blank, and it is the placeholder exactly when no
   * group is left to show; otherwise it is the joined lines.
   */
  lemma DescriptionPlaceholderIff(order: seq<string>, buckets: map<string, seq<Monitor>>)
    requires forall k :: k in order ==> k in buckets
    ensures Description(LinesOf(order, buckets)) != ""
    ensures Description(LinesOf(order, buckets)) == Placeholder <==> order == []
    ensures order != [] ==> Description(LinesOf(order, buckets)) == Join(LinesOf(order, buckets), '\n')
  {
    if order != [] {
      var lines := LinesOf(order, buckets);
      LinesOfStartWithHeader(order, buckets);
      JoinStartsWithFirst(lines, '\n');
      assert Join(lines, '\n')[0] == '>';
      assert Placeholder[0] == '_';
    }
  }

  // ---------- grouping as the source writes it ----------

  /**
   * The names a plain JavaScript object `{}` inherits from `Object.prototype`.
   * Reading `grouped[key]` for one of them gives a truthy inherited value.
   */
  const ObjectPrototypeNames: set<string> := {
    "constructor", "__proto__", "__defineGetter__", "__defineSetter__", "__lookupGetter__",
    "__lookupSetter__", "hasOwnProperty", "isPrototypeOf", "propertyIsEnumerable",
    "toLocaleString", "toString", "valueOf"
  }

  /**
   * The grouping loop of `updateStatus` on a plain object: `if (!grouped[key])`
   * is false for an inherited member name, so `grouped[key].push(m)` calls a
   * method that is not there and throws; `None` stands for that TypeError.
   * Otherwise it yields the first-met order and each bucket.
   */
  function GroupedAsWritten(ms: seq<Monitor>): Option<(seq<string>, map<string, seq<Monitor>>)>
    decreases |ms|
  {
    if ms == [] then Some(([], map[]))
    else
      var n := |ms| - 1;
      var m := ms[n];
      var k := GroupKey(m);
      match GroupedAsWritten(ms[..n])
      case None => None
      case Some((order, buckets)) =>
        if k in ObjectPrototypeNames then None
        else if k in buckets then Some((order, buckets[k := buckets[k] + [m]]))
        else Some((order + [k], buckets[k := [m]]))
  }

  /** A record whose group key is an inherited member name makes the as-written grouping throw. */
  lemma {:induction false} GroupedAsWrittenThrowsAt(ms: seq<Monitor>, i: nat)
    requires i < |ms| && GroupKey(ms[i]) in ObjectPrototypeNames
    ensures GroupedAsWritten(ms).None?
    decreases |ms|
  {
    var n := |ms| - 1;
    var init := ms[..n];
    if i < n {
      assert init[i] == ms[i];
      GroupedAsWrittenThrowsAt(init, i);
    }
  }

  /** When the as-written grouping throws, some record's group key is an inherited member name. */
  lemma {:induction false} GroupedAsWrittenThrowsWhy(ms: seq<Monitor>)
    requires GroupedAsWritten(ms).None?
    ensures exists i :: 0 <= i < |ms| && GroupKey(ms[i]) in ObjectPrototypeNames
    decreases |ms|
  {
    var n := |ms| - 1;
    var init := ms[..n];
    if GroupedAsWritten(init).None? {
      GroupedAsWrittenThrowsWhy(init);
      var i :| 0 <= i < n && GroupKey(init[i]) in ObjectPrototypeNames;
      assert init[i] == ms[i];
    } else {
      assert GroupKey(ms[n]) in ObjectPrototypeNames;
    }
  }

  /** Some record's group key is a name a plain object inherits. */
  predicate HasInheritedGroup(ms: seq<Monitor>) {
    exists i :: 0 <= i < |ms| && GroupKey(ms[i]) in ObjectPrototypeNames
  }

  /** The as-written grouping throws exactly when some record's group key is an inherited member name. */
  lemma GroupedAsWrittenThrows(ms: seq<Monitor>)
    ensures GroupedAsWritten(ms).None? <==> HasInheritedGroup(ms)
  {
    if GroupedAsWritten(ms).None? {
      GroupedAsWrittenThrowsWhy(ms);
    }
    if exists i :: 0 <= i < |ms| && GroupKey(ms[i]) in ObjectPrototypeNames {
      var i :| 0 <= i < |ms| && GroupKey(ms[i]) in ObjectPrototypeNames;
      GroupedAsWrittenThrowsAt(ms, i);
    }
  }

  /**
   * When the as-written grouping does not throw, it builds the first-met order
   * with exactly one bucket per key of that order, holding that key's records.
   */
  lemma {:induction false} GroupedAsWrittenBuckets(ms: seq<Monitor>)
    requires GroupedAsWritten(ms).Some?
    ensures var (order, buckets) := GroupedAsWritten(ms).value;
      order == GroupOrder(ms) &&
      (forall k :: k in buckets <==> k in order) &&
      (forall k :: k in buckets ==> buckets[k] == Bucket(ms, k))
    decreases |ms|
  {
    if ms != [] {
      var n := |ms| - 1;
      var init := ms[..n];
      var m := ms[n];
      var k := GroupKey(m);
      assert GroupedAsWritten(init).Some?;
      GroupedAsWrittenBuckets(init);
      var (order, buckets) := GroupedAsWritten(init).value;
      assert GroupOrder(ms) == order + (if k in order then [] else [k]);
      forall k' ensures Bucket(ms, k') == Bucket(init, k') + (if k == k' then [m] else []) {
      }
      assert k !in ObjectPrototypeNames;
      if k in buckets {
        assert GroupedAsWritten(ms).value == (order, buckets[k := buckets[k] + [m]]);
      } else {
        assert GroupedAsWritten(ms).value == (order + [k], buckets[k := [m]]);
        BucketEmptyOutsideOrder(init, k);
      }
    }
  }

  /** A status-page group called `constructor` makes the as-written grouping throw, so no update is posted. */
  lemma PrototypeGroupThrows(m: Monitor)
    requires m.group == "constructor"
    ensures GroupedAsWritten([m]).None?
    ensures Bucket([m], "constructor") == [m]
  {
    assert [m][..0] == [];
  }
}
