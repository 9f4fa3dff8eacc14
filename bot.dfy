/**
 * The step-by-step parts of the bot (Bot/index.js): the name table filled in
 * nested loops, the merge loop pushing one record per heartbeat entry, the
 * grouping loop, the line-rendering loop, and one bot's update cycle with the
 * `messageId` it remembers between cycles. Each loop is proved against the
 * function of the same meaning in `Monitors` or `Presentation`.
 */
module Bot {
  import opened Wrappers
  import opened Text
  import opened Monitors
  import opened Presentation
  import Assoc

  /** The built-in Kuma address used when the setting is absent or empty. */
  const DefaultKumaUrl: string := "https://uptime.noopnet.net"

  /** `(KUMA_URL || default).replace(/\/+$/, "")`: the base without any trailing slash. */
  function KumaBase(setting: Option<string>): (base: string)
    ensures base == [] || base[|base| - 1] != '/'
    ensures setting.Some? && setting.value != "" ==> base == StripTrailing(setting.value, '/')
    ensures setting.None? || setting.value == "" ==> base == DefaultKumaUrl
  {
    var url := if setting.Some? && setting.value != "" then setting.value else DefaultKumaUrl;
    assert StripTrailing(DefaultKumaUrl, '/') == DefaultKumaUrl;
    StripTrailing(url, '/')
  }

  // ---------- fetchMonitors ----------

  /** The group's assignments for its first `j` monitors extend by the `j`-th one. */
  lemma GroupPairsStep(gName: Option<string>, ms: seq<MetaMonitor>, j: nat)
    requires j < |ms|
    ensures GroupPairs(gName, ms[..j + 1]) ==
            GroupPairs(gName, ms[..j]) + (if HasId(ms[j]) then [(ToJsString(ms[j].id), MetaOf(gName, ms[j]))] else [])
  {
    assert ms[..j + 1][..j] == ms[..j];
  }

  /** The assignments of the first `i + 1` groups are those of the first `i` followed by group `i`'s. */
  lemma ListPairsStep(gs: seq<MetaGroup>, i: nat)
    requires i < |gs|
    ensures ListPairs(gs[..i + 1]) == ListPairs(gs[..i]) + GroupPairs(GroupNameOf(gs[i]), MonitorsOf(gs[i]))
  {
    assert gs[..i + 1][..i] == gs[..i];
  }

  /** The table after one more monitor of a group: its entry set when it has an id, otherwise unchanged. */
  lemma TableStep(ps: seq<(string, Meta)>, gName: Option<string>, list: seq<MetaMonitor>, j: nat)
    requires j < |list|
    ensures var m := list[j]; var before := Assoc.MapOfPairs(ps + GroupPairs(gName, list[..j]));
      Assoc.MapOfPairs(ps + GroupPairs(gName, list[..j + 1])) ==
        if HasId(m) then before[ToJsString(m.id) := MetaOf(gName, m)] else before
  {
    var m := list[j];
    GroupPairsStep(gName, list, j);
    if HasId(m) {
      var p := (ToJsString(m.id), MetaOf(gName, m));
      assert ps + GroupPairs(gName, list[..j + 1]) == (ps + GroupPairs(gName, list[..j])) + [p];
      Assoc.MapOfPairsSnoc(ps + GroupPairs(gName, list[..j]), p);
    } else {
      assert GroupPairs(gName, list[..j + 1]) == GroupPairs(gName, list[..j]);
    }
  }

  /** The inner `nameById` loop: one entry set per monitor of the group that has an id. */
  method AddGroup(table: map<string, Meta>, ghost ps: seq<(string, Meta)>, gName: Option<string>, list: seq<MetaMonitor>)
    returns (r: map<string, Meta>)
    requires table == Assoc.MapOfPairs(ps)
    ensures r == Assoc.MapOfPairs(ps + GroupPairs(gName, list))
  {
    r := table;
    var j := 0;
    assert ps + GroupPairs(gName, list[..0]) == ps;
    while j < |list|
      invariant 0 <= j <= |list|
      invariant r == Assoc.MapOfPairs(ps + GroupPairs(gName, list[..j]))
    {
      var m := list[j];
      TableStep(ps, gName, list, j);
      if HasId(m) {
        r := r[ToJsString(m.id) := MetaOf(gName, m)];
      }
      j := j + 1;
    }
    assert list[..j] == list;
  }

  /**
   * The `nameById` loops: for every group and every monitor in it that has an
   * id, `nameById.set(String(m.id), ...)`. The map built is the name table.
   */
  method BuildNameTable(gs: seq<MetaGroup>) returns (table: map<string, Meta>)
    ensures table == NameTable(gs)
  {
    table := map[];
    var i := 0;
    while i < |gs|
      invariant 0 <= i <= |gs|
      invariant table == Assoc.MapOfPairs(ListPairs(gs[..i]))
    {
      table := AddGroup(table, ListPairs(gs[..i]), GroupNameOf(gs[i]), MonitorsOf(gs[i]));
      ListPairsStep(gs, i);
      i := i + 1;
    }
    assert gs[..i] == gs;
  }

  /** The records of the first `i + 1` heartbeat entries are those of the first `i` and one more. */
  lemma UnsortedStep(table: map<string, Meta>, uptimeList: map<string, Scalar>, heartbeats: seq<(string, Beats)>, i: nat)
    requires i < |heartbeats|
    ensures Unsorted(table, uptimeList, heartbeats[..i + 1]) ==
            Unsorted(table, uptimeList, heartbeats[..i]) + [RecordOf(table, uptimeList, heartbeats[i].0, heartbeats[i].1)]
  {
    assert heartbeats[..i + 1][..i] == heartbeats[..i];
  }

  /** The fetched payloads `fetchMonitors` works on. */
  datatype Snapshot = Snapshot(groups: seq<MetaGroup>, heartbeats: seq<(string, Beats)>, uptimeList: map<string, Scalar>)

  /**
   * `fetchMonitors` after the two requests: the name table, then one record
   * pushed per heartbeat entry, then the sort. The result is the merged list:
   * one record per entry, sorted by group and name.
   */
  method FetchMonitors(s: Snapshot) returns (out: seq<Monitor>)
    ensures out == Merged(s.groups, s.heartbeats, s.uptimeList)
    ensures |out| == |s.heartbeats| && SortedByGroupName(out)
  {
    var table := BuildNameTable(s.groups);
    out := [];
    var i := 0;
    while i < |s.heartbeats|
      invariant 0 <= i <= |s.heartbeats|
      invariant out == Unsorted(table, s.uptimeList, s.heartbeats[..i])
    {
      var (id, arr) := s.heartbeats[i];
      UnsortedStep(table, s.uptimeList, s.heartbeats, i);
      out := out + [RecordOf(table, s.uptimeList, id, arr)];
      i := i + 1;
    }
    assert s.heartbeats[..i] == s.heartbeats;
    out := SortRecords(out);
  }

  // ---------- updateStatus: grouping and lines ----------

  /** The buckets of the groups met, keyed by group. */
  function BucketMap(ms: seq<Monitor>): (b: map<string, seq<Monitor>>)
    ensures forall k :: k in b <==> k in GroupOrder(ms)
    ensures forall k :: k in b ==> b[k] == Bucket(ms, k)
  {
    map k | k in GroupOrder(ms) :: Bucket(ms, k)
  }

  /** Appending a record extends the order by its key when that key is new. */
  lemma OrderSnoc(ms: seq<Monitor>, m: Monitor)
    ensures var key := GroupKey(m); var before := GroupOrder(ms);
      GroupOrder(ms + [m]) == before + (if key in before then [] else [key])
  {
    assert (ms + [m])[..|ms|] == ms;
  }

  /** Appending a record extends its own bucket and leaves every other bucket as it was. */
  lemma BucketSnoc(ms: seq<Monitor>, m: Monitor, k: string)
    ensures Bucket(ms + [m], k) == Bucket(ms, k) + (if GroupKey(m) == k then [m] else [])
  {
    assert (ms + [m])[..|ms|] == ms;
  }

  lemma BucketMapSnoc(ms: seq<Monitor>, m: Monitor)
    ensures var key := GroupKey(m); var before := GroupOrder(ms);
      GroupOrder(ms + [m]) == before + (if key in before then [] else [key])
    ensures var key := GroupKey(m); var b := BucketMap(ms);
      BucketMap(ms + [m]) == b[key := (if key in b then b[key] else []) + [m]]
  {
    var key := GroupKey(m);
    var b := BucketMap(ms);
    var ms' := ms + [m];
    OrderSnoc(ms, m);
    var b' := b[key := (if key in b then b[key] else []) + [m]];
    assert BucketMap(ms').Keys == b'.Keys;
    forall k | k in b' ensures BucketMap(ms')[k] == b'[k] {
      BucketSnoc(ms, m, k);
      if k == key && key !in b {
        BucketEmptyOutsideOrder(ms, key);
      }
    }
  }

  /** `BucketMapSnoc` for the prefixes of one list. */
  lemma BucketMapStep(ms: seq<Monitor>, i: nat)
    requires i < |ms|
    ensures var key := GroupKey(ms[i]); var before := GroupOrder(ms[..i]);
      GroupOrder(ms[..i + 1]) == before + (if key in before then [] else [key])
    ensures var key := GroupKey(ms[i]); var b := BucketMap(ms[..i]);
      BucketMap(ms[..i + 1]) == b[key := (if key in b then b[key] else []) + [ms[i]]]
  {
    assert ms[..i + 1] == ms[..i] + [ms[i]];
    BucketMapSnoc(ms[..i], ms[i]);
  }

  /**
   * The grouping loop of `updateStatus`, with the buckets kept in a map keyed
   * only by the records' own group names: it yields the groups in first-met
   * order and, for each, exactly its records in their order.
   */
  method GroupByGroup(ms: seq<Monitor>) returns (order: seq<string>, buckets: map<string, seq<Monitor>>)
    ensures order == GroupOrder(ms)
    ensures forall k :: k in buckets <==> k in order
    ensures forall k :: k in buckets ==> buckets[k] == Bucket(ms, k)
    ensures buckets == BucketMap(ms)
  {
    order := [];
    buckets := map[];
    var i := 0;
    while i < |ms|
      invariant 0 <= i <= |ms|
      invariant order == GroupOrder(ms[..i]) && buckets == BucketMap(ms[..i])
    {
      var key := GroupKey(ms[i]);
      BucketMapStep(ms, i);
      if key !in buckets {
        order := order + [key];
      }
      buckets := buckets[key := (if key in buckets then buckets[key] else []) + [ms[i]]];
      i := i + 1;
    }
    assert ms[..i] == ms;
  }

  /** The lines of the first `g` groups extend by group `g`'s block. */
  lemma LinesOfStep(order: seq<string>, buckets: map<string, seq<Monitor>>, g: nat)
    requires forall k :: k in order ==> k in buckets
    requires g < |order|
    ensures LinesOf(order[..g + 1], buckets) == LinesOf(order[..g], buckets) + GroupLines(order[g], buckets[order[g]])
  {
    assert order[..g + 1][..g] == order[..g];
  }

  /** One monitor line more. */
  lemma MonitorLinesStep(list: seq<Monitor>, j: nat)
    requires j < |list|
    ensures MonitorLines(list[..j + 1]) == MonitorLines(list[..j]) + [MonitorLine(list[j])]
  {
    assert list[..j + 1][..j] == list[..j];
  }

  /** The inner line loop of `updateStatus`: one line pushed per record of a group. */
  method PushMonitorLines(lines: seq<string>, list: seq<Monitor>) returns (r: seq<string>)
    ensures r == lines + MonitorLines(list)
  {
    r := lines;
    var j := 0;
    while j < |list|
      invariant 0 <= j <= |list|
      invariant r == lines + MonitorLines(list[..j])
    {
      MonitorLinesStep(list, j);
      r := r + [MonitorLine(list[j])];
      j := j + 1;
    }
    assert list[..j] == list;
  }

  /** One group's block: its header, its monitors' lines and an empty line. */
  method PushGroupLines(lines: seq<string>, group: string, list: seq<Monitor>) returns (r: seq<string>)
    ensures r == lines + GroupLines(group, list)
  {
    r := lines + [HeaderLine(group)];
    r := PushMonitorLines(r, list);
    r := r + [""];
  }

  /**
   * The line loops of `updateStatus`: per group a header, one line per record
   * and a blank line. The lines built are those of `LinesOf`.
   */
  method RenderLines(order: seq<string>, buckets: map<string, seq<Monitor>>) returns (lines: seq<string>)
    requires forall k :: k in order ==> k in buckets
    ensures lines == LinesOf(order, buckets)
    ensures |lines| == LineCount(order, buckets)
  {
    lines := [];
    var g := 0;
    while g < |order|
      invariant 0 <= g <= |order|
      invariant lines == LinesOf(order[..g], buckets)
    {
      lines := PushGroupLines(lines, order[g], buckets[order[g]]);
      LinesOfStep(order, buckets, g);
      g := g + 1;
    }
    assert order[..g] == order;
    LinesOfCount(order, buckets);
  }

  /** The records one update groups: the merged list after the include filter. */
  function Filtered(s: Snapshot, includes: seq<string>): seq<Monitor> {
    FilterByGroups(Merged(s.groups, s.heartbeats, s.uptimeList), includes)
  }

  /** The embed description of one update: the merged records, filtered, grouped and rendered. */
  function DescriptionOf(s: Snapshot, includes: seq<string>): (d: string)
    ensures d != ""
  {
    var filtered := Filtered(s, includes);
    Description(LinesOf(GroupOrder(filtered), BucketMap(filtered)))
  }

  /** The first half of `updateStatus`: fetch, filter, group and render the description. */
  method Render(s: Snapshot, includes: seq<string>) returns (description: string)
    ensures description == DescriptionOf(s, includes)
  {
    var all := FetchMonitors(s);
    var filtered := FilterByGroups(all, includes);
    var order, buckets := GroupByGroup(filtered);
    var lines := RenderLines(order, buckets);
    description := Description(lines);
  }

  // ---------- updateStatus: edit or send ----------

  /** What `channel.messages.fetch(messageId)` gives: the message, or null (errors are caught as null). */
  datatype Lookup = Found | NotFound

  /**
   * How the Discord channel behaves in one cycle, as an input: whether the
   * remembered message is found, whether editing it succeeds, and the id of a
   * sent message or `None` when sending throws.
   */
  datatype Channel = Channel(lookup: Lookup, editOk: bool, sent: Option<string>)

  /** What one cycle did. */
  datatype Outcome = Edited(id: string, description: string) | Sent(id: string, description: string) | Failed

  /** `if (messageId)`: a remembered id that is present and not empty. */
  predicate Remembered(messageId: Option<string>) {
    messageId.Some? && messageId.value != ""
  }

  /**
   * Edit or send, for a description already rendered: edit the remembered
   * message when there is one and it is found; otherwise send a new message
   * and remember its id. A failed edit or send is caught: nothing else
   * happens and the remembered id stays as it was.
   */
  function Reconcile(messageId: Option<string>, ch: Channel, description: string): (r: (Outcome, Option<string>))
    ensures Remembered(messageId) && ch.lookup == Found ==> r.1 == messageId && !r.0.Sent?
    ensures Remembered(messageId) && ch.lookup == Found && ch.editOk ==> r.0 == Edited(messageId.value, description)
    ensures (!Remembered(messageId) || ch.lookup == NotFound) && ch.sent.Some? ==>
              r == (Sent(ch.sent.value, description), ch.sent)
    ensures Remembered(messageId) && ch.lookup == Found && !ch.editOk ==> r == (Failed, messageId)
    ensures (!Remembered(messageId) || ch.lookup == NotFound) && ch.sent.None? ==> r == (Failed, messageId)
    ensures r.0.Failed? ==> r.1 == messageId
    ensures r.1 != messageId ==> r.0.Sent? && r.1 == Some(r.0.id) && r.1 == ch.sent
  {
    if Remembered(messageId) && ch.lookup == Found then
      if ch.editOk then (Edited(messageId.value, description), messageId) else (Failed, messageId)
    else
      match ch.sent
      case Some(id) => (Sent(id, description), Some(id))
      case None => (Failed, messageId)
  }

  /**
   * What the first half of `updateStatus` hands to the edit-or-send step: the
   * rendered description, or `None` when the fetch threw and nothing is posted.
   */
  function Rendered(fetched: Option<Snapshot>, includes: seq<string>): (d: Option<string>)
    ensures d.Some? <==> fetched.Some?
    ensures d.Some? ==> d.value != ""
  {
    match fetched
    case None => None
    case Some(s) => Some(DescriptionOf(s, includes))
  }

  /**
   * One cycle of `updateStatus` once rendering is done: a cycle that threw
   * before posting keeps the id; otherwise it edits or sends the description.
   */
  function Cycle(messageId: Option<string>, rendered: Option<string>, ch: Channel): (r: (Outcome, Option<string>))
    ensures rendered.None? ==> r == (Failed, messageId)
    ensures rendered.Some? ==> r == Reconcile(messageId, ch, rendered.value)
    ensures r.0.Edited? || r.0.Sent? ==> rendered.Some? && r.0.description == rendered.value
  {
    match rendered
    case None => (Failed, messageId)
    case Some(d) => Reconcile(messageId, ch, d)
  }

  /**
   * The description as the source computes it, grouping in a plain object:
   * `None` for a fetch that threw and for the TypeError an inherited group
   * name raises.
   */
  function RenderedAsWritten(fetched: Option<Snapshot>, includes: seq<string>): Option<string> {
    match fetched
    case None => None
    case Some(s) =>
      var filtered := Filtered(s, includes);
      match GroupedAsWritten(filtered)
      case None => None
      case Some((order, buckets)) =>
        GroupedAsWrittenBuckets(filtered);
        Some(Description(LinesOf(order, buckets)))
  }

  /** When the as-written grouping does not throw, its buckets are those of `BucketMap`. */
  lemma GroupedAsWrittenIsBucketMap(ms: seq<Monitor>)
    requires GroupedAsWritten(ms).Some?
    ensures GroupedAsWritten(ms).value == (GroupOrder(ms), BucketMap(ms))
  {
    GroupedAsWrittenBuckets(ms);
    var (order, buckets) := GroupedAsWritten(ms).value;
    var b := BucketMap(ms);
    assert buckets.Keys == b.Keys;
    assert buckets == b;
  }

  /**
   * The source's rendering fails exactly when the fetch threw or a filtered
   * record has an inherited group name; otherwise it is the corrected one.
   */
  lemma RenderedAsWrittenAgrees(fetched: Option<Snapshot>, includes: seq<string>)
    ensures fetched.Some? && HasInheritedGroup(Filtered(fetched.value, includes)) ==> RenderedAsWritten(fetched, includes).None?
    ensures fetched.None? || !HasInheritedGroup(Filtered(fetched.value, includes)) ==>
              RenderedAsWritten(fetched, includes) == Rendered(fetched, includes)
  {
    if fetched.Some? {
      var filtered := Filtered(fetched.value, includes);
      GroupedAsWrittenThrows(filtered);
      if !HasInheritedGroup(filtered) {
        GroupedAsWrittenIsBucketMap(filtered);
      }
    }
  }

  /**
   * The cycle as the source runs it posts nothing and keeps the id when a
   * filtered record has an inherited group name; in every other case it does
   * exactly what the cycle with the corrected grouping does.
   */
  lemma CycleAsWrittenAgrees(messageId: Option<string>, includes: seq<string>, fetched: Option<Snapshot>, ch: Channel)
    ensures fetched.Some? && HasInheritedGroup(Filtered(fetched.value, includes)) ==>
              Cycle(messageId, RenderedAsWritten(fetched, includes), ch) == (Failed, messageId)
    ensures fetched.None? || !HasInheritedGroup(Filtered(fetched.value, includes)) ==>
              Cycle(messageId, RenderedAsWritten(fetched, includes), ch) == Cycle(messageId, Rendered(fetched, includes), ch)
  {
    RenderedAsWrittenAgrees(fetched, includes);
  }

  /** One bot: its parsed include list and the id of the status message it keeps editing. */
  class StatusBot {
    const groupsInclude: seq<string>
    var messageId: Option<string>

    /** `createBotFromEnv` up to the client: the include list parsed from its setting, and no message yet. */
    constructor (includeSetting: Option<string>)
      ensures groupsInclude == ParseGroupList(includeSetting)
      ensures messageId == None
    {
      groupsInclude := ParseGroupList(includeSetting);
      messageId := None;
    }

    /**
     * `updateStatus`: fetch, filter, group, render, then edit or send. The
     * outcome and the new remembered id are those of one cycle.
     */
    method UpdateStatus(fetched: Option<Snapshot>, ch: Channel) returns (outcome: Outcome)
      modifies this
      ensures (outcome, messageId) == Cycle(old(messageId), Rendered(fetched, groupsInclude), ch)
    {
      if fetched.None? {
        return Failed;
      }
      var description := Render(fetched.value, groupsInclude);
      if Remembered(messageId) {
        if ch.lookup == Found {
          if ch.editOk {
            return Edited(messageId.value, description);
          }
          return Failed;
        }
      }
      match ch.sent
      case Some(id) =>
        messageId := Some(id);
        outcome := Sent(id, description);
      case None =>
        outcome := Failed;
    }
  }

  // ---------- the remembered id over many cycles ----------

  /** The remembered id after running the cycles in `chs` one after another on the rendered descriptions. */
  function After(messageId: Option<string>, rendered: seq<Option<string>>, chs: seq<Channel>): Option<string>
    requires |rendered| == |chs|
    decreases |chs|
  {
    if chs == [] then messageId
    else After(Cycle(messageId, rendered[0], chs[0]).1, rendered[1..], chs[1..])
  }

  /**
   * Whatever happens over any number of cycles, the remembered id is the one
   * the bot started with or the id of a message one of the cycles sent.
   */
  lemma {:induction false} AfterIsInitialOrSent(messageId: Option<string>, rendered: seq<Option<string>>, chs: seq<Channel>)
    requires |rendered| == |chs|
    ensures var r := After(messageId, rendered, chs);
      r == messageId || exists i :: 0 <= i < |chs| && r == chs[i].sent
    decreases |chs|
  {
    if chs != [] {
      var next := Cycle(messageId, rendered[0], chs[0]).1;
      AfterIsInitialOrSent(next, rendered[1..], chs[1..]);
      var r := After(next, rendered[1..], chs[1..]);
      if r != next {
        var i :| 0 <= i < |chs[1..]| && r == chs[1..][i].sent;
        assert r == chs[i + 1].sent;
      } else if next != messageId {
        assert r == chs[0].sent;
      }
    }
  }

  /**
   * Once a message is remembered, cycles that always find it never send again
   * and never forget the id, whether the fetch or the edit succeeds or not.
   */
  lemma {:induction false} FoundKeepsId(messageId: Option<string>, rendered: seq<Option<string>>, chs: seq<Channel>)
    requires |rendered| == |chs| && Remembered(messageId)
    requires forall i :: 0 <= i < |chs| ==> chs[i].lookup == Found
    ensures After(messageId, rendered, chs) == messageId
    decreases |chs|
  {
    if chs != [] {
      assert chs[0].lookup == Found;
      var tail := chs[1..];
      assert forall i :: 0 <= i < |tail| ==> tail[i].lookup == Found by {
        forall i | 0 <= i < |tail| ensures tail[i].lookup == Found {
          assert tail[i] == chs[i + 1];
        }
      }
      FoundKeepsId(messageId, rendered[1..], tail);
    }
  }

  /**
   * The first cycle of a fresh bot sends its description, and the next cycle
   * that finds that message edits it instead of sending another.
   */
  lemma SendThenEdit(d1: string, d2: string, id: string, edit: Channel)
    requires id != ""
    requires edit.lookup == Found && edit.editOk
    ensures var (o1, m1) := Cycle(None, Some(d1), Channel(NotFound, true, Some(id)));
      o1 == Sent(id, d1) && m1 == Some(id) && Cycle(m1, Some(d2), edit).0 == Edited(id, d2)
  {
  }

  /**
   * When the remembered message has been deleted, the cycle sends a new one
   * and from then on remembers the new id instead of the old.
   */
  lemma DeletedMessageIsReplaced(staleId: string, freshId: string, d: string)
    requires staleId != ""
    ensures var (o, m) := Cycle(Some(staleId), Some(d), Channel(NotFound, false, Some(freshId)));
      o == Sent(freshId, d) && m == Some(freshId)
  {
  }
}
