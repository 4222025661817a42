/** The state of pattern_tracker.py: the logged inefficiency entries, the
    alert level reached by each tag, the alert threshold, the date of the
    last weekly review and the next entry id. The JSON file is read and
    written by the caller; `Load` takes what it held. */
module Patterns {
  import opened Floats
  import opened Text
  import opened Dates

  const DefaultThreshold := 3
  const WeeklyIntervalDays := 7

  /** The six free-text answers of a log entry. */
  datatype Details = Details(context: string, intent: string, response: string,
                             issue: string, fix: string, insight: string)

  datatype Entry = Entry(id: int, timestamp: string, details: Details, tags: seq<string>)

  /** What the JSON file held, key by key: `None` where the key is missing.
      A `threshold` or `last_weekly_review` key may hold `null`. */
  datatype Stored = Stored(entries: Option<seq<Entry>>, tagAlerts: Option<map<string, int>>,
                           threshold: Option<Option<int>>, lastWeeklyReview: Option<Option<string>>,
                           nextId: Option<int>)

  // ------------------------------------------------------------------ tags

  /** `parse_tags`: nothing for a missing or empty option, otherwise the
      comma-separated tags, stripped, without empty ones. */
  function ParseTags(raw: Option<string>): (tags: seq<string>)
    ensures raw.None? || raw.value == "" ==> tags == []
    ensures forall k :: 0 <= k < |tags| ==> |tags[k]| > 0 && Trimmed(tags[k]) && ',' !in tags[k]
  {
    if raw.None? || |raw.value| == 0 then [] else CommaTags(raw.value)
  }

  /** A tag is parsed exactly when it is the non-empty stripped form of one
      of the comma-separated pieces. */
  lemma ParseTagsMembers(raw: string, t: string)
    ensures t in ParseTags(Some(raw)) <==>
              |t| > 0 && exists k :: 0 <= k < |Split(raw, ',')| && Strip(Split(raw, ',')[k]) == t
  {
    if |raw| == 0 {
      assert Split(raw, ',') == [""];
      assert Strip("") == "";
      assert ParseTags(Some(raw)) == [];
    } else {
      assert ParseTags(Some(raw)) == KeepStripped(Split(raw, ','));
      KeepStrippedMembers(Split(raw, ','), t);
    }
  }

  lemma {:induction false} KeepStrippedMembers(pieces: seq<string>, t: string)
    requires forall k :: 0 <= k < |pieces| ==> ',' !in pieces[k]
    ensures t in KeepStripped(pieces) <==> |t| > 0 && exists k :: 0 <= k < |pieces| && Strip(pieces[k]) == t
  {
    if |pieces| > 0 {
      KeepStrippedMembers(pieces[1..], t);
      if exists k :: 0 <= k < |pieces| && Strip(pieces[k]) == t {
        var k :| 0 <= k < |pieces| && Strip(pieces[k]) == t;
        if k > 0 {
          assert Strip(pieces[1..][k - 1]) == t;
        }
      }
      if exists k :: 0 <= k < |pieces[1..]| && Strip(pieces[1..][k]) == t {
        var k :| 0 <= k < |pieces[1..]| && Strip(pieces[1..][k]) == t;
        assert Strip(pieces[k + 1]) == t;
      }
    }
  }

  // ---------------------------------------------------------------- counts

  /** How often `t` occurs in `tags`. */
  function Occurrences(tags: seq<string>, t: string): (n: nat)
    ensures n <= |tags|
  {
    if |tags| == 0 then 0
    else Occurrences(tags[..|tags| - 1], t) + (if tags[|tags| - 1] == t then 1 else 0)
  }

  /** A tag that occurs is counted at least once. */
  lemma {:induction false} OccursCounted(tags: seq<string>, t: string)
    ensures t in tags <==> Occurrences(tags, t) > 0
  {
    if |tags| > 0 {
      OccursCounted(tags[..|tags| - 1], t);
      assert tags == tags[..|tags| - 1] + [tags[|tags| - 1]];
    }
  }

  /** The tag counts of the `Counter` over every tag of every entry. */
  function TagCount(entries: seq<Entry>, t: string): nat
  {
    if |entries| == 0 then 0
    else TagCount(entries[..|entries| - 1], t) + Occurrences(entries[|entries| - 1].tags, t)
  }

  /** Every tag of the entry just logged has a count of at least one. */
  lemma LoggedTagCounted(entries: seq<Entry>, e: Entry, t: string)
    requires t in e.tags
    ensures TagCount(entries + [e], t) >= TagCount(entries, t) + 1
  {
    OccursCounted(e.tags, t);
    assert (entries + [e])[..|entries|] == entries;
  }

  // ---------------------------------------------------------------- alerts

  /** `state.get("threshold", 3) or 3`: a missing, null or zero threshold
      is the default. */
  function EffectiveThreshold(threshold: Option<int>): (th: int)
    ensures th != 0
    ensures threshold.Some? && threshold.value != 0 ==> th == threshold.value
    ensures threshold.None? || threshold.value == 0 ==> th == DefaultThreshold
  {
    if threshold.None? || threshold.value == 0 then DefaultThreshold else threshold.value
  }

  /** `tag_alerts.get(t, 0)`. */
  function Get(m: map<string, int>, t: string): int
  {
    if t in m then m[t] else 0
  }

  function Level(entries: seq<Entry>, t: string, th: int): int
    requires th > 0
  {
    TagCount(entries, t) / th
  }

  /** One turn of the per-tag loop: raise the stored level when the new one
      exceeds it, otherwise store the old level if there was none. */
  function Raise(m: map<string, int>, t: string, level: int): map<string, int>
  {
    if level > Get(m, t) then m[t := level]
    else if t in m then m
    else m[t := 0]
  }

  /** The alert levels after the loop over `tags`. */
  function Raised(m: map<string, int>, tags: seq<string>, entries: seq<Entry>, th: int): map<string, int>
    requires th > 0
  {
    if |tags| == 0 then m
    else
      var t := tags[|tags| - 1];
      Raise(Raised(m, tags[..|tags| - 1], entries, th), t, Level(entries, t, th))
  }

  /** The alerts the loop fires: a tag and its count, in tag order. */
  function Fired(m: map<string, int>, tags: seq<string>, entries: seq<Entry>, th: int): seq<(string, nat)>
    requires th > 0
  {
    if |tags| == 0 then []
    else
      var init := tags[..|tags| - 1];
      var t := tags[|tags| - 1];
      var before := Fired(m, init, entries, th);
      if Level(entries, t, th) > Get(Raised(m, init, entries, th), t) then before + [(t, TagCount(entries, t))]
      else before
  }

  /** After the loop every logged tag holds the larger of its old level and
      its new one, and every other tag is as it was. */
  lemma {:induction false} RaisedAt(m: map<string, int>, tags: seq<string>, entries: seq<Entry>, th: int, t: string)
    requires th > 0
    ensures t in Raised(m, tags, entries, th) <==> t in m || t in tags
    ensures Get(Raised(m, tags, entries, th), t) == if t in tags then Max(Get(m, t), Level(entries, t, th)) else Get(m, t)
    ensures t in m && t !in tags ==> Raised(m, tags, entries, th)[t] == m[t]
  {
    if |tags| > 0 {
      var init := tags[..|tags| - 1];
      RaisedAt(m, init, entries, th, t);
      assert tags == init + [tags[|tags| - 1]];
    }
  }

  function Max(a: int, b: int): int
  {
    if a >= b then a else b
  }

  /** One more tag through the loop. */
  lemma AlertStep(m: map<string, int>, tags: seq<string>, n: nat, entries: seq<Entry>, th: int)
    requires th > 0 && n < |tags|
    ensures var prev := Raised(m, tags[..n], entries, th);
            var level := Level(entries, tags[n], th);
            Raised(m, tags[..n + 1], entries, th) == Raise(prev, tags[n], level)
            && Fired(m, tags[..n + 1], entries, th) ==
                 Fired(m, tags[..n], entries, th) + (if level > Get(prev, tags[n]) then [(tags[n], TagCount(entries, tags[n]))] else [])
  {
    assert tags[..n + 1][..n] == tags[..n];
  }

  /** Stored alert levels never decrease. */
  lemma LevelsNeverDecrease(m: map<string, int>, tags: seq<string>, entries: seq<Entry>, th: int, t: string)
    requires th > 0 && t in m
    ensures t in Raised(m, tags, entries, th) && Raised(m, tags, entries, th)[t] >= m[t]
  {
    RaisedAt(m, tags, entries, th, t);
  }

  /** Whether `fired` holds an alert for `t`. */
  predicate FiredFor(fired: seq<(string, nat)>, t: string)
  {
    exists k :: 0 <= k < |fired| && fired[k].0 == t
  }

  /** An alert fires for a tag exactly when it was logged and its new level
      exceeds its stored level; it fires once, with the tag's count. */
  lemma {:induction false} FiredExactly(m: map<string, int>, tags: seq<string>, entries: seq<Entry>, th: int, t: string)
    requires th > 0
    ensures FiredFor(Fired(m, tags, entries, th), t) <==> t in tags && Level(entries, t, th) > Get(m, t)
    ensures forall k :: 0 <= k < |Fired(m, tags, entries, th)| ==>
              Fired(m, tags, entries, th)[k].1 == TagCount(entries, Fired(m, tags, entries, th)[k].0)
  {
    if |tags| > 0 {
      var init := tags[..|tags| - 1];
      var last := tags[|tags| - 1];
      var before := Fired(m, init, entries, th);
      FiredExactly(m, init, entries, th, t);
      FiredExactly(m, init, entries, th, last);
      RaisedAt(m, init, entries, th, last);
      assert tags == init + [last];
      var fired := Fired(m, tags, entries, th);
      var now := Level(entries, last, th) > Get(Raised(m, init, entries, th), last);
      assert now <==> last !in init && Level(entries, last, th) > Get(m, last);
      if FiredFor(before, t) {
        var k :| 0 <= k < |before| && before[k].0 == t;
        assert fired[k] == before[k];
      }
      if now {
        assert fired[|before|].0 == last;
      }
      if FiredFor(fired, t) && !FiredFor(before, t) {
        var k :| 0 <= k < |fired| && fired[k].0 == t;
        assert k == |before| && t == last;
      }
      forall k | 0 <= k < |fired| ensures fired[k].1 == TagCount(entries, fired[k].0) {
        if k < |before| {
          assert fired[k] == before[k];
        }
      }
    }
  }

  /** No tag fires twice. */
  lemma {:induction false} FiredOnce(m: map<string, int>, tags: seq<string>, entries: seq<Entry>, th: int)
    requires th > 0
    ensures forall i, j :: 0 <= i < j < |Fired(m, tags, entries, th)| ==>
              Fired(m, tags, entries, th)[i].0 != Fired(m, tags, entries, th)[j].0
  {
    if |tags| > 0 {
      var init := tags[..|tags| - 1];
      var last := tags[|tags| - 1];
      var before := Fired(m, init, entries, th);
      FiredOnce(m, init, entries, th);
      RaisedAt(m, init, entries, th, last);
      FiredExactly(m, init, entries, th, last);
      var fired := Fired(m, tags, entries, th);
      if |fired| > |before| {
        assert last !in init;
        assert !FiredFor(before, last);
        assert forall i :: 0 <= i < |before| ==> fired[i] == before[i];
      }
    }
  }

  // ---------------------------------------------------------- weekly review

  /** `weekly_review_due`: due when there is no last review, when it does not
      parse, or when at least seven days have passed since it. */
  function WeeklyReviewDue(last: Option<string>, today: Date): (due: bool)
    requires ValidDate(today)
    ensures last.None? ==> due
  {
    if last.None? || |last.value| == 0 then true
    else match ParseIso(last.value)
      case None => true
      case Some(d) => DaysBetween(d, today) >= WeeklyIntervalDays
  }

  /** A review recorded on day `d` is due again exactly seven days later. */
  lemma ReviewDueAfter(d: Date, today: Date)
    requires ValidDate(d) && ValidDate(today)
    ensures WeeklyReviewDue(Some(FormatIso(d)), today) <==> DaysBetween(d, today) >= 7
  {
    ParseFormatIso(d);
  }

  /** A review is never due on the day it was recorded. */
  lemma NotDueSameDay(today: Date)
    requires ValidDate(today)
    ensures !WeeklyReviewDue(Some(FormatIso(today)), today)
  {
    ReviewDueAfter(today, today);
  }

  /** The per-tag loop of `add_entry` over the tags just logged, with the
      counts taken after the entry was appended. */
  method RaiseAlerts(m0: map<string, int>, tags: seq<string>, all: seq<Entry>, th: int)
    returns (alerts: map<string, int>, fired: seq<(string, nat)>)
    requires th != 0
    ensures th > 0 ==> alerts == Raised(m0, tags, all, th) && fired == Fired(m0, tags, all, th)
    ensures th < 0 ==> alerts == m0 && fired == []
  {
    alerts := m0;
    fired := [];
    for n := 0 to |tags|
      invariant th > 0 ==> alerts == Raised(m0, tags[..n], all, th) && fired == Fired(m0, tags[..n], all, th)
      invariant th < 0 ==> alerts == m0 && fired == []
    {
      var tag := tags[n];
      var count := TagCount(all, tag);
      if th <= 0 {
        continue;
      }
      AlertStep(m0, tags, n, all, th);
      var level := count / th;
      var prev := if tag in alerts then alerts[tag] else 0;
      if level > prev {
        fired := fired + [(tag, count)];
        alerts := alerts[tag := level];
      } else if tag !in alerts {
        alerts := alerts[tag := prev];
      }
    }
    assert tags[..|tags|] == tags;
  }

  // ----------------------------------------------------------------- state

  class Tracker {
    var entries: seq<Entry>
    var tagAlerts: map<string, int>
    var threshold: Option<int>
    var lastWeeklyReview: Option<string>
    var nextId: int

    /** `load_state`: the defaults when there is no file, otherwise what the
        file held with each missing key set to its default. */
    constructor Load(file: Option<Stored>)
      ensures file.None? ==>
                entries == [] && tagAlerts == map[] && threshold == Some(DefaultThreshold)
                && lastWeeklyReview == None && nextId == 1
      ensures file.Some? ==>
                var f := file.value;
                entries == (if f.entries.Some? then f.entries.value else [])
                && tagAlerts == (if f.tagAlerts.Some? then f.tagAlerts.value else map[])
                && threshold == (if f.threshold.Some? then f.threshold.value else Some(DefaultThreshold))
                && lastWeeklyReview == (if f.lastWeeklyReview.Some? then f.lastWeeklyReview.value else None)
                && nextId == (if f.nextId.Some? then f.nextId.value else |entries| + 1)
    {
      if file.None? {
        entries := [];
        tagAlerts := map[];
        threshold := Some(DefaultThreshold);
        lastWeeklyReview := None;
        nextId := 1;
      } else {
        var f := file.value;
        var es := if f.entries.Some? then f.entries.value else [];
        entries := es;
        tagAlerts := if f.tagAlerts.Some? then f.tagAlerts.value else map[];
        threshold := if f.threshold.Some? then f.threshold.value else Some(DefaultThreshold);
        lastWeeklyReview := if f.lastWeeklyReview.Some? then f.lastWeeklyReview.value else None;
        nextId := if f.nextId.Some? then f.nextId.value else |es| + 1;
      }
    }

    /** `add_entry`: append the entry under the next id, then walk its tags
        raising alert levels; returns the alerts fired. A negative threshold
        skips the alerts. */
    method AddEntry(timestamp: string, details: Details, rawTags: Option<string>) returns (fired: seq<(string, nat)>)
      modifies this
      ensures entries == old(entries) + [Entry(old(nextId), timestamp, details, ParseTags(rawTags))]
      ensures nextId == old(nextId) + 1
      ensures threshold == old(threshold) && lastWeeklyReview == old(lastWeeklyReview)
      ensures var th := EffectiveThreshold(threshold);
              th > 0 ==> tagAlerts == Raised(old(tagAlerts), ParseTags(rawTags), entries, th)
                         && fired == Fired(old(tagAlerts), ParseTags(rawTags), entries, th)
      ensures EffectiveThreshold(threshold) < 0 ==> tagAlerts == old(tagAlerts) && fired == []
    {
      var tags := ParseTags(rawTags);
      var entry := Entry(nextId, timestamp, details, tags);
      var all := entries + [entry];
      var th := EffectiveThreshold(threshold);
      var alerts;
      alerts, fired := RaiseAlerts(tagAlerts, tags, all, th);
      entries := all;
      nextId := entry.id + 1;
      tagAlerts := alerts;
    }

    /** `cmd_weekly_review`: with no entries nothing changes; otherwise the
        last review becomes `today`. */
    method WeeklyReview(today: Date)
      requires ValidDate(today)
      modifies this
      ensures |old(entries)| == 0 ==> lastWeeklyReview == old(lastWeeklyReview)
      ensures |old(entries)| > 0 ==> lastWeeklyReview == Some(FormatIso(today))
      ensures entries == old(entries) && tagAlerts == old(tagAlerts)
      ensures threshold == old(threshold) && nextId == old(nextId)
    {
      if |entries| == 0 {
        return;
      }
      lastWeeklyReview := Some(FormatIso(today));
    }
  }
}
