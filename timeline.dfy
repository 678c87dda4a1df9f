/** The clip timeline of compute/timeline.rs: clips sorted by creation time
    and laid end to end, each recorded with the offset at which it starts,
    and the lookup of the clip playing at a global timestamp.

    Durations are whole nanoseconds. Instants are integers (an unspecified
    epoch and unit; only their order matters here). */
module Timelines {
  import opened Wrappers
  import opened Digits

  /** A probed clip file. */
  datatype Clip = Clip(creationTime: int, length: nat, path: string)

  /** `(offset, clip)` pairs in playing order, and the total duration. */
  datatype Timeline = Timeline(clips: seq<(nat, Clip)>, duration: nat)

  /** The clips in playing order. The source calls `timeline.iter()` for
      this, which timeline.rs does not define. */
  function Iter(tl: Timeline): (cs: seq<Clip>)
    ensures |cs| == |tl.clips| && forall k :: 0 <= k < |cs| ==> cs[k] == tl.clips[k].1
  {
    seq(|tl.clips|, k requires 0 <= k < |tl.clips| => tl.clips[k].1)
  }

  function Offsets(tl: Timeline): (offs: seq<nat>)
    ensures |offs| == |tl.clips| && forall k :: 0 <= k < |offs| ==> offs[k] == tl.clips[k].0
  {
    seq(|tl.clips|, k requires 0 <= k < |tl.clips| => tl.clips[k].0)
  }

  /** The combined length of a run of clips. */
  function SumLengths(cs: seq<Clip>): nat
    decreases |cs|
  {
    if cs == [] then 0 else SumLengths(cs[..|cs| - 1]) + cs[|cs| - 1].length
  }

  /** Every clip starts where the ones before it end, and the duration is
      the length of them all. */
  ghost predicate Valid(tl: Timeline) {
    && tl.duration == SumLengths(Iter(tl))
    && forall k {:trigger SumLengths(Iter(tl)[..k])} :: 0 <= k < |tl.clips| ==> tl.clips[k].0 == SumLengths(Iter(tl)[..k])
  }

  ghost predicate SortedByCreation(cs: seq<Clip>) {
    forall i, j :: 0 <= i < j < |cs| ==> cs[i].creationTime <= cs[j].creationTime
  }

  //
  // Timeline::new
  //

  /** `sort_unstable_by_key(|x| x.creation_time)` is modelled by one of the
      orders it may produce: the clips ordered by creation time, ties in
      some order. Only sortedness and permutation are promised below. */
  function InsertByCreation(c: Clip, cs: seq<Clip>): seq<Clip>
    decreases |cs|
  {
    if cs == [] || c.creationTime <= cs[0].creationTime then [c] + cs
    else [cs[0]] + InsertByCreation(c, cs[1..])
  }

  function SortByCreation(cs: seq<Clip>): seq<Clip>
    decreases |cs|
  {
    if cs == [] then [] else InsertByCreation(cs[0], SortByCreation(cs[1..]))
  }

  lemma InsertSorted(c: Clip, cs: seq<Clip>)
    requires SortedByCreation(cs)
    ensures multiset(InsertByCreation(c, cs)) == multiset(cs) + multiset{c}
    ensures SortedByCreation(InsertByCreation(c, cs))
  {
    InsertPermutes(c, cs);
    InsertKeepsSorted(c, cs);
  }

  /** Inserting adds exactly the one clip. */
  lemma {:induction false} InsertPermutes(c: Clip, cs: seq<Clip>)
    ensures multiset(InsertByCreation(c, cs)) == multiset(cs) + multiset{c}
    decreases |cs|
  {
    if cs == [] || c.creationTime <= cs[0].creationTime {
      assert multiset([c] + cs) == multiset{c} + multiset(cs);
    } else {
      var tail := cs[1..];
      InsertPermutes(c, tail);
      assert cs == [cs[0]] + tail;
      assert multiset([cs[0]] + InsertByCreation(c, tail)) == multiset{cs[0]} + multiset(InsertByCreation(c, tail));
    }
  }

  lemma {:induction false} InsertKeepsSorted(c: Clip, cs: seq<Clip>)
    requires SortedByCreation(cs)
    ensures SortedByCreation(InsertByCreation(c, cs))
    decreases |cs|
  {
    if cs == [] || c.creationTime <= cs[0].creationTime {
      ConsSorted(c, cs);
    } else {
      var tail := cs[1..];
      var rest := InsertByCreation(c, tail);
      assert SortedByCreation(tail) by {
        forall i, j | 0 <= i < j < |tail| ensures tail[i].creationTime <= tail[j].creationTime {
          assert tail[i] == cs[i + 1] && tail[j] == cs[j + 1];
        }
      }
      InsertKeepsSorted(c, tail);
      InsertPermutes(c, tail);
      assert forall k :: 0 <= k < |tail| ==> tail[k] == cs[k + 1];
      HeadBelow(cs[0], c, tail, rest);
      ConsSorted(cs[0], rest);
    }
  }

  lemma ConsSorted(h: Clip, rest: seq<Clip>)
    requires SortedByCreation(rest)
    requires forall k :: 0 <= k < |rest| ==> h.creationTime <= rest[k].creationTime
    ensures SortedByCreation([h] + rest)
  {
    var r := [h] + rest;
    forall i, j | 0 <= i < j < |r| ensures r[i].creationTime <= r[j].creationTime {
      assert r[j] == rest[j - 1];
      if i > 0 {
        assert r[i] == rest[i - 1];
      }
    }
  }

  /** The head of a sorted run bounds everything inserted after it. */
  lemma HeadBelow(h: Clip, c: Clip, tail: seq<Clip>, rest: seq<Clip>)
    requires h.creationTime < c.creationTime
    requires forall k :: 0 <= k < |tail| ==> h.creationTime <= tail[k].creationTime
    requires multiset(rest) == multiset(tail) + multiset{c}
    ensures forall k :: 0 <= k < |rest| ==> h.creationTime <= rest[k].creationTime
  {
    forall k | 0 <= k < |rest| ensures h.creationTime <= rest[k].creationTime {
      assert rest[k] in multiset(rest);
      if rest[k] != c {
        assert rest[k] in multiset(tail);
        assert rest[k] in tail;
      }
    }
  }

  /** The sort yields the same clips ordered by creation time. */
  lemma {:induction false} SortSorts(cs: seq<Clip>)
    ensures SortedByCreation(SortByCreation(cs))
    ensures multiset(SortByCreation(cs)) == multiset(cs)
    decreases |cs|
  {
    if cs != [] {
      SortSorts(cs[1..]);
      InsertSorted(cs[0], SortByCreation(cs[1..]));
      assert cs == [cs[0]] + cs[1..];
      assert multiset(cs) == multiset{cs[0]} + multiset(cs[1..]);
    }
  }

  /** `Timeline::new`, after the probe tasks have run: `probes` are their
      results in the order the unordered channel delivered them. The first
      failed probe aborts the build; otherwise the clips are sorted by
      creation time and folded into start offsets. */
  method New(probes: seq<Result<Clip>>) returns (r: Result<Timeline>)
    ensures r.Err? <==> Collect(probes).Err?
    ensures r.Err? ==> r.error == Collect(probes).error
    ensures r.Ok? ==> Valid(r.value) && SortedByCreation(Iter(r.value))
    ensures r.Ok? ==> multiset(Iter(r.value)) == multiset(Collect(probes).value)
  {
    var collected := CollectClips(probes);
    if collected.Err? {
      return Err(collected.error);
    }
    var sorted := SortByCreation(collected.value);
    SortSorts(collected.value);
    var tl := LayOut(sorted);
    r := Ok(tl);
  }

  /** The loop over the probe channel: the clips in arrival order, or the
      first error. */
  method CollectClips(probes: seq<Result<Clip>>) returns (r: Result<seq<Clip>>)
    ensures r == Collect(probes)
  {
    var timelineClips: seq<Clip> := [];
    for i := 0 to |probes|
      invariant Collect(probes[..i]) == Ok(timelineClips)
    {
      assert probes[..i + 1][..i] == probes[..i];
      if probes[i].Err? {
        assert Collect(probes[..i + 1]) == Err(probes[i].error);
        CollectKeepsError(probes, i + 1);
        return Err(probes[i].error);
      }
      timelineClips := timelineClips + [probes[i].value];
    }
    assert probes[..|probes|] == probes;
    r := Ok(timelineClips);
  }

  /** The fold of the sorted clips into `(offset, clip)` pairs and the
      running duration. */
  method LayOut(sorted: seq<Clip>) returns (tl: Timeline)
    ensures Valid(tl) && Iter(tl) == sorted
  {
    var duration: nat := 0;
    var clips: seq<(nat, Clip)> := [];
    for i := 0 to |sorted|
      invariant |clips| == i
      invariant duration == SumLengths(sorted[..i])
      invariant forall k :: 0 <= k < i ==> clips[k] == (SumLengths(sorted[..k]), sorted[k])
    {
      assert sorted[..i + 1][..i] == sorted[..i];
      clips := clips + [(duration, sorted[i])];
      duration := duration + sorted[i].length;
    }
    assert sorted[..|sorted|] == sorted;
    tl := Timeline(clips, duration);
    assert Iter(tl) == sorted;
  }

  //
  // The offset invariants
  //

  lemma SumLengthsStep(cs: seq<Clip>, k: nat)
    requires k < |cs|
    ensures SumLengths(cs[..k + 1]) == SumLengths(cs[..k]) + cs[k].length
  {
    assert cs[..k + 1][..k] == cs[..k];
  }

  lemma {:induction false} SumLengthsMonotone(cs: seq<Clip>, i: nat, j: nat)
    requires i <= j <= |cs|
    ensures SumLengths(cs[..i]) <= SumLengths(cs[..j])
    decreases j - i
  {
    if i < j {
      SumLengthsStep(cs, j - 1);
      SumLengthsMonotone(cs, i, j - 1);
    }
  }

  /** The offsets are prefix sums: the first is 0, each next one adds the
      previous clip's length, they never decrease, and no clip runs past
      the duration. */
  lemma OffsetsArePrefixSums(tl: Timeline)
    requires Valid(tl)
    ensures |tl.clips| > 0 ==> tl.clips[0].0 == 0
    ensures forall k :: 0 <= k < |tl.clips| - 1 ==> tl.clips[k + 1].0 == tl.clips[k].0 + tl.clips[k].1.length
    ensures forall i, j :: 0 <= i <= j < |tl.clips| ==> tl.clips[i].0 <= tl.clips[j].0
    ensures forall k :: 0 <= k < |tl.clips| ==> tl.clips[k].0 + tl.clips[k].1.length <= tl.duration
    ensures |tl.clips| > 0 ==> tl.clips[|tl.clips| - 1].0 + tl.clips[|tl.clips| - 1].1.length == tl.duration
  {
    var cs := Iter(tl);
    if |tl.clips| > 0 {
      assert SumLengths(cs[..0]) == 0;
      SumLengthsStep(cs, |cs| - 1);
      assert cs[..|cs|] == cs;
    }
    forall k | 0 <= k < |tl.clips| - 1
      ensures tl.clips[k + 1].0 == tl.clips[k].0 + tl.clips[k].1.length
    {
      SumLengthsStep(cs, k);
    }
    forall i, j | 0 <= i <= j < |tl.clips| ensures tl.clips[i].0 <= tl.clips[j].0 {
      SumLengthsMonotone(cs, i, j);
    }
    forall k | 0 <= k < |tl.clips|
      ensures tl.clips[k].0 + tl.clips[k].1.length <= tl.duration
    {
      SumLengthsStep(cs, k);
      SumLengthsMonotone(cs, k + 1, |cs|);
      assert cs[..|cs|] == cs;
    }
  }

  /** `Timeline::len`. */
  function Len(tl: Timeline): (d: nat)
    requires Valid(tl)
    ensures d == SumLengths(Iter(tl))
  {
    tl.duration
  }

  //
  // Timeline::get_at
  //

  /** The result of `binary_search_by_key`: `Ok(i)` or `Err(i)`. */
  datatype Search = Found(index: nat) | NotFound(insertAt: nat)

  ghost predicate Nondecreasing(offs: seq<nat>) {
    forall i, j :: 0 <= i <= j < |offs| ==> offs[i] <= offs[j]
  }

  /** A binary search of the slice between `lo` and `hi` with the
      guarantees std documents for `binary_search_by_key`: on a match, the
      index of some equal offset (which one, among equal offsets, is
      unspecified); otherwise the index where `t` would be inserted. */
  function BinarySearch(offs: seq<nat>, t: nat, lo: nat, hi: nat): (r: Search)
    requires lo <= hi <= |offs| && Nondecreasing(offs)
    requires forall k :: 0 <= k < lo ==> offs[k] < t
    requires forall k :: hi <= k < |offs| ==> offs[k] > t
    ensures r.Found? ==> r.index < |offs| && offs[r.index] == t
    ensures r.NotFound? ==> r.insertAt <= |offs|
    ensures r.NotFound? ==> forall k :: 0 <= k < r.insertAt ==> offs[k] < t
    ensures r.NotFound? ==> forall k :: r.insertAt <= k < |offs| ==> offs[k] > t
    decreases hi - lo
  {
    if lo == hi then NotFound(lo)
    else
      var mid := lo + (hi - lo) / 2;
      if offs[mid] < t then BinarySearch(offs, t, mid + 1, hi)
      else if offs[mid] > t then BinarySearch(offs, t, lo, mid)
      else Found(mid)
  }

  /** The index of the clip `get_at` returns: one whose offset is the
      greatest offset not after `t`. `Err(0)` cannot occur, because the
      first offset is 0; an empty timeline would underflow at `i - 1`. */
  function GetAtIndex(tl: Timeline, t: nat): (i: nat)
    requires Valid(tl) && |tl.clips| > 0
    ensures i < |tl.clips| && tl.clips[i].0 <= t
    ensures forall k :: 0 <= k < |tl.clips| && tl.clips[k].0 <= t ==> tl.clips[k].0 <= tl.clips[i].0
  {
    OffsetsArePrefixSums(tl);
    var offs := Offsets(tl);
    match BinarySearch(offs, t, 0, |offs|)
    case Found(i) => i
    case NotFound(i) => assert offs[0] <= t; i - 1
  }

  /** `Timeline::get_at`: the clip playing at global timestamp `t`, with
      its start offset. */
  function GetAt(tl: Timeline, t: nat): (r: (nat, Clip))
    requires Valid(tl) && |tl.clips| > 0
    ensures r in tl.clips && r.0 <= t
    ensures forall k :: 0 <= k < |tl.clips| && tl.clips[k].0 <= t ==> tl.clips[k].0 <= r.0
  {
    tl.clips[GetAtIndex(tl, t)]
  }

  /** If clip i plays at `t`, `get_at(t)` returns clip i's offset, and clip
      i itself unless the clip returned has length zero and shares it. */
  lemma GetAtFindsPlayingClip(tl: Timeline, i: nat, t: nat)
    requires Valid(tl) && i < |tl.clips|
    requires tl.clips[i].0 <= t < tl.clips[i].0 + tl.clips[i].1.length
    ensures GetAt(tl, t).0 == tl.clips[i].0
    ensures GetAt(tl, t) == tl.clips[i] || GetAt(tl, t).1.length == 0
  {
    OffsetsArePrefixSums(tl);
    var j := GetAtIndex(tl, t);
    assert forall k :: i < k < |tl.clips| ==> tl.clips[i + 1].0 <= tl.clips[k].0;
    assert j <= i;
    if j < i {
      assert tl.clips[j + 1].0 <= tl.clips[i].0;
    }
  }

  ghost predicate PositiveLengths(tl: Timeline) {
    forall k :: 0 <= k < |tl.clips| ==> tl.clips[k].1.length > 0
  }

  /** With no empty clip the offsets strictly increase. */
  lemma StrictOffsets(tl: Timeline)
    requires Valid(tl) && PositiveLengths(tl)
    ensures forall i, j :: 0 <= i < j < |tl.clips| ==> tl.clips[i].0 < tl.clips[j].0
  {
    OffsetsArePrefixSums(tl);
    forall i, j | 0 <= i < j < |tl.clips| ensures tl.clips[i].0 < tl.clips[j].0 {
      assert tl.clips[i].0 < tl.clips[i + 1].0 <= tl.clips[j].0;
    }
  }

  /** With no empty clip, `get_at(t)` is exactly the clip whose interval
      `[offset, offset + length)` contains `t`. */
  lemma GetAtExact(tl: Timeline, i: nat, t: nat)
    requires Valid(tl) && PositiveLengths(tl) && i < |tl.clips|
    requires tl.clips[i].0 <= t < tl.clips[i].0 + tl.clips[i].1.length
    ensures GetAt(tl, t) == tl.clips[i]
  {
    GetAtFindsPlayingClip(tl, i, t);
  }

  /** Below the duration, every timestamp lies in the clip `get_at` picks
      when no clip is empty. */
  lemma GetAtInsideClip(tl: Timeline, t: nat)
    requires Valid(tl) && PositiveLengths(tl) && |tl.clips| > 0 && t < tl.duration
    ensures GetAt(tl, t).0 <= t < GetAt(tl, t).0 + GetAt(tl, t).1.length
  {
    OffsetsArePrefixSums(tl);
    var j := GetAtIndex(tl, t);
    var end := tl.clips[j].0 + tl.clips[j].1.length;
    if j + 1 < |tl.clips| {
      assert end == tl.clips[j + 1].0 && tl.clips[j].0 < end;
    } else {
      assert end <= tl.duration;
    }
  }

  /** At or past the duration `get_at` gives the last offset, and the last
      clip itself when no clip is empty. */
  lemma GetAtPastEnd(tl: Timeline, t: nat)
    requires Valid(tl) && |tl.clips| > 0 && t >= tl.duration
    ensures GetAt(tl, t).0 == tl.clips[|tl.clips| - 1].0
    ensures PositiveLengths(tl) ==> GetAt(tl, t) == tl.clips[|tl.clips| - 1]
  {
    OffsetsArePrefixSums(tl);
    var n := |tl.clips|;
    var j := GetAtIndex(tl, t);
    assert tl.clips[n - 1].0 <= t;
    assert tl.clips[n - 1].0 <= tl.clips[j].0 <= tl.clips[n - 1].0;
    if PositiveLengths(tl) {
      StrictOffsets(tl);
      assert j == n - 1;
    }
  }

  //
  // TimelineClip::process and parse_timestamp_from_path
  //

  /** A local date and time as `%Y_%m%d_%H%M%S` spells it. */
  datatype LocalDateTime = LocalDateTime(year: nat, month: nat, day: nat, hour: nat, minute: nat, second: nat)

  /** The fixed `YYYY_MMDD_HHmmss` layout of the first 16 characters of a
      clip's file name. The calendar checks and the New York to UTC
      conversion that follow are chrono's and are a parameter of
      `ProcessClip`. */
  function DatePrefix(fileName: string): (r: Option<LocalDateTime>)
    requires |fileName| >= 16
    ensures r.Some? ==> fileName[4] == '_' && fileName[9] == '_'
  {
    var s := fileName[..16];
    if DigitsAt(s, 0, 4) && s[4] == '_' && DigitsAt(s, 5, 9) && s[9] == '_' && DigitsAt(s, 10, 16) then
      Some(LocalDateTime(Number(s, 0, 4), Number(s, 5, 7), Number(s, 7, 9),
                         Number(s, 10, 12), Number(s, 12, 14), Number(s, 14, 16)))
    else None
  }

  /** A file name that starts with a date-time in the clip layout. */
  function ClipFileName(dt: LocalDateTime, rest: string): (s: string)
    ensures |s| == 16 + |rest|
  {
    Padded(dt.year, 4) + "_" + Padded(dt.month, 2) + Padded(dt.day, 2) + "_"
      + Padded(dt.hour, 2) + Padded(dt.minute, 2) + Padded(dt.second, 2) + rest
  }

  ghost predicate FitsLayout(dt: LocalDateTime) {
    dt.year < 10000 && dt.month < 100 && dt.day < 100 && dt.hour < 100 && dt.minute < 100 && dt.second < 100
  }

  /** Reading the prefix back gives the date-time it was written from,
      whatever follows the first 16 characters. */
  lemma DatePrefixRoundTrip(dt: LocalDateTime, rest: string)
    requires FitsLayout(dt)
    ensures DatePrefix(ClipFileName(dt, rest)) == Some(dt)
  {
    var s := ClipFileName(dt, rest)[..16];
    LayoutFields(dt, rest);
    assert Pow10(4) == 10000 && Pow10(2) == 100;
    PaddedReadsBack(dt.year, 4, s, 0);
    PaddedReadsBack(dt.month, 2, s, 5);
    PaddedReadsBack(dt.day, 2, s, 7);
    PaddedReadsBack(dt.hour, 2, s, 10);
    PaddedReadsBack(dt.minute, 2, s, 12);
    PaddedReadsBack(dt.second, 2, s, 14);
    assert DigitsAt(s, 5, 9) by {
      assert DigitsAt(s, 5, 7) && DigitsAt(s, 7, 9);
    }
    assert DigitsAt(s, 10, 16) by {
      assert DigitsAt(s, 10, 12) && DigitsAt(s, 12, 14) && DigitsAt(s, 14, 16);
    }
  }

  /** Where each field of the layout lies in a clip file name. */
  lemma LayoutFields(dt: LocalDateTime, rest: string)
    ensures var s := ClipFileName(dt, rest)[..16];
      && s[0..4] == Padded(dt.year, 4) && s[4] == '_'
      && s[5..7] == Padded(dt.month, 2) && s[7..9] == Padded(dt.day, 2) && s[9] == '_'
      && s[10..12] == Padded(dt.hour, 2) && s[12..14] == Padded(dt.minute, 2) && s[14..16] == Padded(dt.second, 2)
  {
    var s := ClipFileName(dt, rest)[..16];
    assert s == Padded(dt.year, 4) + "_" + Padded(dt.month, 2) + Padded(dt.day, 2) + "_"
      + Padded(dt.hour, 2) + Padded(dt.minute, 2) + Padded(dt.second, 2);
  }

  /** `TimelineClip::process`: the cancellation check, then the probe
      (its duration, or its error), then the file name's date converted by
      `toUtc`, which stands for chrono's calendar checks and the New York
      to UTC conversion (None when the local time is invalid or not
      single). Every failure of the date step carries the context
      "parse timestamp from path". A file name shorter than 16 characters
      panics in the source. */
  function ProcessClip(cancelled: bool, path: string, fileName: Option<string>, probed: Result<nat>,
                       toUtc: LocalDateTime -> Option<int>): (r: Result<Clip>)
    requires fileName.Some? ==> |fileName.value| >= 16
    ensures cancelled ==> r == Err("job is cancelled")
    ensures !cancelled && probed.Err? ==> r == Err("probe info")
    ensures !cancelled && probed.Ok? && r.Err? ==> r == Err("parse timestamp from path")
    ensures r.Ok? <==> !cancelled && probed.Ok? && fileName.Some?
                       && DatePrefix(fileName.value).Some? && toUtc(DatePrefix(fileName.value).value).Some?
    ensures r.Ok? ==> r.value == Clip(toUtc(DatePrefix(fileName.value).value).value, probed.value, path)
  {
    if cancelled then Err("job is cancelled")
    else if probed.Err? then Err("probe info")
    else if fileName.None? then Err("parse timestamp from path")
    else match DatePrefix(fileName.value)
      case None => Err("parse timestamp from path")
      case Some(dt) =>
        match toUtc(dt)
        case None => Err("parse timestamp from path")
        case Some(utc) => Ok(Clip(utc, probed.value, path))
  }

  /** A clip whose file name was written from a date-time is given the
      instant `toUtc` assigns that date-time. */
  lemma ProcessClipReadsName(path: string, dt: LocalDateTime, rest: string, length: nat,
                             toUtc: LocalDateTime -> Option<int>)
    requires FitsLayout(dt) && toUtc(dt).Some?
    ensures ProcessClip(false, path, Some(ClipFileName(dt, rest)), Ok(length), toUtc)
            == Ok(Clip(toUtc(dt).value, length, path))
  {
    DatePrefixRoundTrip(dt, rest);
  }
}
