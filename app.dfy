/**
  The integer rules of the application window: the year window handed to the
  crawler, the sort of the crawl output by timestamp, and the text of a
  timestamp's offset from the anchor.
 */
module App {
  import opened Wrappers
  import Decimal
  import opened Datetime
  import opened JsonPaths
  import opened MatchVecs
  import opened JsonCrawl

  // ---------------------------------------------------------------------
  // The year window

  /**
    The predicate handed to the crawler: from the first second of
    `minYear` to the first second of `maxYear + 1`, both ends included.
   */
  function Window(minYear: int, maxYear: int): (pred: int -> bool)
    requires I32Min <= minYear <= I32Max && I32Min <= maxYear < I32Max
  {
    var minTs := YearToTs(minYear);
    var maxTs := YearToTs(maxYear + 1);
    ts => ts >= minTs && ts <= maxTs
  }

  /** Between the starts of years `lo` and `hi`, every instant falls in one of the years in between. */
  lemma {:induction false} FindYear(lo: int, hi: int, ts: int) returns (y: int)
    requires I32Min <= lo < hi <= I32Max
    requires YearToTs(lo) <= ts < YearToTs(hi)
    ensures lo <= y < hi && YearToTs(y) <= ts < YearToTs(y + 1)
    decreases hi - lo
  {
    if ts < YearToTs(lo + 1) {
      y := lo;
    } else {
      y := FindYear(lo + 1, hi, ts);
    }
  }

  lemma WindowBounds(minYear: int, maxYear: int, ts: int)
    requires I32Min <= minYear <= I32Max && I32Min <= maxYear < I32Max
    ensures Window(minYear, maxYear)(ts) <==> YearToTs(minYear) <= ts <= YearToTs(maxYear + 1)
  {
  }

  lemma WindowHasYear(minYear: int, maxYear: int, ts: int) returns (y: int)
    requires I32Min <= minYear <= I32Max && I32Min <= maxYear < I32Max
    requires YearToTs(minYear) <= ts < YearToTs(maxYear + 1)
    ensures minYear <= y <= maxYear && YearToTs(y) <= ts < YearToTs(y + 1)
  {
    if minYear >= maxYear + 1 {
      if minYear > maxYear + 1 {
        YearToTsIncreasing(maxYear + 1, minYear);
      }
      assert false;
    }
    y := FindYear(minYear, maxYear + 1, ts);
  }

  lemma YearInWindow(minYear: int, maxYear: int, y: int, ts: int)
    requires I32Min <= minYear <= y <= maxYear < I32Max
    requires YearToTs(y) <= ts < YearToTs(y + 1)
    ensures YearToTs(minYear) <= ts <= YearToTs(maxYear + 1)
  {
    if minYear < y {
      YearToTsIncreasing(minYear, y);
    }
    if y < maxYear {
      YearToTsIncreasing(y + 1, maxYear + 1);
    }
  }

  lemma WindowEnds(minYear: int, maxYear: int)
    requires I32Min <= minYear <= I32Max && I32Min <= maxYear < I32Max
    ensures YearToTs(minYear) <= YearToTs(maxYear + 1) <==> minYear <= maxYear + 1
  {
    if minYear < maxYear + 1 {
      YearToTsIncreasing(minYear, maxYear + 1);
    } else if minYear > maxYear + 1 {
      YearToTsIncreasing(maxYear + 1, minYear);
    }
  }

  /** `ts` lies inside one of the years `minYear` to `maxYear`. */
  predicate InYears(minYear: int, maxYear: int, ts: int)
    requires I32Min <= minYear && maxYear < I32Max
  {
    exists y :: minYear <= y <= maxYear && YearToTs(y) <= ts < YearToTs(y + 1)
  }

  /**
    The window accepts exactly the instants of the years `minYear` to
    `maxYear`, plus the single instant 00:00:00 UTC on 1 January of
    `maxYear + 1` (unless the window is empty because `minYear` comes
    after `maxYear + 1`).
   */
  lemma WindowAcceptsYears(minYear: int, maxYear: int, ts: int)
    requires I32Min <= minYear <= I32Max && I32Min <= maxYear < I32Max
    ensures Window(minYear, maxYear)(ts) <==>
      InYears(minYear, maxYear, ts) || (ts == YearToTs(maxYear + 1) && minYear <= maxYear + 1)
  {
    AcceptedInYears(minYear, maxYear, ts);
    YearsAccepted(minYear, maxYear, ts);
  }

  /** An accepted timestamp lies inside one of the years, or is the closing instant. */
  lemma AcceptedInYears(minYear: int, maxYear: int, ts: int)
    requires I32Min <= minYear <= I32Max && I32Min <= maxYear < I32Max
    ensures Window(minYear, maxYear)(ts) ==>
      InYears(minYear, maxYear, ts) || (ts == YearToTs(maxYear + 1) && minYear <= maxYear + 1)
  {
    WindowBounds(minYear, maxYear, ts);
    WindowEnds(minYear, maxYear);
    if YearToTs(minYear) <= ts < YearToTs(maxYear + 1) {
      var y := WindowHasYear(minYear, maxYear, ts);
    }
  }

  /** Every instant of the years, and the closing instant of a non-empty window, is accepted. */
  lemma YearsAccepted(minYear: int, maxYear: int, ts: int)
    requires I32Min <= minYear <= I32Max && I32Min <= maxYear < I32Max
    ensures InYears(minYear, maxYear, ts) || (ts == YearToTs(maxYear + 1) && minYear <= maxYear + 1) ==>
      Window(minYear, maxYear)(ts)
  {
    WindowBounds(minYear, maxYear, ts);
    if InYears(minYear, maxYear, ts) {
      var y :| minYear <= y <= maxYear && YearToTs(y) <= ts < YearToTs(y + 1);
      YearInWindow(minYear, maxYear, y, ts);
    } else if ts == YearToTs(maxYear + 1) && minYear <= maxYear + 1 {
      WindowEnds(minYear, maxYear);
    }
  }

  // ---------------------------------------------------------------------
  // Crawl, then sort

  /**
    The central panel's pipeline: crawl the parsed document from the root
    with the year window, then sort the matches by timestamp.
   */
  method TimestampRows(json: Value, minYear: int, maxYear: int) returns (rows: seq<Match>)
    requires I32Min <= minYear <= I32Max && I32Min <= maxYear < I32Max
    ensures rows == SortByTs(Crawl(json, NewPath(), Window(minYear, maxYear)))
    ensures SortedByTs(rows)
    ensures multiset(rows) == multiset(Crawl(json, NewPath(), Window(minYear, maxYear)))
    ensures forall t :: WithTs(rows, t) == WithTs(Crawl(json, NewPath(), Window(minYear, maxYear)), t)
    ensures forall m :: m in rows ==> YearToTs(minYear) <= m.1 <= YearToTs(maxYear + 1)
  {
    var window := Window(minYear, maxYear);
    var out := new MatchVec();
    CrawlJson(json, NewPath(), window, out);
    var found := Crawl(json, NewPath(), window);
    assert out.items == found;
    out.SortByTimestamp();
    rows := out.items;
    SortByTsIsStableSort(found);
    forall m | m in rows ensures YearToTs(minYear) <= m.1 <= YearToTs(maxYear + 1) {
      assert m in multiset(found);
      CrawlSound(json, NewPath(), window, m);
    }
  }

  // ---------------------------------------------------------------------
  // Offset from the anchor

  /** A signed duration split into hours, minutes and seconds. */
  datatype Offset = Offset(negative: bool, hours: nat, minutes: nat, seconds: nat)

  function Abs(x: int): nat {
    if x < 0 then -x else x
  }

  /** The split of `ts - anchor` shown in the "Relative" column. */
  function RelativeOffset(ts: int, anchor: int): (o: Offset)
    ensures o.hours * 3600 + o.minutes * 60 + o.seconds == Abs(ts - anchor)
    ensures o.minutes < 60 && o.seconds < 60
    ensures o.negative <==> ts < anchor
  {
    var diff := ts - anchor;
    var absDiff := Abs(diff);
    var hours := absDiff / 3600;
    var minutes := (absDiff % 3600) / 60;
    var seconds := absDiff % 60;
    assert absDiff % 3600 == minutes * 60 + seconds;
    Offset(diff < 0, hours, minutes, seconds)
  }

  /** The "Relative" column's text: the sign, then hours, minutes and seconds, each zero-filled to two digits. */
  function OffsetText(o: Offset): (s: string)
    ensures |s| >= 7 && (s[0] == '-' <==> o.negative) && (s[0] == '+' <==> !o.negative)
    ensures o.minutes < 100 && o.seconds < 100 ==>
      |s| >= 9 && s[|s| - 6] == ':' && s[|s| - 3] == ':' &&
      s[1..|s| - 6] == Decimal.ZeroPad2(o.hours) && s[|s| - 5..|s| - 3] == Decimal.ZeroPad2(o.minutes) &&
      s[|s| - 2..] == Decimal.ZeroPad2(o.seconds)
    ensures o.hours < 100 && o.minutes < 100 && o.seconds < 100 ==> |s| == 9
  {
    var sign := if o.negative then "-" else "+";
    var h, m, sec := Decimal.ZeroPad2(o.hours), Decimal.ZeroPad2(o.minutes), Decimal.ZeroPad2(o.seconds);
    SplitOffsetText(sign, h, m, sec);
    sign + h + ":" + m + ":" + sec
  }

  /** Where the pieces of `sign + h + ":" + m + ":" + sec` sit; with two-character minutes and seconds, counted from the end. */
  lemma SplitOffsetText(sign: string, h: string, m: string, sec: string)
    requires |sign| == 1
    ensures var s := sign + h + ":" + m + ":" + sec;
      |s| == |h| + |m| + |sec| + 3 && s[0] == sign[0]
    ensures var s := sign + h + ":" + m + ":" + sec;
      |m| == 2 && |sec| == 2 ==>
        |s| == |h| + 7 && s[1..|s| - 6] == h && s[|s| - 6] == ':' &&
        s[|s| - 5..|s| - 3] == m && s[|s| - 3] == ':' && s[|s| - 2..] == sec
  {
    var s := sign + h + ":" + m + ":" + sec;
    assert s == sign + (h + ":" + m + ":" + sec);
  }

  /**
    Reads an offset text back as a signed number of seconds: a sign, digits
    for the hours, then `:MM:SS` with two digits each.
   */
  function ParseOffsetText(s: string): Option<int> {
    if |s| < 9 || (s[0] != '+' && s[0] != '-') || s[|s| - 6] != ':' || s[|s| - 3] != ':' then None
    else
      var h, m, sec := s[1..|s| - 6], s[|s| - 5..|s| - 3], s[|s| - 2..];
      if !Decimal.AllDigits(h) || !Decimal.AllDigits(m) || !Decimal.AllDigits(sec) then None
      else
        var total := Decimal.DecimalValue(h) * 3600 + Decimal.DecimalValue(m) * 60 + Decimal.DecimalValue(sec);
        Some(if s[0] == '-' then -total else total)
  }

  /** Reading back the text of an offset with minutes and seconds below 100 gives its signed total. */
  lemma ReadOffsetText(o: Offset)
    requires o.minutes < 100 && o.seconds < 100
    ensures var total := o.hours * 3600 + o.minutes * 60 + o.seconds;
      ParseOffsetText(OffsetText(o)) == Some(if o.negative then -total else total)
  {
    var s := OffsetText(o);
    assert s[1..|s| - 6] == Decimal.ZeroPad2(o.hours);
  }

  /** The text of an offset denotes exactly the difference between the timestamp and the anchor. */
  lemma OffsetTextRoundTrip(ts: int, anchor: int)
    ensures ParseOffsetText(OffsetText(RelativeOffset(ts, anchor))) == Some(ts - anchor)
  {
    ReadOffsetText(RelativeOffset(ts, anchor));
  }

  /** The sign is `-` exactly before the anchor, so the anchor itself reads `+00:00:00`;
      minutes and seconds always take two digits. */
  lemma OffsetTextShape(ts: int, anchor: int)
    ensures var s := OffsetText(RelativeOffset(ts, anchor));
      |s| >= 9 && (s[0] == '-' <==> ts < anchor) && (s[0] == '+' <==> ts >= anchor) &&
      s[|s| - 6] == ':' && s[|s| - 3] == ':'
    ensures OffsetText(RelativeOffset(anchor, anchor)) == "+00:00:00"
  {
    var o := RelativeOffset(ts, anchor);
    assert |Decimal.ZeroPad2(o.minutes)| == 2 && |Decimal.ZeroPad2(o.seconds)| == 2;
    var z := RelativeOffset(anchor, anchor);
    assert z == Offset(false, 0, 0, 0);
  }
}
