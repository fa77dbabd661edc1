/**
 * The line parser of the ingestion engine: `process_log_file` (SQL1.py:122-178).
 *
 * A file is read whole into lines; each line that is not blank has its eight
 * fields scanned out, its SystemTime normalised and parsed, and is emitted as
 * a record when that time is later than the bookmark. A line whose SystemTime
 * is missing or does not parse is dropped: the source sets the time to None
 * and then calls `None.strftime` (SQL1.py:171), which raises and is caught for
 * the line (SQL1.py:173). The latest time seen moves only on emitted lines.
 */
module Ingest {
  import opened Wrappers
  import opened Text
  import opened Stamps
  import opened Scan

  /**
   * One emitted detection, the tuple of SQL1.py:171. The tuple carries the event
   * time as `%Y-%m-%d %H:%M:%S` text; `time` is the datetime that text stands for
   * (Stamps.FormatStampRoundTrip: the text reads back as exactly this value).
   */
  datatype Record = Record(title: Option<string>, tags: Option<string>, description: Option<string>,
                           time: Moment, computer: Option<string>, user: Option<string>,
                           eventId: Option<string>, provider: Option<string>)

  /** The fields as scanned (SQL1.py:137-152); `systemTime` is the raw capture. */
  datatype Fields = Fields(title: Option<string>, tags: Option<string>, description: Option<string>,
                           systemTime: Option<string>, computer: Option<string>, user: Option<string>,
                           eventId: Option<string>, provider: Option<string>)

  /** What happens to one line. */
  datatype LineOutcome =
    | Blank                  // empty or whitespace only: skipped (SQL1.py:133-134)
    | Undated                // no SystemTime, or one that does not parse: dropped (SQL1.py:165-174)
    | Seen(time: Moment)     // at or before the bookmark: skipped (SQL1.py:161-162)
    | Fresh(record: Record)  // emitted (SQL1.py:171)

  predicate NotPadded(s: string) {
    s == [] || (!IsSpace(s[0]) && !IsSpace(s[|s| - 1]))
  }

  function Stripped(c: Option<string>): (r: Option<string>)
    ensures r.Some? <==> c.Some?
    ensures r.Some? ==> NotPadded(r.value)
  {
    match c
    case None => None
    case Some(v) => Some(Strip(v))
  }

  /** SQL1.py:147: every quote removed, then stripped. */
  function CleanTags(c: Option<string>): (r: Option<string>)
    ensures r.Some? <==> c.Some?
    ensures r.Some? ==> '"' !in r.value && NotPadded(r.value)
  {
    match c
    case None => None
    case Some(v) => Some(Strip(Without(v, '"')))
  }

  /** SQL1.py:137-152. */
  function ExtractFields(line: string): (f: Fields)
    ensures f.tags.Some? ==> '"' !in f.tags.value && NotPadded(f.tags.value)
    ensures f.eventId.Some? ==> f.eventId.value != [] && AllDigits(f.eventId.value)
    ensures f.title.Some? ==> NotPadded(f.title.value)
    ensures f.description.Some? ==> NotPadded(f.description.value)
    ensures f.systemTime == Find(line, SystemTimePattern)
  {
    var eventId := Find(line, EventIdPattern);
    assert eventId.Some? ==> eventId.value != [] && AllDigits(eventId.value);
    Fields(
      title := Stripped(Find(line, TitlePattern)),
      tags := CleanTags(Find(line, TagsPattern)),
      description := Stripped(Find(line, DescriptionPattern)),
      systemTime := Find(line, SystemTimePattern),
      computer := Stripped(Find(line, ComputerPattern)),
      user := Stripped(Find(line, UserIdPattern)),
      eventId := eventId,
      provider := Stripped(Find(line, ProviderPattern)))
  }

  /** The event time a non-blank line carries, if its SystemTime is present and parses. */
  function LineTime(line: string): Option<Moment> {
    match Find(line, SystemTimePattern)
    case None => None
    case Some(raw) => ParseSystemTime(raw)
  }

  /** Strictly later than the bookmark, or no bookmark at all. */
  predicate After(t: Moment, bookmark: Option<Moment>) {
    bookmark.None? || Earlier(bookmark.value, t)
  }

  function Classify(line: string, bookmark: Option<Moment>): LineOutcome {
    if IsBlank(line) then Blank
    else
      var f := ExtractFields(line);
      match LineTime(line)
      case None => Undated
      case Some(t) =>
        if !After(t, bookmark) then Seen(t)
        else Fresh(Record(f.title, f.tags, f.description, t, f.computer, f.user, f.eventId, f.provider))
  }

  /** The record a line contributes: one when it is fresh, none otherwise. */
  function Output(o: LineOutcome): seq<Record> {
    if o.Fresh? then [o.record] else []
  }

  /** The records the lines produce, in line order. */
  function Emitted(lines: seq<string>, bookmark: Option<Moment>): seq<Record> {
    if lines == [] then []
    else Emitted(lines[..|lines| - 1], bookmark) + Output(Classify(lines[|lines| - 1], bookmark))
  }

  /** SQL1.py:163-164 applied to one line's outcome. */
  function Advance(latest: Option<Moment>, o: LineOutcome): Option<Moment> {
    match o
    case Fresh(r) => if latest.None? || Earlier(latest.value, r.time) then Some(r.time) else latest
    case _ => latest
  }

  /** The latest time after the lines, starting from the bookmark (SQL1.py:125). */
  function Latest(lines: seq<string>, bookmark: Option<Moment>): Option<Moment> {
    if lines == [] then bookmark
    else Advance(Latest(lines[..|lines| - 1], bookmark), Classify(lines[|lines| - 1], bookmark))
  }

  /** The event time of a line that is not blank and carries a parseable SystemTime. */
  function TimesOf(line: string): set<Moment> {
    if !IsBlank(line) && LineTime(line).Some? then {LineTime(line).value} else {}
  }

  /** The event times of all such lines. */
  function ParsedTimes(lines: seq<string>): set<Moment> {
    if lines == [] then {} else ParsedTimes(lines[..|lines| - 1]) + TimesOf(lines[|lines| - 1])
  }

  /** One more line extends both running results by that line's outcome. */
  lemma Step(lines: seq<string>, i: nat, bookmark: Option<Moment>)
    requires i < |lines|
    ensures Emitted(lines[..i + 1], bookmark) == Emitted(lines[..i], bookmark) + Output(Classify(lines[i], bookmark))
    ensures Latest(lines[..i + 1], bookmark) == Advance(Latest(lines[..i], bookmark), Classify(lines[i], bookmark))
  {
    assert lines[..i + 1][..i] == lines[..i];
  }

  /**
   * `process_log_file`: the records to insert and the new latest time.
   * A file that cannot be read gives no records and leaves the time as it was.
   */
  method ProcessLogFile(file: Option<seq<string>>, lastProcessed: Option<Moment>)
    returns (processed: seq<Record>, latest: Option<Moment>)
    ensures file.None? ==> processed == [] && latest == lastProcessed
    ensures file.Some? ==> processed == Emitted(file.value, lastProcessed)
    ensures file.Some? ==> latest == Latest(file.value, lastProcessed)
  {
    processed := [];
    latest := lastProcessed;
    if file.None? {
      return;
    }
    var lines := file.value;
    for i := 0 to |lines|
      invariant processed == Emitted(lines[..i], lastProcessed)
      invariant latest == Latest(lines[..i], lastProcessed)
    {
      var line := lines[i];
      Step(lines, i, lastProcessed);
      if IsBlank(line) {
        continue;
      }
      var f := ExtractFields(line);
      if f.systemTime.None? {
        continue;
      }
      var t := ParseSystemTime(f.systemTime.value);
      if t.None? {
        continue;
      }
      var systemTime := t.value;
      if lastProcessed.Some? && !Earlier(lastProcessed.value, systemTime) {
        continue;
      }
      if latest.None? || Earlier(latest.value, systemTime) {
        latest := Some(systemTime);
      }
      processed := processed + [Record(f.title, f.tags, f.description, systemTime,
                                       f.computer, f.user, f.eventId, f.provider)];
    }
    assert lines[..|lines|] == lines;
  }

  // ---------------------------------------------------------------------------
  // Properties of the parser.

  /**
   * A line yields a record exactly when it is not blank, its SystemTime is
   * present and parses, and that time is later than the bookmark.
   */
  lemma LineEmittedIff(line: string, bookmark: Option<Moment>)
    ensures Classify(line, bookmark).Fresh? <==>
              Strip(line) != [] && LineTime(line).Some? && After(LineTime(line).value, bookmark)
    ensures Classify(line, bookmark).Fresh? ==> Classify(line, bookmark).record.time == LineTime(line).value
  {
    BlankIffStripsToNothing(line);
  }

  /**
   * A line that opens with a SystemTime in ISO form with a fractional second
   * (as the detections carry it) yields exactly that time, whatever the
   * fraction and whatever follows.
   */
  lemma IsoLineTime(d: Moment, fraction: string, tail: string)
    requires d.micro == 0 && '"' !in fraction && '\n' !in fraction
    ensures var line := SystemTimePattern.prefix + (IsoText(d) + "." + fraction) + ['"'] + tail;
            LineTime(line) == Some(d) && !IsBlank(line)
  {
    var value := IsoText(d) + "." + fraction;
    assert '"' !in value && '\n' !in value;
    SystemTimeAtStart(value, tail);
    IsoSystemTime(d, fraction);
  }

  /** A line that opens with its SystemTime is not blank and carries the time that value reads as. */
  lemma SystemTimeAtStart(value: string, tail: string)
    requires '"' !in value && '\n' !in value
    ensures var line := SystemTimePattern.prefix + value + ['"'] + tail;
            LineTime(line) == ParseSystemTime(value) && !IsBlank(line)
  {
    var line := SystemTimePattern.prefix + value + ['"'] + tail;
    LazyAtStart(SystemTimePattern, value, tail);
    assert line[0] == '"';
  }

  /** Every emitted record is strictly later than the bookmark. */
  lemma {:induction false} EmittedAfterBookmark(lines: seq<string>, bookmark: Option<Moment>)
    ensures forall r :: r in Emitted(lines, bookmark) ==> After(r.time, bookmark)
  {
    if lines != [] {
      EmittedAfterBookmark(lines[..|lines| - 1], bookmark);
    }
  }

  /** Reprocessing lines whose times are all at or before the bookmark emits nothing. */
  lemma {:induction false} NothingNewBeforeBookmark(lines: seq<string>, b: Moment)
    requires forall t :: t in ParsedTimes(lines) ==> !Earlier(b, t)
    ensures Emitted(lines, Some(b)) == []
    ensures Latest(lines, Some(b)) == Some(b)
  {
    if lines != [] {
      NothingNewBeforeBookmark(lines[..|lines| - 1], b);
    }
  }

  /**
   * The latest time is the maximum of the bookmark and every parsed time: it
   * is never earlier than either, and it is one of them. So the bookmark only
   * moves forward.
   */
  lemma {:induction false} LatestIsMaximum(lines: seq<string>, bookmark: Option<Moment>)
    ensures bookmark.Some? ==> Latest(lines, bookmark).Some? && !Earlier(Latest(lines, bookmark).value, bookmark.value)
    ensures forall t :: t in ParsedTimes(lines) ==>
              Latest(lines, bookmark).Some? && !Earlier(Latest(lines, bookmark).value, t)
    ensures Latest(lines, bookmark).Some? ==> Latest(lines, bookmark) == bookmark || Latest(lines, bookmark).value in ParsedTimes(lines)
  {
    if lines != [] {
      var init, line := lines[..|lines| - 1], lines[|lines| - 1];
      LatestIsMaximum(init, bookmark);
      OutcomeTimes(line, bookmark);
      AdvanceStep(Latest(init, bookmark), Classify(line, bookmark), ParsedTimes(init), TimesOf(line), bookmark);
    }
  }

  /** One line keeps the three facts of `LatestIsMaximum`. */
  lemma AdvanceStep(before: Option<Moment>, o: LineOutcome, prior: set<Moment>, times: set<Moment>, bookmark: Option<Moment>)
    requires bookmark.Some? ==> before.Some? && !Earlier(before.value, bookmark.value)
    requires forall t :: t in prior ==> before.Some? && !Earlier(before.value, t)
    requires before.Some? ==> before == bookmark || before.value in prior
    requires o.Fresh? ==> times == {o.record.time}
    requires o.Seen? ==> times == {o.time} && bookmark.Some? && !Earlier(bookmark.value, o.time)
    requires o.Blank? || o.Undated? ==> times == {}
    ensures var after := Advance(before, o);
            && (bookmark.Some? ==> after.Some? && !Earlier(after.value, bookmark.value))
            && (forall t :: t in prior + times ==> after.Some? && !Earlier(after.value, t))
            && (after.Some? ==> after == bookmark || after.value in prior + times)
  {
    var after := Advance(before, o);
    if before.Some? {
      assert !Earlier(after.value, before.value);
      if bookmark.Some? {
        NotEarlierTransitive(bookmark.value, before.value, after.value);
      }
      if o.Seen? {
        NotEarlierTransitive(o.time, bookmark.value, before.value);
        NotEarlierTransitive(o.time, before.value, after.value);
      }
      forall t | t in prior
        ensures !Earlier(after.value, t)
      {
        NotEarlierTransitive(t, before.value, after.value);
      }
    }
  }

  /** The time a line's outcome carries is the time the line parses to, if any. */
  lemma OutcomeTimes(line: string, bookmark: Option<Moment>)
    ensures var o := Classify(line, bookmark);
            && (o.Fresh? ==> TimesOf(line) == {o.record.time})
            && (o.Seen? ==> TimesOf(line) == {o.time} && bookmark.Some? && !Earlier(bookmark.value, o.time))
            && (o.Blank? || o.Undated? ==> TimesOf(line) == {})
  {
  }

  /** The latest time is never earlier than any record emitted with it. */
  lemma {:induction false} EmittedWithinLatest(lines: seq<string>, bookmark: Option<Moment>)
    ensures forall r :: r in Emitted(lines, bookmark) ==>
              Latest(lines, bookmark).Some? && !Earlier(Latest(lines, bookmark).value, r.time)
  {
    if lines != [] {
      var init := lines[..|lines| - 1];
      EmittedWithinLatest(init, bookmark);
      var before := Latest(init, bookmark);
      var after := Latest(lines, bookmark);
      forall r | r in Emitted(init, bookmark)
        ensures after.Some? && !Earlier(after.value, r.time)
      {
        assert after.Some? && !Earlier(after.value, before.value);
        NotEarlierTransitive(r.time, before.value, after.value);
      }
    }
  }

  /** A description capture does not stop at an escaped quote: every quote inside it follows a backslash. */
  lemma DescriptionKeepsEscapedQuotes(line: string, k: nat)
    requires Find(line, DescriptionPattern).Some?
    requires var d := Find(line, DescriptionPattern).value; k < |d| && d[k] == '"'
    ensures var d := Find(line, DescriptionPattern).value; k > 0 && d[k - 1] == '\\'
  {
    var d := Find(line, DescriptionPattern).value;
    var q :| 0 <= q <= |line| && MatchAt(line, q, DescriptionPattern) == Some(d);
    EscapedQuotesKept(d, k);
  }
}
