/**
 * The bookmark file (SQL1.py:95-119): the time of the newest detection
 * ingested, written as `%Y-%m-%d %H:%M:%S` and read back with `strptime`.
 */
module Bookmark {
  import opened Wrappers
  import opened Text
  import opened Stamps

  /**
   * What `read_last_processed_time` makes of the file: None when it does not
   * exist, is blank, or holds text `strptime` rejects (SQL1.py:97-109).
   */
  function ReadBookmark(content: Option<string>): (r: Option<Moment>)
    ensures r.Some? ==> content.Some? && Strip(content.value) != [] && r.value.micro == 0
  {
    match content
    case None => None
    case Some(text) =>
      var stamp := Strip(text);
      if stamp == [] then None else ParseStamp(stamp)
  }

  /** The bookmark file; `content` is None while the file does not exist. */
  class BookmarkFile {
    var content: Option<string>

    constructor (content: Option<string>)
      ensures this.content == content
    {
      this.content := content;
    }

    /** `read_last_processed_time` (SQL1.py:95-109). */
    method Read() returns (t: Option<Moment>)
      ensures t == ReadBookmark(content)
    {
      if content.None? {
        return None;
      }
      var stamp := Strip(content.value);
      if stamp == [] {
        return None;
      }
      t := ParseStamp(stamp);
    }

    /**
     * `update_last_processed_time` (SQL1.py:112-119): a datetime replaces the
     * file's content with its stamp; anything else is logged and the file is
     * left as it was.
     */
    method Update(t: Option<Moment>)
      modifies this
      ensures t.Some? ==> content == Some(FormatStamp(t.value))
      ensures t.None? ==> content == old(content)
    {
      if t.Some? {
        content := Some(FormatStamp(t.value));
      }
    }
  }

  /**
   * What is written is read back: the same datetime, less the microseconds the
   * format does not carry. Every time the ingestion writes has none, so for
   * those the bookmark is exact.
   */
  lemma BookmarkRoundTrip(d: Moment)
    ensures ReadBookmark(Some(FormatStamp(d))) == Some(d.(micro := 0))
    ensures d.micro == 0 ==> ReadBookmark(Some(FormatStamp(d))) == Some(d)
  {
    var s := FormatStamp(d);
    StripNoOp(s);
    FormatStampRoundTrip(d);
  }

  /** A missing, empty or whitespace-only bookmark file means "no bookmark". */
  lemma NoBookmarkWhenBlank(content: Option<string>)
    requires content.None? || AllSpace(content.value)
    ensures ReadBookmark(content).None?
  {
    if content.Some? {
      StripEmptyIffAllSpace(content.value);
    }
  }
}
