/** Record assembly in `lessonScarpper`: every DOM read on a lesson page is an
    optional input, a missing selector is `None`, and each field is derived
    from its own read alone, so no missing field stops the record from being
    built. */
module LessonRecord {
  import opened Options
  import opened Strings
  import opened DateParse

  /** What the page queries return on one lesson page. */
  datatype PageReads = PageReads(
    mp3Href: Option<string>,       // href of the first anchor ending in "mp3"
    heading: Option<string>,       // text of the page's main heading
    keywords: Option<string>,      // text of the first keyword-tag anchor
    series: Option<string>,        // text of the first series-tag anchor
    dateText: Option<string>,      // text of the post-info date element
    canonicalHref: Option<string>  // href of the canonical link
  )

  /** A scraped lesson. The `updatedAt` timestamp is not modelled. */
  datatype Lesson = Lesson(
    url: string,
    mediaUrl: Option<string>,
    title: Option<string>,
    tags: seq<string>,
    date: Option<DateFields>,
    id: Option<string>,
    valid: bool
  )

  /** Tags as the page shows them: trimmed, without commas. */
  predicate CleanTags(tags: seq<string>) {
    forall k :: 0 <= k < |tags| ==> Trimmed(tags[k]) && ',' !in tags[k]
  }

  /** A tag anchor's text split on commas, each piece trimmed; an absent
      anchor contributes no tags. */
  function TagList(text: Option<string>): (tags: seq<string>)
    ensures text.None? ==> tags == []
    ensures text.Some? ==> |tags| == Count(text.value, ',') + 1
    ensures text.Some? ==> |tags| == |Split(text.value, ',')|
    ensures text.Some? ==> forall k :: 0 <= k < |tags| ==> tags[k] == Trim(Split(text.value, ',')[k])
    ensures CleanTags(tags)
  {
    match text
    case None => []
    case Some(s) =>
      var pieces := Split(s, ',');
      SplitLength(s, ',');
      SplitPieces(s, ',');
      seq(|pieces|, k requires 0 <= k < |pieces| => TrimPiece(pieces[k]))
  }

  /** `Trim` keeps a comma-free piece comma-free. */
  function TrimPiece(piece: string): (r: string)
    requires ',' !in piece
    ensures r == Trim(piece) && Trimmed(r) && ',' !in r
  {
    TrimKeepsAbsent(piece, ',');
    Trim(piece)
  }

  /** A character absent from a string is absent from its trim. */
  lemma TrimKeepsAbsent(s: string, c: char)
    requires c !in s
    ensures c !in Trim(s)
  {
    var i := TrimIsInfix(s);
    assert Trim(s) == s[i..i + |Trim(s)|];
  }

  /** White space `lpad[k]` before tag `k` and `rpad[k]` after it. */
  predicate Padding(tags: seq<string>, lpad: seq<string>, rpad: seq<string>) {
    && |lpad| == |tags| && |rpad| == |tags|
    && forall k :: 0 <= k < |tags| ==> AllWhitespace(lpad[k]) && AllWhitespace(rpad[k])
  }

  /** The anchor text listing `tags`, each with its padding, or no anchor
      when there are none. */
  function TagSource(tags: seq<string>, lpad: seq<string>, rpad: seq<string>): Option<string>
    requires |lpad| == |tags| && |rpad| == |tags|
  {
    if |tags| == 0 then None
    else Some(Join(seq(|tags|, k requires 0 <= k < |tags| => lpad[k] + tags[k] + rpad[k]), ','))
  }

  /** Reading back a listed set of clean tags, with any white space around
      each one, gives exactly those tags, in order, duplicates included. */
  lemma TagListRoundTrip(tags: seq<string>, lpad: seq<string>, rpad: seq<string>)
    requires CleanTags(tags) && Padding(tags, lpad, rpad)
    ensures TagList(TagSource(tags, lpad, rpad)) == tags
  {
    if |tags| > 0 {
      var pieces := seq(|tags|, k requires 0 <= k < |tags| => lpad[k] + tags[k] + rpad[k]);
      forall k | 0 <= k < |pieces|
        ensures ',' !in pieces[k] && Trim(pieces[k]) == tags[k]
      {
        PaddedTag(lpad[k], tags[k], rpad[k]);
      }
      var text := Join(pieces, ',');
      JoinSplit(pieces, ',');
      assert TagSource(tags, lpad, rpad) == Some(text);
      var out := TagList(Some(text));
      forall k | 0 <= k < |tags|
        ensures out[k] == tags[k]
      {
        assert out[k] == Trim(Split(text, ',')[k]);
      }
    }
  }

  /** One padded tag: comma-free, and trimming recovers the tag. */
  lemma PaddedTag(l: string, tag: string, r: string)
    requires AllWhitespace(l) && AllWhitespace(r) && Trimmed(tag) && ',' !in tag
    ensures ',' !in l + tag + r && Trim(l + tag + r) == tag
  {
    WhitespaceWithout(l, ',');
    WhitespaceWithout(r, ',');
    TrimPadding(l, tag, r);
    TrimFixpoint(tag);
  }

  /** `id = href.split("/")[length - 2]`: the second-to-last `/`-segment,
      and JavaScript's `undefined` (index -1) when the href has no `/`. */
  function CanonicalId(href: string): (id: Option<string>)
    ensures id.Some? <==> '/' in href
    ensures id.Some? ==> '/' !in id.value
  {
    var parts := Split(href, '/');
    SplitLength(href, '/');
    SplitPieces(href, '/');
    CountPresence(href, '/');
    if |parts| >= 2 then Some(parts[|parts| - 2]) else None
  }

  /** A canonical href made of `/`-free segments yields its second-to-last
      segment as the id. */
  lemma CanonicalIdOfSegments(segments: seq<string>)
    requires |segments| >= 2 && FreeOf(segments, '/')
    ensures CanonicalId(Join(segments, '/')) == Some(segments[|segments| - 2])
  {
    var href := Join(segments, '/');
    JoinSplit(segments, '/');
    CanonicalIdOfParts(href, segments);
  }

  lemma CanonicalIdOfParts(href: string, parts: seq<string>)
    requires Split(href, '/') == parts && |parts| >= 2
    ensures CanonicalId(href) == Some(parts[|parts| - 2])
  {
  }

  /** The record `lessonScarpper` returns for the lesson at `url`. */
  function Assemble(months: MonthTable, url: string, page: PageReads): (l: Lesson)
    ensures l.url == url
    ensures l.valid <==> page.mp3Href.Some? && page.heading.Some?
    ensures l.mediaUrl == page.mp3Href && l.title == page.heading
    ensures page.canonicalHref.None? ==> l.id.None?
    ensures l.date.Some? <==> page.dateText.Some?
  {
    Lesson(
      url := url,
      mediaUrl := page.mp3Href,
      title := page.heading,
      tags := TagList(page.keywords) + TagList(page.series),
      date := if page.dateText.Some? then Some(ConvertDate(months, page.dateText.value)) else None,
      id := if page.canonicalHref.Some? then CanonicalId(page.canonicalHref.value) else None,
      valid := page.mp3Href.Some? && page.heading.Some?
    )
  }

  /** The tags are the keyword tags followed by the series tags, order and
      duplicates kept; an absent anchor contributes nothing. */
  lemma AssembledTags(months: MonthTable, url: string, page: PageReads,
                      keywords: seq<string>, kl: seq<string>, kr: seq<string>,
                      series: seq<string>, sl: seq<string>, sr: seq<string>)
    requires CleanTags(keywords) && Padding(keywords, kl, kr)
    requires CleanTags(series) && Padding(series, sl, sr)
    requires page.keywords == TagSource(keywords, kl, kr) && page.series == TagSource(series, sl, sr)
    ensures Assemble(months, url, page).tags == keywords + series
  {
    TagListRoundTrip(keywords, kl, kr);
    TagListRoundTrip(series, sl, sr);
  }

  /** The id comes from the canonical link alone: the record's url stays the
      requested one whatever the canonical href says. */
  lemma AssembledId(months: MonthTable, url: string, page: PageReads, segments: seq<string>)
    requires |segments| >= 2 && FreeOf(segments, '/')
    requires page.canonicalHref == Some(Join(segments, '/'))
    ensures Assemble(months, url, page).id == Some(segments[|segments| - 2])
    ensures Assemble(months, url, page).url == url
  {
    CanonicalIdOfSegments(segments);
  }

  /** Validity depends on the media link and the title only: two pages that
      agree on those agree on `valid`, whatever their tags, date and id. */
  lemma ValidityIndependent(months: MonthTable, url1: string, r1: PageReads, url2: string, r2: PageReads)
    requires r1.mp3Href.Some? == r2.mp3Href.Some? && r1.heading.Some? == r2.heading.Some?
    ensures Assemble(months, url1, r1).valid == Assemble(months, url2, r2).valid
  {
  }

  /** A page with a title and no audio link still yields a record, with no
      media URL and marked invalid. */
  lemma TitleWithoutAudio(months: MonthTable, url: string, page: PageReads)
    requires page.heading.Some? && page.mp3Href.None?
    ensures Assemble(months, url, page).mediaUrl.None?
    ensures !Assemble(months, url, page).valid
    ensures Assemble(months, url, page).title == page.heading
  {
  }

  /** A page where every query fails still yields a record: the requested
      url and nothing else. */
  lemma NothingFound(months: MonthTable, url: string)
    ensures Assemble(months, url, PageReads(None, None, None, None, None, None))
      == Lesson(url, None, None, [], None, None, false)
  {
  }
}
