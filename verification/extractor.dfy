/** The anchor-capturing HTML parser of the application (`BookmarkHTMLParser`).
    The tokenizer is not modelled: a document arrives as its stream of events,
    with tag and attribute names already lower-cased as Python's `HTMLParser`
    delivers them. */
module Extractor {
  import opened Wrappers
  import opened Text
  import opened Bookmarks

  /** An attribute as the tokenizer reports it: a name and, unless the attribute
      is written without `=`, a value. */
  type Attr = (string, Option<string>)

  datatype Event =
    | StartTag(tag: string, attrs: seq<Attr>)
    | EndTag(tag: string)
    | Data(text: string)

  /** The parser object's fields: `in_a`, `current_url`, `current_title`, `bookmarks`. */
  datatype ParserState = ParserState(inAnchor: bool, url: Option<string>, title: Option<string>, bookmarks: seq<Bookmark>)

  /** A fresh parser. */
  const Initial := ParserState(false, None, None, [])

  predicate IsOpen(e: Event) {
    e.StartTag? && e.tag == "a"
  }

  predicate IsClose(e: Event) {
    e.EndTag? && e.tag == "a"
  }

  /** A bookmark the parser can emit: both fields non-empty and the title already stripped. */
  predicate WellFormed(b: Bookmark) {
    b.url != [] && b.title != [] && Trimmed(b.title)
  }

  /** What holds of the parser between events: outside an anchor nothing is captured,
      and a captured title is always a stripped text. */
  predicate Valid(s: ParserState) {
    && (!s.inAnchor ==> s.url == None && s.title == None)
    && (s.title.Some? ==> Trimmed(s.title.value))
  }

  /** The `for attr in attrs` loop of an anchor start tag: every `href` attribute
      overwrites the current url, so the last one wins. */
  function ScanHref(url: Option<string>, attrs: seq<Attr>): (r: Option<string>)
    ensures (forall k :: 0 <= k < |attrs| ==> attrs[k].0 != "href") ==> r == url
    ensures forall k :: 0 <= k < |attrs| && attrs[k].0 == "href" ==>
              (forall k' :: k < k' < |attrs| ==> attrs[k'].0 != "href") ==> r == attrs[k].1
    decreases |attrs|
  {
    if attrs == [] then url
    else ScanHref(if attrs[0].0 == "href" then attrs[0].1 else url, attrs[1..])
  }

  /** `handle_starttag`: an anchor start tag enters capture and takes its `href`;
      any other start tag is ignored. */
  function OnStartTag(s: ParserState, tag: string, attrs: seq<Attr>): (r: ParserState)
    ensures r.inAnchor == (s.inAnchor || tag == "a")
    ensures r.title == s.title && r.bookmarks == s.bookmarks
    ensures tag != "a" ==> r == s
    ensures tag == "a" ==> r.url == ScanHref(s.url, attrs)
    ensures tag == "a" && (forall k :: 0 <= k < |attrs| ==> attrs[k].0 != "href") ==> r.url == s.url
  {
    if tag == "a" then s.(inAnchor := true, url := ScanHref(s.url, attrs)) else s
  }

  /** `handle_endtag`: an anchor end tag inside an anchor emits the capture when
      both url and title are non-empty, then resets; every other end tag is ignored. */
  function OnEndTag(s: ParserState, tag: string): (r: ParserState)
    ensures tag == "a" && s.inAnchor ==> !r.inAnchor && r.url == None && r.title == None
    ensures tag == "a" && s.inAnchor && Truthy(s.url) && Truthy(s.title) ==>
              r.bookmarks == s.bookmarks + [Bookmark(s.title.value, s.url.value)]
    ensures !(tag == "a" && s.inAnchor && Truthy(s.url) && Truthy(s.title)) ==> r.bookmarks == s.bookmarks
    ensures !(tag == "a" && s.inAnchor) ==> r == s
  {
    if tag == "a" && s.inAnchor then
      var bookmarks := if Truthy(s.url) && Truthy(s.title)
                       then s.bookmarks + [Bookmark(s.title.value, s.url.value)]
                       else s.bookmarks;
      ParserState(false, None, None, bookmarks)
    else s
  }

  /** `handle_data`: text inside an anchor replaces the title by its stripped form
      (it does not accumulate); text outside an anchor is ignored. */
  function OnData(s: ParserState, text: string): (r: ParserState)
    ensures !s.inAnchor ==> r == s
    ensures s.inAnchor ==> r.title == Some(Strip(text)) && r.(title := s.title) == s
    ensures s.inAnchor && AllSpace(text) ==> r.title == Some([])
  {
    if s.inAnchor then s.(title := Some(Strip(text))) else s
  }

  /** One tokenizer event delivered to its handler. */
  function Step(s: ParserState, e: Event): ParserState {
    match e
    case StartTag(tag, attrs) => OnStartTag(s, tag, attrs)
    case EndTag(tag) => OnEndTag(s, tag)
    case Data(text) => OnData(s, text)
  }

  /** The bookmark list only grows, at its end, by one bookmark built from the capture,
      and only when an anchor end tag arrives inside an anchor with url and title set;
      the parser invariant survives every event. */
  lemma StepKeepsInvariant(s: ParserState, e: Event)
    ensures || Step(s, e).bookmarks == s.bookmarks
            || (&& IsClose(e) && s.inAnchor && Truthy(s.url) && Truthy(s.title)
                && Step(s, e).bookmarks == s.bookmarks + [Bookmark(s.title.value, s.url.value)])
    ensures Valid(s) ==> Valid(Step(s, e))
  {
  }

  /** `parser.feed(...)`: the transitions of a whole event stream, in order. */
  function Feed(s: ParserState, events: seq<Event>): ParserState
    decreases |events|
  {
    if events == [] then s
    else Step(Feed(s, events[..|events| - 1]), events[|events| - 1])
  }

  /** Over any event stream the parser invariant holds throughout, the earlier list stays
      a prefix, and every bookmark added is well formed. */
  lemma {:induction false} FeedKeepsInvariant(s: ParserState, events: seq<Event>)
    ensures Valid(s) ==> Valid(Feed(s, events))
    ensures s.bookmarks <= Feed(s, events).bookmarks
    ensures Valid(s) ==> forall k :: |s.bookmarks| <= k < |Feed(s, events).bookmarks| ==> WellFormed(Feed(s, events).bookmarks[k])
    decreases |events|
  {
    if events != [] {
      FeedKeepsInvariant(s, events[..|events| - 1]);
      StepKeepsInvariant(Feed(s, events[..|events| - 1]), events[|events| - 1]);
    }
  }

  /** The bookmarks a fresh parser extracts from a document. */
  function Parse(events: seq<Event>): (r: seq<Bookmark>)
    ensures forall b :: b in r ==> WellFormed(b)
  {
    FeedKeepsInvariant(Initial, events);
    Feed(Initial, events).bookmarks
  }

  // ---------------------------------------------------------------------------
  // Reference: the document cut into anchor elements at each `</a>`.
  // ---------------------------------------------------------------------------

  /** Some event of `seg` opens an anchor. */
  predicate Opens(seg: seq<Event>) {
    exists i :: 0 <= i < |seg| && IsOpen(seg[i])
  }

  /** The address of the anchor in `seg`: the `href` left by the anchor start tags, in order. */
  function Href(seg: seq<Event>): Option<string>
    decreases |seg|
  {
    if seg == [] then None
    else
      var e := seg[|seg| - 1];
      if IsOpen(e) then ScanHref(Href(seg[..|seg| - 1]), e.attrs) else Href(seg[..|seg| - 1])
  }

  /** The title of the anchor in `seg`: the stripped text of the last text run after the anchor opened. */
  function Title(seg: seq<Event>): Option<string>
    decreases |seg|
  {
    if seg == [] then None
    else
      var e := seg[|seg| - 1];
      if e.Data? && Opens(seg[..|seg| - 1]) then Some(Strip(e.text)) else Title(seg[..|seg| - 1])
  }

  /** What one anchor element contributes: a bookmark when it opened with a non-empty address and text. */
  function Emit(seg: seq<Event>): seq<Bookmark> {
    if Opens(seg) && Truthy(Href(seg)) && Truthy(Title(seg))
    then [Bookmark(Title(seg).value, Href(seg).value)]
    else []
  }

  /** `seg` holds no anchor end tag: it lies within one element. */
  predicate NoClose(seg: seq<Event>) {
    forall i :: 0 <= i < |seg| ==> !IsClose(seg[i])
  }

  /** The reference extraction, scanning the document once: `seg` collects the events of
      the current element; each `</a>` emits that element's bookmark, if any, and starts a
      new element. Whatever follows the last `</a>` contributes nothing. */
  function ExtractFrom(seg: seq<Event>, events: seq<Event>): seq<Bookmark>
    decreases |events|
  {
    if events == [] then []
    else if IsClose(events[0]) then Emit(seg) + ExtractFrom([], events[1..])
    else ExtractFrom(seg + [events[0]], events[1..])
  }

  /** One candidate bookmark per `</a>`-terminated element, in document order. */
  function Extract(events: seq<Event>): seq<Bookmark> {
    ExtractFrom([], events)
  }

  // ---------------------------------------------------------------------------
  // The parser against the reference
  // ---------------------------------------------------------------------------

  /** A parser with nothing captured and `acc` already extracted. */
  function Reset(acc: seq<Bookmark>): ParserState {
    ParserState(false, None, None, acc)
  }

  lemma {:induction false} FeedAppend(s: ParserState, a: seq<Event>, b: seq<Event>)
    ensures Feed(s, a + b) == Feed(Feed(s, a), b)
    decreases |b|
  {
    if b == [] {
      assert a + b == a;
    } else {
      var b' := b[..|b| - 1];
      assert (a + b)[..|a + b| - 1] == a + b';
      FeedAppend(s, a, b');
    }
  }

  /** Inside one element (no `</a>`), the parser's capture is exactly the reference's. */
  lemma {:induction false} FeedSegment(acc: seq<Bookmark>, seg: seq<Event>)
    requires NoClose(seg)
    ensures Feed(Reset(acc), seg) == ParserState(Opens(seg), Href(seg), Title(seg), acc)
    decreases |seg|
  {
    if seg != [] {
      var init := seg[..|seg| - 1];
      var e := seg[|seg| - 1];
      FeedSegment(acc, init);
      assert Opens(seg) == (Opens(init) || IsOpen(e)) by {
        if Opens(init) {
          var i :| 0 <= i < |init| && IsOpen(init[i]);
          assert seg[i] == init[i];
        }
        if Opens(seg) && !IsOpen(e) {
          var i :| 0 <= i < |seg| && IsOpen(seg[i]);
          assert init[i] == seg[i];
        }
      }
    }
  }

  /** Closing an element turns the reference capture into its emitted bookmark and resets. */
  lemma CloseSegment(acc: seq<Bookmark>, seg: seq<Event>)
    requires NoClose(seg)
    ensures Step(Feed(Reset(acc), seg), EndTag("a")) == Reset(acc + Emit(seg))
  {
    FeedSegment(acc, seg);
    FeedKeepsInvariant(Reset(acc), seg);
  }

  lemma FeedSnoc(s: ParserState, events: seq<Event>, e: Event)
    ensures Feed(s, events + [e]) == Step(Feed(s, events), e)
  {
    assert (events + [e])[..|events|] == events;
  }

  /** Feeding one whole element, `</a>` included, emits the reference's bookmark and resets. */
  lemma FeedElement(acc: seq<Bookmark>, seg: seq<Event>)
    requires NoClose(seg)
    ensures Feed(Reset(acc), seg + [EndTag("a")]) == Reset(acc + Emit(seg))
  {
    FeedSnoc(Reset(acc), seg, EndTag("a"));
    CloseSegment(acc, seg);
  }

  /** Feeding a `</a>` that ends the current element, and then more events, is feeding the
      rest after that element's bookmark. */
  lemma FeedElementThen(acc: seq<Bookmark>, seg: seq<Event>, events: seq<Event>)
    requires NoClose(seg)
    requires events != [] && IsClose(events[0])
    ensures Feed(Reset(acc), seg + events) == Feed(Reset(acc + Emit(seg)), [] + events[1..])
  {
    var rest := events[1..];
    assert seg + events == (seg + [EndTag("a")]) + rest by {
      assert events[0] == EndTag("a");
    }
    assert [] + rest == rest;
    FeedAppend(Reset(acc), seg + [EndTag("a")], rest);
    FeedElement(acc, seg);
  }

  /** The `</a>` case of the scan: given the result for the rest of the document, the
      element's bookmark comes first. */
  lemma CloseThenRest(acc: seq<Bookmark>, seg: seq<Event>, events: seq<Event>)
    requires NoClose(seg)
    requires events != [] && IsClose(events[0])
    requires Feed(Reset(acc + Emit(seg)), [] + events[1..]).bookmarks == (acc + Emit(seg)) + ExtractFrom([], events[1..])
    ensures Feed(Reset(acc), seg + events).bookmarks == acc + ExtractFrom(seg, events)
  {
    var emitted := Emit(seg);
    FeedElementThen(acc, seg, events);
    assert (acc + emitted) + ExtractFrom([], events[1..]) == acc + (emitted + ExtractFrom([], events[1..]));
  }

  /** An event other than `</a>` moves from the rest of the document into the current element. */
  lemma ShiftIntoElement(seg: seq<Event>, events: seq<Event>)
    requires NoClose(seg)
    requires events != [] && !IsClose(events[0])
    ensures seg + events == (seg + [events[0]]) + events[1..]
    ensures NoClose(seg + [events[0]])
  {
  }

  /** The parser, part-way into an element, agrees with the reference scan from there on. */
  lemma {:induction false} FeedFromReset(acc: seq<Bookmark>, seg: seq<Event>, events: seq<Event>)
    requires NoClose(seg)
    ensures Feed(Reset(acc), seg + events).bookmarks == acc + ExtractFrom(seg, events)
    decreases |events|
  {
    if events == [] {
      assert seg + events == seg;
      FeedSegment(acc, seg);
    } else if IsClose(events[0]) {
      FeedFromReset(acc + Emit(seg), [], events[1..]);
      CloseThenRest(acc, seg, events);
    } else {
      ShiftIntoElement(seg, events);
      FeedFromReset(acc, seg + [events[0]], events[1..]);
    }
  }

  /** The parser extracts exactly one bookmark per anchor element that opened with a
      non-empty address and a non-empty last text run, in document order. */
  lemma ParseIsExtract(events: seq<Event>)
    ensures Parse(events) == Extract(events)
  {
    FeedFromReset([], [], events);
    assert [] + events == events;
  }

  /** Only the last text run of an anchor counts: a later run replaces an earlier one. */
  lemma LastTextRunWins(s: ParserState, d1: string, d2: string)
    requires s.inAnchor
    ensures Step(Step(s, Data(d1)), Data(d2)) == Step(s, Data(d2))
  {
  }

  /** An anchor whose last text run is only whitespace emits nothing when it closes. */
  lemma BlankTitleEmitsNothing(s: ParserState, d: string)
    requires s.inAnchor && AllSpace(d)
    ensures Step(Step(s, Data(d)), EndTag("a")) == Reset(s.bookmarks)
  {
  }

  /** The example document `<a href="http://x.test">X</a><a>NoHref</a>`: the second
      anchor has no address and is dropped. */
  lemma AnchorWithoutHrefIsDropped()
    ensures Parse([StartTag("a", [("href", Some("http://x.test"))]), Data("X"), EndTag("a"),
                   StartTag("a", []), Data("NoHref"), EndTag("a")])
         == [Bookmark("X", "http://x.test")]
  {
    var open1 := StartTag("a", [("href", Some("http://x.test"))]);
    var open2 := StartTag("a", []);
    var e1 := [open1];
    var e2 := e1 + [Data("X")];
    var e3 := e2 + [EndTag("a")];
    var e4 := e3 + [open2];
    var e5 := e4 + [Data("NoHref")];
    var e6 := e5 + [EndTag("a")];
    assert e6 == [open1, Data("X"), EndTag("a"), open2, Data("NoHref"), EndTag("a")];
    FeedSnoc(Initial, [], open1);
    assert [] + [open1] == e1;
    var s1 := Feed(Initial, e1);
    assert s1 == ParserState(true, Some("http://x.test"), None, []) by {
      assert open1.attrs[0].0 == "href";
    }
    FeedSnoc(Initial, e1, Data("X"));
    var s2 := Feed(Initial, e2);
    assert s2 == ParserState(true, Some("http://x.test"), Some("X"), []) by {
      StripPadded([], "X", []);
      assert [] + "X" + [] == "X";
    }
    FeedSnoc(Initial, e2, EndTag("a"));
    var s3 := Feed(Initial, e3);
    assert s3 == Reset([Bookmark("X", "http://x.test")]);
    FeedSnoc(Initial, e3, open2);
    assert Feed(Initial, e4).url == None;
    FeedSnoc(Initial, e4, Data("NoHref"));
    assert Feed(Initial, e5).url == None;
    FeedSnoc(Initial, e5, EndTag("a"));
    assert Feed(Initial, e6) == s3;
  }
}
