# Bookmark organizer: a Dafny model of its core

This project models the logic of `bookmark_app.py`, a desktop bookmark manager. The manager
imports bookmarks from an exported HTML file, drops links that no longer answer, and sorts
bookmarks into named collections. Sorting is done by hand or by a language-model service. The
widgets, files and network are cut away. What is left is modelled as pure functions and small
loop methods over immutable values:

- `Extractor` is the anchor-capturing parser (`BookmarkHTMLParser`). It is a fold over a stream
  of tokenizer events (`StartTag`, `EndTag`, `Data`) with the state `(in_a, current_url,
  current_title, bookmarks)`. Its output is proved equal to a reference extraction. That reference
  cuts the document at every `</a>` and emits one bookmark per element that opened an anchor and
  has a non-empty address and a non-empty last text run.
- `Text` is Python's `str.strip()`, using Python's own whitespace set. It also holds the
  truthiness test on optional strings.
- `Collections` is the `collections` dictionary: a sequence of `(name, bucket)` entries in
  insertion order, as Python dictionaries keep them. It has the manual assignment, which only
  accepts existing keys. It has the classified insert, which creates a missing key at the end.
  It also has the flattening done when collections are loaded.
- `Liveness` is the link check. It is an order-preserving filter by an abstract probe: a
  response with status below 400 counts as alive, and an exception counts as dead.
- `Classifier` is the batched grouping. The list is cut into slices of 100 and passed through
  an abstract oracle, each request seeing the previous reply. The result is all or nothing.
- `App` is the session `(bookmarks, collections, api_key)` and the commands of `BookmarkApp`.
  A command that fails returns `Failure`, and the caller keeps its session unchanged. This matches
  the source: on every path, state is written only after the last step that can fail.

## Model

| member | source | states |
|---|---|---|
| `Extractor.ScanHref` | bookmark_app.py:20-22 | The url after an anchor start tag comes from the last `href` attribute. With no `href` the url stays as it was. |
| `Extractor.OnStartTag` | bookmark_app.py:17-22 | An `a` start tag enters capture and a start tag of any other name changes nothing. An anchor start tag sets the url that the `href` scan leaves, so the last `href` value when there is one. A start tag never changes the title or the bookmark list, and an anchor without `href` keeps the current url. |
| `Extractor.OnEndTag` | bookmark_app.py:24-30 | An `a` end tag inside an anchor resets capture (not in an anchor, no url, no title). It appends exactly one bookmark when url and title are both non-empty, and none otherwise. Any other end tag, or an `a` end tag outside an anchor, leaves the whole state unchanged. |
| `Extractor.OnData` | bookmark_app.py:32-34 | Text outside an anchor changes nothing. Inside an anchor it replaces the title with the stripped text, changes nothing else, and a whitespace-only text leaves an empty title. |
| `Extractor.StepKeepsInvariant` | bookmark_app.py:17-34 | One event grows the bookmark list only at its end, by one bookmark built from the captured title and url. This happens only on an `a` end tag inside an anchor with both fields non-empty. The parser invariant (nothing captured outside an anchor, title always stripped) is preserved. |
| `Extractor.FeedKeepsInvariant` | bookmark_app.py:10-34 | Over any event stream, the earlier bookmark list stays a prefix of the new one. Every bookmark added has a non-empty url and a non-empty, stripped title. The parser invariant is preserved. |
| `Extractor.Parse` | bookmark_app.py:83-85 | Every bookmark extracted from a document has a non-empty url and a non-empty title with no surrounding whitespace. |
| `Extractor.ParseIsExtract` | bookmark_app.py:17-34 | The parser's output equals the reference extraction: one bookmark per `</a>`-terminated element, in document order, for each element that opened an anchor and has a non-empty address and non-empty last text. Anything after the last `</a>` is dropped. |
| `Extractor.FeedFromReset` | bookmark_app.py:17-34 | Started inside an element from a reset parser, the parser's bookmarks are the ones already extracted followed by the reference scan of the remaining events. |
| `Extractor.FeedSegment` | bookmark_app.py:17-34 | Inside one element, starting from a reset parser, the capture is the reference's: in an anchor exactly when an anchor start tag occurred, the `href` left by those start tags, and the stripped last text run after the anchor opened. |
| `Extractor.LastTextRunWins` | bookmark_app.py:32-34 | Inside an anchor, a second text run makes the first irrelevant: titles are overwritten, not accumulated. |
| `Extractor.BlankTitleEmitsNothing` | bookmark_app.py:24-34 | When an anchor's last text is only whitespace, closing the anchor emits nothing and resets capture. |
| `Extractor.AnchorWithoutHrefIsDropped` | bookmark_app.py:17-30 | The document `<a href="http://x.test">X</a><a>NoHref</a>` yields exactly the one bookmark `("X", "http://x.test")`. |
| `Text.LeadingSpace` | bookmark_app.py:34 | The length of the leading whitespace: every character before it is whitespace and the character at it is not. |
| `Text.TextEnd` | bookmark_app.py:34 | The end of the text: every character from it on is whitespace and the character before it is not. |
| `Text.Strip` | bookmark_app.py:34 | The result is no longer than the input and neither starts nor ends with whitespace. It is empty exactly when the input is all whitespace. |
| `Text.StripCutsOnlySpace` | bookmark_app.py:34 | The result is a contiguous piece of the input with nothing but whitespace before and after it. |
| `Text.StripPadded` | bookmark_app.py:34 | A trimmed text padded with whitespace on both sides strips back to itself, which characterises `strip` uniquely. |
| `Text.StripIdempotent` | bookmark_app.py:34 | Stripping twice equals stripping once. |
| `Collections.Defaults` | bookmark_app.py:41 | The initial dictionary has the distinct keys Study, Work, Shopping in that order, and every bucket is empty. |
| `Collections.IndexOf` | bookmark_app.py:124 | Lookup finds the first position holding the key. |
| `Collections.AppendAt` | bookmark_app.py:125 | Appending to one bucket keeps the keys and their order. It adds the bookmark at that bucket's end and leaves every other entry unchanged. |
| `Collections.Assign` | bookmark_app.py:124-125 | The assignment succeeds exactly when the name is present, non-empty and a current key. On success only that bucket changes, by the bookmark appended at its end, and the key order is unchanged, so distinct keys stay distinct. |
| `Collections.SameNamesUnique` | bookmark_app.py:124-125 | Whether the keys are distinct depends on the keys alone, so an update that keeps the key order keeps them distinct. |
| `Collections.IndexOfAppend` | bookmark_app.py:255-256 | Adding a new key at the end does not move any existing key. |
| `Collections.Insert` | bookmark_app.py:255-257 | The keys become the old keys plus the name, with a new name placed last. The named bucket becomes its old contents (or nothing) followed by the bookmark. Every other bucket is unchanged and keys stay distinct. |
| `Collections.FlattenSize` | bookmark_app.py:146-149 | The flat list is as long as all buckets together. |
| `Collections.FlattenMembers` | bookmark_app.py:146-149 | A bookmark is in the flat list exactly when some bucket holds it. |
| `Collections.FlattenLoop` | bookmark_app.py:146-149 | The nested loop yields the buckets' bookmarks concatenated in key order, and its length is the sum of the bucket lengths. |
| `Liveness.Alive` | bookmark_app.py:101-112 | The kept list is no longer than the input, and every kept bookmark's probe is alive. |
| `Liveness.AliveIndices` | bookmark_app.py:103-107 | The positions of the kept bookmarks all lie within the input. |
| `Liveness.AliveIndicesEmbed` | bookmark_app.py:101-112 | The kept list sits inside the input at strictly increasing positions, so input order is preserved. |
| `Liveness.AliveIndicesExact` | bookmark_app.py:104-109 | A position is kept exactly when its probe is alive. |
| `Liveness.AliveIsFilter` | bookmark_app.py:101-112 | The result is the input with exactly the dead bookmarks left out, in original order. |
| `Liveness.AliveMembers` | bookmark_app.py:101-112 | A bookmark survives exactly when it was in the input and its probe is alive. |
| `Liveness.FilterAlive` | bookmark_app.py:101-112 | The worker loop computes the filter, and empty input gives empty output. |
| `Classifier.Batches` | bookmark_app.py:161-166 | Every batch has between 1 and 100 bookmarks, and all but the last have exactly 100. Concatenated, the batches give back the whole list, and there are ceil(total / 100) of them. |
| `Classifier.GroupFoldSnoc` | bookmark_app.py:164-197 | After one more batch the outcome is the earlier failure, or exactly the oracle's reply for that batch given the collections built so far. On success the result is therefore the last batch's reply. |
| `Classifier.GroupFoldUnique` | bookmark_app.py:163-201 | Starting from a dictionary with distinct keys, whatever the loop commits has distinct keys, since it is the start value or a parsed reply. |
| `Classifier.FailureIsFinal` | bookmark_app.py:198-201 | Once the requests up to some batch have failed, the whole loop fails with that same error, so no later reply is committed. |
| `Classifier.BatchesFrom` | bookmark_app.py:164-166 | From any start below the total, the batches are the slice `[start, min(start + 100, total))` followed by the batches from `start + 100`. |
| `Classifier.GroupInBatches` | bookmark_app.py:161-200 | The batch loop returns the first failing request's error, or the collections the last request answered. With no bookmarks it returns the starting collections. |
| `App.Start` | bookmark_app.py:37-42 | A new session has no bookmarks and no API key. Its collections are Study, Work, Shopping in that order, all empty, and its keys are distinct. |
| `App.ImportBookmarks` | bookmark_app.py:83-85 | Import replaces the flat list with the reference extraction of the document, with every bookmark well formed. Collections and key are untouched, so the keys stay distinct. |
| `App.CheckUrls` | bookmark_app.py:99-115 | The flat list becomes its alive bookmarks in order, holding exactly the input's bookmarks whose probe is alive. Collections and key are untouched, so the keys stay distinct. |
| `App.AddToCollection` | bookmark_app.py:118-128 | With no selection nothing happens, and a selection past the list's end fails. Otherwise it succeeds exactly when the answer is a non-empty current key. The selected bookmark is then appended to that bucket only, with keys, flat list and API key unchanged, and distinct keys stay distinct. A selection inside the list can only fail with the invalid-collection error. |
| `App.LoadCollections` | bookmark_app.py:138-149 | The loaded dictionary, whose keys are distinct as in any parsed JSON object, replaces the collections. The flat list is rebuilt as the buckets' bookmarks in key order, with no trace of the previous flat list, and its length is the sum of the bucket lengths. |
| `App.AiGroupBookmarks` | bookmark_app.py:153-201 | Without an API key it fails. With a key it succeeds exactly when every batch request succeeds, and then replaces only the collections, with the last reply. On failure it reports the first request's error and commits nothing. With no bookmarks it changes nothing. Distinct keys stay distinct. |
| `App.ClassifyAndAdd` | bookmark_app.py:224-261 | It fails without an API key or when the request fails. Otherwise the stripped reply names a bucket, created last if absent, that gains the bookmark at its end. No other bucket or field changes, and distinct keys stay distinct. |
| `App.AddBookmark` | bookmark_app.py:215-222 | An absent or empty title or url fails before classification. With both present the outcome is the classified insert of that bookmark: it succeeds exactly when a key is set and the request succeeds, the new bookmark is then the last element of the bucket the reply names, and distinct keys stay distinct. |
| `App.NewCollectionFromReply` | bookmark_app.py:254-257 | From the start state, a reply of `"Recipes\n"` creates the bucket Recipes after Study, Work, Shopping, holding just the bookmark. |
| `App.ManualAssignPolicy` | bookmark_app.py:123-128 | From the start state, assigning to Study succeeds and puts the bookmark there. Assigning to Unknown fails with the invalid-collection error. |

## Behaviour worth noting

- Titles are not accumulated across text runs. `handle_data` overwrites the title with each run's
  stripped text, so only the last run counts.
- Manual assignment checks the current keys of the dictionary, not a fixed list of names. After a
  load or a grouping, the accepted names are whatever keys exist then.
- `add_bookmark` only checks that title and url are non-empty. It does not strip the title.

## Left out

- Widgets, the list-box rendering, status text and message boxes: these are presentation only.
  Errors appear as `App.Error` values in place of the dialogs.
- File dialogs, file reads and writes, `json.dump` and `json.load`: these are I/O and library
  serialisation, so the save/load round trip is not modelled. Loading takes the parsed
  dictionary as its input.
- App.LoadCollections: a loaded file that is not an object whose values are lists of bookmarks
  is not modelled. The source would replace the collections first. A value that is a string or a
  list of other things is flattened element by element, and the failure comes later, when the
  list box reads `bm['title']` (line 94).
- The HTML tokenizer (`html.parser.HTMLParser`): a document is its event stream, with tag names
  and attribute names already lower-cased, as the tokenizer delivers them.
- Liveness.FilterAlive: the probe is a function from url to `Probe`. Two bookmarks with the same
  url therefore get the same verdict, whereas two real probes could differ.
- `requests.post` and the language-model service: in batch mode this is an `Oracle` from
  (collections, batch) to new collections or an error. In single mode it is the reply text or an
  error.
- Classifier.Oracle: the language model is a function of (collections, batch), so two identical
  requests get the same reply, whereas the real service may answer them differently.
- Classifier.GroupInBatches: the oracle answers with a well-formed dictionary with distinct keys. A reply that parses
  as JSON but is not an object is not modelled; the source would commit it and fail later.
- The background thread of `check_urls`, and its unsynchronised write to the flat list: the check
  is a pure function whose result replaces the flat list.
- Prompt text construction: it formats text for the external service and has no behaviour to prove.
- `open_settings`, the API-key setter: the key is a field of the session, set by the caller.
