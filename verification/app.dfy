/** The application object `BookmarkApp` with its widgets, dialogs, files and network
    calls cut away: each command is a function or method from the session state and
    the values the cut-away parts would have supplied to the new state.
    A command that fails returns `Failure` and the session stays as it was: in every
    command the state is written only after the last step that can fail. */
module App {
  import opened Wrappers
  import opened Text
  import opened Bookmarks
  import opened Extractor
  import opened Collections
  import opened Liveness
  import opened Classifier

  /** The fields the commands share: the flat list shown in the list box, the
      collections dictionary and the API key. */
  datatype Session = Session(bookmarks: seq<Bookmark>, collections: Mapping, apiKey: Option<string>)

  /** The error dialogs of the commands, plus the one exception that escapes. */
  datatype Error =
    | MissingApiKey                         // grouping or classifying with no key configured
    | InvalidCollection                     // manual assignment to a name that is not a key
    | MissingField                          // a new bookmark without title or url
    | SelectionOutOfRange                   // the selected row has no bookmark in the flat list
    | ClassificationFailed(message: string) // the request, its status or its reply failed

  /** What every command keeps: the collections form a dictionary, so their keys are distinct. */
  predicate Consistent(s: Session) {
    UniqueNames(s.collections)
  }

  /** The state right after construction. */
  function Start(): (s: Session)
    ensures s.bookmarks == [] && s.apiKey == None
    ensures Consistent(s)
    ensures Names(s.collections) == ["Study", "Work", "Shopping"]
    ensures forall n :: HasKey(s.collections, n) ==> Get(s.collections, n) == Some([])
  {
    Session([], Defaults(), None)
  }

  /** `if not self.api_key`. */
  predicate HasApiKey(s: Session) {
    Truthy(s.apiKey)
  }

  /** `import_bookmarks` once the file is read and tokenized: the flat list is replaced
      by one bookmark per anchor element, in document order. */
  function ImportBookmarks(s: Session, events: seq<Event>): (r: Session)
    ensures r.bookmarks == Extract(events)
    ensures forall b :: b in r.bookmarks ==> WellFormed(b)
    ensures r.collections == s.collections && r.apiKey == s.apiKey
    ensures Consistent(s) ==> Consistent(r)
  {
    ParseIsExtract(events);
    s.(bookmarks := Parse(events))
  }

  /** `check_urls`: the flat list keeps exactly its bookmarks whose probe is alive. */
  method CheckUrls(s: Session, probe: string -> Probe) returns (r: Session)
    ensures r.bookmarks == Alive(s.bookmarks, probe)
    ensures forall b :: b in r.bookmarks <==> b in s.bookmarks && IsAlive(probe(b.url))
    ensures r.collections == s.collections && r.apiKey == s.apiKey
    ensures Consistent(s) ==> Consistent(r)
  {
    var alive := FilterAlive(s.bookmarks, probe);
    forall b | true
      ensures b in alive <==> b in s.bookmarks && IsAlive(probe(b.url))
    {
      AliveMembers(s.bookmarks, probe, b);
    }
    r := s.(bookmarks := alive);
  }

  /** `add_to_collection`: the selected row's bookmark goes into the bucket the user
      names, which must already be a key; without a selection nothing happens. */
  function AddToCollection(s: Session, selection: seq<nat>, answer: Option<string>): (r: Result<Session, Error>)
    ensures selection == [] ==> r == Success(s)
    ensures selection != [] && selection[0] >= |s.bookmarks| ==> r == Failure(SelectionOutOfRange)
    ensures selection != [] && selection[0] < |s.bookmarks| ==>
              (r.Success? <==> answer.Some? && answer.value != "" && HasKey(s.collections, answer.value))
    ensures selection != [] && selection[0] < |s.bookmarks| && r.Failure? ==> r.error == InvalidCollection
    ensures selection != [] && r.Success? ==>
              && r.value.bookmarks == s.bookmarks && r.value.apiKey == s.apiKey
              && Names(r.value.collections) == Names(s.collections)
              && Get(r.value.collections, answer.value)
                 == Some(Get(s.collections, answer.value).value + [s.bookmarks[selection[0]]])
              && forall n :: n != answer.value ==> Get(r.value.collections, n) == Get(s.collections, n)
    ensures Consistent(s) && r.Success? ==> Consistent(r.value)
  {
    if selection == [] then Success(s)
    else if selection[0] >= |s.bookmarks| then Failure(SelectionOutOfRange)
    else
      match Assign(s.collections, answer, s.bookmarks[selection[0]])
      case None => Failure(InvalidCollection)
      case Some(m) => Success(s.(collections := m))
  }

  /** `load_collections` once the file is parsed: the dictionary is replaced and the flat
      list becomes its buckets' bookmarks in key order; the previous flat list is gone. */
  method LoadCollections(s: Session, loaded: Mapping) returns (r: Session)
    requires UniqueNames(loaded)
    ensures Consistent(r)
    ensures r.collections == loaded && r.apiKey == s.apiKey
    ensures r.bookmarks == Flatten(loaded)
    ensures |r.bookmarks| == TotalSize(loaded)
    ensures forall b :: b in r.bookmarks <==> exists i :: 0 <= i < |loaded| && b in loaded[i].bucket
  {
    var flat := FlattenLoop(loaded);
    forall b | true
      ensures b in flat <==> exists i :: 0 <= i < |loaded| && b in loaded[i].bucket
    {
      FlattenMembers(loaded, b);
    }
    r := Session(flat, loaded, s.apiKey);
  }

  /** `ai_group_bookmarks`: the flat list is sent in batches of 100; the collections
      are replaced by the last reply only when every request succeeded. */
  method AiGroupBookmarks(s: Session, oracle: Oracle) returns (r: Result<Session, Error>)
    ensures !HasApiKey(s) ==> r == Failure(MissingApiKey)
    ensures HasApiKey(s) ==>
              (r.Success? <==> GroupFold(s.collections, Batches(s.bookmarks), oracle).Success?)
    ensures r.Success? ==> r.value == s.(collections := GroupFold(s.collections, Batches(s.bookmarks), oracle).value)
    ensures HasApiKey(s) && r.Failure? ==>
              r.error == ClassificationFailed(GroupFold(s.collections, Batches(s.bookmarks), oracle).error)
    ensures HasApiKey(s) && s.bookmarks == [] ==> r == Success(s)
    ensures Consistent(s) && r.Success? ==> Consistent(r.value)
  {
    if !HasApiKey(s) {
      return Failure(MissingApiKey);
    }
    var grouped := GroupInBatches(s.bookmarks, s.collections, oracle);
    match grouped
    case Failure(e) =>
      r := Failure(ClassificationFailed(e));
    case Success(m) =>
      if Consistent(s) {
        GroupFoldUnique(s.collections, Batches(s.bookmarks), oracle);
      }
      r := Success(s.(collections := m));
  }

  /** `classify_and_add_bookmark`: the bookmark is appended to the bucket named by the
      stripped reply, which is created at the end of the key order when absent. */
  function ClassifyAndAdd(s: Session, bm: Bookmark, reply: Result<string, string>): (r: Result<Session, Error>)
    ensures !HasApiKey(s) ==> r == Failure(MissingApiKey)
    ensures r.Success? <==> HasApiKey(s) && reply.Success?
    ensures HasApiKey(s) && reply.Failure? ==> r == Failure(ClassificationFailed(reply.error))
    ensures r.Success? ==>
              var name := Strip(reply.value);
              var c := r.value.collections;
              && r.value.bookmarks == s.bookmarks && r.value.apiKey == s.apiKey
              && Names(c) == (if HasKey(s.collections, name) then Names(s.collections) else Names(s.collections) + [name])
              && Get(c, name) == Some((if HasKey(s.collections, name) then Get(s.collections, name).value else []) + [bm])
              && (forall n :: n != name ==> Get(c, n) == Get(s.collections, n))
    ensures Consistent(s) && r.Success? ==> Consistent(r.value)
  {
    if !HasApiKey(s) then Failure(MissingApiKey)
    else
      match reply
      case Failure(e) => Failure(ClassificationFailed(e))
      case Success(text) => Success(s.(collections := Insert(s.collections, Strip(text), bm)))
  }

  /** `add_bookmark`: both dialog answers must be non-empty before classification. */
  function AddBookmark(s: Session, title: Option<string>, url: Option<string>, reply: Result<string, string>): (r: Result<Session, Error>)
    ensures !(Truthy(title) && Truthy(url)) ==> r == Failure(MissingField)
    ensures Truthy(title) && Truthy(url) && r.Success? ==>
              reply.Success? &&
              var bucket := Get(r.value.collections, Strip(reply.value));
              bucket.Some? && bucket.value != [] && bucket.value[|bucket.value| - 1] == Bookmark(title.value, url.value)
    ensures Truthy(title) && Truthy(url) ==> r == ClassifyAndAdd(s, Bookmark(title.value, url.value), reply)
    ensures Truthy(title) && Truthy(url) ==> (r.Success? <==> HasApiKey(s) && reply.Success?)
    ensures Consistent(s) && r.Success? ==> Consistent(r.value)
  {
    if !Truthy(title) || !Truthy(url) then Failure(MissingField)
    else ClassifyAndAdd(s, Bookmark(title.value, url.value), reply)
  }

  /** A reply naming a collection that does not exist yet creates it, after the three
      initial ones, holding just that bookmark. */
  lemma NewCollectionFromReply(key: string, bm: Bookmark)
    requires key != ""
    ensures var r := ClassifyAndAdd(Start().(apiKey := Some(key)), bm, Success("Recipes\n"));
            && r.Success?
            && Names(r.value.collections) == ["Study", "Work", "Shopping", "Recipes"]
            && Get(r.value.collections, "Recipes") == Some([bm])
  {
    StripRecipes();
    assert !HasKey(Defaults(), "Recipes") by {
      assert Names(Defaults()) == ["Study", "Work", "Shopping"];
    }
  }

  lemma StripRecipes()
    ensures Strip("Recipes\n") == "Recipes"
  {
    StripPadded([], "Recipes", "\n");
    assert [] + "Recipes" + "\n" == "Recipes\n";
  }

  /** Manual assignment from the start state: "Study" is accepted, an unknown name is refused. */
  lemma ManualAssignPolicy(bm: Bookmark)
    ensures var s := Start().(bookmarks := [bm]);
            && AddToCollection(s, [0], Some("Study")).Success?
            && Get(AddToCollection(s, [0], Some("Study")).value.collections, "Study") == Some([bm])
            && AddToCollection(s, [0], Some("Unknown")) == Failure(InvalidCollection)
  {
    var s := Start().(bookmarks := [bm]);
    assert Names(s.collections)[0] == "Study";
    assert Get(s.collections, "Study") == Some([]);
    assert [] + [bm] == [bm];
    assert !HasKey(s.collections, "Unknown") by {
      assert Names(s.collections) == ["Study", "Work", "Shopping"];
    }
  }
}
