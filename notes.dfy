/** The note service: indexing a note when it is created or updated, deleting
    it, and ranked search over a snapshot of the repository. */
module Notes {
  import opened Wrappers
  import opened Sorting
  import opened Model
  import opened Text
  import opened Tfidf
  import opened Ranking

  /** How many automatic tags create and update ask for. */
  const AutoTagCount: nat := 6

  // ---------- indexing ----------

  /** The user tags a note stores: the input tags lower-cased, as a set; none
      when the list is absent. */
  function UserTagSet(userTags: Option<seq<string>>): set<string>
  {
    Elements(LowerAll(UserList(userTags)))
  }

  /** new ArrayList<>(set): the elements of a hash set in its own, unspecified order. */
  method ToList(s: set<string>) returns (xs: seq<string>)
    ensures Elements(xs) == s
    ensures Distinct(xs)
  {
    xs := [];
    var rest := s;
    while rest != {}
      invariant rest <= s
      invariant Elements(xs) == s - rest
      invariant Distinct(xs)
      decreases rest
    {
      var t :| t in rest;
      assert t !in xs by {
        assert t !in Elements(xs);
      }
      assert Elements(xs + [t]) == Elements(xs) + {t};
      xs := xs + [t];
      rest := rest - {t};
    }
  }

  /** What indexing leaves in a note's text, token and tag fields: the draft's
      title and content; the title tokens and content tokens as sets; all
      tokens as their union; the lower-cased user tags; and as tags the user
      tags together with the lower-cased automatic tags, which are a top
      selection of the draft's tokens scored against the corpus. */
  ghost predicate Indexed(n: Note, draft: NoteDraft, autoTags: seq<string>, corpus: seq<Note>,
                          tp: TextProcessing, ln: Ln)
  {
    && n.title == draft.title
    && n.content == draft.content
    && n.titleTokens == Elements(tp.preprocessPair(draft.title, Some("")))
    && n.contentTokens == Elements(tp.preprocessPair(Some(""), draft.content))
    && n.tokens == n.titleTokens + n.contentTokens
    && n.userTags == UserTagSet(draft.userTags)
    && IsTopTags(autoTags, TfidfVector(tp.preprocessPair(draft.title, draft.content), CorpusIdf(corpus, ln), ln),
                 AutoTagCount)
    && n.tags == n.userTags + Elements(LowerAll(autoTags))
  }

  /** The stored user tags: none for an absent list; otherwise exactly the
      lower-cased input tags, each once, so no more than were given, and every
      one of them lower-case. */
  lemma UserTagSetMembers(userTags: Option<seq<string>>)
    ensures userTags.None? ==> UserTagSet(userTags) == {}
    ensures forall u :: u in UserList(userTags) ==> Lower(u) in UserTagSet(userTags)
    ensures forall t :: t in UserTagSet(userTags) ==> exists u :: u in UserList(userTags) && Lower(u) == t
    ensures |UserTagSet(userTags)| <= |UserList(userTags)|
    ensures forall t :: t in UserTagSet(userTags) ==> Lower(t) == t
  {
    var u := UserList(userTags);
    LowerAllElements(u);
    forall x | x in u ensures Lower(x) in UserTagSet(userTags) {
      var i :| 0 <= i < |u| && u[i] == x;
      assert LowerAll(u)[i] == Lower(x);
    }
    forall t | t in UserTagSet(userTags) ensures Lower(t) == t && exists x :: x in u && Lower(x) == t {
      var i :| 0 <= i < |LowerAll(u)| && LowerAll(u)[i] == t;
      assert u[i] in u;
      LowerIdempotent(u[i]);
    }
  }

  /** Lower-casing a list of lower-case tags changes nothing. */
  lemma LowerAllFixed(xs: seq<string>)
    requires forall t :: t in xs ==> Lower(t) == t
    ensures LowerAll(xs) == xs
  {
    forall i | 0 <= i < |xs| ensures LowerAll(xs)[i] == xs[i] {
      assert xs[i] in xs;
    }
  }

  /** An indexed note keeps the invariants the stored notes share: its tokens
      are the title and content tokens together, its user tags are all among
      its tags, and every tag is lower-case. */
  lemma IndexedInvariants(n: Note, draft: NoteDraft, autoTags: seq<string>, corpus: seq<Note>,
                          tp: TextProcessing, ln: Ln)
    requires Indexed(n, draft, autoTags, corpus, tp, ln)
    ensures n.tokens == n.titleTokens + n.contentTokens
    ensures n.userTags <= n.tags
    ensures forall t :: t in n.tags ==> Lower(t) == t
    ensures |n.tags - n.userTags| <= AutoTagCount
  {
    UserTagSetMembers(draft.userTags);
    forall t | t in n.tags ensures Lower(t) == t {
      if t !in n.userTags {
        var i :| 0 <= i < |LowerAll(autoTags)| && LowerAll(autoTags)[i] == t;
        LowerIdempotent(autoTags[i]);
      }
    }
    LowerAllElements(autoTags);
    assert n.tags - n.userTags <= Elements(LowerAll(autoTags));
    SubsetCard(n.tags - n.userTags, Elements(LowerAll(autoTags)));
  }

  /** A list has at most as many distinct elements as it is long. */
  lemma {:induction false} LowerAllElements(xs: seq<string>)
    ensures |Elements(LowerAll(xs))| <= |xs|
  {
    if xs != [] {
      var init := xs[..|xs| - 1];
      LowerAllElements(init);
      assert LowerAll(xs) == LowerAll(init) + [Lower(xs[|xs| - 1])];
      assert Elements(LowerAll(xs)) == Elements(LowerAll(init)) + {Lower(xs[|xs| - 1])};
    }
  }

  /** The part create and update share: set the text, the three token sets,
      the user tags and the merged tags, and stamp the modification time. */
  method Index(note: Note, draft: NoteDraft, now: Timestamp, corpus: seq<Note>, tp: TextProcessing, ln: Ln)
    returns (indexed: Note, autoTags: seq<string>)
    ensures Indexed(indexed, draft, autoTags, corpus, tp, ln)
    ensures indexed.id == note.id && indexed.createdDate == note.createdDate
    ensures indexed.lastModifiedDate == Some(now)
  {
    indexed := note.(title := draft.title);
    indexed := indexed.(content := draft.content);
    indexed := indexed.(lastModifiedDate := Some(now));

    var titleTokens := Elements(tp.preprocessPair(draft.title, Some("")));
    var contentTokens := Elements(tp.preprocessPair(Some(""), draft.content));
    var allTokens := titleTokens + contentTokens;
    indexed := indexed.(titleTokens := titleTokens);
    indexed := indexed.(contentTokens := contentTokens);
    indexed := indexed.(tokens := allTokens);

    var userTags := UserTagSet(draft.userTags);
    indexed := indexed.(userTags := userTags);

    autoTags := GenerateTagsForNoteContent(draft.title, draft.content, AutoTagCount, corpus, tp, ln);
    var userList := ToList(userTags);
    var merged := MergeUserTags(autoTags, Some(userList));
    indexed := indexed.(tags := Elements(merged));

    MergedTagsElements(autoTags, Some(userList));
    UserTagSetMembers(draft.userTags);
    LowerAllFixed(userList);
  }

  // ---------- the repository ----------

  /** findById / existsById: the position of the note with this id, if any. */
  function Find(notes: seq<Note>, id: int): (r: Option<nat>)
    ensures r.Some? ==> r.value < |notes| && notes[r.value].id == Some(id)
    ensures r.None? <==> forall i :: 0 <= i < |notes| ==> notes[i].id != Some(id)
  {
    if notes == [] then None
    else if notes[|notes| - 1].id == Some(id) then Some(|notes| - 1)
    else Find(notes[..|notes| - 1], id)
  }

  /** Every stored note has an id below nextId, no two share one, and every
      note keeps its token union and its user tags among its tags. */
  ghost predicate WellFormed(notes: seq<Note>, nextId: int)
  {
    && nextId >= 1
    && (forall i :: 0 <= i < |notes| ==> notes[i].id.Some? && 1 <= notes[i].id.value < nextId)
    && (forall i, j :: 0 <= i < j < |notes| ==> notes[i].id != notes[j].id)
    && (forall i :: 0 <= i < |notes| ==>
          notes[i].tokens == notes[i].titleTokens + notes[i].contentTokens
          && notes[i].userTags <= notes[i].tags)
  }

  /** Appending a note that keeps the invariants under the next identity keeps the table well formed. */
  lemma AppendWellFormed(notes: seq<Note>, nextId: int, saved: Note)
    requires WellFormed(notes, nextId)
    requires saved.id == Some(nextId)
    requires saved.tokens == saved.titleTokens + saved.contentTokens && saved.userTags <= saved.tags
    ensures WellFormed(notes + [saved], nextId + 1)
  {
  }

  /** Replacing a row by a note with the same id that keeps the invariants keeps the table well formed. */
  lemma ReplaceWellFormed(notes: seq<Note>, nextId: int, i: nat, n: Note)
    requires WellFormed(notes, nextId) && i < |notes|
    requires n.id == notes[i].id
    requires n.tokens == n.titleTokens + n.contentTokens && n.userTags <= n.tags
    ensures WellFormed(notes[i := n], nextId)
  {
  }

  /** The notes table: its rows in the order findAll lists them, and the next
      identity the database assigns. */
  class NoteStore {
    var notes: seq<Note>
    var nextId: int

    /** The table invariant, on the current rows. */
    ghost predicate Valid()
      reads this
    {
      WellFormed(notes, nextId)
    }

    /** An empty table. */
    constructor ()
      ensures Valid() && notes == [] && nextId == 1
    {
      notes := [];
      nextId := 1;
    }

    /** create: index a fresh note against the notes stored so far, then save
        it under the next identity. */
    method Create(draft: NoteDraft, now: Timestamp, tp: TextProcessing, ln: Ln) returns (saved: Note)
      requires Valid()
      modifies this
      ensures Valid()
      ensures notes == old(notes) + [saved] && nextId == old(nextId) + 1
      ensures saved.id == Some(old(nextId))
      ensures saved.createdDate == Some(now) && saved.lastModifiedDate == Some(now)
      ensures exists autoTags :: Indexed(saved, draft, autoTags, old(notes), tp, ln)
    {
      var note := EmptyNote.(createdDate := Some(now));
      var indexed, autoTags := Index(note, draft, now, notes, tp, ln);
      IndexedInvariants(indexed, draft, autoTags, notes, tp, ln);
      saved := indexed.(id := Some(nextId));
      assert Indexed(saved, draft, autoTags, old(notes), tp, ln);
      AppendWellFormed(notes, nextId, saved);
      notes := notes + [saved];
      nextId := nextId + 1;
    }

    /** update: fail when no note has the id; otherwise re-index the stored
        note against the stored notes and save it in place. */
    method Update(id: int, draft: NoteDraft, now: Timestamp, tp: TextProcessing, ln: Ln) returns (r: Result<Note>)
      requires Valid()
      modifies this
      ensures Valid()
      ensures nextId == old(nextId)
      ensures Find(old(notes), id).None? ==> r == Failure(NotFound) && notes == old(notes)
      ensures Find(old(notes), id).Some? ==>
                var i := Find(old(notes), id).value;
                && r.Ok?
                && notes == old(notes)[i := r.value]
                && r.value.id == Some(id)
                && r.value.createdDate == old(notes)[i].createdDate
                && r.value.lastModifiedDate == Some(now)
                && exists autoTags :: Indexed(r.value, draft, autoTags, old(notes), tp, ln)
    {
      var found := Find(notes, id);
      if found.None? {
        return Failure(NotFound);
      }
      var i := found.value;
      var indexed, autoTags := Index(notes[i], draft, now, notes, tp, ln);
      IndexedInvariants(indexed, draft, autoTags, notes, tp, ln);
      ReplaceWellFormed(notes, nextId, i, indexed);
      notes := notes[i := indexed];
      r := Ok(indexed);
    }

    /** delete: fail when no note has the id; otherwise remove it. */
    method Delete(id: int) returns (r: Result<()>)
      requires Valid()
      modifies this
      ensures Valid()
      ensures nextId == old(nextId)
      ensures Find(old(notes), id).None? ==> r == Failure(NotFound) && notes == old(notes)
      ensures Find(old(notes), id).Some? ==>
                var i := Find(old(notes), id).value;
                r == Ok(()) && notes == old(notes)[..i] + old(notes)[i + 1..]
      ensures forall n :: n in notes ==> n.id != Some(id)
    {
      var found := Find(notes, id);
      if found.None? {
        return Failure(NotFound);
      }
      var i := found.value;
      ghost var before := notes;
      notes := notes[..i] + notes[i + 1..];
      forall j | 0 <= j < |notes| ensures notes[j] == if j < i then before[j] else before[j + 1] {
      }
      r := Ok(());
    }
  }

  // ---------- search ----------

  /** The stream's map step for one note, with its cosine score. */
  method ScoreNote(i: nat, note: Note, tag: Option<string>, idf: Vector, queryVector: Vector, math: Math,
                   ghost scoreOf: Note -> real)
    returns (result: Option<NoteResult>)
    requires forall n :: ScoredBy(scoreOf, n, idf, queryVector, math)
    ensures result == Pick(i, note, tag, scoreOf(note))
  {
    if !TagMatches(note, tag) {
      return None;
    }
    assert ScoredBy(scoreOf, note, idf, queryVector, math);
    var docVector := BuildWeightedDocumentVector(note, idf, math.ln);
    var score := CosineSimilarity(docVector, queryVector, math.sqrt);
    result := if score > 0.0 then Some(NoteResult(i, note, score)) else None;
  }

  /** The stream's map and filter steps over the whole listing. */
  method ScoreAll(notes: seq<Note>, tag: Option<string>, idf: Vector, queryVector: Vector, math: Math,
                  ghost scoreOf: Note -> real)
    returns (candidates: seq<NoteResult>)
    requires forall note :: ScoredBy(scoreOf, note, idf, queryVector, math)
    ensures candidates == Candidates(notes, |notes|, tag, scoreOf)
  {
    candidates := [];
    for i := 0 to |notes|
      invariant candidates == Candidates(notes, i, tag, scoreOf)
    {
      var result := ScoreNote(i, notes[i], tag, idf, queryVector, math, scoreOf);
      CandidatesStep(notes, i, tag, scoreOf);
      candidates := candidates + NonNull(result);
    }
  }

  /** search as the service runs it: corpus statistics, the query vector,
      then each note filtered, scored and kept when its score is positive,
      then the stable sort. */
  method SearchNotes(notes: seq<Note>, q: Option<string>, tag: Option<string>, tp: TextProcessing, math: Math)
    returns (result: seq<Note>)
    ensures result == Search(notes, q, tag, tp, math)
  {
    if IsBlank(q) && IsBlank(tag) {
      return notes;
    }
    var queryTokens := QueryTokens(q, tp);
    var df := ComputeDfAll(notes);
    var n := CorpusSize(notes);
    DfBounds(notes);
    var idf := ComputeIdf(df, n, math.ln);
    var queryVector := BuildTfidfVector(queryTokens, idf, math.ln);
    ScorerIs(notes, q, tp, math, idf, queryVector);
    var candidates := ScoreAll(notes, tag, idf, queryVector, math, Scorer(notes, q, tp, math));
    var ranked := SortDesc(candidates, Score);
    result := NotesOf(ranked);
  }
}
