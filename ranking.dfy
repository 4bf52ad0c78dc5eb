/** What a search returns: the tag filter, the cosine score of each note
    against the query, the positive-score candidates and their stable ranking. */
module Ranking {
  import opened Wrappers
  import opened Sorting
  import opened Model
  import opened Text
  import opened Tfidf

  /** NoteResult: a note and its score, with the note's position in the
      listing the scores were computed over. */
  datatype NoteResult = NoteResult(index: nat, note: Note, score: real)

  function Score(r: NoteResult): real
  {
    r.score
  }

  function Position(r: NoteResult): int
  {
    r.index
  }

  /** null or empty */
  predicate IsBlank(s: Option<string>)
  {
    s.None? || |s.value| == 0
  }

  /** The tag filter: a blank tag lets every note through; otherwise the tag
      must be, exactly, one of the note's tags or user tags. */
  predicate TagMatches(note: Note, tag: Option<string>)
  {
    IsBlank(tag) || tag.value in note.tags || tag.value in note.userTags
  }

  /** On a stored note, whose user tags are among its tags, the filter is
      exact membership of the tag in the note's tags. */
  lemma TagMatchesStored(note: Note, tag: Option<string>)
    requires note.userTags <= note.tags
    ensures TagMatches(note, tag) <==> IsBlank(tag) || tag.value in note.tags
  {
  }

  /** The filter is case-sensitive: on a stored note, whose tags are all
      lower-case, a tag with an upper-case letter matches nothing. */
  lemma UpperTagNeverMatches(note: Note, tag: Option<string>, i: nat)
    requires note.userTags <= note.tags
    requires forall t :: t in note.tags ==> Lower(t) == t
    requires tag.Some? && i < |tag.value| && IsUpper(tag.value[i])
    ensures !TagMatches(note, tag)
  {
  }

  /** The query's tokens: none for a blank query. */
  function QueryTokens(q: Option<string>, tp: TextProcessing): seq<string>
  {
    if IsBlank(q) then [] else tp.preprocessPair(Some(""), q)
  }

  /** The cosine score of one note against the query vector. */
  ghost function NoteScore(note: Note, idf: Vector, queryVector: Vector, math: Math): real
  {
    Cosine(DocumentVector(note, idf, math.ln), queryVector, math.sqrt)
  }

  /** The scoring of the notes a search computes: against the corpus IDF and
      the query's vector. */
  ghost function Scorer(notes: seq<Note>, q: Option<string>, tp: TextProcessing, math: Math): Note -> real
  {
    var idf := CorpusIdf(notes, math.ln);
    var queryVector := TfidfVector(QueryTokens(q, tp), idf, math.ln);
    n => NoteScore(n, idf, queryVector, math)
  }

  /** The stream's map step for one note: null when the tag filter rejects
      the note or its score is not positive. */
  function Pick(i: nat, note: Note, tag: Option<string>, s: real): Option<NoteResult>
  {
    if TagMatches(note, tag) && s > 0.0 then Some(NoteResult(i, note, s)) else None
  }

  /** The stream's null filter on one element. */
  function NonNull(r: Option<NoteResult>): seq<NoteResult>
  {
    if r.Some? then [r.value] else []
  }

  /** The mapped and null-filtered stream over the first k notes: each note
      that passes the tag filter and scores above zero, in listing order. */
  ghost function Candidates(notes: seq<Note>, k: nat, tag: Option<string>, score: Note -> real): seq<NoteResult>
    requires k <= |notes|
  {
    if k == 0 then []
    else Candidates(notes, k - 1, tag, score) + NonNull(Pick(k - 1, notes[k - 1], tag, score(notes[k - 1])))
  }

  lemma CandidatesStep(notes: seq<Note>, i: nat, tag: Option<string>, score: Note -> real)
    requires i < |notes|
    ensures Candidates(notes, i + 1, tag, score)
            == Candidates(notes, i, tag, score) + NonNull(Pick(i, notes[i], tag, score(notes[i])))
  {
  }

  /** The scored results, sorted by decreasing score with a stable sort. */
  ghost function Ranked(notes: seq<Note>, tag: Option<string>, score: Note -> real): seq<NoteResult>
  {
    SortDesc(Candidates(notes, |notes|, tag, score), Score)
  }

  /** The notes of a result list, in order. */
  function NotesOf(rs: seq<NoteResult>): (ns: seq<Note>)
    ensures |ns| == |rs| && forall i :: 0 <= i < |rs| ==> ns[i] == rs[i].note
  {
    seq(|rs|, i requires 0 <= i < |rs| => rs[i].note)
  }

  /** search(q, tag): every note when both are blank, otherwise the ranked notes. */
  ghost function Search(notes: seq<Note>, q: Option<string>, tag: Option<string>, tp: TextProcessing,
                        math: Math): seq<Note>
  {
    if IsBlank(q) && IsBlank(tag) then notes
    else NotesOf(Ranked(notes, tag, Scorer(notes, q, tp, math)))
  }

  /** scoreOf gives the cosine score of this note. */
  ghost predicate ScoredBy(scoreOf: Note -> real, note: Note, idf: Vector, queryVector: Vector, math: Math)
  {
    scoreOf(note) == NoteScore(note, idf, queryVector, math)
  }

  /** The scorer of a search is the cosine of the weighted document vector
      against the query vector, both over the corpus IDF. */
  lemma ScorerIs(notes: seq<Note>, q: Option<string>, tp: TextProcessing, math: Math,
                 idf: Vector, queryVector: Vector)
    requires idf == CorpusIdf(notes, math.ln)
    requires queryVector == TfidfVector(QueryTokens(q, tp), idf, math.ln)
    ensures forall note :: ScoredBy(Scorer(notes, q, tp, math), note, idf, queryVector, math)
  {
  }

  /** The candidates are exactly the notes among the first k that pass the
      tag filter and score above zero, each with its position and score. */
  lemma {:induction false} CandidatesMembers(notes: seq<Note>, k: nat, tag: Option<string>, score: Note -> real)
    requires k <= |notes|
    ensures forall r :: r in Candidates(notes, k, tag, score) <==>
              && r.index < k
              && r.note == notes[r.index]
              && r.score == score(notes[r.index])
              && r.score > 0.0
              && TagMatches(r.note, tag)
  {
    if k > 0 {
      CandidatesMembers(notes, k - 1, tag, score);
    }
  }

  /** The candidates are listed in increasing position. */
  lemma {:induction false} CandidatesIncreasing(notes: seq<Note>, k: nat, tag: Option<string>, score: Note -> real)
    requires k <= |notes|
    ensures RankIncreasing(Candidates(notes, k, tag, score), Position)
  {
    if k > 0 {
      CandidatesIncreasing(notes, k - 1, tag, score);
      CandidatesMembers(notes, k - 1, tag, score);
      var before := Candidates(notes, k - 1, tag, score);
      var c := Candidates(notes, k, tag, score);
      forall i, j | 0 <= i < j < |c| ensures Position(c[i]) < Position(c[j]) {
        assert c[i] == before[i];
        if j < |before| {
          assert c[j] == before[j];
        } else {
          assert before[i] in before;
        }
      }
    }
  }

  /** Soundness and completeness of the ranking: a result is exactly a note
      of the listing that passes the tag filter and has a positive score,
      paired with its position and that score. */
  lemma RankedMembers(notes: seq<Note>, tag: Option<string>, score: Note -> real)
    ensures forall r :: r in Ranked(notes, tag, score) <==>
              && r.index < |notes|
              && r.note == notes[r.index]
              && r.score == score(notes[r.index])
              && r.score > 0.0
              && TagMatches(r.note, tag)
  {
    CandidatesMembers(notes, |notes|, tag, score);
    SortDescElements(Candidates(notes, |notes|, tag, score), Score);
  }

  /** The ranking is sorted by decreasing score; equal scores keep the
      listing's order; no note is listed twice. */
  lemma RankedOrder(notes: seq<Note>, tag: Option<string>, score: Note -> real)
    ensures StableSorted(Ranked(notes, tag, score), Score, Position)
    ensures var rs := Ranked(notes, tag, score);
            forall i, j :: 0 <= i < j < |rs| ==> rs[i].index != rs[j].index
  {
    var cands := Candidates(notes, |notes|, tag, score);
    CandidatesIncreasing(notes, |notes|, tag, score);
    SortDescStable(cands, Score, Position);
    RankedMembers(notes, tag, score);
    var rs := Ranked(notes, tag, score);
    forall i, j | 0 <= i < j < |rs| ensures rs[i].index != rs[j].index {
      assert rs[i] in rs && rs[j] in rs;
      assert Precedes(rs[i], rs[j], Score, Position);
    }
  }

  /** Over a listing without repeated notes, no note is ranked twice. */
  lemma RankedNotesDistinct(notes: seq<Note>, tag: Option<string>, score: Note -> real)
    requires Distinct(notes)
    ensures Distinct(NotesOf(Ranked(notes, tag, score)))
  {
    RankedOrder(notes, tag, score);
    RankedMembers(notes, tag, score);
    var rs := Ranked(notes, tag, score);
    var ns := NotesOf(rs);
    forall i, j | 0 <= i < j < |ns| ensures ns[i] != ns[j] {
      assert rs[i] in rs && rs[j] in rs;
      assert rs[i].index != rs[j].index;
    }
  }

  /** search lists every note when query and tag are blank, and otherwise
      the notes ranked by their cosine score against the query; either way a
      repository without repeated notes gives a result without repeats. */
  lemma SearchResults(notes: seq<Note>, q: Option<string>, tag: Option<string>, tp: TextProcessing, math: Math)
    ensures IsBlank(q) && IsBlank(tag) ==> Search(notes, q, tag, tp, math) == notes
    ensures !(IsBlank(q) && IsBlank(tag)) ==>
              Search(notes, q, tag, tp, math) == NotesOf(Ranked(notes, tag, Scorer(notes, q, tp, math)))
    ensures forall note :: ScoredBy(Scorer(notes, q, tp, math), note, CorpusIdf(notes, math.ln),
                                    TfidfVector(QueryTokens(q, tp), CorpusIdf(notes, math.ln), math.ln), math)
    ensures Distinct(notes) ==> Distinct(Search(notes, q, tag, tp, math))
  {
    var idf := CorpusIdf(notes, math.ln);
    ScorerIs(notes, q, tp, math, idf, TfidfVector(QueryTokens(q, tp), idf, math.ln));
    if !(IsBlank(q) && IsBlank(tag)) && Distinct(notes) {
      RankedNotesDistinct(notes, tag, Scorer(notes, q, tp, math));
    }
  }

  /** No note passes: no candidates. */
  lemma {:induction false} CandidatesNone(notes: seq<Note>, k: nat, tag: Option<string>, score: Note -> real)
    requires k <= |notes|
    requires forall i :: 0 <= i < k ==> score(notes[i]) <= 0.0
    ensures Candidates(notes, k, tag, score) == []
  {
    if k > 0 {
      CandidatesNone(notes, k - 1, tag, score);
    }
  }

  /** No note scores above zero: nothing is ranked. */
  lemma RankedNone(notes: seq<Note>, tag: Option<string>, score: Note -> real)
    requires forall note :: score(note) <= 0.0
    ensures Ranked(notes, tag, score) == []
  {
    CandidatesNone(notes, |notes|, tag, score);
  }

  /** A blank query has an empty query vector, so every note scores zero. */
  lemma BlankQueryScoresZero(notes: seq<Note>, q: Option<string>, tp: TextProcessing, math: Math)
    requires IsBlank(q)
    ensures forall note :: Scorer(notes, q, tp, math)(note) == 0.0
  {
    var idf := CorpusIdf(notes, math.ln);
    var queryVector := TfidfVector(QueryTokens(q, tp), idf, math.ln);
    TfidfVectorWeights([], idf, math.ln);
    assert queryVector == map[];
    ScorerIs(notes, q, tp, math, idf, queryVector);
    forall note ensures Scorer(notes, q, tp, math)(note) == 0.0 {
      assert ScoredBy(Scorer(notes, q, tp, math), note, idf, queryVector, math);
      CosineOfZeroVector(DocumentVector(note, idf, math.ln), queryVector, math.sqrt);
    }
  }

  /** A blank query with a tag returns nothing. */
  lemma TagOnlySearchIsEmpty(notes: seq<Note>, q: Option<string>, tag: Option<string>, tp: TextProcessing,
                             math: Math)
    requires IsBlank(q) && !IsBlank(tag)
    ensures Search(notes, q, tag, tp, math) == []
  {
    BlankQueryScoresZero(notes, q, tp, math);
    RankedNone(notes, tag, Scorer(notes, q, tp, math));
  }
}
