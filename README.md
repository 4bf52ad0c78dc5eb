# TF-IDF note relevance engine in Dafny

This project models the relevance engine of a notes backend. The engine ranks
notes against a free-text query and an optional tag, and it suggests tags for a
note from the note's own text. The model follows three Java services.

- `TfidfService`: term frequencies, document frequencies over the stored notes,
  inverse document frequencies, the query vector, the field-weighted document
  vector, cosine similarity, automatic tag extraction, and the merge of user and
  automatic tags.
- `NoteService`: indexing a note on create and update, delete, and search.
- `TextProcessingService`: the one-argument `preprocess`. It lower-cases the
  text and blanks out every character other than `[a-z0-9\s]`. It then runs the
  language pipeline. It trims and lower-cases each lemma and keeps the lemmas
  longer than one character that are not stopwords.

Modules:

- `Wrappers`: `Option` for Java's nullable references, `Result` for the
  not-found path, and facts about distinct sequences and subsequences.
- `Sums`: a finite sum of reals over a set of tokens. It is the meaning of the
  accumulation loops over hash maps.
- `Sorting`: a stable sort into decreasing key order. This is the model of
  `Stream.sorted` with a reversed comparator.
- `Model`: the `Note` record and the create/update request (`NoteDraft`).
- `Text`: `preprocess` as a method with nested loops, proved equal to the
  function `Tokens`.
- `Tfidf`: every loop of `TfidfService` as a method, each proved equal to a
  specification function: a recursive definition (`Tf`, `Df`, `AddAll`), a
  map comprehension (`Idf`) or a finite sum (`SumSet`). The properties are
  lemmas about those functions.
- `Ranking`: the search pipeline as a specification. It covers the tag filter,
  the positive-score candidates, the stable ranking and the pass-through
  listing.
- `Notes`: the `NoteStore` class holds the notes table and its next identity.
  It has `Create`, `Update` and `Delete`. The module also holds the search
  method `SearchNotes`, proved equal to `Ranking.Search`.

Numerics use `real`. The natural logarithm and the square root are
parameters, bundled in `Math`. The model knows only this about them:
`ln(1) = 0`, `ln(x) > 0` for `x > 1`, and `sqrt(x) > 0` for `x > 0`. The
language pipeline is a parameter (`TextProcessing.annotate`). It gives the
sentences of a text, each a sequence of tokens with a lemma that may be null.
The stopword set is a parameter too.

The services call a two-argument `preprocess(title, content)`, which is not in
`TextProcessingService.java`; only the one-argument form exists. The model
takes the two-argument form as a parameter, `TextProcessing.preprocessPair`,
and assumes nothing about it. The repository is a sequence of notes in
`findAll` order, and `count()` is its length. Timestamps are passed in.

`search` filters on exact membership of the tag in a note's `tags` or
`userTags` (NoteService.java:116-121). It does not use the case-insensitive
substring match of `NoteRepository.findByTag` (NoteRepository.java:13). With a
tag but no query, the query vector is empty and every score is 0, so nothing
is returned (`Ranking.TagOnlySearchIsEmpty`).

## Model

| member | source | states |
|---|---|---|
| Text.Lower | src/main/java/com/example/information_retrieval_backend/service/TextProcessingService.java:41 | lower-casing keeps the length, leaves no upper-case letter, maps each upper-case letter to the letter 32 code points above, and leaves every other character in place |
| Text.LowerIdempotent | src/main/java/com/example/information_retrieval_backend/service/TextProcessingService.java:52 | lower-casing twice is lower-casing once |
| Text.Normalize | src/main/java/com/example/information_retrieval_backend/service/TextProcessingService.java:41 | normalisation keeps the length; every character is then in a-z, 0-9 or whitespace; such characters were already there and are kept; upper-case letters become the letter 32 code points above; every other character becomes a space |
| Text.NormalizeIdempotent | src/main/java/com/example/information_retrieval_backend/service/TextProcessingService.java:41 | normalised text is a fixed point of normalisation |
| Text.TrimStart | src/main/java/com/example/information_retrieval_backend/service/TextProcessingService.java:52 | the result is a suffix of the input; each dropped character is at most U+0020; the result starts with a character above U+0020 or is empty |
| Text.TrimEnd | src/main/java/com/example/information_retrieval_backend/service/TextProcessingService.java:52 | the result is a prefix of the input; each dropped character is at most U+0020; the result ends with a character above U+0020 or is empty |
| Text.Trim | src/main/java/com/example/information_retrieval_backend/service/TextProcessingService.java:52 | the trimmed string is the slice of the input left between two runs of characters at or below U+0020; it has no such character at either end |
| Text.TrimTrimmed | src/main/java/com/example/information_retrieval_backend/service/TextProcessingService.java:52 | trim leaves a string without blank ends unchanged |
| Text.CanonicalIsFixed | src/main/java/com/example/information_retrieval_backend/service/TextProcessingService.java:52 | a trimmed and lower-cased lemma is unchanged by trim and by lower-casing |
| Text.Preprocess | src/main/java/com/example/information_retrieval_backend/service/TextProcessingService.java:37-60 | a null text gives the empty list; otherwise the nested loops return exactly the kept tokens of the normalised text, in pipeline order |
| Text.KeptWellFormed | src/main/java/com/example/information_retrieval_backend/service/TextProcessingService.java:50-55 | every kept token passes the length and stopword filter and is trimmed and lower-case |
| Text.TokensWellFormed | src/main/java/com/example/information_retrieval_backend/service/TextProcessingService.java:37-60 | every token preprocess returns is longer than one character, not a stopword, trimmed and lower-case |
| Text.KeptIsFilter | src/main/java/com/example/information_retrieval_backend/service/TextProcessingService.java:47-59 | the output is an order-preserving subsequence of the canonical non-null lemmas; each accepted lemma keeps all its repetitions and nothing else remains |
| Tfidf.ComputeTf | src/main/java/com/example/information_retrieval_backend/service/TfidfService.java:23-29 | the merge loop computes the term-frequency map `Tf(tokens)` |
| Tfidf.TfCounts | src/main/java/com/example/information_retrieval_backend/service/TfidfService.java:23-29 | the keys are exactly the distinct tokens, and each count is that token's number of occurrences |
| Tfidf.TfTotal | src/main/java/com/example/information_retrieval_backend/service/TfidfService.java:23-29 | the counts add up to the length of the token list |
| Tfidf.ComputeDfAll | src/main/java/com/example/information_retrieval_backend/service/TfidfService.java:31-42 | the nested merge loops compute the document-frequency map `Df(notes)` |
| Tfidf.DfCounts | src/main/java/com/example/information_retrieval_backend/service/TfidfService.java:31-42 | a token is a key exactly when some note contains it, and its count is the number of notes whose token set contains it |
| Tfidf.NotesContainingBounds | src/main/java/com/example/information_retrieval_backend/service/TfidfService.java:35-40 | the number of notes containing a token is at most the number of notes, and it is positive exactly when some note contains the token |
| Tfidf.DfBounds | src/main/java/com/example/information_retrieval_backend/service/TfidfService.java:31-42 | every document frequency lies between 1 and the number of notes; the keys are exactly the tokens of some note |
| Tfidf.Idf | src/main/java/com/example/information_retrieval_backend/service/TfidfService.java:44-48 | the IDF map has exactly the keys of the document-frequency map |
| Tfidf.ComputeIdf | src/main/java/com/example/information_retrieval_backend/service/TfidfService.java:44-48 | the forEach over the document frequencies puts ln(N / df[t]) for every token, which is `Idf(df, N)` whatever order the map hands out its keys |
| Tfidf.CorpusSize | src/main/java/com/example/information_retrieval_backend/service/TfidfService.java:158 | N = max(count, 1) is at least 1 and at least the number of notes, and it is the number of notes when there are any |
| Tfidf.IdfNonNegative | src/main/java/com/example/information_retrieval_backend/service/TfidfService.java:44-48 | with counts between 1 and N every IDF is non-negative, and it is 0 exactly for a token that every note contains |
| Tfidf.LnOfRatio | src/main/java/com/example/information_retrieval_backend/service/TfidfService.java:46 | the logarithm of a ratio of at least 1 is non-negative, and it is 0 exactly at 1 |
| Tfidf.CorpusIdf | src/main/java/com/example/information_retrieval_backend/service/TfidfService.java:157-159 | the corpus IDF, with N = max(count, 1), is non-negative and has the document-frequency keys |
| Tfidf.IdfOf | src/main/java/com/example/information_retrieval_backend/service/TfidfService.java:59 | a token the IDF map does not know weighs ln(1) = 0; non-negative IDFs give a non-negative weight |
| Tfidf.WeighTerms | src/main/java/com/example/information_retrieval_backend/service/TfidfService.java:58-61 | the forEach over the term frequencies builds the weighted map `Weigh(tf, idf)` |
| Tfidf.BuildTfidfVector | src/main/java/com/example/information_retrieval_backend/service/TfidfService.java:52-64 | the query vector is `TfidfVector(tokens, idf)` |
| Tfidf.TfidfVectorWeights | src/main/java/com/example/information_retrieval_backend/service/TfidfService.java:52-64 | the keys are exactly the distinct query tokens; each weight is the occurrence count times the IDF; a token unknown to the IDF map weighs 0 |
| Tfidf.TfidfVectorNonNegative | src/main/java/com/example/information_retrieval_backend/service/TfidfService.java:52-64 | non-negative IDFs give a non-negative query vector |
| Tfidf.MergeField | src/main/java/com/example/information_retrieval_backend/service/TfidfService.java:78-83 | one field loop merges weight times IDF into the vector by sum for every token of the field (`AddField`) |
| Tfidf.AddFieldAt | src/main/java/com/example/information_retrieval_backend/service/TfidfService.java:78-99 | after a field loop a token is a key exactly when it was one or is in the field; its weight is the old one plus the field's contribution |
| Tfidf.DocumentVectorByFields | src/main/java/com/example/information_retrieval_backend/service/TfidfService.java:68-102 | the content, title and user-tag loops run in that order from an empty map give the closed form `DocumentVector` |
| Tfidf.BuildWeightedDocumentVector | src/main/java/com/example/information_retrieval_backend/service/TfidfService.java:68-102 | the result is `DocumentVector`: the keys are the union of content tokens, title tokens and user tags; each weight is 1, 2 and 3 times the IDF for each field holding the token, summed |
| Tfidf.DocumentVectorNonNegative | src/main/java/com/example/information_retrieval_backend/service/TfidfService.java:68-102 | non-negative IDFs give non-negative document weights; a weight is positive exactly when the token's IDF is |
| Tfidf.SquaredNorm | src/main/java/com/example/information_retrieval_backend/service/TfidfService.java:119-125 | a sum of squares is non-negative |
| Tfidf.SumOverKeys | src/main/java/com/example/information_retrieval_backend/service/TfidfService.java:113-125 | an accumulation loop over a map's entries computes the sum over its keys |
| Tfidf.CosineSimilarity | src/main/java/com/example/information_retrieval_backend/service/TfidfService.java:106-131 | the three accumulation loops and the zero test compute `Cosine(doc, query)` |
| Tfidf.DotOverSharedKeys | src/main/java/com/example/information_retrieval_backend/service/TfidfService.java:113-117 | keys missing from the document contribute nothing: the dot product is the sum over the shared keys |
| Tfidf.DotSymmetric | src/main/java/com/example/information_retrieval_backend/service/TfidfService.java:113-117 | the dot product is symmetric |
| Tfidf.CosineSymmetric | src/main/java/com/example/information_retrieval_backend/service/TfidfService.java:106-131 | cosine similarity is symmetric in its two vectors |
| Tfidf.SquaredNormZero | src/main/java/com/example/information_retrieval_backend/service/TfidfService.java:119-128 | a sum of squares is zero exactly when every weight is zero |
| Tfidf.CosineOfZeroVector | src/main/java/com/example/information_retrieval_backend/service/TfidfService.java:127-128 | when either vector's weights are all zero, for instance an empty vector, the similarity is 0 |
| Tfidf.CosineSign | src/main/java/com/example/information_retrieval_backend/service/TfidfService.java:106-131 | with non-negative weights the similarity is non-negative, and it is positive exactly when some token weighs positively in both vectors |
| Sums.SumSetCauchySchwarz | src/main/java/com/example/information_retrieval_backend/service/TfidfService.java:113-125 | for any two terms over a finite key set, the squared sum of products is at most the product of the two sums of squares |
| Tfidf.DotSquaredBound | src/main/java/com/example/information_retrieval_backend/service/TfidfService.java:113-125 | the squared dot product of the query and document vectors is at most the product of their squared norms |
| Tfidf.CosineAtMostOne | src/main/java/com/example/information_retrieval_backend/service/TfidfService.java:106-131 | where the square root is exact at both squared norms, the similarity lies between -1 and 1 |
| Tfidf.Entries | src/main/java/com/example/information_retrieval_backend/service/TfidfService.java:146-147 | the entry stream holds exactly the map's entries, one per key |
| Tfidf.ComputeTfidf | src/main/java/com/example/information_retrieval_backend/service/TfidfService.java:135-150 | the result is a permutation of the entries of the token-to-tf*idf map, one per token, sorted non-increasing by weight |
| Tfidf.RankedPrefixIsTop | src/main/java/com/example/information_retrieval_backend/service/TfidfService.java:161-165 | the first topN keys of a sorted entry list form a top selection: as many as topN allows, distinct, in non-increasing weight, and no token left out weighs more than one taken |
| Tfidf.GenerateTagsForNoteContent | src/main/java/com/example/information_retrieval_backend/service/TfidfService.java:152-166 | the tags are a top-topN selection of the preprocessed title and content tokens, weighted by tf*idf over the corpus IDF |
| Tfidf.TopTagsCoverTokens | src/main/java/com/example/information_retrieval_backend/service/TfidfService.java:152-166 | every automatic tag is one of the text's tokens; with topN at least the number of distinct tokens, the tags are exactly those tokens |
| Tfidf.AddEach | src/main/java/com/example/information_retrieval_backend/service/TfidfService.java:171-172 | one forEach adds each lower-cased tag to the linked set unless it is already there |
| Tfidf.MergeUserTags | src/main/java/com/example/information_retrieval_backend/service/TfidfService.java:168-174 | the merge loops build `MergedTags`: the lower-cased user tags (none when absent), then the lower-cased automatic tags, each on its first occurrence |
| Tfidf.AddAllKeeps | src/main/java/com/example/information_retrieval_backend/service/TfidfService.java:169-172 | adding to a linked set keeps its contents in place as a prefix and adds no duplicate |
| Tfidf.AddAllElements | src/main/java/com/example/information_retrieval_backend/service/TfidfService.java:169-172 | after the adds the set holds exactly the old elements and the added ones |
| Tfidf.AddAllSubsequence | src/main/java/com/example/information_retrieval_backend/service/TfidfService.java:169-172 | the linked set is an order-preserving subsequence of the old contents followed by the added list |
| Tfidf.AddAllFresh | src/main/java/com/example/information_retrieval_backend/service/TfidfService.java:169-172 | adding distinct tags that are all new appends them unchanged |
| Tfidf.AddAllAppended | src/main/java/com/example/information_retrieval_backend/service/TfidfService.java:169-172 | everything appended after the old contents is an added tag that was not there before |
| Tfidf.MergedTagsElements | src/main/java/com/example/information_retrieval_backend/service/TfidfService.java:168-174 | the merge has no duplicates, only lower-case tags, and exactly the lower-cased user and automatic tags |
| Tfidf.UserPartProperties | src/main/java/com/example/information_retrieval_backend/service/TfidfService.java:170-171 | the user part is duplicate-free, holds exactly the lower-cased user tags in first-occurrence order (each occurs in the lower-cased input before any occurrence of a later one), and is exactly that list when it has no repeats |
| Tfidf.FirstOccurrences | src/main/java/com/example/information_retrieval_backend/service/TfidfService.java:169-171 | filling an empty linked set gives the distinct elements of the input in first-occurrence order: each occurs in the input before any occurrence of a later one; a duplicate-free list is kept unchanged |
| Tfidf.AddAllFirstSeen | src/main/java/com/example/information_retrieval_backend/service/TfidfService.java:169-172 | what `addAll` appends to a linked set that is already duplicate-free is in first-occurrence order of the added list |
| Tfidf.MergedTagsOrder | src/main/java/com/example/information_retrieval_backend/service/TfidfService.java:168-174 | the user part comes first, unchanged; everything after it is a lower-cased automatic tag that is not a user tag, in the automatic tags' first-occurrence order |
| Ranking.TagMatchesStored | src/main/java/com/example/information_retrieval_backend/service/NoteService.java:116-121 | on a stored note, whose user tags are among its tags, a non-blank tag passes the filter exactly when it is one of the note's tags |
| Ranking.UpperTagNeverMatches | src/main/java/com/example/information_retrieval_backend/service/NoteService.java:116-121 | the filter is exact and case-sensitive: a tag holding an upper-case letter matches no stored note, since stored tags are lower-case |
| Sorting.SortDesc | src/main/java/com/example/information_retrieval_backend/service/TfidfService.java:148 | the sort returns a permutation of its input in non-increasing key order |
| Sorting.SortDescStable | src/main/java/com/example/information_retrieval_backend/service/NoteService.java:132 | the sort is stable: elements with equal keys keep their input order |
| Ranking.CandidatesMembers | src/main/java/com/example/information_retrieval_backend/service/NoteService.java:113-131 | a candidate is exactly a listed note that passes the exact tag filter and scores above zero, paired with its position and score |
| Ranking.CandidatesIncreasing | src/main/java/com/example/information_retrieval_backend/service/NoteService.java:113-131 | the candidates are in listing order |
| Ranking.RankedMembers | src/main/java/com/example/information_retrieval_backend/service/NoteService.java:113-133 | a ranked result is exactly a note of the listing that passes the tag filter and has a positive score |
| Ranking.RankedOrder | src/main/java/com/example/information_retrieval_backend/service/NoteService.java:132-133 | the ranking is non-increasing in score, equal scores keep the listing order, and no position is ranked twice |
| Ranking.RankedNotesDistinct | src/main/java/com/example/information_retrieval_backend/service/NoteService.java:113-137 | over a listing without repeated notes, no note is returned twice |
| Ranking.SearchResults | src/main/java/com/example/information_retrieval_backend/service/NoteService.java:94-138 | blank query and tag return every note in listing order; otherwise the result is the ranked notes scored by cosine against the query; a listing without repeats gives a result without repeats |
| Ranking.CandidatesNone | src/main/java/com/example/information_retrieval_backend/service/NoteService.java:129-131 | when no note scores above zero there are no candidates |
| Ranking.RankedNone | src/main/java/com/example/information_retrieval_backend/service/NoteService.java:129-133 | when no note scores above zero nothing is ranked |
| Ranking.BlankQueryScoresZero | src/main/java/com/example/information_retrieval_backend/service/NoteService.java:101-111 | a blank query has an empty query vector, so every note scores 0 |
| Ranking.TagOnlySearchIsEmpty | src/main/java/com/example/information_retrieval_backend/service/NoteService.java:101-133 | a blank query with a non-blank tag returns nothing |
| Notes.ToList | src/main/java/com/example/information_retrieval_backend/service/NoteService.java:51 | the list copy of a hash set holds its elements once each, in an unspecified order |
| Notes.UserTagSetMembers | src/main/java/com/example/information_retrieval_backend/service/NoteService.java:44-46 | an absent list gives no user tags; otherwise the stored set holds exactly the lower-cased input tags, no more of them than were given, each lower-case |
| Notes.LowerAllFixed | src/main/java/com/example/information_retrieval_backend/service/NoteService.java:51 | lower-casing tags that are already lower-case changes nothing |
| Notes.IndexedInvariants | src/main/java/com/example/information_retrieval_backend/service/NoteService.java:35-52 | an indexed note's tokens are its title and content tokens together; its user tags are among its tags; every tag is lower-case; at most 6 tags are not user tags |
| Notes.LowerAllElements | src/main/java/com/example/information_retrieval_backend/service/NoteService.java:49-52 | lower-casing a list gives at most as many distinct tags as the list is long |
| Notes.Index | src/main/java/com/example/information_retrieval_backend/service/NoteService.java:30-52 | the shared setter sequence: text, three token sets, lower-cased user tags, and tags made of the user tags and the lower-cased top-6 automatic tags; id and creation date are kept; the modification time is now |
| Notes.Find | src/main/java/com/example/information_retrieval_backend/service/NoteService.java:58 | findById: the position found holds the id, and nothing is found exactly when no note holds it |
| Notes.NoteStore.constructor | src/main/java/com/example/information_retrieval_backend/service/NoteService.java:16-26 | an empty, valid table whose first identity is 1; the service only receives its repository by injection, so this empty table is the model's stand-in for an empty repository |
| Notes.NoteStore.Create | src/main/java/com/example/information_retrieval_backend/service/NoteService.java:28-55 | the note is indexed against the notes stored before it, stamped with now twice, given the next identity and appended; the table stays valid |
| Notes.NoteStore.Update | src/main/java/com/example/information_retrieval_backend/service/NoteService.java:57-83 | an unknown id fails with NotFound and changes nothing; otherwise the note is re-indexed in place, keeping its id and creation date, with modification time now |
| Notes.NoteStore.Delete | src/main/java/com/example/information_retrieval_backend/service/NoteService.java:85-88 | an unknown id fails with NotFound and changes nothing; otherwise exactly that note is removed and the order of the rest is kept |
| Notes.ScoreNote | src/main/java/com/example/information_retrieval_backend/service/NoteService.java:114-130 | the map step gives null for a note the tag filter rejects or that scores at most 0, and otherwise the note with its cosine score |
| Notes.ScoreAll | src/main/java/com/example/information_retrieval_backend/service/NoteService.java:113-131 | the map and null filter over the listing give the candidates |
| Notes.SearchNotes | src/main/java/com/example/information_retrieval_backend/service/NoteService.java:94-138 | the service's search computes `Ranking.Search` |

## Left out

- The CoreNLP pipeline and the Lucene English stopword set are parameters. They are foreign libraries.
- The two-argument `preprocess(title, content)` is a parameter without properties. It is not part of `TextProcessingService.java`.
- `Math.log`, `Math.sqrt` and IEEE double arithmetic are not modelled. The model uses reals and a logarithm and square root known only by their signs. So it proves no concrete score, no NaN or infinity, and no rounding in the sums.
- `Tfidf.CosineAtMostOne`: the bound `-1 <= cosine <= 1` is proved only where the square-root parameter is exact at both squared norms. The parameter is otherwise known only to be positive, and `Math.sqrt` rounds.
- Lower-casing is modelled on ASCII only. `String.toLowerCase` on other letters and locale rules are not modelled. Trim is modelled exactly: it drops the characters at or below U+0020 at both ends.
- A null element in the user-tag list makes `create` and `update` throw `NullPointerException` (NoteService.java:45 and :74, TfidfService.java:171). The model's tag lists are sequences of strings and have no null elements.
- `Text.KeptWellFormed`: the length filter `lemma.length() > 1` (TextProcessingService.java:54) counts UTF-16 code units in Java. The model counts Dafny characters, which are Unicode scalar values. So a one-character lemma outside the Basic Multilingual Plane is kept by Java and dropped by the model.
- `Tfidf.Idf` and `Tfidf.ComputeIdf`: require every document-frequency count to be at least 1. The service only builds such maps (`Tfidf.DfBounds`); a zero count would make Java produce an infinite IDF.
- `Tfidf.GenerateTagsForNoteContent`: takes `topN` as a natural number. A negative limit makes `Stream.limit` throw, and every caller passes 6.
- The cast `(int) noteRepository.count()` is not modelled. The count is taken to be the length of the listing.
- `HashMap` and `HashSet` iteration order is not modelled. Loops over them pick elements in an arbitrary order, and their results are proved independent of that order. The order of entries with equal weight after `computeTfidf`'s sort is therefore unspecified. `ComputeTfidf` and `GenerateTagsForNoteContent` are stated as sorted permutations and top selections, not as one fixed list.
- `Notes.NoteStore.Update`: notes are values, not JPA entities, so `Update` indexes against the table as stored before the save. In the service, `findById` returns a managed instance (NoteService.java:58), and its new token sets are set at NoteService.java:69-71. Inside one persistence context, `findAll` during `generateTagsForNoteContent` (NoteService.java:78) returns that same instance, already carrying the new tokens. The model's corpus holds the old tokens for that note.
- `Create` takes one timestamp for both `LocalDateTime.now()` calls.
- `logScoreBreakdown` only prints and is not modelled. The same holds for `findAll`, `toDto`, `toDtoPublic`, the controller and the DTO classes, which only pass data through. `search` returns the notes themselves instead of their response projections.
- The native MySQL full-text queries of the repository interface and the commented-out `TagGenerator` are not part of this model.
- Concurrency and transaction boundaries are not modelled.
