/** The TF-IDF service: term and document frequencies, inverse document
    frequencies, query and field-weighted document vectors, cosine similarity,
    automatic tag extraction and the merge of user and automatic tags. */
module Tfidf {
  import opened Wrappers
  import opened Sums
  import opened Sorting
  import opened Model
  import opened Text

  // ---------- numerics ----------

  /** f is positive at x whenever x lies above lo. */
  predicate PositiveAbove(f: real -> real, lo: real, x: real)
  {
    x > lo ==> f(x) > 0.0
  }

  /** The natural logarithm, known only through ln(1) = 0 and ln(x) > 0 for x > 1. */
  type Ln = f: real -> real | f(1.0) == 0.0 && forall x :: PositiveAbove(f, 1.0, x)
    witness (x: real) => if x > 1.0 then 1.0 else 0.0

  /** The square root, known only to be positive on positive arguments. */
  type Sqrt = f: real -> real | forall x :: PositiveAbove(f, 0.0, x)
    witness (x: real) => 1.0

  datatype Math = Math(ln: Ln, sqrt: Sqrt)

  /** A sparse term vector: token to weight. */
  type Vector = map<string, real>

  predicate NonNegative(v: Vector)
  {
    forall t :: t in v ==> v[t] >= 0.0
  }

  // ---------- term frequency ----------

  /** merge(t, 1, Integer::sum) */
  function Increment(m: map<string, int>, t: string): map<string, int>
  {
    m[t := (if t in m then m[t] else 0) + 1]
  }

  /** The map computeTf builds, one token after another. */
  function Tf(tokens: seq<string>): map<string, int>
  {
    if tokens == [] then map[]
    else Increment(Tf(tokens[..|tokens| - 1]), tokens[|tokens| - 1])
  }

  lemma TfSnoc(tokens: seq<string>, i: nat)
    requires i < |tokens|
    ensures Tf(tokens[..i + 1]) == Increment(Tf(tokens[..i]), tokens[i])
  {
    assert tokens[..i + 1][..i] == tokens[..i];
  }

  /** computeTf */
  method ComputeTf(tokens: seq<string>) returns (tf: map<string, int>)
    ensures tf == Tf(tokens)
  {
    tf := map[];
    for i := 0 to |tokens|
      invariant tf == Tf(tokens[..i])
    {
      var t := tokens[i];
      tf := tf[t := (if t in tf then tf[t] else 0) + 1];
      TfSnoc(tokens, i);
    }
    assert tokens[..|tokens|] == tokens;
  }

  /** The keys of the term frequency are exactly the distinct tokens, and each
      count is the token's number of occurrences. */
  lemma {:induction false} TfCounts(tokens: seq<string>)
    ensures Tf(tokens).Keys == Elements(tokens)
    ensures forall t :: t in Tf(tokens) ==> Tf(tokens)[t] == multiset(tokens)[t]
  {
    if tokens != [] {
      var init, x := tokens[..|tokens| - 1], tokens[|tokens| - 1];
      TfCounts(init);
      assert tokens == init + [x];
      assert multiset(tokens) == multiset(init) + multiset{x};
      assert Elements(tokens) == Elements(init) + {x};
    }
  }

  /** A term-frequency map's counts, as real terms of a sum. */
  function Counts(m: map<string, int>): string -> real
  {
    t => if t in m then m[t] as real else 0.0
  }

  /** The counts of the term frequency add up to the number of tokens. */
  lemma {:induction false} TfTotal(tokens: seq<string>)
    ensures SumSet(Tf(tokens).Keys, Counts(Tf(tokens))) == |tokens| as real
  {
    if tokens != [] {
      var init, x := tokens[..|tokens| - 1], tokens[|tokens| - 1];
      var before, after := Tf(init), Tf(tokens);
      TfTotal(init);
      if x in before {
        assert after.Keys == before.Keys;
        SumSetPick(after.Keys, Counts(after), x);
        SumSetPick(before.Keys, Counts(before), x);
        SumSetCongruent(before.Keys - {x}, Counts(after), Counts(before));
      } else {
        assert after.Keys == before.Keys + {x};
        SumSetAdd(before.Keys, Counts(after), x);
        SumSetCongruent(before.Keys, Counts(after), Counts(before));
      }
    }
  }

  // ---------- document frequency ----------

  /** The counts after one more note: +1 for each of its distinct tokens. */
  function AddDocument(df: map<string, int>, tokens: set<string>): map<string, int>
  {
    map t | t in df.Keys + tokens :: (if t in df then df[t] else 0) + (if t in tokens then 1 else 0)
  }

  /** The map computeDfAll builds over the repository, note after note. */
  function Df(notes: seq<Note>): map<string, int>
  {
    if notes == [] then map[]
    else AddDocument(Df(notes[..|notes| - 1]), notes[|notes| - 1].tokens)
  }

  /** The number of notes whose token set contains t. */
  function NotesContaining(notes: seq<Note>, t: string): nat
  {
    if notes == [] then 0
    else NotesContaining(notes[..|notes| - 1], t) + (if t in notes[|notes| - 1].tokens then 1 else 0)
  }

  lemma AddDocumentEmpty(df: map<string, int>)
    ensures AddDocument(df, {}) == df
  {
  }

  lemma AddDocumentStep(df: map<string, int>, done: set<string>, t: string)
    requires t !in done
    ensures AddDocument(df, done + {t}) == Increment(AddDocument(df, done), t)
  {
  }

  lemma DfSnoc(notes: seq<Note>, i: nat)
    requires i < |notes|
    ensures Df(notes[..i + 1]) == AddDocument(Df(notes[..i]), notes[i].tokens)
  {
    assert notes[..i + 1][..i] == notes[..i];
  }

  /** computeDfAll, over the notes the repository lists. */
  method ComputeDfAll(notes: seq<Note>) returns (df: map<string, int>)
    ensures df == Df(notes)
  {
    df := map[];
    for i := 0 to |notes|
      invariant df == Df(notes[..i])
    {
      var unique := notes[i].tokens;
      ghost var base := df;
      AddDocumentEmpty(base);
      var rest := unique;
      while rest != {}
        invariant rest <= unique
        invariant df == AddDocument(base, unique - rest)
        decreases rest
      {
        var t :| t in rest;
        AddDocumentStep(base, unique - rest, t);
        assert unique - (rest - {t}) == (unique - rest) + {t};
        df := df[t := (if t in df then df[t] else 0) + 1];
        rest := rest - {t};
      }
      assert unique - rest == unique;
      DfSnoc(notes, i);
    }
    assert notes[..|notes|] == notes;
  }

  /** A token is a key of the document frequency exactly when some note contains
      it, and its count is the number of notes that contain it. */
  lemma {:induction false} DfCounts(notes: seq<Note>)
    ensures forall t :: t in Df(notes) <==> NotesContaining(notes, t) >= 1
    ensures forall t :: t in Df(notes) ==> Df(notes)[t] == NotesContaining(notes, t)
  {
    if notes != [] {
      DfCounts(notes[..|notes| - 1]);
    }
  }

  lemma {:induction false} NotesContainingBounds(notes: seq<Note>, t: string)
    ensures NotesContaining(notes, t) <= |notes|
    ensures NotesContaining(notes, t) >= 1 <==> exists i :: 0 <= i < |notes| && t in notes[i].tokens
  {
    if notes != [] {
      var init := notes[..|notes| - 1];
      NotesContainingBounds(init, t);
      if NotesContaining(init, t) >= 1 {
        var i :| 0 <= i < |init| && t in init[i].tokens;
        assert notes[i] == init[i];
      }
      if exists i :: 0 <= i < |notes| && t in notes[i].tokens {
        var i :| 0 <= i < |notes| && t in notes[i].tokens;
        if i < |init| {
          assert init[i] == notes[i];
        }
      }
    }
  }

  /** Every document frequency lies between 1 and the number of notes, and the
      keys are exactly the tokens of the notes. */
  lemma DfBounds(notes: seq<Note>)
    ensures forall t :: t in Df(notes) ==> 1 <= Df(notes)[t] <= |notes|
    ensures forall t :: t in Df(notes) <==> exists i :: 0 <= i < |notes| && t in notes[i].tokens
  {
    DfCounts(notes);
    forall t ensures NotesContaining(notes, t) <= |notes|
      && (NotesContaining(notes, t) >= 1 <==> exists i :: 0 <= i < |notes| && t in notes[i].tokens)
    {
      NotesContainingBounds(notes, t);
    }
  }

  // ---------- inverse document frequency ----------

  /** computeIdf: ln(N / df[t]) for every key of df. */
  function Idf(df: map<string, int>, n: int, ln: Ln): (idf: Vector)
    requires forall t :: t in df ==> df[t] >= 1
    ensures idf.Keys == df.Keys
  {
    map t | t in df :: ln(n as real / df[t] as real)
  }

  /** computeIdf's forEach: one put per key of df, in the map's own order. */
  method ComputeIdf(df: map<string, int>, n: int, ln: Ln) returns (idf: Vector)
    requires forall t :: t in df ==> df[t] >= 1
    ensures idf == Idf(df, n, ln)
  {
    idf := map[];
    var rest := df.Keys;
    while rest != {}
      invariant rest <= df.Keys
      invariant idf.Keys == df.Keys - rest
      invariant forall t :: t in idf ==> idf[t] == ln(n as real / df[t] as real)
      decreases rest
    {
      var t :| t in rest;
      idf := idf[t := ln(n as real / df[t] as real)];
      rest := rest - {t};
    }
  }

  /** When no count exceeds N, every IDF is non-negative, and it is zero exactly
      for the tokens every document contains. */
  lemma IdfNonNegative(df: map<string, int>, n: int, ln: Ln)
    requires forall t :: t in df ==> 1 <= df[t] <= n
    ensures NonNegative(Idf(df, n, ln))
    ensures forall t :: t in df ==> (Idf(df, n, ln)[t] == 0.0 <==> df[t] == n)
  {
    forall t | t in df
      ensures Idf(df, n, ln)[t] >= 0.0 && (Idf(df, n, ln)[t] == 0.0 <==> df[t] == n)
    {
      RatioAtLeastOne(n, df[t]);
      LnOfRatio(ln, n as real / df[t] as real);
    }
  }

  lemma RatioAtLeastOne(n: int, d: int)
    requires 1 <= d <= n
    ensures n as real / d as real >= 1.0
    ensures n as real / d as real == 1.0 <==> d == n
  {
    var r := n as real / d as real;
    assert r * d as real == n as real;
  }

  lemma LnOfRatio(ln: Ln, x: real)
    requires x >= 1.0
    ensures ln(x) >= 0.0
    ensures ln(x) == 0.0 <==> x == 1.0
  {
    assert PositiveAbove(ln, 1.0, x);
  }

  /** N = max(count, 1): the number of stored notes, and 1 for an empty table. */
  function CorpusSize(notes: seq<Note>): (n: nat)
    ensures n >= 1 && n >= |notes|
    ensures |notes| > 0 ==> n == |notes|
  {
    if |notes| > 1 then |notes| else 1
  }

  /** The corpus-wide IDF a search or tag generation computes:
      N = max(count, 1) and df over every note. */
  function CorpusIdf(notes: seq<Note>, ln: Ln): (idf: Vector)
    ensures NonNegative(idf)
    ensures idf.Keys == Df(notes).Keys
  {
    DfBounds(notes);
    IdfNonNegative(Df(notes), CorpusSize(notes), ln);
    Idf(Df(notes), CorpusSize(notes), ln)
  }

  /** idfMap.getOrDefault(t, Math.log(1.0)) */
  function IdfOf(idf: Vector, t: string, ln: Ln): (w: real)
    ensures t !in idf ==> w == 0.0
    ensures NonNegative(idf) ==> w >= 0.0
  {
    if t in idf then idf[t] else ln(1.0)
  }

  // ---------- query vector ----------

  /** A count times a weight. */
  function Times(count: int, w: real): (r: real)
    ensures count >= 0 && w >= 0.0 ==> r >= 0.0
  {
    count as real * w
  }

  /** buildTfidfVector over a term-frequency map: each key weighted by its count times its IDF. */
  function Weigh(tf: map<string, int>, idf: Vector, ln: Ln): Vector
  {
    map t | t in tf :: Times(tf[t], IdfOf(idf, t, ln))
  }

  /** buildTfidfVector(tokens, idf) */
  function TfidfVector(tokens: seq<string>, idf: Vector, ln: Ln): Vector
  {
    Weigh(Tf(tokens), idf, ln)
  }

  /** The forEach over a term-frequency map that puts freq * idf for every key. */
  method WeighTerms(tf: map<string, int>, idf: Vector, ln: Ln) returns (vector: Vector)
    ensures vector == Weigh(tf, idf, ln)
  {
    vector := map[];
    var rest := tf.Keys;
    while rest != {}
      invariant rest <= tf.Keys
      invariant vector == map t | t in tf.Keys - rest :: Times(tf[t], IdfOf(idf, t, ln))
      decreases rest
    {
      var t :| t in rest;
      vector := vector[t := Times(tf[t], IdfOf(idf, t, ln))];
      rest := rest - {t};
    }
    assert tf.Keys - rest == tf.Keys;
  }

  /** buildTfidfVector */
  method BuildTfidfVector(tokens: seq<string>, idf: Vector, ln: Ln) returns (vector: Vector)
    ensures vector == TfidfVector(tokens, idf, ln)
  {
    var tf := ComputeTf(tokens);
    vector := WeighTerms(tf, idf, ln);
  }

  /** The query vector has exactly the distinct tokens as keys; each weight is
      the token's number of occurrences times its IDF, so a token the IDF map
      does not know weighs 0; with non-negative IDFs every weight is non-negative. */
  lemma TfidfVectorWeights(tokens: seq<string>, idf: Vector, ln: Ln)
    ensures TfidfVector(tokens, idf, ln).Keys == Elements(tokens)
    ensures forall t :: t in tokens ==>
              TfidfVector(tokens, idf, ln)[t] == Times(multiset(tokens)[t], IdfOf(idf, t, ln))
    ensures forall t :: t in tokens && t !in idf ==> TfidfVector(tokens, idf, ln)[t] == 0.0
  {
    TfCounts(tokens);
    forall t | t in tokens
      ensures TfidfVector(tokens, idf, ln)[t] == Times(multiset(tokens)[t], IdfOf(idf, t, ln))
    {
      assert t in Elements(tokens);
    }
  }

  /** With non-negative IDFs every query weight is non-negative. */
  lemma TfidfVectorNonNegative(tokens: seq<string>, idf: Vector, ln: Ln)
    requires NonNegative(idf)
    ensures NonNegative(TfidfVector(tokens, idf, ln))
  {
    TfCounts(tokens);
    var tf, v := Tf(tokens), TfidfVector(tokens, idf, ln);
    forall t | t in v ensures v[t] >= 0.0 {
      assert v[t] == Times(tf[t], IdfOf(idf, t, ln));
      assert tf[t] == multiset(tokens)[t];
    }
  }

  // ---------- field-weighted document vector ----------

  const ContentWeight: real := 1.0
  const TitleWeight: real := 2.0
  const UserTagWeight: real := 3.0

  /** getOrDefault(t, 0.0) */
  function Get(v: Vector, t: string): real
  {
    if t in v then v[t] else 0.0
  }

  /** A field weight times an IDF. */
  function Scale(weight: real, w: real): (r: real)
    ensures weight > 0.0 && w >= 0.0 ==> r >= 0.0 && (r > 0.0 <==> w > 0.0)
  {
    weight * w
  }

  /** What one field contributes to a token's weight: weight * idf when the
      field holds the token, otherwise nothing. */
  function FieldTerm(field: set<string>, weight: real, t: string, idf: Vector, ln: Ln): real
  {
    if t in field then Scale(weight, IdfOf(idf, t, ln)) else 0.0
  }

  /** The document vector in closed form: every token of the content, the title
      or the user tags, weighted 1, 2 and 3 times its IDF per field it occurs
      in, the contributions of several fields added up. */
  function DocumentVector(note: Note, idf: Vector, ln: Ln): Vector
  {
    map t | t in note.contentTokens + note.titleTokens + note.userTags ::
      FieldTerm(note.contentTokens, ContentWeight, t, idf, ln)
      + FieldTerm(note.titleTokens, TitleWeight, t, idf, ln)
      + FieldTerm(note.userTags, UserTagWeight, t, idf, ln)
  }

  /** v after one field's loop has merged all of `field` into it by sum. */
  function AddField(v: Vector, field: set<string>, weight: real, idf: Vector, ln: Ln): Vector
  {
    map t | t in v.Keys + field :: Get(v, t) + FieldTerm(field, weight, t, idf, ln)
  }

  lemma AddFieldStep(v: Vector, done: set<string>, t: string, weight: real, idf: Vector, ln: Ln)
    requires t !in done
    ensures var before := AddField(v, done, weight, idf, ln);
            AddField(v, done + {t}, weight, idf, ln)
            == before[t := Get(before, t) + Scale(weight, IdfOf(idf, t, ln))]
  {
    var before := AddField(v, done, weight, idf, ln);
    var after := AddField(v, done + {t}, weight, idf, ln);
    var expected := before[t := Get(before, t) + Scale(weight, IdfOf(idf, t, ln))];
    assert after.Keys == expected.Keys;
    forall k | k in after ensures after[k] == expected[k] {
      if k == t {
        assert Get(before, t) == Get(v, t);
      }
    }
  }

  /** The loop over one field: vector.merge(t, weight * idf, Double::sum) for each token. */
  method MergeField(v: Vector, field: set<string>, weight: real, idf: Vector, ln: Ln) returns (r: Vector)
    ensures r == AddField(v, field, weight, idf, ln)
  {
    r := v;
    var rest := field;
    assert AddField(v, {}, weight, idf, ln) == v;
    while rest != {}
      invariant rest <= field
      invariant r == AddField(v, field - rest, weight, idf, ln)
      decreases rest
    {
      var t :| t in rest;
      AddFieldStep(v, field - rest, t, weight, idf, ln);
      assert field - (rest - {t}) == (field - rest) + {t};
      r := r[t := Get(r, t) + Scale(weight, IdfOf(idf, t, ln))];
      rest := rest - {t};
    }
    assert field - rest == field;
  }

  /** Reading one key of a vector after a field's loop. */
  lemma AddFieldAt(v: Vector, field: set<string>, weight: real, idf: Vector, ln: Ln, t: string)
    ensures t in AddField(v, field, weight, idf, ln) <==> t in v || t in field
    ensures Get(AddField(v, field, weight, idf, ln), t) == Get(v, t) + FieldTerm(field, weight, t, idf, ln)
  {
  }

  /** The three field loops, run one after another from an empty map, give the
      closed form. */
  lemma DocumentVectorByFields(note: Note, idf: Vector, ln: Ln)
    ensures AddField(AddField(AddField(map[], note.contentTokens, ContentWeight, idf, ln),
                              note.titleTokens, TitleWeight, idf, ln),
                     note.userTags, UserTagWeight, idf, ln)
            == DocumentVector(note, idf, ln)
  {
    var v1 := AddField(map[], note.contentTokens, ContentWeight, idf, ln);
    var v2 := AddField(v1, note.titleTokens, TitleWeight, idf, ln);
    var v3 := AddField(v2, note.userTags, UserTagWeight, idf, ln);
    var d := DocumentVector(note, idf, ln);
    forall t ensures (t in v3 <==> t in d) && Get(v3, t) == Get(d, t) {
      AddFieldAt(map[], note.contentTokens, ContentWeight, idf, ln, t);
      AddFieldAt(v1, note.titleTokens, TitleWeight, idf, ln, t);
      AddFieldAt(v2, note.userTags, UserTagWeight, idf, ln, t);
    }
    assert v3.Keys == d.Keys;
    forall t | t in d ensures v3[t] == d[t] {
      assert Get(v3, t) == Get(d, t);
    }
  }

  /** buildWeightedDocumentVector: content, then title, then user tags. */
  method BuildWeightedDocumentVector(note: Note, idf: Vector, ln: Ln) returns (v: Vector)
    ensures v == DocumentVector(note, idf, ln)
  {
    v := map[];
    v := MergeField(v, note.contentTokens, ContentWeight, idf, ln);
    v := MergeField(v, note.titleTokens, TitleWeight, idf, ln);
    v := MergeField(v, note.userTags, UserTagWeight, idf, ln);
    DocumentVectorByFields(note, idf, ln);
  }

  /** With non-negative IDFs the document vector has non-negative weights, and a
      token is weighted positively exactly when its IDF is positive. */
  lemma DocumentVectorNonNegative(note: Note, idf: Vector, ln: Ln)
    requires NonNegative(idf)
    ensures NonNegative(DocumentVector(note, idf, ln))
    ensures forall t :: t in DocumentVector(note, idf, ln) ==>
              (DocumentVector(note, idf, ln)[t] > 0.0 <==> IdfOf(idf, t, ln) > 0.0)
  {
    var v := DocumentVector(note, idf, ln);
    forall t | t in v ensures v[t] >= 0.0 && (v[t] > 0.0 <==> IdfOf(idf, t, ln) > 0.0) {
      var w := IdfOf(idf, t, ln);
      assert w >= 0.0;
    }
  }

  // ---------- cosine similarity ----------

  /** A product of two reals, with its sign. */
  function Product(a: real, b: real): (r: real)
    ensures a >= 0.0 && b >= 0.0 ==> r >= 0.0
    ensures a > 0.0 && b > 0.0 ==> r > 0.0
    ensures a == 0.0 || b == 0.0 ==> r == 0.0
    ensures a == b ==> r >= 0.0 && (r == 0.0 <==> a == 0.0)
  {
    a * b
  }

  /** A quotient by a positive real, with its sign. */
  function Ratio(x: real, y: real): (r: real)
    requires y > 0.0
    ensures r >= 0.0 <==> x >= 0.0
    ensures r > 0.0 <==> x > 0.0
  {
    x / y
  }

  /** The term of the dot product at one key. */
  function Products(a: Vector, b: Vector): string -> real
  {
    t => Product(Get(a, t), Get(b, t))
  }

  /** The term of the squared norm at one key. */
  function Squares(v: Vector): string -> real
  {
    t => Product(Get(v, t), Get(v, t))
  }

  /** The dot product, summed over the query's keys as the loop does. */
  ghost function Dot(query: Vector, doc: Vector): real
  {
    SumSet(query.Keys, Products(query, doc))
  }

  /** The sum of squares of a vector's weights. */
  ghost function SquaredNorm(v: Vector): (r: real)
    ensures r >= 0.0
  {
    SumSetNonNegative(v.Keys, Squares(v));
    SumSet(v.Keys, Squares(v))
  }

  /** cosineSimilarity(doc, query): 0 when either sum of squares is 0, otherwise
      the dot product over the product of the two norms. */
  ghost function Cosine(doc: Vector, query: Vector, sqrt: Sqrt): real
  {
    var dn, qn := SquaredNorm(doc), SquaredNorm(query);
    if dn == 0.0 || qn == 0.0 then 0.0
    else
      assert PositiveAbove(sqrt, 0.0, dn) && PositiveAbove(sqrt, 0.0, qn);
      Ratio(Dot(query, doc), Product(sqrt(dn), sqrt(qn)))
  }

  /** One accumulation loop over the keys of a map. */
  method SumOverKeys(v: Vector, f: string -> real) returns (total: real)
    ensures total == SumSet(v.Keys, f)
  {
    total := 0.0;
    var rest := v.Keys;
    while rest != {}
      invariant rest <= v.Keys
      invariant total == SumSet(v.Keys - rest, f)
      decreases rest
    {
      var k :| k in rest;
      SumSetAdd(v.Keys - rest, f, k);
      assert v.Keys - (rest - {k}) == (v.Keys - rest) + {k};
      total := total + f(k);
      rest := rest - {k};
    }
    assert v.Keys - rest == v.Keys;
  }

  /** cosineSimilarity: the three accumulation loops, then the zero test. */
  method CosineSimilarity(docVector: Vector, queryVector: Vector, sqrt: Sqrt) returns (score: real)
    ensures score == Cosine(docVector, queryVector, sqrt)
  {
    var dot := SumOverKeys(queryVector, Products(queryVector, docVector));
    var docNorm := SumOverKeys(docVector, Squares(docVector));
    var queryNorm := SumOverKeys(queryVector, Squares(queryVector));
    assert dot == Dot(queryVector, docVector);
    assert docNorm == SquaredNorm(docVector) && queryNorm == SquaredNorm(queryVector);
    if docNorm == 0.0 || queryNorm == 0.0 {
      return 0.0;
    }
    assert PositiveAbove(sqrt, 0.0, docNorm) && PositiveAbove(sqrt, 0.0, queryNorm);
    score := Ratio(dot, Product(sqrt(docNorm), sqrt(queryNorm)));
  }

  /** Keys missing from the document contribute nothing: the dot product is
      the sum over the keys the two vectors share. */
  lemma DotOverSharedKeys(query: Vector, doc: Vector)
    ensures Dot(query, doc) == SumSet(query.Keys * doc.Keys, Products(query, doc))
  {
    SumSetDropZeros(query.Keys, query.Keys * doc.Keys, Products(query, doc));
  }

  /** The dot product is symmetric. */
  lemma DotSymmetric(a: Vector, b: Vector)
    ensures Dot(a, b) == Dot(b, a)
  {
    DotOverSharedKeys(a, b);
    DotOverSharedKeys(b, a);
    assert a.Keys * b.Keys == b.Keys * a.Keys;
    SumSetCongruent(a.Keys * b.Keys, Products(a, b), Products(b, a));
  }

  /** Cosine similarity is symmetric in its two arguments. */
  lemma CosineSymmetric(a: Vector, b: Vector, sqrt: Sqrt)
    ensures Cosine(a, b, sqrt) == Cosine(b, a, sqrt)
  {
    DotSymmetric(a, b);
  }

  /** A squared norm is zero exactly when every weight is zero. */
  lemma SquaredNormZero(v: Vector)
    ensures SquaredNorm(v) == 0.0 <==> forall t :: t in v ==> v[t] == 0.0
  {
    var f := Squares(v);
    forall t | t in v.Keys ensures f(t) >= 0.0 && (f(t) == 0.0 <==> v[t] == 0.0) {
      assert f(t) == Product(v[t], v[t]);
    }
    SumSetZero(v.Keys, f);
  }

  /** A vector whose weights are all zero (in particular an empty one) makes
      every similarity 0, on either side. */
  lemma CosineOfZeroVector(doc: Vector, query: Vector, sqrt: Sqrt)
    requires (forall t :: t in doc ==> doc[t] == 0.0) || (forall t :: t in query ==> query[t] == 0.0)
    ensures Cosine(doc, query, sqrt) == 0.0
  {
    SquaredNormZero(doc);
    SquaredNormZero(query);
  }

  /** With non-negative weights the similarity is non-negative, and it is
      positive exactly when some token has a positive weight in both vectors. */
  lemma CosineSign(doc: Vector, query: Vector, sqrt: Sqrt)
    requires NonNegative(doc) && NonNegative(query)
    ensures Cosine(doc, query, sqrt) >= 0.0
    ensures Cosine(doc, query, sqrt) > 0.0 <==>
              exists t :: t in query && t in doc && query[t] > 0.0 && doc[t] > 0.0
  {
    var f := Products(query, doc);
    forall t | t in query.Keys ensures f(t) >= 0.0 {
      assert Get(query, t) >= 0.0 && Get(doc, t) >= 0.0;
    }
    SumSetNonNegative(query.Keys, f);
    SumSetZero(query.Keys, f);
    SquaredNormZero(doc);
    SquaredNormZero(query);
    if exists t :: t in query && t in doc && query[t] > 0.0 && doc[t] > 0.0 {
      var t :| t in query && t in doc && query[t] > 0.0 && doc[t] > 0.0;
      assert f(t) > 0.0;
      assert Dot(query, doc) > 0.0;
    } else {
      forall t | t in query.Keys ensures f(t) == 0.0 {
        assert Get(query, t) == 0.0 || Get(doc, t) == 0.0;
      }
      assert Dot(query, doc) == 0.0;
    }
  }

  /** A vector's weights as a term over all keys, 0 off its key set. */
  function Weights(v: Vector): string -> real
  {
    t => Get(v, t)
  }

  /** The term of the dot product at t is the product of the two weights, 0 off a's keys. */
  lemma ProductTerm(a: Vector, b: Vector, t: string)
    ensures Products(a, b)(t) == Mul(Weights(a), Weights(b))(t)
    ensures t !in a ==> Products(a, b)(t) == 0.0
  {
  }

  /** A sum of products over a's keys is the same sum over any larger key set. */
  lemma ProductsOver(u: set<string>, a: Vector, b: Vector)
    requires a.Keys <= u
    ensures SumSet(a.Keys, Products(a, b)) == SumSet(u, Mul(Weights(a), Weights(b)))
  {
    forall t | t in u && t !in a.Keys ensures Products(a, b)(t) == 0.0 {
      ProductTerm(a, b, t);
    }
    SumSetDropZeros(u, a.Keys, Products(a, b));
    forall t | t in u ensures Products(a, b)(t) == Mul(Weights(a), Weights(b))(t) {
      ProductTerm(a, b, t);
    }
    SumSetCongruent(u, Products(a, b), Mul(Weights(a), Weights(b)));
  }

  /** The same for a sum of squares. */
  lemma SquaresOver(u: set<string>, a: Vector)
    requires a.Keys <= u
    ensures SquaredNorm(a) == SumSet(u, Mul(Weights(a), Weights(a)))
  {
    forall t | t in u ensures Squares(a)(t) == Products(a, a)(t) {
    }
    SumSetCongruent(a.Keys, Squares(a), Products(a, a));
    ProductsOver(u, a, a);
  }

  /** The Cauchy-Schwarz inequality for term vectors: the squared dot product
      is at most the product of the two squared norms. */
  lemma DotSquaredBound(query: Vector, doc: Vector)
    ensures CauchyBound(Dot(query, doc), SquaredNorm(query), SquaredNorm(doc))
  {
    var u := query.Keys + doc.Keys;
    ProductsOver(u, query, doc);
    SquaresOver(u, query);
    SquaresOver(u, doc);
    SumSetCauchySchwarz(u, Weights(query), Weights(doc));
  }

  /** x / p lies in [-1, 1] when p is positive and x * x <= p * p. */
  lemma RatioBound(x: real, p: real)
    requires p > 0.0 && x * x <= p * p
    ensures -1.0 <= Ratio(x, p) <= 1.0
  {
    var r := x / p;
    assert r * p == x;
    if r > 1.0 {
      PositiveProduct(r - 1.0, p);
      assert x > p;
      SquareStrict(x, p);
    } else if r < -1.0 {
      PositiveProduct(-1.0 - r, p);
      assert -x > p;
      assert (-x) * (-x) == x * x;
      SquareStrict(-x, p);
    }
  }

  /** sqrt is a true square root at x. */
  predicate RootAt(sqrt: Sqrt, x: real)
  {
    sqrt(x) * sqrt(x) == x
  }

  /** Where sqrt is a true square root at both squared norms, the similarity
      lies between -1 and 1. */
  lemma CosineAtMostOne(doc: Vector, query: Vector, sqrt: Sqrt)
    requires RootAt(sqrt, SquaredNorm(doc)) && RootAt(sqrt, SquaredNorm(query))
    ensures -1.0 <= Cosine(doc, query, sqrt) <= 1.0
  {
    var dn, qn := SquaredNorm(doc), SquaredNorm(query);
    if dn != 0.0 && qn != 0.0 {
      assert PositiveAbove(sqrt, 0.0, dn) && PositiveAbove(sqrt, 0.0, qn);
      var p := Product(sqrt(dn), sqrt(qn));
      assert p * p == (sqrt(dn) * sqrt(dn)) * (sqrt(qn) * sqrt(qn));
      DotSquaredBound(query, doc);
      assert CauchyBound(Dot(query, doc), qn, dn);
      assert qn * dn == p * p;
      RatioBound(Dot(query, doc), p);
    }
  }

  // ---------- ranking and automatic tags ----------

  /** A map entry (token, score) and its value. */
  type Entry = (string, real)

  function Weight(e: Entry): real
  {
    e.1
  }

  /** No token occurs in two entries. */
  predicate DistinctKeys(es: seq<Entry>)
  {
    forall i, j :: 0 <= i < j < |es| ==> es[i].0 != es[j].0
  }

  /** The entries are exactly those of the map v. */
  ghost predicate EntriesOf(es: seq<Entry>, v: Vector)
  {
    forall e :: e in es <==> e.0 in v && e.1 == v[e.0]
  }

  /** entrySet().stream(): the entries of a map in the map's own, unspecified order. */
  method Entries(v: Vector) returns (es: seq<Entry>)
    ensures EntriesOf(es, v)
    ensures DistinctKeys(es)
    ensures |es| == |v|
  {
    es := [];
    var rest := v.Keys;
    ghost var done: set<string> := {};
    while rest != {}
      invariant rest <= v.Keys && done == v.Keys - rest
      invariant forall e :: e in es <==> e.0 in done && e.1 == v[e.0]
      invariant DistinctKeys(es)
      invariant |es| == |done|
      decreases rest
    {
      var k :| k in rest;
      assert forall i :: 0 <= i < |es| ==> es[i].0 != k by {
        forall i | 0 <= i < |es| ensures es[i].0 != k {
          assert es[i] in es;
        }
      }
      es := es + [(k, v[k])];
      rest := rest - {k};
      done := done + {k};
    }
    assert v.Keys == done;
  }

  /** computeTfidf: the scores of the distinct tokens, sorted by decreasing
      score; tokens of equal score keep the map's order. */
  method ComputeTfidf(tokens: seq<string>, idf: Vector, ln: Ln) returns (ranked: seq<Entry>)
    ensures SortedDesc(ranked, Weight)
    ensures EntriesOf(ranked, TfidfVector(tokens, idf, ln))
    ensures DistinctKeys(ranked)
    ensures |ranked| == |TfidfVector(tokens, idf, ln)|
  {
    var tf := ComputeTf(tokens);
    var scores := WeighTerms(tf, idf, ln);
    var es := Entries(scores);
    ranked := SortDesc(es, Weight);
    SortDescElements(es, Weight);
    EntriesDistinct(es);
    PermutationKeepsDistinct(ranked, es);
    DistinctEntriesOfMap(ranked, scores);
  }

  lemma EntriesDistinct(es: seq<Entry>)
    requires DistinctKeys(es)
    ensures Distinct(es)
  {
    forall i, j | 0 <= i < j < |es| ensures es[i] != es[j] {
      assert es[i].0 != es[j].0;
    }
  }

  /** Distinct entries of one map have distinct keys. */
  lemma DistinctEntriesOfMap(es: seq<Entry>, v: Vector)
    requires Distinct(es) && EntriesOf(es, v)
    ensures DistinctKeys(es)
  {
    forall i, j | 0 <= i < j < |es| ensures es[i].0 != es[j].0 {
      assert es[i] in es && es[j] in es;
    }
  }

  function Min(a: nat, b: nat): nat
  {
    if a < b then a else b
  }

  /** tags are a top-N selection of the tokens by weight: as many as topN
      allows, distinct, each a token, in non-increasing weight, and no token
      left out weighs more than one taken. */
  predicate IsTopTags(tags: seq<string>, weights: Vector, topN: nat)
  {
    && |tags| == Min(topN, |weights|)
    && Distinct(tags)
    && (forall t :: t in tags ==> t in weights)
    && (forall i, j :: 0 <= i < j < |tags| ==> weights[tags[i]] >= weights[tags[j]])
    && (forall t, u :: t in weights && t !in tags && u in tags ==> weights[u] >= weights[t])
  }

  /** The keys of the first k entries. */
  function KeysPrefix(ranked: seq<Entry>, k: nat): (keys: seq<string>)
    requires k <= |ranked|
    ensures |keys| == k
    ensures forall i :: 0 <= i < k ==> keys[i] == ranked[i].0
  {
    seq(k, i requires 0 <= i < k => ranked[i].0)
  }

  /** The first keys of a ranked entry list are a top selection. */
  lemma RankedPrefixIsTop(ranked: seq<Entry>, v: Vector, topN: nat)
    requires SortedDesc(ranked, Weight) && EntriesOf(ranked, v) && DistinctKeys(ranked)
    requires |ranked| == |v|
    ensures IsTopTags(KeysPrefix(ranked, Min(topN, |ranked|)), v, topN)
  {
    var k := Min(topN, |ranked|);
    var tags := KeysPrefix(ranked, k);
    forall i | 0 <= i < |ranked| ensures ranked[i].0 in v && v[ranked[i].0] == ranked[i].1 {
      assert ranked[i] in ranked;
    }
    forall t, u | t in v && t !in tags && u in tags ensures v[u] >= v[t] {
      assert (t, v[t]) in ranked;
      var p :| 0 <= p < |ranked| && ranked[p] == (t, v[t]);
      var i :| 0 <= i < k && tags[i] == u;
      assert Weight(ranked[i]) >= Weight(ranked[p]);
    }
  }

  /** generateTagsForNoteContent: preprocess title and content, score the
      tokens against the corpus and keep the topN best. */
  method GenerateTagsForNoteContent(title: Option<string>, content: Option<string>, topN: nat,
                                    notes: seq<Note>, tp: TextProcessing, ln: Ln)
    returns (tags: seq<string>)
    ensures IsTopTags(tags, TfidfVector(tp.preprocessPair(title, content), CorpusIdf(notes, ln), ln), topN)
  {
    var tokens := tp.preprocessPair(title, content);
    var df := ComputeDfAll(notes);
    var n := CorpusSize(notes);
    DfBounds(notes);
    var idf := ComputeIdf(df, n, ln);
    var ranked := ComputeTfidf(tokens, idf, ln);
    RankedPrefixIsTop(ranked, TfidfVector(tokens, idf, ln), topN);
    tags := KeysPrefix(ranked, Min(topN, |ranked|));
  }

  /** The automatic tags are the distinct tokens of the text: with a topN at
      least the number of distinct tokens, every one of them is a tag. */
  lemma TopTagsCoverTokens(tags: seq<string>, tokens: seq<string>, idf: Vector, ln: Ln, topN: nat)
    requires IsTopTags(tags, TfidfVector(tokens, idf, ln), topN)
    ensures forall t :: t in tags ==> t in tokens
    ensures topN >= |Elements(tokens)| ==> Elements(tags) == Elements(tokens)
  {
    TfidfVectorWeights(tokens, idf, ln);
    var v := TfidfVector(tokens, idf, ln);
    if topN >= |Elements(tokens)| {
      DistinctElements(tags);
      assert Elements(tags) <= v.Keys;
      assert |Elements(tags)| == |v.Keys|;
      SubsetOfEqualSize(Elements(tags), v.Keys);
    }
  }

  // ---------- merging user and automatic tags ----------

  /** LinkedHashSet.add: append unless already present. */
  function Add1(xs: seq<string>, t: string): seq<string>
  {
    if t in xs then xs else xs + [t]
  }

  /** Adding a whole list one element after another. */
  function AddAll(xs: seq<string>, ts: seq<string>): seq<string>
  {
    if ts == [] then xs else Add1(AddAll(xs, ts[..|ts| - 1]), ts[|ts| - 1])
  }

  lemma AddAllSnoc(xs: seq<string>, ts: seq<string>, i: nat)
    requires i < |ts|
    ensures AddAll(xs, ts[..i + 1]) == Add1(AddAll(xs, ts[..i]), ts[i])
  {
    assert ts[..i + 1][..i] == ts[..i];
  }

  /** Every tag lower-cased. */
  function LowerAll(ts: seq<string>): (r: seq<string>)
    ensures |r| == |ts| && forall i :: 0 <= i < |ts| ==> r[i] == Lower(ts[i])
  {
    seq(|ts|, i requires 0 <= i < |ts| => Lower(ts[i]))
  }

  /** mergeUserTags: the lower-cased user tags (none when absent), then the
      lower-cased automatic tags, each kept on its first occurrence only. */
  function MergedTags(autoTags: seq<string>, userTags: Option<seq<string>>): seq<string>
  {
    AddAll(UserPart(userTags), LowerAll(autoTags))
  }

  /** The user's tags, none when the list is absent. */
  function UserList(userTags: Option<seq<string>>): seq<string>
  {
    match userTags
    case None => []
    case Some(u) => u
  }

  /** The linked set after the user's tags went in. */
  function UserPart(userTags: Option<seq<string>>): seq<string>
  {
    AddAll([], LowerAll(UserList(userTags)))
  }

  /** One forEach into the linked hash set. */
  method AddEach(merged: seq<string>, ts: seq<string>) returns (r: seq<string>)
    ensures r == AddAll(merged, LowerAll(ts))
  {
    r := merged;
    var lowered := LowerAll(ts);
    for i := 0 to |ts|
      invariant r == AddAll(merged, lowered[..i])
    {
      var t := Lower(ts[i]);
      if t !in r {
        r := r + [t];
      }
      AddAllSnoc(merged, lowered, i);
    }
    assert lowered[..|ts|] == lowered;
  }

  /** mergeUserTags */
  method MergeUserTags(autoTags: seq<string>, userTags: Option<seq<string>>) returns (merged: seq<string>)
    ensures merged == MergedTags(autoTags, userTags)
  {
    merged := [];
    if userTags.Some? {
      merged := AddEach(merged, userTags.value);
    } else {
      assert UserPart(userTags) == [];
    }
    merged := AddEach(merged, autoTags);
  }

  /** Adding keeps what was there in place and adds no duplicate. */
  lemma {:induction false} AddAllKeeps(xs: seq<string>, ts: seq<string>)
    ensures |AddAll(xs, ts)| >= |xs| && AddAll(xs, ts)[..|xs|] == xs
    ensures Distinct(xs) ==> Distinct(AddAll(xs, ts))
  {
    if ts != [] {
      var init, t := ts[..|ts| - 1], ts[|ts| - 1];
      AddAllKeeps(xs, init);
      var a := AddAll(xs, init);
      if t !in a {
        assert (a + [t])[..|xs|] == a[..|xs|];
        assert Distinct(a) ==> Distinct(a + [t]);
      }
    }
  }

  /** Adding ends up with exactly the old elements and the new ones. */
  lemma {:induction false} AddAllElements(xs: seq<string>, ts: seq<string>)
    ensures Elements(AddAll(xs, ts)) == Elements(xs) + Elements(ts)
  {
    if ts != [] {
      var init, t := ts[..|ts| - 1], ts[|ts| - 1];
      AddAllElements(xs, init);
      assert ts == init + [t];
      assert Elements(ts) == Elements(init) + {t};
      var a := AddAll(xs, init);
      if t !in a {
        assert Elements(a + [t]) == Elements(a) + {t};
      }
    }
  }

  /** Adding keeps the order of the old elements followed by the new ones. */
  lemma {:induction false} AddAllSubsequence(xs: seq<string>, ts: seq<string>)
    ensures IsSubsequence(AddAll(xs, ts), xs + ts)
  {
    if ts == [] {
      assert xs + ts == xs;
      SubsequenceReflexive(xs);
    } else {
      var init, t := ts[..|ts| - 1], ts[|ts| - 1];
      AddAllSubsequence(xs, init);
      var a := AddAll(xs, init);
      assert ts == init + [t];
      assert xs + ts == (xs + init) + [t];
      if t in a {
        SubsequenceExtend(a, xs + init, t);
      } else {
        SubsequenceSnoc(a, xs + init, t);
      }
    }
  }

  lemma {:induction false} SubsequenceReflexive(a: seq<string>)
    ensures IsSubsequence(a, a)
  {
    if a != [] {
      SubsequenceReflexive(a[..|a| - 1]);
    }
  }

  lemma SubsequenceExtend(a: seq<string>, b: seq<string>, t: string)
    requires IsSubsequence(a, b)
    ensures IsSubsequence(a, b + [t])
  {
    assert (b + [t])[..|b|] == b;
  }

  lemma SubsequenceSnoc(a: seq<string>, b: seq<string>, t: string)
    requires IsSubsequence(a, b)
    ensures IsSubsequence(a + [t], b + [t])
  {
    assert (a + [t])[..|a|] == a;
    assert (b + [t])[..|b|] == b;
  }

  /** x occurs in s before any occurrence of y. */
  predicate SeenBefore(s: seq<string>, x: string, y: string)
  {
    exists p :: 0 <= p < |s| && s[p] == x && y !in s[..p]
  }

  /** r lists elements of s in the order of their first occurrence in s: each
      element of r occurs in s before any occurrence of a later element of r. */
  predicate FirstSeenOrder(r: seq<string>, s: seq<string>)
  {
    forall i, j :: 0 <= i < j < |r| ==> SeenBefore(s, r[i], r[j])
  }

  /** Seen before stays seen before when s grows at the end. */
  lemma SeenBeforeExtend(s: seq<string>, x: string, y: string, t: string)
    requires SeenBefore(s, x, y)
    ensures SeenBefore(s + [t], x, y)
  {
    var p :| 0 <= p < |s| && s[p] == x && y !in s[..p];
    assert (s + [t])[..p] == s[..p] && (s + [t])[p] == s[p];
  }

  lemma FirstSeenExtend(a: seq<string>, s: seq<string>, t: string)
    requires FirstSeenOrder(a, s)
    ensures FirstSeenOrder(a, s + [t])
  {
    forall i, j | 0 <= i < j < |a| ensures SeenBefore(s + [t], a[i], a[j]) {
      SeenBeforeExtend(s, a[i], a[j], t);
    }
  }

  lemma FirstSeenSnoc(a: seq<string>, s: seq<string>, t: string)
    requires FirstSeenOrder(a, s)
    requires forall x :: x in a ==> x in s
    requires t !in s
    ensures FirstSeenOrder(a + [t], s + [t])
  {
    forall i, j | 0 <= i < j < |a + [t]| ensures SeenBefore(s + [t], (a + [t])[i], (a + [t])[j]) {
      assert (a + [t])[i] == a[i] && a[i] in a;
      if j < |a| {
        assert (a + [t])[j] == a[j];
        SeenBeforeExtend(s, a[i], a[j], t);
      } else {
        var p :| 0 <= p < |s| && s[p] == a[i];
        assert (s + [t])[..p] == s[..p] && (s + [t])[p] == s[p];
        assert t !in s[..p];
      }
    }
  }

  /** What adding appends after the old elements comes in the order in which
      the added list first shows each of them. */
  lemma {:induction false} AddAllFirstSeen(xs: seq<string>, ts: seq<string>)
    requires Distinct(xs)
    ensures |AddAll(xs, ts)| >= |xs|
    ensures FirstSeenOrder(AddAll(xs, ts)[|xs|..], ts)
  {
    if ts != [] {
      var init, t := ts[..|ts| - 1], ts[|ts| - 1];
      AddAllFirstSeen(xs, init);
      var r := AddAll(xs, init);
      AddAllAppended(xs, init);
      AddAllElements(xs, init);
      assert ts == init + [t];
      if t in r {
        FirstSeenExtend(r[|xs|..], init, t);
      } else {
        assert t !in Elements(init);
        assert (r + [t])[|xs|..] == r[|xs|..] + [t];
        FirstSeenSnoc(r[|xs|..], init, t);
      }
    }
  }

  /** Adding a duplicate-free list none of whose elements is present appends it whole. */
  lemma {:induction false} AddAllFresh(xs: seq<string>, ts: seq<string>)
    requires Distinct(ts)
    requires forall t :: t in ts ==> t !in xs
    ensures AddAll(xs, ts) == xs + ts
  {
    if ts != [] {
      var init, t := ts[..|ts| - 1], ts[|ts| - 1];
      assert Distinct(init) by {
        forall i, j | 0 <= i < j < |init| ensures init[i] != init[j] {
          assert init[i] == ts[i] && init[j] == ts[j];
        }
      }
      AddAllFresh(xs, init);
      assert t !in init by {
        forall i | 0 <= i < |init| ensures init[i] != t {
          assert init[i] == ts[i];
        }
      }
      assert ts == init + [t];
    }
  }

  /** The merge holds no duplicates, only lower-case tags, and exactly the
      lower-cased user and automatic tags. */
  lemma MergedTagsElements(autoTags: seq<string>, userTags: Option<seq<string>>)
    ensures Distinct(MergedTags(autoTags, userTags))
    ensures Elements(MergedTags(autoTags, userTags))
            == Elements(LowerAll(UserList(userTags))) + Elements(LowerAll(autoTags))
    ensures forall t :: t in MergedTags(autoTags, userTags) ==> Lower(t) == t
  {
    var user := UserList(userTags);
    var merged, prefix := MergedTags(autoTags, userTags), UserPart(userTags);
    AddAllKeeps([], LowerAll(user));
    AddAllKeeps(prefix, LowerAll(autoTags));
    AddAllElements([], LowerAll(user));
    AddAllElements(prefix, LowerAll(autoTags));
    assert Elements<string>([]) == {};
    forall t | t in merged ensures Lower(t) == t {
      assert t in Elements(merged);
      if t in LowerAll(user) {
        var i :| 0 <= i < |LowerAll(user)| && LowerAll(user)[i] == t;
        LowerIdempotent(user[i]);
      } else {
        var i :| 0 <= i < |LowerAll(autoTags)| && LowerAll(autoTags)[i] == t;
        LowerIdempotent(autoTags[i]);
      }
    }
  }

  /** The user part holds the lower-cased user tags in the order of their
      first occurrence; it is exactly the lower-cased list when that has no
      duplicates. */
  lemma UserPartProperties(userTags: Option<seq<string>>)
    ensures Distinct(UserPart(userTags))
    ensures Elements(UserPart(userTags)) == Elements(LowerAll(UserList(userTags)))
    ensures IsSubsequence(UserPart(userTags), LowerAll(UserList(userTags)))
    ensures FirstSeenOrder(UserPart(userTags), LowerAll(UserList(userTags)))
    ensures Distinct(LowerAll(UserList(userTags))) ==> UserPart(userTags) == LowerAll(UserList(userTags))
  {
    FirstOccurrences(LowerAll(UserList(userTags)));
  }

  /** Adding a list to an empty linked set keeps the first occurrence of each element. */
  lemma FirstOccurrences(ts: seq<string>)
    ensures Distinct(AddAll([], ts))
    ensures Elements(AddAll([], ts)) == Elements(ts)
    ensures IsSubsequence(AddAll([], ts), ts)
    ensures FirstSeenOrder(AddAll([], ts), ts)
    ensures Distinct(ts) ==> AddAll([], ts) == ts
  {
    AddAllFirstSeen([], ts);
    assert AddAll([], ts)[0..] == AddAll([], ts);
    AddAllKeeps([], ts);
    AddAllElements([], ts);
    assert Elements<string>([]) == {};
    AddAllSubsequence([], ts);
    assert [] + ts == ts;
    if Distinct(ts) {
      AddAllFresh([], ts);
    }
  }

  /** What adding appends after the old elements is new and comes from ts. */
  lemma AddAllAppended(xs: seq<string>, ts: seq<string>)
    requires Distinct(xs)
    ensures |AddAll(xs, ts)| >= |xs|
    ensures forall t :: t in AddAll(xs, ts)[|xs|..] ==> t in ts && t !in xs
  {
    var r := AddAll(xs, ts);
    AddAllKeeps(xs, ts);
    AddAllElements(xs, ts);
    forall t | t in r[|xs|..] ensures t in ts && t !in xs {
      var k :| 0 <= k < |r[|xs|..]| && r[|xs|..][k] == t;
      assert r[|xs| + k] == t;
      assert t in Elements(r);
    }
  }

  /** The merge starts with the user part, and after it come only automatic
      tags that are not user tags. */
  lemma MergedTagsOrder(autoTags: seq<string>, userTags: Option<seq<string>>)
    ensures |UserPart(userTags)| <= |MergedTags(autoTags, userTags)|
    ensures MergedTags(autoTags, userTags)[..|UserPart(userTags)|] == UserPart(userTags)
    ensures forall t :: t in MergedTags(autoTags, userTags)[|UserPart(userTags)|..] ==>
              t in LowerAll(autoTags) && t !in LowerAll(UserList(userTags))
    ensures FirstSeenOrder(MergedTags(autoTags, userTags)[|UserPart(userTags)|..], LowerAll(autoTags))
  {
    var prefix := UserPart(userTags);
    UserPartProperties(userTags);
    AddAllFirstSeen(prefix, LowerAll(autoTags));
    AddAllKeeps(prefix, LowerAll(autoTags));
    AddAllAppended(prefix, LowerAll(autoTags));
    forall t | t in MergedTags(autoTags, userTags)[|prefix|..]
      ensures t in LowerAll(autoTags) && t !in LowerAll(UserList(userTags))
    {
      assert t !in Elements(prefix);
    }
  }
}
