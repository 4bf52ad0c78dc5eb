/** The text-processing service: normalisation of raw text and the post-filter
    applied to the lemmas produced by the natural-language pipeline. */
module Text {
  import opened Wrappers

  /** The foreign collaborators. `annotate` is the tokenize/ssplit/pos/lemma
      pipeline: for a text it gives the sentences, each a sequence of tokens
      carrying a lemma that may be null. `stopwords` is the English stop set.
      `preprocessPair` is the two-argument preprocess(title, content) that the
      services call; its body is not part of this model. */
  datatype TextProcessing = TextProcessing(
    annotate: string -> seq<seq<Option<string>>>,
    stopwords: set<string>,
    preprocessPair: (Option<string>, Option<string>) -> seq<string>)

  // ---------- characters ----------

  predicate IsUpper(c: char) { 'A' <= c <= 'Z' }

  predicate IsLowerAlnum(c: char) { 'a' <= c <= 'z' || '0' <= c <= '9' }

  /** The characters of the regular-expression class \s: space, tab, line feed,
      vertical tab, form feed, carriage return. */
  predicate IsRegexSpace(c: char)
  {
    c == ' ' || c == '\t' || c == '\n' || c == '\r' || c as int == 0x0B || c as int == 0x0C
  }

  /** Lower-casing of one character, on the ASCII range. */
  function LowerChar(c: char): char
  {
    if IsUpper(c) then (c as int + 32) as char else c
  }

  /** String.toLowerCase, on the ASCII range. */
  function Lower(s: string): (r: string)
    ensures |r| == |s|
    ensures forall i :: 0 <= i < |r| ==> !IsUpper(r[i])
    ensures forall i :: 0 <= i < |s| && !IsUpper(s[i]) ==> r[i] == s[i]
    ensures forall i :: 0 <= i < |s| && IsUpper(s[i]) ==> r[i] as int == s[i] as int + 32
  {
    seq(|s|, i requires 0 <= i < |s| => LowerChar(s[i]))
  }

  /** Lower-casing twice is lower-casing once. */
  lemma LowerIdempotent(s: string)
    ensures Lower(Lower(s)) == Lower(s)
  {
  }

  // ---------- normalisation ----------

  function NormalizeChar(c: char): char
  {
    var l := LowerChar(c);
    if IsLowerAlnum(l) || IsRegexSpace(l) then l else ' '
  }

  /** toLowerCase() followed by replacing every character outside [a-z0-9\s] by a space. */
  function Normalize(text: string): (r: string)
    ensures |r| == |text|
    ensures forall i :: 0 <= i < |r| ==> IsLowerAlnum(r[i]) || IsRegexSpace(r[i])
    ensures forall i :: 0 <= i < |text| && (IsLowerAlnum(text[i]) || IsRegexSpace(text[i])) ==> r[i] == text[i]
    ensures forall i :: 0 <= i < |text| && IsUpper(text[i]) ==> r[i] as int == text[i] as int + 32
    ensures forall i :: 0 <= i < |text| && !IsUpper(text[i]) && !IsLowerAlnum(text[i]) && !IsRegexSpace(text[i])
              ==> r[i] == ' '
  {
    seq(|text|, i requires 0 <= i < |text| => NormalizeChar(text[i]))
  }

  /** Normalised text is a fixed point of normalisation. */
  lemma NormalizeIdempotent(text: string)
    ensures Normalize(Normalize(text)) == Normalize(text)
  {
    var n := Normalize(text);
    assert forall i :: 0 <= i < |n| ==> Normalize(n)[i] == n[i];
  }

  // ---------- trimming ----------

  /** Drop the leading characters at or below U+0020. */
  function TrimStart(s: string): (r: string)
    ensures |r| <= |s| && r == s[|s| - |r|..]
    ensures forall k :: 0 <= k < |s| - |r| ==> s[k] <= ' '
    ensures r == [] || r[0] > ' '
  {
    if |s| > 0 && s[0] <= ' ' then TrimStart(s[1..]) else s
  }

  /** Drop the trailing characters at or below U+0020. */
  function TrimEnd(s: string): (r: string)
    ensures |r| <= |s| && r == s[..|r|]
    ensures forall k :: |r| <= k < |s| ==> s[k] <= ' '
    ensures r == [] || r[|r| - 1] > ' '
  {
    if |s| > 0 && s[|s| - 1] <= ' ' then TrimEnd(s[..|s| - 1]) else s
  }

  /** Every character of s outside s[a..b] is at or below U+0020. */
  predicate BlankOutside(s: string, a: int, b: int)
  {
    forall k :: 0 <= k < |s| && (k < a || b <= k) ==> s[k] <= ' '
  }

  /** String.trim: remove the characters at or below U+0020 from both ends. */
  function Trim(s: string): (r: string)
    ensures |r| <= |s|
    ensures r == [] || (r[0] > ' ' && r[|r| - 1] > ' ')
    ensures exists a, b :: 0 <= a <= b <= |s| && r == s[a..b] && BlankOutside(s, a, b)
  {
    TrimmedSlice(s, TrimStart(s), TrimEnd(TrimStart(s)));
    TrimEnd(TrimStart(s))
  }

  /** A blank-free-ended part r of a suffix u of s, with only blanks dropped
      on either side, is a slice of s with blanks outside it. */
  lemma TrimmedSlice(s: string, u: string, r: string)
    requires |u| <= |s| && u == s[|s| - |u|..] && forall k :: 0 <= k < |s| - |u| ==> s[k] <= ' '
    requires |r| <= |u| && r == u[..|r|] && forall k :: |r| <= k < |u| ==> u[k] <= ' '
    ensures exists a, b :: 0 <= a <= b <= |s| && r == s[a..b] && BlankOutside(s, a, b)
  {
    var a := |s| - |u|;
    assert s[a..][..|r|] == s[a..a + |r|];
    forall k | 0 <= k < |s| && (k < a || a + |r| <= k) ensures s[k] <= ' ' {
      if a + |r| <= k {
        assert s[k] == u[k - a];
      }
    }
    assert BlankOutside(s, a, a + |r|);
  }

  /** A string without blank ends is left alone by trim. */
  lemma TrimTrimmed(s: string)
    requires s == [] || (s[0] > ' ' && s[|s| - 1] > ' ')
    ensures Trim(s) == s
  {
  }

  // ---------- the lemma post-filter ----------

  /** The form a lemma is kept in: trimmed, then lower-cased. */
  function Canonical(lem: string): string
  {
    Lower(Trim(lem))
  }

  /** The filter on a canonical lemma: longer than one character, not a stopword. */
  predicate Accepted(w: string, stopwords: set<string>)
  {
    |w| > 1 && w !in stopwords
  }

  /** A canonical lemma is already trimmed and lower-case. */
  lemma CanonicalIsFixed(lem: string)
    ensures Trim(Canonical(lem)) == Canonical(lem)
    ensures Lower(Canonical(lem)) == Canonical(lem)
  {
    var t := Trim(lem);
    var w := Lower(t);
    assert t != [] ==> w[0] == LowerChar(t[0]) && w[|w| - 1] == LowerChar(t[|t| - 1]);
    TrimTrimmed(w);
    LowerIdempotent(t);
  }

  /** The sentences' tokens, one after another. */
  function Flatten(sentences: seq<seq<Option<string>>>): seq<Option<string>>
  {
    if sentences == [] then []
    else Flatten(sentences[..|sentences| - 1]) + sentences[|sentences| - 1]
  }

  lemma FlattenSnoc(sentences: seq<seq<Option<string>>>, i: nat)
    requires i < |sentences|
    ensures Flatten(sentences[..i + 1]) == Flatten(sentences[..i]) + sentences[i]
  {
    assert sentences[..i + 1][..i] == sentences[..i];
  }

  /** The canonical forms of the non-null lemmas, in order. */
  function Canonicals(lemmas: seq<Option<string>>): seq<string>
  {
    if lemmas == [] then []
    else
      Canonicals(lemmas[..|lemmas| - 1])
      + match lemmas[|lemmas| - 1] case None => [] case Some(l) => [Canonical(l)]
  }

  /** What the loop appends for one token. */
  function KeepOne(lem: Option<string>, stopwords: set<string>): seq<string>
  {
    match lem
    case None => []
    case Some(l) => if Accepted(Canonical(l), stopwords) then [Canonical(l)] else []
  }

  /** The list the loop builds from a sequence of tokens. */
  function Kept(lemmas: seq<Option<string>>, stopwords: set<string>): seq<string>
  {
    if lemmas == [] then []
    else Kept(lemmas[..|lemmas| - 1], stopwords) + KeepOne(lemmas[|lemmas| - 1], stopwords)
  }

  lemma KeptSnoc(lemmas: seq<Option<string>>, lem: Option<string>, stopwords: set<string>)
    ensures Kept(lemmas + [lem], stopwords) == Kept(lemmas, stopwords) + KeepOne(lem, stopwords)
  {
    assert (lemmas + [lem])[..|lemmas|] == lemmas;
  }

  /** preprocess(text): nothing for null, otherwise the kept lemmas of the
      normalised text, in pipeline order. */
  function Tokens(tp: TextProcessing, text: Option<string>): seq<string>
  {
    match text
    case None => []
    case Some(t) => Kept(Flatten(tp.annotate(Normalize(t))), tp.stopwords)
  }

  /** preprocess(text) as the service runs it: nested loops over sentences and tokens. */
  method Preprocess(tp: TextProcessing, text: Option<string>) returns (lemmas: seq<string>)
    ensures text.None? ==> lemmas == []
    ensures lemmas == Tokens(tp, text)
  {
    if text.None? {
      return [];
    }
    var normalized := Normalize(text.value);
    var sentences := tp.annotate(normalized);
    lemmas := [];
    var i := 0;
    while i < |sentences|
      invariant 0 <= i <= |sentences|
      invariant lemmas == Kept(Flatten(sentences[..i]), tp.stopwords)
    {
      var sentence := sentences[i];
      var j := 0;
      assert Flatten(sentences[..i]) + sentence[..0] == Flatten(sentences[..i]);
      while j < |sentence|
        invariant 0 <= j <= |sentence|
        invariant lemmas == Kept(Flatten(sentences[..i]) + sentence[..j], tp.stopwords)
      {
        var lem := sentence[j];
        if lem.Some? {
          var w := Lower(Trim(lem.value));
          if |w| > 1 && w !in tp.stopwords {
            lemmas := lemmas + [w];
          }
        }
        KeptSnoc(Flatten(sentences[..i]) + sentence[..j], lem, tp.stopwords);
        PrefixSnoc(Flatten(sentences[..i]), sentence, j);
        j := j + 1;
      }
      assert sentence[..j] == sentence;
      FlattenSnoc(sentences, i);
      i := i + 1;
    }
    assert sentences[..i] == sentences;
  }

  /** Every kept token passes the filter and is in canonical form. */
  lemma {:induction false} KeptWellFormed(lemmas: seq<Option<string>>, stopwords: set<string>)
    ensures forall w :: w in Kept(lemmas, stopwords) ==>
              Accepted(w, stopwords) && Trim(w) == w && Lower(w) == w
  {
    if lemmas != [] {
      KeptWellFormed(lemmas[..|lemmas| - 1], stopwords);
      match lemmas[|lemmas| - 1]
      case None =>
      case Some(l) => CanonicalIsFixed(l);
    }
  }

  /** Every token preprocess returns is longer than one character, not a
      stopword, trimmed and lower-case. */
  lemma TokensWellFormed(tp: TextProcessing, text: Option<string>)
    ensures forall w :: w in Tokens(tp, text) ==>
              |w| > 1 && w !in tp.stopwords && Trim(w) == w && Lower(w) == w
  {
    if text.Some? {
      KeptWellFormed(Flatten(tp.annotate(Normalize(text.value))), tp.stopwords);
    }
  }

  /** The kept tokens are exactly the accepted canonical lemmas: an
      order-preserving subsequence of them, with every repetition of an
      accepted lemma retained and nothing else. */
  lemma {:induction false} KeptIsFilter(lemmas: seq<Option<string>>, stopwords: set<string>)
    ensures IsSubsequence(Kept(lemmas, stopwords), Canonicals(lemmas))
    ensures forall w :: multiset(Kept(lemmas, stopwords))[w]
                        == if Accepted(w, stopwords) then multiset(Canonicals(lemmas))[w] else 0
  {
    if lemmas != [] {
      var init := lemmas[..|lemmas| - 1];
      KeptIsFilter(init, stopwords);
      var a, b := Kept(init, stopwords), Canonicals(init);
      match lemmas[|lemmas| - 1]
      case None =>
        assert Kept(lemmas, stopwords) == a && Canonicals(lemmas) == b;
      case Some(l) =>
        var w := Canonical(l);
        assert Canonicals(lemmas) == b + [w];
        assert (b + [w])[..|b + [w]| - 1] == b;
        if Accepted(w, stopwords) {
          assert Kept(lemmas, stopwords) == a + [w];
          assert (a + [w])[..|a + [w]| - 1] == a;
        } else {
          assert Kept(lemmas, stopwords) == a;
        }
    }
  }
}
