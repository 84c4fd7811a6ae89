/** `transform_to_bag_of_words_data` of Preprocessor/data_preprocessor.py,
    for fitted vectorizers. Fitting (`create_vocabulary`: vocabulary
    selection, `max_features`, index order) and scikit-learn's analyzers are
    not modelled: a vectorizer is its vocabulary, listed by column index, and
    its tokenizer. */
module BagOfWords {
  /** A fitted `CountVectorizer`: column `j` counts `vocabulary[j]`. */
  datatype Vectorizer = Vectorizer(vocabulary: seq<string>, tokenize: string -> seq<string>)

  /** The four channels of a processed entry. */
  datatype ProcessedEntry = ProcessedEntry(
    questionCode: seq<string>, answerCode: seq<string>,
    questionText: seq<string>, answerText: seq<string>)

  /** The four count vectors of an entry. */
  datatype BagOfWordsData = BagOfWordsData(
    questionCode: seq<nat>, answerCode: seq<nat>,
    questionText: seq<nat>, answerText: seq<nat>)

  /** How often `term` occurs in `tokens`. */
  function Occurrences(tokens: seq<string>, term: string): nat
    decreases |tokens|
  {
    if |tokens| == 0 then 0
    else (if tokens[0] == term then 1 else 0) + Occurrences(tokens[1..], term)
  }

  /** The tokens of all documents, in order. */
  function AllTokens(v: Vectorizer, docs: seq<string>): seq<string>
    decreases |docs|
  {
    if |docs| == 0 then [] else v.tokenize(docs[0]) + AllTokens(v, docs[1..])
  }

  /** One row of `transform(docs).toarray()`: the count of every vocabulary
      term in one document. */
  function CountRow(v: Vectorizer, doc: string): (r: seq<nat>)
    ensures |r| == |v.vocabulary|
  {
    seq(|v.vocabulary|, j requires 0 <= j < |v.vocabulary| => Occurrences(v.tokenize(doc), v.vocabulary[j]))
  }

  /** `np.zeros(n)`. */
  function Zeros(n: nat): (r: seq<nat>)
    ensures |r| == n
  {
    seq(n, j => 0)
  }

  /** Element-wise sum of two vectors of the same length. */
  function Add(a: seq<nat>, b: seq<nat>): (r: seq<nat>)
    requires |a| == |b|
    ensures |r| == |a|
  {
    seq(|a|, j requires 0 <= j < |a| => a[j] + b[j])
  }

  /** `transform(docs).toarray().sum(axis=0)` for a non-empty list. */
  function SumRows(v: Vectorizer, docs: seq<string>): (r: seq<nat>)
    requires |docs| > 0
    ensures |r| == |v.vocabulary|
    decreases |docs|
  {
    if |docs| == 1 then CountRow(v, docs[0])
    else Add(CountRow(v, docs[0]), SumRows(v, docs[1..]))
  }

  /** One channel of `transform_to_bag_of_words_data`: the summed counts of a
      non-empty list, zeros for an empty one. Either way column `j` is the
      number of times `vocabulary[j]` occurs among all the tokens. */
  function EncodeChannel(v: Vectorizer, docs: seq<string>): (r: seq<nat>)
    ensures |r| == |v.vocabulary|
    ensures forall j :: 0 <= j < |r| ==> r[j] == Occurrences(AllTokens(v, docs), v.vocabulary[j])
  {
    if |docs| > 0 then
      SumRowsCounts(v, docs);
      SumRows(v, docs)
    else
      Zeros(|v.vocabulary|)
  }

  /** `transform_to_bag_of_words_data`: code channels through the code
      vectorizer, text channels through the text vectorizer. Each vector has
      the length of its vocabulary and counts the tokens of its channel. */
  function TransformToBagOfWords(code: Vectorizer, text: Vectorizer, e: ProcessedEntry): (r: BagOfWordsData)
    ensures |r.questionCode| == |r.answerCode| == |code.vocabulary|
    ensures |r.questionText| == |r.answerText| == |text.vocabulary|
    ensures forall j :: 0 <= j < |code.vocabulary| ==>
              && r.questionCode[j] == Occurrences(AllTokens(code, e.questionCode), code.vocabulary[j])
              && r.answerCode[j] == Occurrences(AllTokens(code, e.answerCode), code.vocabulary[j])
    ensures forall j :: 0 <= j < |text.vocabulary| ==>
              && r.questionText[j] == Occurrences(AllTokens(text, e.questionText), text.vocabulary[j])
              && r.answerText[j] == Occurrences(AllTokens(text, e.answerText), text.vocabulary[j])
  {
    BagOfWordsData(
      EncodeChannel(code, e.questionCode), EncodeChannel(code, e.answerCode),
      EncodeChannel(text, e.questionText), EncodeChannel(text, e.answerText))
  }

  // ---------------------------------------------------------------------
  // Lemmas

  /** Counting distributes over concatenation. */
  lemma {:induction false} OccurrencesAppend(a: seq<string>, b: seq<string>, term: string)
    ensures Occurrences(a + b, term) == Occurrences(a, term) + Occurrences(b, term)
    decreases |a|
  {
    if |a| == 0 {
      assert a + b == b;
    } else {
      assert (a + b)[1..] == a[1..] + b;
      OccurrencesAppend(a[1..], b, term);
    }
  }

  /** Summing the rows counts every token of every document. */
  lemma {:induction false} SumRowsCounts(v: Vectorizer, docs: seq<string>)
    requires |docs| > 0
    ensures forall j :: 0 <= j < |v.vocabulary| ==>
              SumRows(v, docs)[j] == Occurrences(AllTokens(v, docs), v.vocabulary[j])
    decreases |docs|
  {
    if |docs| == 1 {
      assert AllTokens(v, docs) == v.tokenize(docs[0]) + [];
      assert v.tokenize(docs[0]) + [] == v.tokenize(docs[0]);
    } else {
      SumRowsCounts(v, docs[1..]);
      forall j | 0 <= j < |v.vocabulary|
        ensures SumRows(v, docs)[j] == Occurrences(AllTokens(v, docs), v.vocabulary[j])
      {
        OccurrencesAppend(v.tokenize(docs[0]), AllTokens(v, docs[1..]), v.vocabulary[j]);
      }
    }
  }

  /** A channel of two lists is the element-wise sum of their channels. */
  lemma EncodeChannelAppend(v: Vectorizer, a: seq<string>, b: seq<string>)
    ensures EncodeChannel(v, a + b) == Add(EncodeChannel(v, a), EncodeChannel(v, b))
  {
    AllTokensAppend(v, a, b);
    forall j | 0 <= j < |v.vocabulary|
      ensures EncodeChannel(v, a + b)[j] == Add(EncodeChannel(v, a), EncodeChannel(v, b))[j]
    {
      OccurrencesAppend(AllTokens(v, a), AllTokens(v, b), v.vocabulary[j]);
    }
  }

  /** The tokens of two lists are the tokens of the first, then of the second. */
  lemma {:induction false} AllTokensAppend(v: Vectorizer, a: seq<string>, b: seq<string>)
    ensures AllTokens(v, a + b) == AllTokens(v, a) + AllTokens(v, b)
    decreases |a|
  {
    if |a| == 0 {
      assert a + b == b;
    } else {
      assert (a + b)[0] == a[0];
      assert (a + b)[1..] == a[1..] + b;
      AllTokensAppend(v, a[1..], b);
    }
  }
}
