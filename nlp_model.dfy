/** `nlp_model.py`: one module-level `TextTransformer` shared by every request, a
    loaded classifier, and `is_offensive`, which runs a single text through both. */
module NlpModel {
  import opened Text
  import opened Wrappers
  import opened Preprocessing

  /** A prediction of the classifier: 0 (not offensive) or 1 (offensive). */
  type Label = x: int | 0 <= x <= 1

  /** The state `nlp_model.py` builds when it is imported. */
  class Model {
    /** `transformer`: English stopwords and the Porter stemmer. */
    const transformer: TextTransformer
    /** `model.predict` on one preprocessed text. */
    const predict: string -> Label

    ghost predicate Valid()
      reads this, transformer
    {
      transformer.Valid() && transformer.stopwords.Some?
    }

    /** Module import: a transformer with a stopword list and an empty registry. */
    constructor (stopwords: seq<string>, stemmer: string -> string,
                 sentences: string -> seq<string>, chunker: string -> seq<Chunk>,
                 predict: string -> Label)
      ensures Valid() && fresh(transformer)
      ensures transformer.stopwords == Some(stopwords) && transformer.stemmer == stemmer
      ensures transformer.hapaxes == [] && transformer.namedEntities == []
      ensures this.predict == predict
    {
      transformer := new TextTransformer(Some(stopwords), stemmer, sentences, chunker);
      this.predict := predict;
    }

    /** `is_offensive`: transform the one-element list `[text]` with the shared
        transformer and classify the result. The prediction depends on the text alone;
        the shared state only grows, by one registry entry and the text's named entities. */
    method IsOffensive(text: string) returns (prediction: seq<Label>)
      requires Valid()
      modifies transformer`hapaxes, transformer`namedEntities
      ensures Valid()
      ensures prediction == [predict(Pipeline(text, transformer.stopwords.value, transformer.stemmer))]
      ensures transformer.hapaxes ==
        old(transformer.hapaxes) + [HapaxEntry(Cleaned(text, transformer.stopwords.value))]
      ensures transformer.namedEntities ==
        old(transformer.namedEntities) +
        transformer.EntitiesOf(Pipeline(text, transformer.stopwords.value, transformer.stemmer))
    {
      var X := new string[1] [text];
      var Y, ok := transformer.Transform(X);
      prediction := [predict(Y[0])];
    }

    /** Two requests, whatever came between them: the same text gets the same verdict,
        and the registry grows by exactly one entry per request. */
    method IsOffensiveTwice(text: string, other: string) returns (first: seq<Label>, second: seq<Label>)
      requires Valid()
      modifies transformer`hapaxes, transformer`namedEntities
      ensures Valid()
      ensures first == second
      ensures |transformer.hapaxes| == |old(transformer.hapaxes)| + 3
    {
      first := IsOffensive(text);
      var _ := IsOffensive(other);
      second := IsOffensive(text);
    }
  }

  /** Every text without an ASCII letter (empty, blank, digits or punctuation only) is
      classified as the empty text is. */
  lemma LetterlessVerdict(m: Model, text: string)
    requires m.Valid()
    requires AllChars(text, NonLetter)
    ensures m.predict(Pipeline(text, m.transformer.stopwords.value, m.transformer.stemmer)) == m.predict("")
  {
    LetterlessPipeline(text, m.transformer.stopwords.value, m.transformer.stemmer);
  }
}
