/** The text preprocessing pipeline of `TextTransformer`: per text, normalise,
    drop stopwords, run the hapax step, stem, and record named entities on the side. */
module Preprocessing {
  import opened Text
  import opened Wrappers

  /** The Python values the hapax registry compares: a string, or a list of values.
      Dafny's `==` on this type is Python's `==` on them (a string never equals a list). */
  datatype Value = Str(s: string) | List(items: seq<Value>)

  /** What the named-entity chunker yields: a tagged token, or a labelled tree (a named entity). */
  datatype Chunk = Token(word: string, tag: string) | Tree(kind: string, leaves: seq<(string, string)>)

  /** A list of Python strings as registry values. */
  function Strs(ws: seq<string>): seq<Value>
  {
    if ws == [] then [] else [Str(ws[0])] + Strs(ws[1..])
  }

  /** `ys` can be obtained from `xs` by deleting elements: same order. */
  predicate IsSubsequence<T(==)>(ys: seq<T>, xs: seq<T>)
    decreases |xs|
  {
    ys == [] || (xs != [] && ((ys[0] == xs[0] && IsSubsequence(ys[1..], xs[1..])) || IsSubsequence(ys, xs[1..])))
  }

  /** Appending the same element to both keeps a subsequence one, and so does appending
      an element to the longer sequence only. */
  lemma {:induction false} SubsequenceSnoc<T>(ys: seq<T>, xs: seq<T>, x: T)
    requires IsSubsequence(ys, xs)
    ensures IsSubsequence(ys, xs + [x])
    ensures IsSubsequence(ys + [x], xs + [x])
    decreases |xs|
  {
    if xs == [] {
      assert ys == [];
      assert ([x] + [])[1..] == [];
    } else {
      assert (xs + [x])[1..] == xs[1..] + [x];
      if ys == [] {
        SubsequenceSnoc(ys, xs[1..], x);
        assert ys + [x] == [x];
      } else {
        assert (ys + [x])[1..] == ys[1..] + [x];
        if ys[0] == xs[0] && IsSubsequence(ys[1..], xs[1..]) {
          SubsequenceSnoc(ys[1..], xs[1..], x);
        } else {
          SubsequenceSnoc(ys, xs[1..], x);
        }
      }
    }
  }

  // ---------------------------------------------------------------------------
  // Normalisation (`__normalize`)

  /** The text lowercased, with the literal two-character sequences backslash-r and
      backslash-n (raw strings, not carriage return and line feed) replaced by spaces. */
  function Unescaped(text: string): string
  {
    ReplaceAll(ReplaceAll(Lower(text), "\\r", " "), "\\n", " ")
  }

  /** The words `re.findall('[a-zA-Z]+', ...)` picks out of the unescaped text. */
  function Words(text: string): (ws: seq<string>)
    ensures AreWords(ws)
  {
    var lowered := Lower(text);
    var noCr := ReplaceAll(lowered, "\\r", " ");
    ReplaceAllKeeps(lowered, "\\r", " ", NonUpper);
    ReplaceAllKeeps(noCr, "\\n", " ", NonUpper);
    var noLf := Unescaped(text);
    var ws := Runs(noLf, Letter);
    RunsKeep(noLf, Letter, NonUpper);
    forall i | 0 <= i < |ws| ensures ws[i] != [] && AllChars(ws[i], Lowercase) {
      var w := ws[i];
      assert w in ws;
      assert AllChars(w, NonUpper);
      forall j | 0 <= j < |w| ensures IsAsciiLower(w[j]) {
        assert w[j] in w;
        assert In(Letter, w[j]) && In(NonUpper, w[j]);
      }
    }
    ws
  }

  /** `__normalize`: the words of the text, lowercased, joined by single spaces. */
  function Normalize(text: string): (r: string)
    ensures IsNormalized(r)
  {
    var ws := Words(text);
    JoinIsNormalized(ws);
    Join(ws)
  }

  /** Two lowercase words found by `re.findall('[a-zA-Z]+', ...)` normalise to the two
      words joined by one space. */
  lemma TwoWords(u: string, v: string, s: string)
    requires u != [] && AllChars(u, Lowercase) && v != [] && AllChars(v, Lowercase)
    requires Runs(Unescaped(s), Letter) == [u, v]
    ensures Normalize(s) == u + " " + v
  {
    JoinCons(u, [v]);
  }

  /** Text free of capitals and backslashes is left as it is by lowercasing and by both
      replacements. */
  lemma UnescapedPlain(s: string)
    requires AllChars(s, NonUpper)
    requires forall i :: 0 <= i < |s| ==> s[i] != '\\'
    ensures Unescaped(s) == s
  {
    LowerNoUpper(s);
    ReplaceAbsent(s, "\\r", " ");
    ReplaceAbsent(s, "\\n", " ");
  }

  /** The runs of letters in a word, a non-letter and a word are the two words. */
  lemma RunsAroundBreak(u: string, c: char, v: string)
    requires u != [] && AllChars(u, Lowercase) && v != [] && AllChars(v, Lowercase)
    requires In(NonLetter, c)
    ensures Runs(u + ([c] + v), Letter) == [u, v]
  {
    LowercaseIsLetters(u);
    LowercaseIsLetters(v);
    var t := [c] + v;
    RunsOfRunThen(u, t, Letter);
    assert t[1..] == v;
    RunsOfJoin([v], Letter);
  }

  /** A character that is neither a letter nor a backslash, between two lowercase words,
      breaks them apart: `don't` gives `don t`. */
  lemma PunctuationBreaksWords(u: string, c: char, v: string)
    requires u != [] && AllChars(u, Lowercase) && v != [] && AllChars(v, Lowercase)
    requires In(NonLetter, c) && c != '\\'
    ensures Normalize(u + [c] + v) == u + " " + v
  {
    var s := u + ([c] + v);
    assert u + [c] + v == s;
    forall i | 0 <= i < |s| ensures In(NonUpper, s[i]) && s[i] != '\\' {
      if i < |u| { assert s[i] == u[i]; } else if i > |u| { assert s[i] == v[i - |u| - 1]; }
    }
    UnescapedPlain(s);
    RunsAroundBreak(u, c, v);
    TwoWords(u, v, s);
  }

  /** The replacements turn a word, a literal backslash-n and a word into the two words
      around a space. */
  lemma UnescapeBackslashN(u: string, v: string)
    requires u != [] && AllChars(u, Lowercase) && v != [] && AllChars(v, Lowercase)
    ensures Unescaped(u + ("\\n" + v)) == u + (" " + v)
  {
    var t := "\\n" + v;
    var s := u + t;
    forall i | 0 <= i < |s| ensures In(NonUpper, s[i]) {
      if i < |u| { assert s[i] == u[i]; } else if i >= |u| + 2 { assert s[i] == v[i - |u| - 2]; }
    }
    LowerNoUpper(s);
    forall i | 0 <= i < |u| ensures u[i] != '\\' { assert In(Lowercase, u[i]); }
    forall i | 0 <= i < |v| ensures v[i] != '\\' { assert In(Lowercase, v[i]); }
    ReplaceAfterFree(u, t, "\\r", " ");
    ReplaceStep(t, "\\r");
    assert t[1..] == "n" + v;
    ReplaceAbsent("n" + v, "\\r", " ");
    assert [t[0]] + ("n" + v) == t;
    assert ReplaceAll(s, "\\r", " ") == s;
    ReplaceAfterFree(u, t, "\\n", " ");
    assert t[..2] == "\\n" && t[2..] == v;
    ReplaceAbsent(v, "\\n", " ");
    assert ReplaceAll(t, "\\n", " ") == " " + v;
  }

  /** `t` starts with a backslash and an `n`, so the backslash-r pattern copies its
      first character. */
  lemma ReplaceStep(t: string, pat: string)
    requires |t| >= 2 && t[0] == '\\' && t[1] == 'n' && pat == "\\r"
    ensures ReplaceAll(t, pat, " ") == [t[0]] + ReplaceAll(t[1..], pat, " ")
  {
    assert t[..2] != pat by { assert t[..2][1] == 'n'; }
  }

  /** The literal two characters backslash-n between two lowercase words break them
      apart: `a\nb` gives `a b`, not `a nb`. */
  lemma BackslashNBreaksWords(u: string, v: string)
    requires u != [] && AllChars(u, Lowercase) && v != [] && AllChars(v, Lowercase)
    ensures Normalize(u + "\\n" + v) == u + " " + v
  {
    var s := u + ("\\n" + v);
    assert u + "\\n" + v == s;
    UnescapeBackslashN(u, v);
    LowercaseIsLetters(u);
    LowercaseIsLetters(v);
    assert u + (" " + v) == Join([u, v]) by { JoinCons(u, [v]); }
    RunsOfJoin([u, v], Letter);
    TwoWords(u, v, s);
  }

  /** A lowercase word holds no backslash. */
  lemma LowercaseNoBackslash(w: string)
    requires AllChars(w, Lowercase)
    ensures forall i :: 0 <= i < |w| ==> w[i] != '\\'
  {
    forall i | 0 <= i < |w| ensures w[i] != '\\' { assert In(Lowercase, w[i]); }
  }

  /** The backslash-r replacement turns a word, a literal backslash-r and a word into
      the two words around a space. */
  lemma ReplaceBackslashR(u: string, v: string)
    requires AllChars(u, Lowercase) && AllChars(v, Lowercase)
    ensures ReplaceAll(u + ("\\r" + v), "\\r", " ") == u + (" " + v)
  {
    var t := "\\r" + v;
    LowercaseNoBackslash(u);
    LowercaseNoBackslash(v);
    ReplaceAfterFree(u, t, "\\r", " ");
    assert t[..2] == "\\r" && t[2..] == v;
    ReplaceAbsent(v, "\\r", " ");
  }

  /** The replacements turn a word, a literal backslash-r and a word into the two words
      around a space. */
  lemma UnescapeBackslashR(u: string, v: string)
    requires u != [] && AllChars(u, Lowercase) && v != [] && AllChars(v, Lowercase)
    ensures Unescaped(u + ("\\r" + v)) == u + (" " + v)
  {
    var s := u + ("\\r" + v);
    forall i | 0 <= i < |s| ensures In(NonUpper, s[i]) {
      if i < |u| { assert s[i] == u[i]; } else if i >= |u| + 2 { assert s[i] == v[i - |u| - 2]; }
    }
    LowerNoUpper(s);
    ReplaceBackslashR(u, v);
    var w := u + (" " + v);
    LowercaseNoBackslash(u);
    LowercaseNoBackslash(v);
    forall i | 0 <= i < |w| ensures w[i] != '\\' {
      if i < |u| { assert w[i] == u[i]; } else if i > |u| { assert w[i] == v[i - |u| - 1]; }
    }
    ReplaceAbsent(w, "\\n", " ");
  }

  /** The literal two characters backslash-r between two lowercase words break them
      apart: `a\rb` gives `a b`, not `a rb`. */
  lemma BackslashRBreaksWords(u: string, v: string)
    requires u != [] && AllChars(u, Lowercase) && v != [] && AllChars(v, Lowercase)
    ensures Normalize(u + "\\r" + v) == u + " " + v
  {
    var s := u + ("\\r" + v);
    assert u + "\\r" + v == s;
    UnescapeBackslashR(u, v);
    LowercaseIsLetters(u);
    LowercaseIsLetters(v);
    assert u + (" " + v) == Join([u, v]) by { JoinCons(u, [v]); }
    RunsOfJoin([u, v], Letter);
    TwoWords(u, v, s);
  }

  /** No literal backslash-n is left once both replacements have run. */
  lemma UnescapedHasNoBackslashN(text: string)
    ensures NoPairOf(Unescaped(text), "\\n")
  {
    ReplaceLeavesNoPattern(ReplaceAll(Lower(text), "\\r", " "), "\\n", " ");
  }

  /** A word of ASCII letters, capitals or not, normalises to its lowercase form:
      `Hello` gives `hello`. */
  lemma LetterWordNormalizes(w: string)
    requires w != [] && AllChars(w, Letter)
    ensures AllChars(Lower(w), Lowercase)
    ensures Normalize(w) == Lower(w)
  {
    var l := Lower(w);
    forall i | 0 <= i < |l| ensures In(Lowercase, l[i]) {
      assert In(Letter, w[i]);
    }
    forall i | 0 <= i < |l| ensures l[i] != '\\' {
      assert In(Lowercase, l[i]);
    }
    ReplaceAbsent(l, "\\r", " ");
    ReplaceAbsent(l, "\\n", " ");
    LowercaseIsLetters(l);
    RunsOfJoin([l], Letter);
    assert Words(w) == [l];
  }

  /** Normalising normal-form text changes nothing. */
  lemma NormalizeFixesNormalized(s: string)
    requires IsNormalized(s)
    ensures Normalize(s) == s
  {
    assert AllChars(s, NonUpper);
    LowerNoUpper(s);
    ReplaceAbsent(s, "\\r", " ");
    ReplaceAbsent(s, "\\n", " ");
    NormalizedIsJoin(s);
    var ts := Tokenize(s);
    assert forall i :: 0 <= i < |ts| ==> ts[i] != [] && AllChars(ts[i], Letter);
    RunsOfJoin(ts, Letter);
  }

  /** Normalisation is idempotent. */
  lemma NormalizeIdempotent(text: string)
    ensures Normalize(Normalize(text)) == Normalize(text)
  {
    NormalizeFixesNormalized(Normalize(text));
  }

  /** Normalised text is the join of its own tokens, each a nonempty lowercase word. */
  lemma NormalizeTokens(text: string)
    ensures AreWords(Tokenize(Normalize(text)))
    ensures Join(Tokenize(Normalize(text))) == Normalize(text)
  {
    NormalizedIsJoin(Normalize(text));
  }

  // ---------------------------------------------------------------------------
  // Stopword elimination (`__eliminate_stopwords`)

  /** The tokens of `ws` that are not stopwords, in their original order. */
  function KeepNonStop(ws: seq<string>, stopwords: seq<string>): (r: seq<string>)
    ensures forall w :: w in r ==> w in ws && w !in stopwords
    ensures IsSubsequence(r, ws)
  {
    if ws == [] then []
    else
      var rest := KeepNonStop(ws[1..], stopwords);
      if ws[0] in stopwords then rest
      else
        assert ([ws[0]] + rest)[1..] == rest;
        [ws[0]] + rest
  }

  /** Stopword elimination keeps every occurrence of every other token: the result
      holds each non-stopword exactly as often as the input, and no stopword. */
  lemma {:induction false} KeepNonStopCounts(ws: seq<string>, stopwords: seq<string>)
    ensures forall w :: multiset(KeepNonStop(ws, stopwords))[w] == if w in stopwords then 0 else multiset(ws)[w]
  {
    if ws != [] {
      KeepNonStopCounts(ws[1..], stopwords);
      assert ws == [ws[0]] + ws[1..];
    }
  }

  /** `__eliminate_stopwords`: `None` when the transformer has no stopword list,
      otherwise the tokens that are not stopwords, joined by single spaces. */
  function EliminateStopwords(text: string, stopwords: Option<seq<string>>): (r: Option<string>)
    ensures r.None? <==> stopwords.None?
  {
    if stopwords.Some? then Some(Join(KeepNonStop(Tokenize(text), stopwords.value)))
    else None
  }

  /** Words keep their shape when stopwords are removed. */
  lemma KeepNonStopWords(ws: seq<string>, stopwords: seq<string>)
    requires AreWords(ws)
    ensures AreWords(KeepNonStop(ws, stopwords))
  {
    var r := KeepNonStop(ws, stopwords);
    forall i | 0 <= i < |r| ensures r[i] != [] && AllChars(r[i], Lowercase) {
      assert r[i] in r;
      assert r[i] in ws;
    }
  }

  /** On normal-form text the tokens of the result are exactly the non-stopword tokens of
      the input, in order; none of them is a stopword, and the result is in normal form. */
  lemma EliminateStopwordsTokens(text: string, stopwords: seq<string>)
    requires IsNormalized(text)
    ensures IsNormalized(EliminateStopwords(text, Some(stopwords)).value)
    ensures Tokenize(EliminateStopwords(text, Some(stopwords)).value) == KeepNonStop(Tokenize(text), stopwords)
    ensures forall w :: w in Tokenize(EliminateStopwords(text, Some(stopwords)).value) ==> w !in stopwords
  {
    NormalizedIsJoin(text);
    var kept := KeepNonStop(Tokenize(text), stopwords);
    KeepNonStopWords(Tokenize(text), stopwords);
    JoinIsNormalized(kept);
    RunsOfJoin(kept, NonSpace);
  }

  /** Filtering a list with no stopwords in it changes nothing. */
  lemma {:induction false} KeepNonStopNoStopwords(ws: seq<string>, stopwords: seq<string>)
    requires forall w :: w in ws ==> w !in stopwords
    ensures KeepNonStop(ws, stopwords) == ws
  {
    if ws != [] {
      assert ws[0] in ws;
      KeepNonStopNoStopwords(ws[1..], stopwords);
    }
  }

  /** Stopword elimination is idempotent on normal-form text. */
  lemma EliminateStopwordsIdempotent(text: string, stopwords: seq<string>)
    requires IsNormalized(text)
    ensures var once := EliminateStopwords(text, Some(stopwords)).value;
            EliminateStopwords(once, Some(stopwords)) == Some(once)
  {
    var once := EliminateStopwords(text, Some(stopwords)).value;
    EliminateStopwordsTokens(text, stopwords);
    var kept := KeepNonStop(Tokenize(text), stopwords);
    KeepNonStopNoStopwords(kept, stopwords);
  }

  // ---------------------------------------------------------------------------
  // The hapax step (`__get_hapaxes`)

  /** The tokens of `ts` that occur exactly once in `all`, in order. */
  function OnceIn(ts: seq<string>, all: seq<string>): seq<string>
  {
    if ts == [] then []
    else if multiset(all)[ts[0]] == 1 then [ts[0]] + OnceIn(ts[1..], all)
    else OnceIn(ts[1..], all)
  }

  /** `OnceIn` keeps, in order, exactly the tokens of `ts` that occur once in `all`. */
  lemma {:induction false} OnceInSpec(ts: seq<string>, all: seq<string>)
    ensures forall w :: w in OnceIn(ts, all) <==> w in ts && multiset(all)[w] == 1
    ensures IsSubsequence(OnceIn(ts, all), ts)
  {
    if ts != [] {
      OnceInSpec(ts[1..], all);
      var rest := OnceIn(ts[1..], all);
      assert forall w :: w in ts <==> w == ts[0] || w in ts[1..];
      if multiset(all)[ts[0]] == 1 {
        assert ([ts[0]] + rest)[1..] == rest;
      }
    }
  }

  /** `FreqDist(tokens).hapaxes()`: the tokens that occur exactly once, in the order they occur. */
  function HapaxesOf(ws: seq<string>): seq<string>
  {
    OnceIn(ws, ws)
  }

  /** A token is a hapax exactly when it occurs once, and hapaxes keep the text's order. */
  lemma HapaxesOfSpec(ws: seq<string>)
    ensures forall w :: w in HapaxesOf(ws) <==> multiset(ws)[w] == 1
    ensures IsSubsequence(HapaxesOf(ws), ws)
  {
    OnceInSpec(ws, ws);
  }

  /** The registry entry the hapax step appends for `text`: the list of its hapaxes. */
  function HapaxEntry(text: string): (v: Value)
    ensures v.List?
  {
    HapaxEntryAfter(text, 1)
  }

  /** `HapaxEntry`, reached after `delay` steps of countdown (see `CleanedAfter`). */
  function HapaxEntryAfter(text: string, delay: nat): (v: Value)
    ensures v.List?
  {
    if delay == 0 then List(Strs(HapaxesOf(Tokenize(text))))
    else HapaxEntryAfter(text, delay - 1)
  }

  lemma HapaxEntryDef(text: string)
    ensures HapaxEntry(text) == List(Strs(HapaxesOf(Tokenize(text))))
  {
    assert HapaxEntryAfter(text, 0) == List(Strs(HapaxesOf(Tokenize(text))));
  }

  /** The comprehension `[word for word in tokens if word not in registry]`, with
      Python's `in` comparing the string `word` against each registry element. */
  function DropRegistered(ws: seq<string>, registry: seq<Value>): (r: seq<string>)
    ensures forall w :: w in r ==> w in ws && Str(w) !in registry
    ensures forall w :: w in ws && Str(w) !in registry ==> w in r
    ensures IsSubsequence(r, ws)
  {
    if ws == [] then []
    else
      var rest := DropRegistered(ws[1..], registry);
      if Str(ws[0]) in registry then rest
      else
        assert ([ws[0]] + rest)[1..] == rest;
        [ws[0]] + rest
  }

  /** The filter half of the hapax step, against the registry as it stands after the append. */
  function HapaxFilter(text: string, registry: seq<Value>): string
  {
    Join(DropRegistered(Tokenize(text), registry))
  }

  /** Every registry element is a list: what the hapax step ever appends. */
  predicate AllLists(registry: seq<Value>)
  {
    forall v :: v in registry ==> v.List?
  }

  /** The comprehension keeps every occurrence of a token that is not a registry element,
      and none of one that is. */
  lemma {:induction false} DropRegisteredCounts(ws: seq<string>, registry: seq<Value>)
    ensures forall w ::
      multiset(DropRegistered(ws, registry))[w] == if Str(w) in registry then 0 else multiset(ws)[w]
  {
    if ws != [] {
      DropRegisteredCounts(ws[1..], registry);
      assert ws == [ws[0]] + ws[1..];
    }
  }

  /** A word never equals a list, so a registry of lists never removes a token. */
  lemma {:induction false} DropRegisteredKeepsAll(ws: seq<string>, registry: seq<Value>)
    requires AllLists(registry)
    ensures DropRegistered(ws, registry) == ws
  {
    if ws != [] {
      assert Str(ws[0]) !in registry;
      DropRegisteredKeepsAll(ws[1..], registry);
    }
  }

  /** The hapax step returns normal-form text unchanged, whatever the registry has
      accumulated; in particular the text's own hapaxes all survive. */
  lemma HapaxFilterIsIdentity(text: string, registry: seq<Value>)
    requires IsNormalized(text) && AllLists(registry)
    ensures HapaxFilter(text, registry) == text
  {
    NormalizedIsJoin(text);
    DropRegisteredKeepsAll(Tokenize(text), registry);
  }

  /** A word that occurs once is still there after the hapax step, although the
      registry now holds it: `"spam"` is its own hapax and survives. */
  lemma HapaxSurvives()
    ensures HapaxEntry("spam") == List([Str("spam")])
    ensures HapaxFilter("spam", [HapaxEntry("spam")]) == "spam"
  {
    HapaxEntryDef("spam");
    assert Tokenize("spam") == ["spam"] by {
      SingleToken("spam");
    }
    assert HapaxesOf(["spam"]) == ["spam"];
    assert Strs(["spam"]) == [Str("spam")];
    HapaxesOfSpec(["spam"]);
    HapaxFilterIsIdentity("spam", [HapaxEntry("spam")]);
  }

  // ---------------------------------------------------------------------------
  // Stemming (`__stem`)

  /** The stem of every token, in order. */
  function StemAll(ws: seq<string>, stemmer: string -> string): (r: seq<string>)
    ensures |r| == |ws|
    ensures forall i :: 0 <= i < |ws| ==> r[i] == stemmer(ws[i])
  {
    if ws == [] then [] else [stemmer(ws[0])] + StemAll(ws[1..], stemmer)
  }

  /** `__stem`: every token replaced by its stem, joined by single spaces. */
  function Stem(text: string, stemmer: string -> string): string
  {
    Join(StemAll(Tokenize(text), stemmer))
  }

  /** On joined words, stemming maps token `i` to the stem of token `i`: the
      token count and order are kept. */
  lemma StemIsPointwise(ws: seq<string>, stemmer: string -> string)
    requires AreWords(ws)
    ensures Stem(Join(ws), stemmer) == Join(StemAll(ws, stemmer))
  {
    RunsOfJoin(ws, NonSpace);
  }

  // ---------------------------------------------------------------------------
  // The whole pipeline

  /** A text after normalisation and stopword elimination: what the hapax step receives. */
  function Cleaned(text: string, stopwords: seq<string>): (r: string)
    ensures IsNormalized(r)
  {
    CleanedAfter(text, stopwords, 1)
  }

  /** `Cleaned`, reached after `delay` steps of countdown. `Cleaned`, `Pipeline`,
      `PipelineAgainst`, `HapaxEntry` and `EntitiesOf` are each defined this way, with `delay` 1: the value
      is the same, but the verifier does not expand the whole pipeline where such a value
      is only carried along, and the `...Def` lemmas state the definition where it is used. */
  function CleanedAfter(text: string, stopwords: seq<string>, delay: nat): (r: string)
    ensures IsNormalized(r)
  {
    if delay == 0 then
      EliminateStopwordsTokens(Normalize(text), stopwords);
      EliminateStopwords(Normalize(text), Some(stopwords)).value
    else CleanedAfter(text, stopwords, delay - 1)
  }

  lemma CleanedDef(text: string, stopwords: seq<string>)
    ensures Cleaned(text, stopwords) == EliminateStopwords(Normalize(text), Some(stopwords)).value
  {
    assert CleanedAfter(text, stopwords, 0) == EliminateStopwords(Normalize(text), Some(stopwords)).value;
  }

  /** What `transform` leaves in place of one text, given the registry it finds:
      normalise, drop stopwords, append the hapax entry, filter, stem. */
  function PipelineAgainst(text: string, stopwords: seq<string>, stemmer: string -> string, registry: seq<Value>): string
  {
    PipelineAgainstAfter(text, stopwords, stemmer, registry, 1)
  }

  /** `PipelineAgainst`, reached after `delay` steps of countdown (see `CleanedAfter`). */
  function PipelineAgainstAfter(text: string, stopwords: seq<string>, stemmer: string -> string,
                                registry: seq<Value>, delay: nat): string
  {
    if delay == 0 then
      var c := Cleaned(text, stopwords);
      Stem(HapaxFilter(c, registry + [HapaxEntry(c)]), stemmer)
    else PipelineAgainstAfter(text, stopwords, stemmer, registry, delay - 1)
  }

  lemma PipelineAgainstDef(text: string, stopwords: seq<string>, stemmer: string -> string, registry: seq<Value>)
    ensures var c := Cleaned(text, stopwords);
      PipelineAgainst(text, stopwords, stemmer, registry) == Stem(HapaxFilter(c, registry + [HapaxEntry(c)]), stemmer)
  {
    var c := Cleaned(text, stopwords);
    assert PipelineAgainstAfter(text, stopwords, stemmer, registry, 0) == Stem(HapaxFilter(c, registry + [HapaxEntry(c)]), stemmer);
  }

  /** The pipeline with the hapax step left out. */
  function Pipeline(text: string, stopwords: seq<string>, stemmer: string -> string): string
  {
    PipelineAfter(text, stopwords, stemmer, 1)
  }

  /** `Pipeline`, reached after `delay` steps of countdown (see `CleanedAfter`). */
  function PipelineAfter(text: string, stopwords: seq<string>, stemmer: string -> string, delay: nat): string
  {
    if delay == 0 then Stem(Cleaned(text, stopwords), stemmer)
    else PipelineAfter(text, stopwords, stemmer, delay - 1)
  }

  lemma PipelineDef(text: string, stopwords: seq<string>, stemmer: string -> string)
    ensures Pipeline(text, stopwords, stemmer) == Stem(Cleaned(text, stopwords), stemmer)
  {
    assert PipelineAfter(text, stopwords, stemmer, 0) == Stem(Cleaned(text, stopwords), stemmer);
  }

  /** The output of `transform` for a text does not depend on the texts processed before it:
      any registry of lists gives the same result as the pipeline without the hapax step. */
  lemma PipelineIgnoresRegistry(text: string, stopwords: seq<string>, stemmer: string -> string, registry: seq<Value>)
    requires AllLists(registry)
    ensures PipelineAgainst(text, stopwords, stemmer, registry) == Pipeline(text, stopwords, stemmer)
  {
    var c := Cleaned(text, stopwords);
    PipelineDef(text, stopwords, stemmer);
    PipelineAgainstDef(text, stopwords, stemmer, registry);
    HapaxFilterIsIdentity(c, registry + [HapaxEntry(c)]);
  }

  /** A text without an ASCII letter leaves nothing: normalisation finds no word, and
      the pipeline's result is the empty text whatever the stopwords and the stemmer. */
  lemma LetterlessPipeline(text: string, stopwords: seq<string>, stemmer: string -> string)
    requires AllChars(text, NonLetter)
    ensures Words(text) == []
    ensures Normalize(text) == ""
    ensures Pipeline(text, stopwords, stemmer) == ""
  {
    var lowered := Lower(text);
    assert lowered == text;
    var noCr := ReplaceAll(lowered, "\\r", " ");
    ReplaceAllKeeps(lowered, "\\r", " ", NonLetter);
    ReplaceAllKeeps(noCr, "\\n", " ", NonLetter);
    RunsAbsent(ReplaceAll(noCr, "\\n", " "), Letter);
    CleanedDef(text, stopwords);
    PipelineDef(text, stopwords, stemmer);
    assert Tokenize("") == [];
  }

  /** The registry entries `transform` appends for the first `n` texts, one per text. */
  function Entries(texts: seq<string>, n: nat, stopwords: seq<string>): (es: seq<Value>)
    requires n <= |texts|
    ensures |es| == n
  {
    if n == 0 then []
    else Entries(texts, n - 1, stopwords) + [HapaxEntry(Cleaned(texts[n - 1], stopwords))]
  }

  // ---------------------------------------------------------------------------
  // Named entities (`__named_entity_extraction`)

  /** The chunks that carry a label, in order. */
  function Labelled(cs: seq<Chunk>): (r: seq<Chunk>)
    ensures forall c :: c in r ==> c.Tree? && c in cs
    ensures forall c :: c in cs && c.Tree? ==> c in r
  {
    if cs == [] then []
    else Labelled(cs[..|cs| - 1]) + (if cs[|cs| - 1].Tree? then [cs[|cs| - 1]] else [])
  }

  /** The labelled chunks of every sentence, sentence by sentence. */
  function LabelledIn(sents: seq<string>, chunker: string -> seq<Chunk>): (r: seq<Chunk>)
    ensures forall c :: c in r ==> c.Tree?
  {
    if sents == [] then []
    else LabelledIn(sents[..|sents| - 1], chunker) + Labelled(chunker(sents[|sents| - 1]))
  }

  /** Every labelled chunk is kept as often as it occurs, and no other chunk. */
  lemma {:induction false} LabelledCounts(cs: seq<Chunk>)
    ensures forall c :: multiset(Labelled(cs))[c] == if c.Tree? then multiset(cs)[c] else 0
    decreases |cs|
  {
    if cs != [] {
      var n := |cs| - 1;
      LabelledCounts(cs[..n]);
      assert cs == cs[..n] + [cs[n]];
    }
  }

  /** The labelled chunks keep the order they have in the input. */
  lemma {:induction false} LabelledInOrder(cs: seq<Chunk>)
    ensures IsSubsequence(Labelled(cs), cs)
    decreases |cs|
  {
    if cs != [] {
      var n := |cs| - 1;
      LabelledInOrder(cs[..n]);
      assert cs == cs[..n] + [cs[n]];
      SubsequenceSnoc(Labelled(cs[..n]), cs[..n], cs[n]);
      if !cs[n].Tree? {
        assert Labelled(cs[..n]) + [] == Labelled(cs[..n]);
      }
    }
  }

  /** Taking one more chunk adds it when it carries a label. */
  lemma LabelledStep(cs: seq<Chunk>, c: nat)
    requires c < |cs|
    ensures Labelled(cs[..c + 1]) == Labelled(cs[..c]) + (if cs[c].Tree? then [cs[c]] else [])
  {
    assert cs[..c + 1][..c] == cs[..c];
  }

  /** Taking one more sentence adds its labelled chunks. */
  lemma LabelledInStep(sents: seq<string>, s: nat, chunker: string -> seq<Chunk>)
    requires s < |sents|
    ensures LabelledIn(sents[..s + 1], chunker) == LabelledIn(sents[..s], chunker) + Labelled(chunker(sents[s]))
  {
    assert sents[..s + 1][..s] == sents[..s];
  }

  /** The first `n` texts of `xs` are the pipeline's results for those of `input`, and
      the others are still those of `input`. */
  predicate TransformedUpTo(xs: seq<string>, input: seq<string>, n: nat, stopwords: seq<string>, stemmer: string -> string)
  {
    |xs| == |input| && n <= |xs| &&
    (forall j :: 0 <= j < n ==> xs[j] == Pipeline(input[j], stopwords, stemmer)) &&
    (forall j :: n <= j < |xs| ==> xs[j] == input[j])
  }

  class TextTransformer {
    var stopwords: Option<seq<string>>
    var stemmer: string -> string
    /** Every `FreqDist(...).hapaxes()` list computed so far, one per text. */
    var hapaxes: seq<Value>
    var namedEntities: seq<Chunk>
    /** NLTK's sentence splitter `sent_tokenize`. */
    const sentences: string -> seq<string>
    /** NLTK's `ne_chunk(pos_tag(word_tokenize(sentence)))`. */
    const chunker: string -> seq<Chunk>

    ghost predicate Valid()
      reads this
    {
      AllLists(hapaxes)
    }

    constructor (stopwords: Option<seq<string>>, stemmer: string -> string,
                 sentences: string -> seq<string>, chunker: string -> seq<Chunk>)
      ensures Valid()
      ensures this.stopwords == stopwords && this.stemmer == stemmer
      ensures this.sentences == sentences && this.chunker == chunker
      ensures hapaxes == [] && namedEntities == []
    {
      this.stopwords := stopwords;
      this.stemmer := stemmer;
      this.sentences := sentences;
      this.chunker := chunker;
      hapaxes := [];
      namedEntities := [];
    }

    /** The named entities recorded for one text. */
    function EntitiesOf(text: string): seq<Chunk>
    {
      EntitiesOfAfter(text, 1)
    }

    /** `EntitiesOf`, reached after `delay` steps of countdown (see `CleanedAfter`). */
    function EntitiesOfAfter(text: string, delay: nat): seq<Chunk>
    {
      if delay == 0 then LabelledIn(sentences(text), chunker)
      else EntitiesOfAfter(text, delay - 1)
    }

    lemma EntitiesOfDef(text: string)
      ensures EntitiesOf(text) == LabelledIn(sentences(text), chunker)
    {
      assert EntitiesOfAfter(text, 0) == LabelledIn(sentences(text), chunker);
    }

    /** The named entities recorded for the first `n` texts, text by text. */
    function AllEntities(texts: seq<string>, n: nat): seq<Chunk>
      requires n <= |texts|
    {
      if n == 0 then []
      else AllEntities(texts, n - 1) + EntitiesOf(texts[n - 1])
    }

    /** Only the first `n` texts count: replacing text `n` and appending its entities
        gives the entities of the first `n + 1`. */
    lemma {:induction false} AllEntitiesUpdate(texts: seq<string>, n: nat, text: string)
      requires n < |texts|
      ensures AllEntities(texts[n := text], n + 1) == AllEntities(texts, n) + EntitiesOf(text)
    {
      AllEntitiesPrefix(texts, texts[n := text], n);
    }

    lemma {:induction false} AllEntitiesPrefix(a: seq<string>, b: seq<string>, n: nat)
      requires n <= |a| && n <= |b|
      requires forall j :: 0 <= j < n ==> a[j] == b[j]
      ensures AllEntities(a, n) == AllEntities(b, n)
    {
      if n > 0 {
        AllEntitiesPrefix(a, b, n - 1);
      }
    }

    /** One pass of the loop of `transform` takes its state from text `i` to text `i + 1`. */
    lemma TransformStep(before: seq<string>, after: seq<string>, input: seq<string>, i: nat,
                        stopwords: seq<string>, stemmer: string -> string,
                        h0: seq<Value>, h: seq<Value>, h': seq<Value>,
                        n0: seq<Chunk>, n: seq<Chunk>, n': seq<Chunk>)
      requires i < |before|
      requires TransformedUpTo(before, input, i, stopwords, stemmer)
      requires h == h0 + Entries(input, i, stopwords)
      requires n == n0 + AllEntities(before, i)
      requires after == before[i := Pipeline(before[i], stopwords, stemmer)]
      requires h' == h + [HapaxEntry(Cleaned(before[i], stopwords))]
      requires n' == n + EntitiesOf(after[i])
      ensures TransformedUpTo(after, input, i + 1, stopwords, stemmer)
      ensures h' == h0 + Entries(input, i + 1, stopwords)
      ensures n' == n0 + AllEntities(after, i + 1)
    {
      AllEntitiesUpdate(before, i, after[i]);
      AppendAssoc(h0, Entries(input, i, stopwords), [HapaxEntry(Cleaned(input[i], stopwords))]);
      AppendAssoc(n0, AllEntities(before, i), EntitiesOf(after[i]));
    }

    /** `fit` learns nothing and returns the transformer itself. */
    method Fit(X: seq<string>) returns (r: TextTransformer)
      ensures r == this
    {
      r := this;
    }

    /** `__get_hapaxes`: append the text's hapaxes to the registry as one list, then
        (by default) drop every token that equals a registry element. */
    method GetHapaxes(text: string, eliminate: bool) returns (r: string)
      requires Valid()
      modifies this`hapaxes
      ensures Valid()
      ensures hapaxes == old(hapaxes) + [HapaxEntry(text)]
      ensures r == if eliminate then HapaxFilter(text, hapaxes) else text
      ensures IsNormalized(text) ==> r == text
    {
      var fd := HapaxesOf(Tokenize(text));
      HapaxEntryDef(text);
      hapaxes := hapaxes + [List(Strs(fd))];
      r := text;
      if eliminate {
        r := Join(DropRegistered(Tokenize(text), hapaxes));
        if IsNormalized(text) {
          HapaxFilterIsIdentity(text, hapaxes);
        }
      }
    }

    /** The inner loop of `__named_entity_extraction`: append every chunk of one sentence
        that has a `label`, in order. */
    method AppendLabelled(chunks: seq<Chunk>)
      modifies this`namedEntities
      ensures namedEntities == old(namedEntities) + Labelled(chunks)
    {
      for c := 0 to |chunks|
        invariant namedEntities == old(namedEntities) + Labelled(chunks[..c])
      {
        LabelledStep(chunks, c);
        if chunks[c].Tree? {
          namedEntities := namedEntities + [chunks[c]];
        }
      }
      assert chunks[..|chunks|] == chunks;
    }

    /** `__named_entity_extraction`: append every labelled chunk of every sentence. */
    method ExtractNamedEntities(text: string)
      modifies this`namedEntities
      ensures namedEntities == old(namedEntities) + EntitiesOf(text)
    {
      var sents := sentences(text);
      for s := 0 to |sents|
        invariant namedEntities == old(namedEntities) + LabelledIn(sents[..s], chunker)
      {
        AppendLabelled(chunker(sents[s]));
        LabelledInStep(sents, s, chunker);
        AppendAssoc(old(namedEntities), LabelledIn(sents[..s], chunker), Labelled(chunker(sents[s])));
      }
      assert sents[..|sents|] == sents;
      EntitiesOfDef(text);
    }

    /** One pass of the loop of `transform`, on `X[i]`: normalise, drop stopwords, run
        the hapax step, stem, record the named entities, store the result in place. */
    method TransformAt(X: array<string>, i: nat)
      requires Valid() && stopwords.Some?
      requires i < X.Length
      modifies X, this`hapaxes, this`namedEntities
      ensures Valid()
      ensures X[i] == PipelineAgainst(old(X[i]), stopwords.value, stemmer, old(hapaxes))
      ensures X[..] == old(X[..])[i := Pipeline(old(X[i]), stopwords.value, stemmer)]
      ensures hapaxes == old(hapaxes) + [HapaxEntry(Cleaned(old(X[i]), stopwords.value))]
      ensures namedEntities == old(namedEntities) + EntitiesOf(X[i])
    {
      var text := Normalize(X[i]);
      var kept := EliminateStopwords(text, stopwords);
      text := kept.value;
      CleanedDef(X[i], stopwords.value);
      PipelineDef(X[i], stopwords.value, stemmer);
      text := GetHapaxes(text, true);
      text := Stem(text, stemmer);
      ExtractNamedEntities(text);
      PipelineAgainstDef(X[i], stopwords.value, stemmer, old(hapaxes));
      PipelineIgnoresRegistry(X[i], stopwords.value, stemmer, old(hapaxes));
      X[i] := text;
    }

    /** `transform`: rewrite every text of `X` in place and return `X`. With no
        stopword list the stopword step returns `None` for the first text, on which
        the hapax step fails: `ok` is false then, and neither the registry, the
        entities nor the texts after the first have changed. */
    method Transform(X: array<string>) returns (r: array<string>, ok: bool)
      requires Valid()
      modifies X, this`hapaxes, this`namedEntities
      ensures Valid()
      ensures r == X
      ensures ok <==> stopwords.Some? || X.Length == 0
      ensures stopwords == old(stopwords) && stemmer == old(stemmer)
      ensures stopwords.Some? ==> |hapaxes| == |old(hapaxes)| + X.Length
      ensures stopwords.Some? ==>
        TransformedUpTo(X[..], old(X[..]), X.Length, stopwords.value, stemmer) &&
        hapaxes == old(hapaxes) + Entries(old(X[..]), X.Length, stopwords.value) &&
        namedEntities == old(namedEntities) + AllEntities(X[..], X.Length)
      ensures stopwords.None? ==>
        hapaxes == old(hapaxes) && namedEntities == old(namedEntities) && (X.Length > 0 ==> X[1..] == old(X[1..]))
    {
      r, ok := X, true;
      if stopwords.None? {
        ok := X.Length == 0;
        return;
      }
      ghost var input := X[..];
      for i := 0 to X.Length
        invariant Valid()
        invariant TransformedUpTo(X[..], input, i, stopwords.value, stemmer)
        invariant hapaxes == old(hapaxes) + Entries(input, i, stopwords.value)
        invariant namedEntities == old(namedEntities) + AllEntities(X[..], i)
      {
        ghost var before, h, n := X[..], hapaxes, namedEntities;
        TransformAt(X, i);
        TransformStep(before, X[..], input, i, stopwords.value, stemmer, old(hapaxes), h, hapaxes, old(namedEntities), n, namedEntities);
      }
    }
  }
}
