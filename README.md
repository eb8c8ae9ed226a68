# Offensive-text gate of the null blog, in Dafny

This project models the part of the blog that decides whether a submitted post or
comment is offensive, together with the forms that bound what a user may submit.

- `Text` (`text.dfy`) holds the string operations the pipeline is built from:
  ASCII lowercasing, Python's left-to-right `str.replace`, `re.findall` of a
  character class as maximal runs, `' '.join`, and splitting on spaces. It also
  defines the normal form that text has after normalisation: lowercase words
  separated by single spaces. On that form, splitting undoes joining.
- `Preprocessing` (`preprocessing.dfy`) models `TextTransformer` as a class.
  - Its fields are the stopword list (or none), the stemmer, the hapax registry and
    the list of named entities.
  - NLTK's sentence splitter and its tagger-plus-chunker are constant function
    fields given to the constructor.
  - `Transform` rewrites an `array<string>` in place, one text per loop pass, just as
    `transform` assigns `X[i]` step by step.
  - Each step is a function: normalise, drop stopwords, the hapax step, stem. The
    hapax step and named-entity extraction are methods, because they append to
    the object's lists.
- `NlpModel` (`nlp_model.dfy`) models the module state of `nlp_model.py`: one
  shared transformer and the loaded classifier, given as a function from a
  preprocessed text to a label 0 or 1. It also models `is_offensive`.
- `Forms` (`forms.dfy`) models the password pattern and Django's `CharField`
  cleaning of every text field, with the length caps 64, 64, 64, 2048 and 256.
  Cleaning strips whitespace, requires a value, enforces the cap and refuses a NUL
  character. The pattern is modelled construct by construct (two lookaheads, a
  bounded repetition and `$`). It is then proved equal to the plain rules
  whenever the string does not end in a newline, which holds for every value
  Django hands to the validator.
- `Wrappers` (`wrappers.dfy`) holds the `Option` type.

## What the model shows about the hapax step

`__get_hapaxes` appends each text's hapax list to `self.hapaxes` as one element.
It then drops every token for which `word in self.hapaxes` holds. That test
compares a string with lists, so it is never true, and no token is ever removed.

The model keeps this behaviour exactly:

- A registry element is a `Value`, either `Str` or `List`, so Dafny's equality on
  it is Python's.
- `HapaxFilterIsIdentity` proves the filter returns normal-form text unchanged.
- `HapaxSurvives` shows that a word which is its own text's hapax survives.
- `PipelineIgnoresRegistry` proves that what `transform` leaves for a text does
  not depend on the texts processed before it.
- `IsOffensive` therefore states the verdict as a function of the text alone, and
  `IsOffensiveTwice` shows that repeating a request gives the same verdict.

The registry still grows by one entry per text.

Two places where the code does less than its own comments say, and the model follows
the code:

- The doc comment of `__get_hapaxes` (`preprocessing.py:84-92`) promises the text
  without its hapaxes. The filter at line 101 never removes a token, for the reason
  above, so accumulated hapaxes never change a later verdict.
- `__eliminate_stopwords` (lines 81-82) returns nothing, that is `None`, when there
  is no stopword list. `transform` then hands `None` to `__get_hapaxes` at line 53,
  whose `word_tokenize` raises, so the call fails on the first text.

`Pipeline`, `PipelineAgainst`, `Cleaned`, `HapaxEntry` and `EntitiesOf` are each
defined through a one-step countdown function (`PipelineAfter` and so on). The
`...Def` lemmas state their plain definitions. The values are the same either way.
The countdown only stops the verifier from expanding the whole pipeline where such a
value is just carried along. Without it, the proof of `Transform` does not fit the
verifier's resource limit.

## Model

| member | source | states |
|---|---|---|
| `Text.Lower` | null_blog/blog/model/preprocessing.py:70 | `text.lower()` keeps the length, turns every `A`-`Z` into the letter 32 code points later (`A` into `a`), and changes no other character |
| `Text.LowerNoUpper` | null_blog/blog/model/preprocessing.py:70 | `Lower` leaves text without capitals unchanged |
| `Text.ReplaceLeavesNoPattern` | null_blog/blog/model/preprocessing.py:70 | `ReplaceAll` (`str.replace`) of a two-character pattern by a nonempty text sharing no character with it leaves no occurrence of the pattern |
| `Text.ReplaceAbsent` | null_blog/blog/model/preprocessing.py:70 | `ReplaceAll` leaves text in which the pattern's first character never occurs unchanged |
| `Text.ReplaceAfterFree` | null_blog/blog/model/preprocessing.py:70 | `ReplaceAll` copies a prefix free of the pattern's first character and continues on the rest, as the left-to-right scan of `str.replace` does |
| `Text.ReplaceAllKeeps` | null_blog/blog/model/preprocessing.py:70 | `ReplaceAll` keeps a character class: when the text and the replacement only hold characters of it, so does the result |
| `Text.Runs` | null_blog/blog/model/preprocessing.py:70 | every match of `re.findall` of a one-class pattern (`Runs`) is a nonempty run of characters of that class |
| `Text.RunsAbsent` | null_blog/blog/model/preprocessing.py:70 | `re.findall` finds nothing in a text without a character of the class |
| `Text.RunsKeep` | null_blog/blog/model/preprocessing.py:70 | every match `re.findall` finds in a text whose characters all satisfy a second class also satisfies it |
| `Text.RunsOfRunThen` | null_blog/blog/model/preprocessing.py:70 | a run followed by a character outside the class is the first match, and matching resumes after that character |
| `Text.JoinCons` | null_blog/blog/model/preprocessing.py:70 | `Join` (`' '.join`) of a word followed by a list is the word, a space, and the join of the list |
| `Text.JoinEmpty` | null_blog/blog/model/preprocessing.py:70 | `' '.join` of nonempty words is empty exactly when there are no words |
| `Text.JoinHead` | null_blog/blog/model/preprocessing.py:70 | `' '.join` of words starts with the first character of the first word |
| `Text.SingleToken` | null_blog/blog/model/preprocessing.py:82 | `Tokenize` (`word_tokenize` on normal-form text) of a text without a space is that text alone |
| `Text.RunsOfJoin` | null_blog/blog/model/preprocessing.py:82 | splitting `' '.join(ws)` gives `ws` back when every word is a nonempty run without spaces |
| `Text.JoinIsNormalized` | null_blog/blog/model/preprocessing.py:70 | joining lowercase words with single spaces gives normal-form text |
| `Text.NormalizedIsJoin` | null_blog/blog/model/preprocessing.py:70 | normal-form text is the join of its own tokens, each a nonempty lowercase word |
| `Preprocessing.UnescapedPlain` | null_blog/blog/model/preprocessing.py:70 | `Unescaped` (lowercase, then replace the literal `\r` and `\n`) leaves text without capitals or backslashes unchanged |
| `Preprocessing.UnescapeBackslashN` | null_blog/blog/model/preprocessing.py:70 | `Unescaped` turns a word, a literal backslash-n and a word into the two words around a space |
| `Preprocessing.ReplaceBackslashR` | null_blog/blog/model/preprocessing.py:70 | `.replace(r'\r', ' ')` turns a word, a literal backslash-r and a word into the two words around a space |
| `Preprocessing.UnescapeBackslashR` | null_blog/blog/model/preprocessing.py:70 | `Unescaped` turns a word, a literal backslash-r and a word into the two words around a space |
| `Preprocessing.UnescapedHasNoBackslashN` | null_blog/blog/model/preprocessing.py:70 | no literal backslash-n is left after both replacements |
| `Preprocessing.Words` | null_blog/blog/model/preprocessing.py:70 | the words `re.findall('[a-zA-Z]+', ...)` finds after lowercasing and replacing the literal `\r` and `\n` are nonempty lowercase words |
| `Preprocessing.Normalize` | null_blog/blog/model/preprocessing.py:60-70 | the output of `__normalize` is in normal form: `a`-`z` and single inner spaces only |
| `Preprocessing.NormalizeFixesNormalized` | null_blog/blog/model/preprocessing.py:70 | normalising normal-form text gives it back |
| `Preprocessing.NormalizeIdempotent` | null_blog/blog/model/preprocessing.py:60-70 | normalising twice is normalising once |
| `Preprocessing.PunctuationBreaksWords` | null_blog/blog/model/preprocessing.py:70 | two lowercase words around a character that is neither a letter nor a backslash normalise to the words joined by one space (`don't` gives `don t`) |
| `Preprocessing.BackslashNBreaksWords` | null_blog/blog/model/preprocessing.py:70 | the literal backslash-n between two lowercase words is a word break (`a\nb` gives `a b`, not `a nb`) |
| `Preprocessing.BackslashRBreaksWords` | null_blog/blog/model/preprocessing.py:70 | the literal backslash-r between two lowercase words is a word break (`a\rb` gives `a b`) |
| `Preprocessing.LetterWordNormalizes` | null_blog/blog/model/preprocessing.py:70 | a word of ASCII letters, capitals or not, normalises to its lowercase form (`Hello` gives `hello`) |
| `Preprocessing.NormalizeTokens` | null_blog/blog/model/preprocessing.py:70 | tokenising normalised text gives its words, which join back to it |
| `Preprocessing.KeepNonStop` | null_blog/blog/model/preprocessing.py:82 | the comprehension keeps only tokens that are not stopwords, in their original order |
| `Preprocessing.KeepNonStopCounts` | null_blog/blog/model/preprocessing.py:82 | each non-stopword keeps all its occurrences; no stopword remains |
| `Preprocessing.KeepNonStopWords` | null_blog/blog/model/preprocessing.py:82 | dropping stopwords from nonempty lowercase words leaves nonempty lowercase words |
| `Preprocessing.KeepNonStopNoStopwords` | null_blog/blog/model/preprocessing.py:82 | dropping stopwords from a list without any changes nothing |
| `Preprocessing.EliminateStopwords` | null_blog/blog/model/preprocessing.py:72-82 | the result is `None` exactly when the transformer has no stopword list |
| `Preprocessing.EliminateStopwordsTokens` | null_blog/blog/model/preprocessing.py:81-82 | on normalised text the result is in normal form, and its tokens are exactly the non-stopword tokens in order |
| `Preprocessing.EliminateStopwordsIdempotent` | null_blog/blog/model/preprocessing.py:81-82 | eliminating stopwords twice is eliminating them once |
| `Preprocessing.OnceInSpec` | null_blog/blog/model/preprocessing.py:96-97 | a token is selected exactly when it occurs once in the text; selected tokens keep their order |
| `Preprocessing.HapaxesOfSpec` | null_blog/blog/model/preprocessing.py:96-97 | `HapaxesOf` (`FreqDist(tokens).hapaxes()`) holds exactly the tokens that occur once, in text order |
| `Preprocessing.HapaxEntry` | null_blog/blog/model/preprocessing.py:97 | what the hapax step appends to the registry is always a list, never a string |
| `Preprocessing.DropRegistered` | null_blog/blog/model/preprocessing.py:101 | a token appears in the result exactly when it appears in the input and the string is not a registry element; the result keeps the input's order |
| `Preprocessing.DropRegisteredCounts` | null_blog/blog/model/preprocessing.py:101 | the comprehension keeps every occurrence of a token that is not a registry element, and none of a token that is |
| `Preprocessing.DropRegisteredKeepsAll` | null_blog/blog/model/preprocessing.py:101 | `word not in self.hapaxes` holds for every token when the registry holds only lists, so no token is dropped |
| `Preprocessing.HapaxFilterIsIdentity` | null_blog/blog/model/preprocessing.py:100-103 | `HapaxFilter` (lines 100-101) returns normal-form text unchanged, whatever lists the registry holds |
| `Preprocessing.HapaxSurvives` | null_blog/blog/model/preprocessing.py:96-101 | for the text `spam` the appended entry is `['spam']`, and `spam` still survives the filter |
| `Preprocessing.StemAll` | null_blog/blog/model/preprocessing.py:114 | token `i` of the result is the stem of token `i`, and the count is kept |
| `Preprocessing.StemIsPointwise` | null_blog/blog/model/preprocessing.py:114 | `Stem` (`__stem`) of joined words is the join of the stems of the words |
| `Preprocessing.Cleaned` | null_blog/blog/model/preprocessing.py:51-52 | what the hapax step receives is in normal form |
| `Preprocessing.PipelineIgnoresRegistry` | null_blog/blog/model/preprocessing.py:50-54 | for any registry of lists, `PipelineAgainst` (what `transform` leaves for a text given the registry it finds) equals the pipeline without the hapax step |
| `Preprocessing.LetterlessPipeline` | null_blog/blog/model/preprocessing.py:51-54 | a text without an ASCII letter, the empty text among them, normalises to `""` and leaves the empty text |
| `Preprocessing.Entries` | null_blog/blog/model/preprocessing.py:97 | `n` texts add exactly `n` registry entries |
| `Preprocessing.Labelled` | null_blog/blog/model/preprocessing.py:126-129 | a chunk appears in the result exactly when it is a named-entity tree of the input |
| `Preprocessing.LabelledCounts` | null_blog/blog/model/preprocessing.py:126-129 | every labelled chunk is kept as often as it occurs (`Bob met Bob` records two equal trees), and no unlabelled chunk is kept |
| `Preprocessing.LabelledInOrder` | null_blog/blog/model/preprocessing.py:126-129 | the labelled chunks keep the order they have in the chunker's output |
| `Preprocessing.LabelledIn` | null_blog/blog/model/preprocessing.py:124-129 | only labelled chunks are recorded, sentence by sentence |
| `Preprocessing.TextTransformer.constructor` | null_blog/blog/model/preprocessing.py:10-23 | the stopwords and stemmer are stored, and the registry and entity list start empty |
| `Preprocessing.TextTransformer.Fit` | null_blog/blog/model/preprocessing.py:26-36 | `fit` returns the transformer itself and changes nothing |
| `Preprocessing.TextTransformer.GetHapaxes` | null_blog/blog/model/preprocessing.py:84-103 | the registry grows by exactly the text's hapax list; with `eliminate` the filter runs against the grown registry; normal-form text comes back unchanged |
| `Preprocessing.TextTransformer.AppendLabelled` | null_blog/blog/model/preprocessing.py:126-129 | the inner loop appends exactly the labelled chunks of one sentence, in order, and nothing else |
| `Preprocessing.TextTransformer.ExtractNamedEntities` | null_blog/blog/model/preprocessing.py:116-129 | the entity list only grows, by the labelled chunks of every sentence in order |
| `Preprocessing.TextTransformer.TransformAt` | null_blog/blog/model/preprocessing.py:50-55 | one loop pass replaces `X[i]` by `PipelineAgainst` of the old text and the registry it finds, which is its pipeline result, and changes no other text; it appends one registry entry and that text's entities |
| `Preprocessing.TextTransformer.Transform` | null_blog/blog/model/preprocessing.py:38-58 | `X` is returned, rewritten in place. Every text becomes its pipeline result. The registry grows by exactly `len(X)` entries, one hapax list per text in order. The entities of each result are appended in order. The stopwords and the stemmer are untouched. Without a stopword list the call fails on a nonempty `X`, with the registry, the entities and the texts after the first unchanged |
| `NlpModel.Model.constructor` | null_blog/blog/model/nlp_model.py:10 | the shared transformer has a stopword list, and its registry and entity list start empty |
| `NlpModel.Model.IsOffensive` | null_blog/blog/model/nlp_model.py:18-28 | the prediction is the classifier's label for the text's pipeline result, independent of earlier requests; the registry grows by exactly one entry |
| `NlpModel.Model.IsOffensiveTwice` | null_blog/blog/model/nlp_model.py:18-28 | the same text gets the same verdict before and after another request, while the registry grows by one entry per call |
| `NlpModel.LetterlessVerdict` | null_blog/blog/model/nlp_model.py:26-28 | every text without an ASCII letter gets the verdict of the empty text |
| `Forms.PatternIsRules` | null_blog/blog/forms.py:8-11 | on a string not ending in a newline, `PatternMatches` (`passwordRegex`) accepts exactly: length 5 to 20, an `a`-`z`, a digit, and none of `:&.~` or whitespace |
| `Forms.PatternAcceptsFinalNewline` | null_blog/blog/forms.py:9 | `$` also matches before a final newline, so the pattern accepts `abc12` followed by a newline |
| `Forms.PatternNeedsLowercase` | null_blog/blog/forms.py:9-10 | capital letters do not satisfy the lowercase lookahead: `ABC12` is refused |
| `Forms.FirstLower` | null_blog/blog/forms.py:9 | an `a`-`z` anywhere satisfies the lookahead `(?=[^a-z]*[a-z])` |
| `Forms.FirstDigit` | null_blog/blog/forms.py:9 | a digit anywhere satisfies the lookahead `(?=\D*\d)` |
| `Forms.StripStart` | null_blog/blog/forms.py:19 | `str.lstrip` leaves a suffix of the input that does not start with whitespace, having cut only whitespace |
| `Forms.StripEnd` | null_blog/blog/forms.py:19 | `str.rstrip` leaves a prefix of the input that does not end with whitespace, having cut only whitespace |
| `Forms.StripSpec` | null_blog/blog/forms.py:19 | `Strip` (`str.strip()`) gives a slice of the input with no whitespace at either end, and only whitespace was cut |
| `Forms.StripFixes` | null_blog/blog/forms.py:19 | text with no whitespace at either end strips to itself |
| `Forms.StripIdempotent` | null_blog/blog/forms.py:19 | stripping twice is stripping once |
| `Forms.CleanFieldSpec` | null_blog/blog/forms.py:19-24 | `CleanField` (`CharField.clean`): a cleaned value is nonempty, within its cap, free of NUL and surrounding whitespace, and cleans to itself |
| `Forms.CleanFieldIgnoresSurroundingSpace` | null_blog/blog/forms.py:19-24 | a submission and its stripped form clean alike |
| `Forms.CleanPasswordIsRules` | null_blog/blog/forms.py:20 | `CleanPassword`: a password is accepted exactly when its stripped form keeps the rules and holds no NUL, and the value is the stripped form; the cap of 64 never decides |
| `Forms.StrippedPassword` | null_blog/blog/forms.py:20 | on a value without trailing whitespace, being present, within 64 characters, NUL-free and matching the pattern is exactly keeping the rules without a NUL |
| `Forms.AuthFormSpec` | null_blog/blog/forms.py:18-20 | `CleanAuthForm`: the login form accepts exactly a present username of at most 64 characters without a NUL, and a password that keeps the rules without a NUL, both taken stripped |
| `Forms.PostFormSpec` | null_blog/blog/forms.py:22-24 | `CleanPostForm`: the text fields of a post are accepted exactly when its stripped title has 1 to 64 characters and its stripped content 1 to 2048, neither holding a NUL; the values are the stripped ones |
| `Forms.CommentFormSpec` | null_blog/blog/forms.py:32-33 | `CleanCommentForm`: a comment is accepted exactly when its stripped form has 1 to 256 characters and no NUL; the value is the stripped form |

## Left out

- NLTK's `word_tokenize` is modelled as splitting on spaces. Every call in the pipeline receives normal-form text. There the two agree, except that the Treebank tokenizer also splits a few words, such as `cannot` into `can not` and `gonna` into `gon na`. The model does not split them.
- `sent_tokenize`, `pos_tag` and `ne_chunk` are not modelled. They are function parameters of the transformer.
- The Porter stemmer and the English stopword corpus are parameters.
- The classifier loaded with `joblib` from `model.pkl`, and the path it is loaded from, are left out. The classifier is a parameter `predict` from a preprocessed text to 0 or 1.
- `Text.Lower`: only maps `A`-`Z`. Python's `str.lower` also turns a few non-ASCII characters into ASCII letters (the Kelvin sign, capital I with a dot above). The model drops those characters instead.
- `Forms.PatternIsRules`: `\d` is taken as the ASCII digits. Python also accepts every other Unicode decimal digit there.
- `Preprocessing.TextTransformer.Transform`: when the transformer has no stopword list, Python raises after setting `X[0]` to `None`. The model reports the failure as `ok == false` and leaves `X[0]` unspecified, because a `string` array cannot hold `None`.
- The unused `y` arguments of `fit` and `transform` are left out. The return value of `transform` is the array itself.
- Concurrent requests sharing the one transformer are not modelled. Calls are sequential.
- Django's error messages are not modelled; cleaning is modelled only as accepted or refused.
- `Forms.PostFormSpec`: `PostForm.image` (an `ImageField`, `forms.py:25`) is required, so the real form also refuses a post without a valid uploaded image. The model leaves the image field out and does not capture that refusal. Its acceptance condition covers the title and content fields only.
- The widgets, labels and model binding of the forms are not modelled.
- `views.py`, `models.py` and `urls.py` are not part of this model.
