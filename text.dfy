/** Character classes and the string operations the preprocessing steps are built from:
    ASCII lowercasing, Python's `str.replace`, `re.findall` of a character class,
    `' '.join` and space tokenisation. */
module Text {

  predicate IsAsciiUpper(c: char) { 'A' <= c <= 'Z' }

  predicate IsAsciiLower(c: char) { 'a' <= c <= 'z' }

  /** The character classes the preprocessing steps test characters against. */
  datatype CharClass =
    | Letter        // the regular-expression class `[a-zA-Z]`
    | NonSpace      // everything but a single space: what the tokeniser keeps
    | Lowercase     // `a`-`z`
    | LowerOrSpace  // `a`-`z` or a space
    | NonUpper      // everything but `A`-`Z`
    | NonLetter     // everything but `[a-zA-Z]`

  predicate In(k: CharClass, c: char)
  {
    match k
    case Letter => IsAsciiUpper(c) || IsAsciiLower(c)
    case NonSpace => c != ' '
    case Lowercase => IsAsciiLower(c)
    case LowerOrSpace => IsAsciiLower(c) || c == ' '
    case NonUpper => !IsAsciiUpper(c)
    case NonLetter => !IsAsciiUpper(c) && !IsAsciiLower(c)
  }

  function LowerChar(c: char): (d: char)
    ensures !IsAsciiUpper(d)
    ensures IsAsciiUpper(c) ==> IsAsciiLower(d) && d as int == c as int + 32
    ensures !IsAsciiUpper(c) ==> d == c
  {
    if IsAsciiUpper(c) then (c as int + 32) as char else c
  }

  /** `str.lower`, restricted to ASCII letters. */
  function Lower(s: string): (r: string)
    ensures |r| == |s|
    ensures forall i :: 0 <= i < |r| ==> !IsAsciiUpper(r[i])
    ensures forall i :: 0 <= i < |s| && !IsAsciiUpper(s[i]) ==> r[i] == s[i]
    ensures forall i :: 0 <= i < |s| && IsAsciiUpper(s[i]) ==> r[i] as int == s[i] as int + 32
  {
    if s == [] then [] else [LowerChar(s[0])] + Lower(s[1..])
  }

  /** Python's `s.replace(pat, rep)`: scan left to right, replacing every
      non-overlapping occurrence of `pat`. */
  function ReplaceAll(s: string, pat: string, rep: string): string
    requires |pat| > 0
    decreases |s|
  {
    if |s| < |pat| then s
    else if s[..|pat|] == pat then rep + ReplaceAll(s[|pat|..], pat, rep)
    else [s[0]] + ReplaceAll(s[1..], pat, rep)
  }

  /** Length of the longest prefix of `s` whose characters satisfy `p`. */
  function LeadRun(s: string, p: CharClass): (k: nat)
    ensures k <= |s|
    ensures forall i :: 0 <= i < k ==> In(p, s[i])
    ensures k < |s| ==> !In(p, s[k])
  {
    if s == [] || !In(p, s[0]) then 0 else 1 + LeadRun(s[1..], p)
  }

  /** The maximal runs of characters satisfying `p`, left to right:
      `re.findall('[a-zA-Z]+', s)` is `Runs(s, Letter)`, and splitting on
      spaces is `Runs(s, NonSpace)`. */
  function Runs(s: string, p: CharClass): (ws: seq<string>)
    ensures forall w :: w in ws ==> w != [] && forall c :: c in w ==> In(p, c)
    decreases |s|
  {
    if s == [] then []
    else if !In(p, s[0]) then Runs(s[1..], p)
    else
      var k := LeadRun(s, p);
      [s[..k]] + Runs(s[k..], p)
  }

  /** Python's `' '.join(ws)`. */
  function Join(ws: seq<string>): string
  {
    if ws == [] then ""
    else if |ws| == 1 then ws[0]
    else ws[0] + " " + Join(ws[1..])
  }

  /** The tokeniser used on normalised text: split on single spaces, dropping empty pieces. */
  function Tokenize(s: string): seq<string>
  {
    Runs(s, NonSpace)
  }

  /** Every character of `s` satisfies `q`. */
  predicate AllChars(s: string, q: CharClass)
  {
    forall i :: 0 <= i < |s| ==> In(q, s[i])
  }

  /** A list of words that `' '.join` can be undone on: no word is empty and no word
      contains anything but lowercase ASCII letters. */
  predicate AreWords(ws: seq<string>)
  {
    forall i :: 0 <= i < |ws| ==> ws[i] != [] && AllChars(ws[i], Lowercase)
  }

  /** Positions `i` and `i + 1` of `s` both hold a space. */
  predicate DoubleSpaceAt(s: string, i: int)
  {
    0 <= i < |s| - 1 && s[i] == ' ' && s[i + 1] == ' '
  }

  /** Normal form of text: only `a`-`z` and single spaces between words, no space at
      either end. */
  predicate IsNormalized(s: string)
  {
    AllChars(s, LowerOrSpace) &&
    (|s| > 0 ==> s[0] != ' ' && s[|s| - 1] != ' ') &&
    (forall i :: 0 <= i < |s| ==> !DoubleSpaceAt(s, i))
  }

  // ---------------------------------------------------------------------------
  // Lemmas

  lemma AppendAssoc<T>(a: seq<T>, b: seq<T>, c: seq<T>)
    ensures (a + b) + c == a + (b + c)
  {
  }

  /** Lowercasing leaves text without ASCII capitals unchanged. */
  lemma LowerNoUpper(s: string)
    requires AllChars(s, NonUpper)
    ensures Lower(s) == s
  {
  }

  /** A text without a character of class `p` has no runs of it. */
  lemma {:induction false} RunsAbsent(s: string, p: CharClass)
    requires forall i :: 0 <= i < |s| ==> !In(p, s[i])
    ensures Runs(s, p) == []
    decreases |s|
  {
    if s != [] {
      RunsAbsent(s[1..], p);
    }
  }

  /** `ReplaceAll` changes nothing when the pattern's first character never occurs. */
  lemma {:induction false} ReplaceAbsent(s: string, pat: string, rep: string)
    requires |pat| > 0
    requires forall i :: 0 <= i < |s| ==> s[i] != pat[0]
    ensures ReplaceAll(s, pat, rep) == s
    decreases |s|
  {
    if |s| >= |pat| {
      assert s[..|pat|][0] == s[0];
      ReplaceAbsent(s[1..], pat, rep);
    }
  }

  /** A prefix without the pattern's first character is copied unchanged by `ReplaceAll`. */
  lemma {:induction false} ReplaceAfterFree(u: string, t: string, pat: string, rep: string)
    requires |pat| > 0
    requires forall i :: 0 <= i < |u| ==> u[i] != pat[0]
    ensures ReplaceAll(u + t, pat, rep) == u + ReplaceAll(t, pat, rep)
    decreases |u|
  {
    if u != [] {
      var s := u + t;
      if |s| >= |pat| {
        assert s[..|pat|][0] == u[0];
        assert ReplaceAll(s, pat, rep) == [u[0]] + ReplaceAll(s[1..], pat, rep);
        assert s[1..] == u[1..] + t;
        ReplaceAfterFree(u[1..], t, pat, rep);
        assert [u[0]] + u[1..] == u;
        AppendAssoc([u[0]], u[1..], ReplaceAll(t, pat, rep));
      } else {
        assert ReplaceAll(t, pat, rep) == t;
      }
    } else {
      assert u + t == t;
    }
  }

  /** `r` holds the two-character sequence `pat` nowhere. */
  predicate NoPairOf(r: string, pat: string)
    requires |pat| == 2
  {
    forall i :: 0 <= i < |r| - 1 ==> !(r[i] == pat[0] && r[i + 1] == pat[1])
  }

  /** The first character `ReplaceAll` writes: the replacement's when the text starts
      with the pattern, the text's own otherwise. */
  lemma ReplaceHead(s: string, pat: string, rep: string)
    requires |pat| > 0 && rep != [] && s != []
    ensures ReplaceAll(s, pat, rep) != []
    ensures ReplaceAll(s, pat, rep)[0] ==
      if |s| >= |pat| && s[..|pat|] == pat then rep[0] else s[0]
  {
  }

  /** Replacing a two-character pattern by a nonempty text that shares no character
      with it leaves no occurrence of the pattern: after `.replace(r'\n', ' ')` no
      backslash-n is left. */
  lemma {:induction false} ReplaceLeavesNoPattern(s: string, pat: string, rep: string)
    requires |pat| == 2 && rep != []
    requires forall i :: 0 <= i < |rep| ==> rep[i] != pat[0] && rep[i] != pat[1]
    ensures NoPairOf(ReplaceAll(s, pat, rep), pat)
    decreases |s|
  {
    var r := ReplaceAll(s, pat, rep);
    if |s| < 2 {
    } else if s[..2] == pat {
      var t := ReplaceAll(s[2..], pat, rep);
      ReplaceLeavesNoPattern(s[2..], pat, rep);
      assert r == rep + t;
      forall i | 0 <= i < |r| - 1 ensures !(r[i] == pat[0] && r[i + 1] == pat[1]) {
        if i < |rep| {
          assert r[i] == rep[i];
        } else {
          assert r[i] == t[i - |rep|] && r[i + 1] == t[i + 1 - |rep|];
        }
      }
    } else {
      var t := ReplaceAll(s[1..], pat, rep);
      ReplaceLeavesNoPattern(s[1..], pat, rep);
      assert r == [s[0]] + t;
      ReplaceHead(s[1..], pat, rep);
      assert s[1..][0] == s[1];
      forall i | 0 <= i < |r| - 1 ensures !(r[i] == pat[0] && r[i + 1] == pat[1]) {
        if i > 0 {
          assert r[i] == t[i - 1] && r[i + 1] == t[i];
        }
      }
    }
  }

  /** Lowercase words are made of letters. */
  lemma LowercaseIsLetters(w: string)
    requires AllChars(w, Lowercase)
    ensures AllChars(w, Letter) && AllChars(w, NonUpper)
  {
  }

  /** If both the text and the replacement only hold characters satisfying `q`, so does the result. */
  lemma {:induction false} ReplaceAllKeeps(s: string, pat: string, rep: string, q: CharClass)
    requires |pat| > 0
    requires AllChars(s, q) && AllChars(rep, q)
    ensures AllChars(ReplaceAll(s, pat, rep), q)
    decreases |s|
  {
    if |s| < |pat| {
    } else if s[..|pat|] == pat {
      ReplaceAllKeeps(s[|pat|..], pat, rep, q);
    } else {
      ReplaceAllKeeps(s[1..], pat, rep, q);
    }
  }

  /** Every run found in a text whose characters satisfy `q` also only holds characters satisfying `q`. */
  lemma {:induction false} RunsKeep(s: string, p: CharClass, q: CharClass)
    requires AllChars(s, q)
    ensures forall w :: w in Runs(s, p) ==> AllChars(w, q)
    decreases |s|
  {
    if s == [] {
    } else if !In(p, s[0]) {
      RunsKeep(s[1..], p, q);
    } else {
      var k := LeadRun(s, p);
      RunsKeep(s[k..], p, q);
      assert Runs(s, p) == [s[..k]] + Runs(s[k..], p);
    }
  }

  /** The leading run of `w + t` is exactly `w` when `w` satisfies `p` and `t` does not start with it. */
  lemma {:induction false} LeadRunOfConcat(w: string, t: string, p: CharClass)
    requires AllChars(w, p)
    requires t == [] || !In(p, t[0])
    ensures LeadRun(w + t, p) == |w|
    decreases |w|
  {
    if w != [] {
      assert (w + t)[1..] == w[1..] + t;
      LeadRunOfConcat(w[1..], t, p);
    }
  }

  /** `Join` of a list of nonempty words is empty exactly when the list is. */
  lemma JoinEmpty(ws: seq<string>)
    requires forall i :: 0 <= i < |ws| ==> ws[i] != []
    ensures Join(ws) == [] <==> ws == []
  {
    if |ws| > 1 {
      assert |Join(ws)| >= |ws[0]| + 1;
    }
  }

  /** The first character of a nonempty join is the first character of the first word. */
  lemma JoinHead(ws: seq<string>)
    requires |ws| > 0 && ws[0] != []
    ensures Join(ws) != [] && Join(ws)[0] == ws[0][0]
  {
  }

  /** A run `w` followed by a character outside the class: the runs are `w`, then those
      after that character. */
  lemma RunsOfRunThen(w: string, t: string, p: CharClass)
    requires w != [] && AllChars(w, p)
    requires t != [] && !In(p, t[0])
    ensures Runs(w + t, p) == [w] + Runs(t[1..], p)
  {
    LeadRunOfConcat(w, t, p);
    var s := w + t;
    assert In(p, s[0]);
    assert s[..|w|] == w;
    assert s[|w|..] == t;
  }

  /** Round trip: splitting a joined list of runs gives the list back. */
  lemma {:induction false} RunsOfJoin(ws: seq<string>, p: CharClass)
    requires forall i :: 0 <= i < |ws| ==> ws[i] != [] && AllChars(ws[i], p)
    requires !In(p, ' ')
    ensures Runs(Join(ws), p) == ws
  {
    if ws == [] {
    } else if |ws| == 1 {
      var w := ws[0];
      LeadRunOfConcat(w, [], p);
      assert w + [] == w;
      assert w[..|w|] == w && w[|w|..] == [];
    } else {
      var t := " " + Join(ws[1..]);
      assert Join(ws) == ws[0] + t;
      RunsOfRunThen(ws[0], t, p);
      assert t[1..] == Join(ws[1..]);
      RunsOfJoin(ws[1..], p);
    }
  }

  /** Joining words gives text in normal form. */
  lemma {:induction false} JoinIsNormalized(ws: seq<string>)
    requires AreWords(ws)
    ensures IsNormalized(Join(ws))
  {
    if ws == [] {
    } else if |ws| == 1 {
      var w := ws[0];
      assert AllChars(w, Lowercase);
      forall i ensures !DoubleSpaceAt(w, i) {
        if 0 <= i < |w| - 1 { assert IsAsciiLower(w[i]); }
      }
    } else {
      var w, rest := ws[0], ws[1..];
      assert AllChars(w, Lowercase);
      JoinIsNormalized(rest);
      var j := Join(rest);
      JoinEmpty(rest);
      JoinHead(rest);
      var s := w + " " + j;
      assert Join(ws) == s;
      forall i
        ensures !DoubleSpaceAt(s, i)
      {
        if 0 <= i < |w| {
          assert s[i] == w[i];
        } else if i == |w| {
          assert s[i + 1] == j[0];
        } else if |w| < i < |s| - 1 {
          assert s[i] == j[i - |w| - 1] && s[i + 1] == j[i - |w|];
          assert !DoubleSpaceAt(j, i - |w| - 1);
        }
      }
      forall i | 0 <= i < |s|
        ensures IsAsciiLower(s[i]) || s[i] == ' '
      {
        if i < |w| {
          assert s[i] == w[i];
        } else if i > |w| {
          assert s[i] == j[i - |w| - 1];
        }
      }
    }
  }

  /** After the first word of normal-form text comes one space and more normal-form text. */
  lemma NormalizedTail(s: string, k: nat)
    requires IsNormalized(s)
    requires 0 < k < |s| && s[k] == ' '
    ensures k + 1 < |s| && s[k + 1] != ' '
    ensures IsNormalized(s[k + 1..])
  {
    assert !DoubleSpaceAt(s, k);
    var t := s[k + 1..];
    forall i | 0 <= i < |t| ensures !DoubleSpaceAt(t, i) {
      if i < |t| - 1 {
        assert t[i] == s[k + 1 + i] && t[i + 1] == s[k + 2 + i];
        assert !DoubleSpaceAt(s, k + 1 + i);
      }
    }
    forall i | 0 <= i < |t| ensures In(LowerOrSpace, t[i]) {
      assert t[i] == s[k + 1 + i];
    }
  }

  /** Tokenising text that starts with a run `w` and continues with a space and `t`. */
  lemma TokenizeStep(s: string, k: nat)
    requires 0 < k < |s| && k == LeadRun(s, NonSpace)
    ensures Tokenize(s) == [s[..k]] + Tokenize(s[k + 1..])
  {
    assert In(NonSpace, s[0]);
    assert Runs(s, NonSpace) == [s[..k]] + Runs(s[k..], NonSpace);
    var t := s[k..];
    assert t[0] == s[k] && !In(NonSpace, t[0]);
    assert t[1..] == s[k + 1..];
    assert Runs(t, NonSpace) == Runs(t[1..], NonSpace);
  }

  /** The first token of nonempty normal-form text is a lowercase word. */
  lemma FirstWord(s: string)
    requires IsNormalized(s) && s != []
    ensures 0 < LeadRun(s, NonSpace)
    ensures AllChars(s[..LeadRun(s, NonSpace)], Lowercase)
  {
    var k := LeadRun(s, NonSpace);
    var w := s[..k];
    forall i | 0 <= i < |w| ensures IsAsciiLower(w[i]) {
      assert w[i] == s[i];
    }
  }

  /** Normal-form text without a space is its own only token. */
  lemma SingleToken(s: string)
    requires s != [] && LeadRun(s, NonSpace) == |s|
    ensures Tokenize(s) == [s]
  {
    assert In(NonSpace, s[0]);
    assert s[|s|..] == [] && s[..|s|] == s;
    assert Runs(s, NonSpace) == [s[..|s|]] + Runs(s[|s|..], NonSpace);
  }

  /** Normal-form text is made of words: it is the join of its own tokens. */
  lemma {:induction false} NormalizedIsJoin(s: string)
    requires IsNormalized(s)
    ensures AreWords(Tokenize(s))
    ensures Join(Tokenize(s)) == s
    decreases |s|
  {
    if s != [] {
      FirstWord(s);
      var k := LeadRun(s, NonSpace);
      if k == |s| {
        SingleToken(s);
      } else {
        NormalizedTail(s, k);
        NormalizedIsJoin(s[k + 1..]);
        WordThenTokens(s, k);
      }
    }
  }

  /** A first word, a space and text that is the join of its words: the whole text is
      the join of its words too. */
  lemma WordThenTokens(s: string, k: nat)
    requires 0 < k < |s| - 1 && k == LeadRun(s, NonSpace)
    requires AllChars(s[..k], Lowercase) && s[k + 1] != ' '
    requires AreWords(Tokenize(s[k + 1..])) && Join(Tokenize(s[k + 1..])) == s[k + 1..]
    ensures AreWords(Tokenize(s))
    ensures Join(Tokenize(s)) == s
  {
    var w, t := s[..k], s[k + 1..];
    TokenizeStep(s, k);
    var ts := Tokenize(t);
    JoinEmpty(ts);
    AreWordsCons(w, ts);
    JoinCons(w, ts);
    SplitAtSpace(s, k);
  }

  /** Text around a space is the text before it, the space and the text after it. */
  lemma SplitAtSpace(s: string, k: nat)
    requires k < |s| && s[k] == ' '
    ensures s[..k] + " " + s[k + 1..] == s
  {
    assert s[..k] + " " == s[..k + 1];
  }

  /** A word in front of a list of words. */
  lemma AreWordsCons(w: string, ws: seq<string>)
    requires w != [] && AllChars(w, Lowercase) && AreWords(ws)
    ensures AreWords([w] + ws)
  {
    var vs := [w] + ws;
    forall i | 0 <= i < |vs| ensures vs[i] != [] && AllChars(vs[i], Lowercase) {
      if i > 0 { assert vs[i] == ws[i - 1]; }
    }
  }

  /** Joining a word in front of a nonempty list puts one space after it. */
  lemma JoinCons(w: string, ws: seq<string>)
    requires ws != []
    ensures Join([w] + ws) == w + " " + Join(ws)
  {
    assert ([w] + ws)[1..] == ws;
  }
}
