/** The blog's input forms: Django `CharField` cleaning (strip, required, length cap,
    no NUL character) and the password pattern
    `^(?=[^a-z]*[a-z])(?=\D*\d)[^:&.~\s]{5,20}$` applied with `re.search`. */
module Forms {
  import opened Wrappers

  // ---------------------------------------------------------------------------
  // Characters

  /** Python's `str.isspace` (also what `\s` matches in a `str` pattern). */
  predicate IsPySpace(c: char)
  {
    var n := c as int;
    (9 <= n <= 13) || (28 <= n <= 32) || n == 0x85 || n == 0xA0 || n == 0x1680 ||
    (0x2000 <= n <= 0x200A) || n == 0x2028 || n == 0x2029 || n == 0x202F ||
    n == 0x205F || n == 0x3000
  }

  /** `[a-z]` */
  predicate IsLower(c: char) { 'a' <= c <= 'z' }

  /** `\d`, restricted to ASCII digits. */
  predicate IsDigit(c: char) { '0' <= c <= '9' }

  /** `[^:&.~\s]`: the characters a password may hold. */
  predicate Allowed(c: char)
  {
    c != ':' && c != '&' && c != '.' && c != '~' && !IsPySpace(c)
  }

  // ---------------------------------------------------------------------------
  // The password pattern, construct by construct

  /** Every character of `s` satisfies `Allowed`. */
  predicate AllAllowed(s: string)
  {
    forall i :: 0 <= i < |s| ==> Allowed(s[i])
  }

  /** `(?=[^a-z]*[a-z])` at the start: some prefix free of `a`-`z` is followed by an `a`-`z`. */
  predicate LowerAhead(s: string)
  {
    exists k :: 0 <= k < |s| && IsLower(s[k]) && (forall j :: 0 <= j < k ==> !IsLower(s[j]))
  }

  /** `(?=\D*\d)` at the start: some prefix free of digits is followed by a digit. */
  predicate DigitAhead(s: string)
  {
    exists k :: 0 <= k < |s| && IsDigit(s[k]) && (forall j :: 0 <= j < k ==> !IsDigit(s[j]))
  }

  /** `$` at position `n` (no MULTILINE flag): the end of the string, or just before a
      newline that ends it. */
  predicate EndAt(s: string, n: nat)
  {
    n == |s| || (n + 1 == |s| && s[n] == '\n')
  }

  /** `[^:&.~\s]{5,20}$` from position 0: the first `n` characters, for some count
      from 5 to 20, are allowed ones and `$` matches after them. */
  predicate BodyMatches(s: string)
  {
    exists n :: 5 <= n <= 20 && n <= |s| && AllAllowed(s[..n]) && EndAt(s, n)
  }

  /** `passwordRegex`: `re.search` of the pattern. `^` without MULTILINE only matches
      at position 0, and both lookaheads look from there. */
  predicate PatternMatches(s: string)
  {
    LowerAhead(s) && DigitAhead(s) && BodyMatches(s)
  }

  /** The rules the pattern is meant to enforce, as its error message and the
      character class state them. */
  predicate PasswordRules(s: string)
  {
    5 <= |s| <= 20 &&
    (exists i :: 0 <= i < |s| && IsLower(s[i])) &&
    (exists i :: 0 <= i < |s| && IsDigit(s[i])) &&
    AllAllowed(s)
  }

  /** An `a`-`z` anywhere makes the lookahead succeed: the first one ends `[^a-z]*[a-z]`. */
  lemma FirstLower(s: string, i: nat)
    requires i < |s| && IsLower(s[i])
    ensures LowerAhead(s)
    decreases i
  {
    if exists j :: 0 <= j < i && IsLower(s[j]) {
      var j :| 0 <= j < i && IsLower(s[j]);
      FirstLower(s, j);
    }
  }

  /** A digit anywhere makes the lookahead succeed: the first one ends `\D*\d`. */
  lemma FirstDigit(s: string, i: nat)
    requires i < |s| && IsDigit(s[i])
    ensures DigitAhead(s)
    decreases i
  {
    if exists j :: 0 <= j < i && IsDigit(s[j]) {
      var j :| 0 <= j < i && IsDigit(s[j]);
      FirstDigit(s, j);
    }
  }

  /** On a string that does not end in a newline the pattern is exactly the rules:
      length 5 to 20, an `a`-`z`, a digit, and none of `:`, `&`, `.`, `~` or whitespace. */
  lemma PatternIsRules(s: string)
    requires s == [] || s[|s| - 1] != '\n'
    ensures PatternMatches(s) <==> PasswordRules(s)
  {
    if PatternMatches(s) {
      var n :| 5 <= n <= 20 && n <= |s| && AllAllowed(s[..n]) && EndAt(s, n);
      assert n == |s|;
      assert s[..n] == s;
    }
    if PasswordRules(s) {
      var i :| 0 <= i < |s| && IsLower(s[i]);
      FirstLower(s, i);
      var d :| 0 <= d < |s| && IsDigit(s[d]);
      FirstDigit(s, d);
      assert s[..|s|] == s;
      assert EndAt(s, |s|);
    }
  }

  /** `$` also matches before a final newline, so the pattern accepts `"abc12\n"`,
      six characters one of which is whitespace. */
  lemma PatternAcceptsFinalNewline()
    ensures PatternMatches("abc12\n")
    ensures !PasswordRules("abc12\n")
  {
    var s := "abc12\n";
    assert IsLower(s[0]);
    FirstLower(s, 0);
    assert IsDigit(s[3]);
    FirstDigit(s, 3);
    assert EndAt(s, 5);
    assert AllAllowed(s[..5]);
    assert !Allowed(s[5]);
  }

  /** Capital letters do not stand in for the required `a`-`z`: `ABC12` is refused. */
  lemma PatternNeedsLowercase()
    ensures !PatternMatches("ABC12")
  {
    var s := "ABC12";
    forall k | 0 <= k < |s| ensures !IsLower(s[k]) {
    }
  }

  // ---------------------------------------------------------------------------
  // `CharField` cleaning

  /** `str.strip()`: leading whitespace removed. */
  function StripStart(s: string): (r: string)
    ensures r == [] || !IsPySpace(r[0])
    ensures |r| <= |s| && r == s[|s| - |r|..]
    ensures forall i :: 0 <= i < |s| - |r| ==> IsPySpace(s[i])
  {
    if s != [] && IsPySpace(s[0]) then StripStart(s[1..]) else s
  }

  /** `str.strip()`: trailing whitespace removed. */
  function StripEnd(s: string): (r: string)
    ensures r == [] || !IsPySpace(r[|r| - 1])
    ensures |r| <= |s| && r == s[..|r|]
    ensures forall i :: |r| <= i < |s| ==> IsPySpace(s[i])
  {
    if s != [] && IsPySpace(s[|s| - 1]) then StripEnd(s[..|s| - 1]) else s
  }

  /** `str.strip()` with no argument: whitespace removed from both ends. */
  function Strip(s: string): (r: string)
  {
    StripEnd(StripStart(s))
  }

  /** `r` is the slice of `s` starting at `a`, and everything of `s` outside it is whitespace. */
  predicate TrimmedAt(s: string, r: string, a: int)
  {
    0 <= a <= |s| - |r| && r == s[a..a + |r|] &&
    (forall i :: 0 <= i < a ==> IsPySpace(s[i])) &&
    (forall i :: a + |r| <= i < |s| ==> IsPySpace(s[i]))
  }

  /** Stripped text neither starts nor ends with whitespace; it is a slice of the input
      and everything cut off on either side is whitespace. */
  lemma StripSpec(s: string)
    ensures var r := Strip(s);
      (r == [] || (!IsPySpace(r[0]) && !IsPySpace(r[|r| - 1]))) &&
      exists a :: TrimmedAt(s, r, a)
  {
    var t := StripStart(s);
    var r := StripEnd(t);
    TrimTwice(s, t, r);
  }

  /** Cutting whitespace off the front of `s` to get `t`, then off the back of `t` to
      get `r`, leaves `r` trimmed out of `s` at the length cut first. */
  lemma TrimTwice(s: string, t: string, r: string)
    requires |t| <= |s| && t == s[|s| - |t|..]
    requires forall i :: 0 <= i < |s| - |t| ==> IsPySpace(s[i])
    requires |r| <= |t| && r == t[..|r|]
    requires forall i :: |r| <= i < |t| ==> IsPySpace(t[i])
    requires t == [] || !IsPySpace(t[0])
    requires r == [] || !IsPySpace(r[|r| - 1])
    ensures r == [] || (!IsPySpace(r[0]) && !IsPySpace(r[|r| - 1]))
    ensures TrimmedAt(s, r, |s| - |t|)
  {
    if r != [] {
      assert r[0] == t[0];
    }
    var a := |s| - |t|;
    assert r == s[a..a + |r|];
    forall i | a + |r| <= i < |s| ensures IsPySpace(s[i]) {
      assert s[i] == t[i - a];
    }
  }

  /** Text with no whitespace at either end strips to itself. */
  lemma StripFixes(s: string)
    requires s == [] || (!IsPySpace(s[0]) && !IsPySpace(s[|s| - 1]))
    ensures Strip(s) == s
  {
  }

  /** Stripping is idempotent. */
  lemma StripIdempotent(s: string)
    ensures Strip(Strip(s)) == Strip(s)
  {
    StripSpec(s);
    StripFixes(Strip(s));
  }

  /** No NUL character: what Django's `ProhibitNullCharactersValidator` asks of every `CharField`. */
  predicate NoNul(s: string)
  {
    forall i :: 0 <= i < |s| ==> s[i] != 0 as char
  }

  /** What `CharField(max_length=maxLength).clean` leaves of a submitted string:
      strip it; an empty result is a missing required value; a result over the cap or
      holding a NUL character is refused; otherwise the stripped text is the value. */
  function CleanField(raw: string, maxLength: nat): (r: Option<string>)
  {
    var v := Strip(raw);
    if v == [] || |v| > maxLength || !NoNul(v) then None
    else Some(v)
  }

  /** A cleaned value is nonempty, within the cap, free of NUL and of whitespace at
      either end, and cleaning it again gives it back. */
  lemma CleanFieldSpec(raw: string, maxLength: nat)
    ensures var r := CleanField(raw, maxLength);
      r.Some? ==> 0 < |r.value| <= maxLength &&
                  !IsPySpace(r.value[0]) && !IsPySpace(r.value[|r.value| - 1]) &&
                  NoNul(r.value) &&
                  CleanField(r.value, maxLength) == r
  {
    var v := Strip(raw);
    StripSpec(raw);
    if CleanField(raw, maxLength).Some? {
      assert CleanField(raw, maxLength) == Some(v);
      StripFixes(v);
      assert CleanField(v, maxLength) == Some(v);
    }
  }

  /** Whitespace around a submission never matters: the raw text and its stripped
      form clean to the same result. */
  lemma CleanFieldIgnoresSurroundingSpace(raw: string, maxLength: nat)
    ensures CleanField(Strip(raw), maxLength) == CleanField(raw, maxLength)
  {
    StripIdempotent(raw);
  }

  // ---------------------------------------------------------------------------
  // The forms

  const UsernameMaxLength := 64
  const PasswordMaxLength := 64
  const TitleMaxLength := 64
  const PostContentMaxLength := 2048
  const CommentMaxLength := 256

  /** The `password` field of `AuthForm`: a capped `CharField` whose cleaned value must
      also match `passwordRegex`. */
  function CleanPassword(raw: string): (r: Option<string>)
  {
    var v := CleanField(raw, PasswordMaxLength);
    if v.Some? && PatternMatches(v.value) then v else None
  }

  /** A password is accepted exactly when its stripped form keeps the rules and holds
      no NUL; the length cap of 64 never decides anything, the pattern's 20 does. */
  lemma CleanPasswordIsRules(raw: string)
    ensures CleanPassword(raw).Some? <==>
      PasswordRules(Strip(raw)) && NoNul(Strip(raw))
    ensures CleanPassword(raw).Some? ==> CleanPassword(raw).value == Strip(raw)
  {
    var v := Strip(raw);
    assert v == [] || !IsPySpace(v[|v| - 1]);
    var c := CleanField(raw, PasswordMaxLength);
    assert c == (if v == [] || |v| > PasswordMaxLength || !NoNul(v) then None else Some(v));
    StrippedPassword(v);
    if c.Some? {
      assert CleanPassword(raw) == (if PatternMatches(v) then Some(v) else None);
    } else {
      assert CleanPassword(raw) == None;
    }
  }

  /** On a value with no whitespace at its end, the checks of the password field come
      down to the rules and the NUL check. */
  lemma StrippedPassword(v: string)
    requires v == [] || !IsPySpace(v[|v| - 1])
    ensures (v != [] && |v| <= PasswordMaxLength && NoNul(v) && PatternMatches(v)) <==>
            PasswordRules(v) && NoNul(v)
  {
    PatternIsRules(v);
  }

  datatype AuthData = AuthData(username: string, password: string)

  /** `AuthForm.is_valid()` with its `cleaned_data`. */
  function CleanAuthForm(username: string, password: string): (r: Option<AuthData>)
  {
    var u := CleanField(username, UsernameMaxLength);
    var p := CleanPassword(password);
    if u.Some? && p.Some? then Some(AuthData(u.value, p.value)) else None
  }

  /** The login form accepts exactly a present username of at most 64 characters and a
      password keeping the rules, both taken stripped. */
  lemma AuthFormSpec(username: string, password: string)
    ensures var r := CleanAuthForm(username, password);
      r.Some? <==> CleanField(username, UsernameMaxLength).Some? &&
                   PasswordRules(Strip(password)) &&
                   NoNul(Strip(password))
    ensures var r := CleanAuthForm(username, password);
      r.Some? ==> r.value.username == Strip(username) && r.value.password == Strip(password) &&
                  0 < |r.value.username| <= 64 && 5 <= |r.value.password| <= 20
  {
    CleanPasswordIsRules(password);
    CleanFieldSpec(username, UsernameMaxLength);
  }

  datatype PostData = PostData(title: string, content: string)

  /** The text fields of `PostForm`: a title of at most 64 and a content of at most
      2048 characters. */
  function CleanPostForm(title: string, content: string): (r: Option<PostData>)
  {
    var t := CleanField(title, TitleMaxLength);
    var c := CleanField(content, PostContentMaxLength);
    if t.Some? && c.Some? then Some(PostData(t.value, c.value)) else None
  }

  /** The text fields of a post are accepted exactly when the stripped title has 1 to 64
      characters and the stripped content 1 to 2048, neither holding a NUL; the values are
      the stripped ones. */
  lemma PostFormSpec(title: string, content: string)
    ensures CleanPostForm(title, content).Some? <==>
      0 < |Strip(title)| <= 64 && NoNul(Strip(title)) &&
      0 < |Strip(content)| <= 2048 && NoNul(Strip(content))
    ensures var r := CleanPostForm(title, content);
      r.Some? ==> r.value.title == Strip(title) && r.value.content == Strip(content) &&
                  0 < |r.value.title| <= 64 && 0 < |r.value.content| <= 2048
    ensures |Strip(title)| > 64 || |Strip(content)| > 2048 ==> CleanPostForm(title, content).None?
  {
    CleanFieldSpec(title, TitleMaxLength);
    CleanFieldSpec(content, PostContentMaxLength);
  }

  /** `CommentForm`: a comment of at most 256 characters. */
  function CleanCommentForm(content: string): (r: Option<string>)
  {
    CleanField(content, CommentMaxLength)
  }

  /** A comment is accepted exactly when its stripped form has 1 to 256 characters and
      no NUL; the value is the stripped form. */
  lemma CommentFormSpec(content: string)
    ensures var r := CleanCommentForm(content);
      r.Some? <==> 0 < |Strip(content)| <= 256 &&
                   NoNul(Strip(content))
    ensures var r := CleanCommentForm(content);
      r.Some? ==> r.value == Strip(content)
  {
  }
}
