/**
 * Input validation and sanitising for the user route: strip markup from a
 * string, and check the shape of an email address and of a display name.
 */
module Validation {
  import opened Wrappers
  import opened Js
  import opened Text

  const MaxSanitizedLength := 1000
  const MaxEmailLength := 254
  const MaxNameLength := 100

  /** The three global, case-insensitive deletions of `sanitizeString`, in order. */
  datatype Pattern =
      /** `<script\b` up to the first `</script>` after it. */
    | ScriptBlock
      /** `javascript:`. */
    | JavascriptProtocol
      /** `on`, one or more word characters, optional whitespace, `=`. */
    | EventHandler

  /** The first index at or after `from` where `pat` occurs under case folding, or -1. */
  function FindIgnoreCase(s: string, pat: string, from: nat): (k: int)
    requires from <= |s|
    ensures k == -1 || (from <= k && OccursIgnoreCaseAt(s, k, pat))
    ensures forall j | from <= j < (if k == -1 then |s| else k) :: !OccursIgnoreCaseAt(s, j, pat)
    decreases |s| - from
  {
    if from == |s| then (if OccursIgnoreCaseAt(s, from, pat) then from else -1)
    else if OccursIgnoreCaseAt(s, from, pat) then from
    else FindIgnoreCase(s, pat, from + 1)
  }

  /** The length of the longest prefix of `s` made of characters satisfying the class. */
  function WordRun(s: string): (n: nat)
    ensures n <= |s|
    ensures forall i | 0 <= i < n :: IsWordChar(s[i])
    ensures n < |s| ==> !IsWordChar(s[n])
  {
    if |s| > 0 && IsWordChar(s[0]) then 1 + WordRun(s[1..]) else 0
  }

  function SpaceRun(s: string): (n: nat)
    ensures n <= |s|
    ensures forall i | 0 <= i < n :: IsWhitespace(s[i])
    ensures n < |s| ==> !IsWhitespace(s[n])
  {
    if |s| > 0 && IsWhitespace(s[0]) then 1 + SpaceRun(s[1..]) else 0
  }

  /**
   * The length of the match of `p` starting at index 0 of `s`, or 0 when the
   * expression does not match there. Each expression has at most one match
   * at a given start: the script expression cannot run past the first
   * closing tag, and `\w+\s*=` can only end after the whole word and the
   * whole whitespace run.
   */
  function MatchLength(p: Pattern, s: string): (m: nat)
    ensures m <= |s|
    ensures m > 0 ==> KeyChar(p) in s
    ensures m > 0 && p.JavascriptProtocol? ==> m == 11
  {
    match p
    case ScriptBlock =>
      if OccursIgnoreCaseAt(s, 0, "<script") && (|s| == 7 || !IsWordChar(s[7])) then
        var j := FindIgnoreCase(s, "</script>", 7);
        if j < 0 then 0 else (FoldedSymbol(s, 0, "<script", 0); j + 9)
      else 0
    case JavascriptProtocol =>
      if OccursIgnoreCaseAt(s, 0, "javascript:") then (FoldedSymbol(s, 0, "javascript:", 10); 11) else 0
    case EventHandler =>
      if |s| >= 3 && OccursIgnoreCaseAt(s, 0, "on") && IsWordChar(s[2]) then
        var k := 2 + WordRun(s[2..]);
        var m := k + SpaceRun(s[k..]);
        if m < |s| && s[m] == '=' then m + 1 else 0
      else 0
  }

  /**
   * `s.replace(p, "")` with the `g` flag: scan left to right, delete each
   * match, resume after it. Text produced by a deletion is not rescanned.
   */
  function RemoveAll(p: Pattern, s: string): (r: string)
    ensures IsSubsequence(r, s)
    decreases |s|
  {
    if |s| == 0 then []
    else
      var m := MatchLength(p, s);
      if m > 0 then
        var rest := RemoveAll(p, s[m..]);
        SubsequenceOfSuffix(rest, s, m);
        rest
      else
        var rest := RemoveAll(p, s[1..]);
        SubsequenceCons(s[0], rest, s[1..]);
        assert [s[0]] + s[1..] == s;
        [s[0]] + rest
  }

  /** The character every match of `p` contains. */
  function KeyChar(p: Pattern): char {
    match p
    case ScriptBlock => '<'
    case JavascriptProtocol => ':'
    case EventHandler => '='
  }

  /** A non-letter of the pattern matches only itself. */
  lemma FoldedSymbol(s: string, i: nat, pat: string, k: nat)
    requires OccursIgnoreCaseAt(s, i, pat) && k < |pat| && !IsAsciiLetter(pat[k])
    ensures s[i + k] == pat[k] && pat[k] in s
  {
    assert LowerAscii(s[i + k]) == pat[k];
  }

  /** A deletion pass leaves alone a string that lacks its pattern's key character. */
  lemma {:induction false} RemoveAllWithoutKeyChar(p: Pattern, s: string)
    requires forall i | 0 <= i < |s| :: s[i] != KeyChar(p)
    ensures RemoveAll(p, s) == s
    decreases |s|
  {
    if |s| > 0 {
      assert MatchLength(p, s) == 0;
      RemoveAllWithoutKeyChar(p, s[1..]);
      assert [s[0]] + s[1..] == s;
    }
  }

  /** No character that any of the deletions needs. */
  predicate Plain(s: string) {
    forall i | 0 <= i < |s| :: s[i] != '<' && s[i] != ':' && s[i] != '='
  }

  /** `.slice(0, 1000)`. */
  function Truncate(s: string): (r: string)
    ensures |r| <= MaxSanitizedLength
    ensures |s| <= MaxSanitizedLength ==> r == s
    ensures IsSubsequence(r, s)
  {
    var n := if |s| <= MaxSanitizedLength then |s| else MaxSanitizedLength;
    InfixIsSubsequence(s, 0, n);
    assert s[0..n] == s[..n];
    s[..n]
  }

  /**
   * `sanitizeString`: "" for a non-string, otherwise trim, delete the three
   * patterns in order, and keep at most 1000 characters. Every step only
   * deletes, so the result is a subsequence of the trimmed input.
   */
  function SanitizeString(v: JsValue): (r: string)
    ensures !v.Str? ==> r == ""
    ensures |r| <= MaxSanitizedLength
    ensures v.Str? ==> IsSubsequence(r, Trim(v.s)) && |r| <= |Trim(v.s)|
  {
    if !v.Str? then ""
    else
      var t := Trim(v.s);
      var a := RemoveAll(ScriptBlock, t);
      var b := RemoveAll(JavascriptProtocol, a);
      var c := RemoveAll(EventHandler, b);
      var r := Truncate(c);
      SubsequenceTransitive(b, a, t);
      SubsequenceTransitive(c, b, t);
      SubsequenceTransitive(r, c, t);
      SubsequenceLength(r, t);
      r
  }

  /** Text with no `<`, `:` or `=` is only trimmed and truncated. */
  lemma SanitizePlain(s: string)
    requires Plain(s)
    ensures SanitizeString(Str(s)) == Truncate(Trim(s))
  {
    var t := Trim(s);
    PlainInfix(s, |s| - |TrimStart(s)|, t);
    DeletionsKeepPlain(t);
  }

  /** An infix of plain text is plain. */
  lemma PlainInfix(s: string, start: nat, t: string)
    requires Plain(s) && start + |t| <= |s| && t == s[start..start + |t|]
    ensures Plain(t)
  {
    assert forall i | 0 <= i < |t| :: t[i] == s[start + i];
  }

  /** None of the three deletions changes plain text. */
  lemma DeletionsKeepPlain(t: string)
    requires Plain(t)
    ensures RemoveAll(EventHandler, RemoveAll(JavascriptProtocol, RemoveAll(ScriptBlock, t))) == t
  {
    RemoveAllWithoutKeyChar(ScriptBlock, t);
    RemoveAllWithoutKeyChar(JavascriptProtocol, t);
    RemoveAllWithoutKeyChar(EventHandler, t);
  }

  /** Where the scan finds no match, it keeps the character and moves on. */
  lemma RemoveAllKeeps(p: Pattern, s: string)
    requires |s| > 0 && MatchLength(p, s) == 0
    ensures RemoveAll(p, s) == [s[0]] + RemoveAll(p, s[1..])
  {
  }

  /** The character at index 10 of a match is the colon; a letter there rules the match out. */
  lemma LetterAtColonMismatch(s: string)
    requires 10 < |s| && IsAsciiLetter(s[10])
    ensures MatchLength(JavascriptProtocol, s) == 0
  {
    if OccursIgnoreCaseAt(s, 0, "javascript:") {
      FoldedSymbol(s, 0, "javascript:", 10);
    }
  }

  /** Letters and colons: the characters any case variant of `javascript:` is made of. */
  predicate ProtocolChar(c: char) {
    IsAsciiLetter(c) || c == ':'
  }

  /** A case variant of `javascript:` has letters at 0..9 and the colon at 10. */
  lemma ProtocolVariantChars(h: string)
    requires |h| == 11 && OccursIgnoreCaseAt(h, 0, "javascript:")
    ensures forall k | 0 <= k < 10 :: IsAsciiLetter(h[k])
    ensures h[10] == ':'
  {
    var pat := "javascript:";
    forall k | 0 <= k < 10 ensures IsAsciiLetter(h[k]) {
      assert IsAsciiLetter(pat[k]);
      assert LowerAscii(h[k]) == pat[k];
    }
    FoldedSymbol(h, 0, pat, 10);
  }

  /** A letter at index 10 means no match here: the scan keeps the first character. */
  lemma KeepsFirstBeforeLetter(s: string)
    requires 10 < |s| && IsAsciiLetter(s[10])
    ensures RemoveAll(JavascriptProtocol, s) == [s[0]] + RemoveAll(JavascriptProtocol, s[1..])
  {
    LetterAtColonMismatch(s);
    RemoveAllKeeps(JavascriptProtocol, s);
  }

  /** `h` spliced into itself after its first character: `jjavascript:avascript:`. */
  function Splice(h: string): (s: string)
    requires |h| == 11
    ensures |s| == 22
    ensures s[0] == h[0]
    ensures forall i | 1 <= i < 12 :: s[i] == h[i - 1]
    ensures forall i | 12 <= i < 22 :: s[i] == h[i - 11]
    ensures s[1..] == h + h[1..]
  {
    [h[0]] + (h + h[1..])
  }

  /** The splice of a case variant of `javascript:` is made of letters and colons. */
  lemma SpliceChars(h: string)
    requires |h| == 11 && OccursIgnoreCaseAt(h, 0, "javascript:")
    ensures forall i | 0 <= i < 22 :: ProtocolChar(Splice(h)[i])
    ensures forall i | 0 <= i < 11 :: ProtocolChar(h[i])
  {
    var s := Splice(h);
    ProtocolVariantChars(h);
    forall i | 0 <= i < 22 ensures ProtocolChar(s[i]) {
      if i < 1 { assert s[i] == h[i]; }
      else if i < 12 { assert s[i] == h[i - 1]; }
      else { assert s[i] == h[i - 11]; }
    }
  }

  /** A match followed by fewer than 11 characters: only the match goes. */
  lemma MatchThenShortTail(h: string, t: string)
    requires |h| == 11 && OccursIgnoreCaseAt(h, 0, "javascript:") && |t| < 11
    ensures RemoveAll(JavascriptProtocol, h + t) == t
  {
    var s := h + t;
    assert OccursIgnoreCaseAt(s, 0, "javascript:") by {
      assert forall k | 0 <= k < 11 :: s[k] == h[k];
    }
    assert s[11..] == t;
    ShortTextHasNoProtocol(t);
  }

  /** The `javascript:` pass deletes only the inner copy and leaves `h`. */
  lemma ProtocolPassOnSplice(h: string)
    requires |h| == 11 && OccursIgnoreCaseAt(h, 0, "javascript:")
    ensures RemoveAll(JavascriptProtocol, Splice(h)) == h
  {
    var s := Splice(h);
    ProtocolVariantChars(h);
    KeepsFirstBeforeLetter(s);
    MatchThenShortTail(h, h[1..]);
    assert [s[0]] + h[1..] == h;
  }

  /**
   * The `javascript:` deletion is a single pass, so the output can still
   * hold the very text it deletes: for any case variant `h` of
   * `javascript:`, the splice `jjavascript:avascript:` sanitises to `h`.
   */
  lemma JavascriptRemovalIsSinglePass(h: string)
    requires |h| == 11 && OccursIgnoreCaseAt(h, 0, "javascript:")
    ensures SanitizeString(Str(Splice(h))) == h
  {
    var s := Splice(h);
    SpliceChars(h);
    assert !IsWhitespace(s[0]) && !IsWhitespace(s[21]) by {
      assert ProtocolChar(s[0]) && ProtocolChar(s[21]);
    }
    TrimNoop(s);
    RemoveAllWithoutKeyChar(ScriptBlock, s);
    ProtocolPassOnSplice(h);
    RemoveAllWithoutKeyChar(EventHandler, h);
  }

  /** Fewer than 11 characters hold no `javascript:`. */
  lemma {:induction false} ShortTextHasNoProtocol(s: string)
    requires |s| < 11
    ensures RemoveAll(JavascriptProtocol, s) == s
    decreases |s|
  {
    if |s| > 0 {
      ShortTextHasNoProtocol(s[1..]);
      assert [s[0]] + s[1..] == s;
    }
  }

  predicate IsLocalChar(c: char) {
    IsAsciiLetter(c) || IsAsciiDigit(c) || c == '.' || c == '_' || c == '%' || c == '+' || c == '-'
  }

  predicate IsDomainChar(c: char) {
    IsAsciiLetter(c) || IsAsciiDigit(c) || c == '.' || c == '-'
  }

  /** The first index of `c` in `s`, or -1. */
  function FirstIndexOf(s: string, c: char): (k: int)
    ensures -1 <= k < |s|
    ensures k >= 0 ==> s[k] == c
    ensures forall j | 0 <= j < |s| && (k < 0 || j < k) :: s[j] != c
  {
    if |s| == 0 then -1
    else if s[0] == c then 0
    else
      var k := FirstIndexOf(s[1..], c);
      if k < 0 then -1 else k + 1
  }

  /** The last index of `c` in `s`, or -1. */
  function LastIndexOf(s: string, c: char): (k: int)
    ensures -1 <= k < |s|
    ensures k >= 0 ==> s[k] == c
    ensures forall j | k < j < |s| :: s[j] != c
    decreases |s|
  {
    if |s| == 0 then -1
    else if s[|s| - 1] == c then |s| - 1
    else LastIndexOf(s[..|s| - 1], c)
  }

  /**
   * The email test computed directly: a non-empty local part before the
   * first `@`, domain characters up to the last `.`, and at least two ASCII
   * letters after it.
   */
  predicate MatchesEmailPattern(s: string) {
    var at := FirstIndexOf(s, '@');
    var dot := LastIndexOf(s, '.');
    && 1 <= at && at + 2 <= dot && dot + 3 <= |s|
    && (forall i | 0 <= i < at :: IsLocalChar(s[i]))
    && (forall i | at < i < dot :: IsDomainChar(s[i]))
    && (forall i | dot < i < |s| :: IsAsciiLetter(s[i]))
  }

  /**
   * `/^[a-zA-Z0-9._%+-]+@[a-zA-Z0-9.-]+\.[a-zA-Z]{2,}$/` split at `at` and
   * `dot`: local part, `@`, domain head, `.`, at least two letters.
   */
  predicate EmailSplit(s: string, at: nat, dot: nat) {
    && 1 <= at && at + 2 <= dot && dot + 3 <= |s|
    && s[at] == '@' && s[dot] == '.'
    && (forall i | 0 <= i < at :: IsLocalChar(s[i]))
    && (forall i | at < i < dot :: IsDomainChar(s[i]))
    && (forall i | dot < i < |s| :: IsAsciiLetter(s[i]))
  }

  /** The expression matches: some split of `s` has the right shape. */
  ghost predicate EmailRegexMatches(s: string) {
    exists at: nat, dot: nat :: EmailSplit(s, at, dot)
  }

  /** A string of the computed shape holds exactly one `@`. */
  lemma EmailHasOneAt(s: string, i: nat)
    requires MatchesEmailPattern(s) && i < |s| && s[i] == '@'
    ensures i == FirstIndexOf(s, '@')
  {
    assert !IsDomainChar('@') && !IsAsciiLetter('@');
  }

  /** The computed test's indices are a split of the expression. */
  lemma PatternMatchesRegex(s: string)
    requires MatchesEmailPattern(s)
    ensures EmailSplit(s, FirstIndexOf(s, '@'), LastIndexOf(s, '.'))
  {
  }

  /** Any split of the expression is the one the computed test finds. */
  lemma RegexMatchesPattern(s: string, a: nat, t: nat)
    requires EmailSplit(s, a, t)
    ensures a == FirstIndexOf(s, '@') && t == LastIndexOf(s, '.')
    ensures MatchesEmailPattern(s)
  {
    var k, d := FirstIndexOf(s, '@'), LastIndexOf(s, '.');
    assert 0 <= k <= a;
    assert !IsLocalChar(s[k]);
    assert t <= d;
    assert !IsAsciiLetter(s[d]);
  }

  /** The computed test accepts exactly the strings the expression matches, and those hold one `@`. */
  lemma EmailPatternIsRegex(s: string)
    ensures MatchesEmailPattern(s) <==> EmailRegexMatches(s)
    ensures MatchesEmailPattern(s) ==> forall i | 0 <= i < |s| && s[i] == '@' :: i == FirstIndexOf(s, '@')
  {
    if MatchesEmailPattern(s) {
      PatternMatchesRegex(s);
      forall i | 0 <= i < |s| && s[i] == '@' ensures i == FirstIndexOf(s, '@') {
        EmailHasOneAt(s, i);
      }
    }
    if EmailRegexMatches(s) {
      var a: nat, t: nat :| EmailSplit(s, a, t);
      RegexMatchesPattern(s, a, t);
    }
  }

  /** `isValidEmail`: a string of at most 254 characters of the email shape. */
  predicate IsValidEmail(v: JsValue) {
    v.Str? && |v.s| <= MaxEmailLength && MatchesEmailPattern(v.s)
  }

  predicate IsNameChar(c: char) {
    IsAsciiLetter(c) || IsWhitespace(c) || c == '-' || c == '\''
  }

  /**
   * `isValidName`: a falsy name is fine (the field is optional); otherwise a
   * string of 1 to 100 letters, whitespace, hyphens and apostrophes.
   */
  predicate IsValidName(v: JsValue) {
    if !Truthy(v) then true
    else v.Str? && 1 <= |v.s| <= MaxNameLength && forall i | 0 <= i < |v.s| :: IsNameChar(v.s[i])
  }

  /** A valid email contains nothing the sanitiser touches: it is stored as given. */
  lemma ValidEmailSanitizesToItself(v: JsValue)
    requires IsValidEmail(v)
    ensures SanitizeString(v) == v.s
  {
    var s := v.s;
    var at, dot := FirstIndexOf(s, '@'), LastIndexOf(s, '.');
    assert forall i | 0 <= i < |s| :: IsLocalChar(s[i]) || s[i] == '@' || IsDomainChar(s[i]) by {
      forall i | 0 <= i < |s| ensures IsLocalChar(s[i]) || s[i] == '@' || IsDomainChar(s[i]) {
        if dot < i {
          assert IsAsciiLetter(s[i]);
        }
      }
    }
    assert Plain(s);
    TrimNoop(s);
    SanitizePlain(s);
  }

  /** A valid non-empty name is only trimmed by the sanitiser. */
  lemma ValidNameSanitizesToTrim(v: JsValue)
    requires IsValidName(v) && Truthy(v)
    ensures v.Str? && SanitizeString(v) == Trim(v.s)
  {
    SanitizePlain(v.s);
    assert |Trim(v.s)| <= |v.s|;
  }

  /** What `sanitizeUserInput` returns. */
  datatype SanitizedUser = SanitizedUser(email: string, name: Option<string>)

  /** The email half of `sanitizeUserInput`: a falsy email is sanitised as "". */
  function SanitizeEmailField(email: JsValue): (r: string)
    ensures |r| <= MaxSanitizedLength
    ensures !Truthy(email) ==> r == ""
    ensures IsValidEmail(email) ==> r == email.s
  {
    if Truthy(email) then
      var r := SanitizeString(email);
      assert IsValidEmail(email) ==> r == email.s by {
        if IsValidEmail(email) {
          ValidEmailSanitizesToItself(email);
        }
      }
      r
    else
      assert SanitizeString(Str("")) == "" by {
        assert |Trim("")| == 0;
      }
      SanitizeString(Str(""))
  }

  /** The name half of `sanitizeUserInput`: `null` for a falsy name. */
  function SanitizeNameField(name: JsValue): (r: Option<string>)
    ensures r.Some? <==> Truthy(name)
    ensures r.Some? ==> |r.value| <= MaxSanitizedLength
    ensures IsValidName(name) && Truthy(name) ==> name.Str? && r == Some(Trim(name.s))
  {
    if Truthy(name) then
      var r := SanitizeString(name);
      assert IsValidName(name) ==> name.Str? && r == Trim(name.s) by {
        if IsValidName(name) {
          ValidNameSanitizesToTrim(name);
        }
      }
      Some(r)
    else None
  }

  /**
   * `sanitizeUserInput`: the sanitised email (a falsy email as ""), and the
   * sanitised name, or `null` for a falsy one. Input that passed the user
   * route's checks keeps its email and only has its name trimmed.
   */
  function SanitizeUserInput(email: JsValue, name: JsValue): (r: SanitizedUser)
    ensures |r.email| <= MaxSanitizedLength
    ensures r.name.Some? <==> Truthy(name)
    ensures !Truthy(email) ==> r.email == ""
    ensures IsValidEmail(email) ==> r.email == email.s
    ensures IsValidName(name) && Truthy(name) ==> name.Str? && r.name == Some(Trim(name.s))
  {
    SanitizedUser(SanitizeEmailField(email), SanitizeNameField(name))
  }
}
