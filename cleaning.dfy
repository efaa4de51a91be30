/** The cleaning and validation functions of app.py: `clean_phone` and
    `validate_email`. A cell is `Option<string>`: `None` stands for a cell that
    is `None` or NaN, `Some(text)` for the text `str(cell)` renders. */
module Cleaning {
  import opened Wrappers
  import opened Sequences

  type Cell = Option<string>

  // ---------------------------------------------------------------------------
  // Character classes
  // ---------------------------------------------------------------------------

  /** What `\d` keeps and `\D` removes (ASCII digits). */
  predicate IsDigit(c: char) {
    '0' <= c <= '9'
  }

  predicate AllDigits(s: string) {
    forall k :: 0 <= k < |s| ==> IsDigit(s[k])
  }

  predicate IsUpper(c: char) {
    'A' <= c <= 'Z'
  }

  predicate IsAsciiAlnum(c: char) {
    'a' <= c <= 'z' || 'A' <= c <= 'Z' || '0' <= c <= '9'
  }

  /** The characters Python's `str.strip()` removes: those for which
      `str.isspace()` holds. */
  predicate IsSpace(c: char) {
    var n := c as int;
    (9 <= n <= 13) || (28 <= n <= 32) || n == 0x85 || n == 0xA0 || n == 0x1680 ||
    (0x2000 <= n <= 0x200A) || n == 0x2028 || n == 0x2029 || n == 0x202F ||
    n == 0x205F || n == 0x3000
  }

  // ---------------------------------------------------------------------------
  // re.sub(r'\D', '', text): keep the digits
  // ---------------------------------------------------------------------------

  /** The digits of `s`, in order. */
  function Digits(s: string): (r: string)
    ensures AllDigits(r)
    ensures |r| <= |s|
  {
    if s == [] then []
    else if IsDigit(s[0]) then [s[0]] + Digits(s[1..])
    else Digits(s[1..])
  }

  /** Digits keeps characters of the input in their original order ... */
  lemma {:induction false} DigitsIsSubsequence(s: string)
    ensures IsSubsequence(Digits(s), s)
  {
    if s != [] {
      DigitsIsSubsequence(s[1..]);
    }
  }

  /** ... and keeps every occurrence of every digit, and nothing else. */
  lemma {:induction false} DigitsCounts(s: string, c: char)
    ensures multiset(Digits(s))[c] == if IsDigit(c) then multiset(s)[c] else 0
  {
    if s != [] {
      DigitsCounts(s[1..], c);
      assert s == [s[0]] + s[1..];
    }
  }

  /** A string of digits is its own digit string. */
  lemma {:induction false} DigitsOfDigitString(s: string)
    requires AllDigits(s)
    ensures Digits(s) == s
  {
    if s != [] {
      DigitsOfDigitString(s[1..]);
    }
  }

  // ---------------------------------------------------------------------------
  // str.lower(), ASCII letters only
  // ---------------------------------------------------------------------------

  function LowerChar(c: char): (d: char)
    ensures !IsUpper(d)
    ensures IsUpper(c) ==> 'a' <= d <= 'z' && d as int - 'a' as int == c as int - 'A' as int
    ensures !IsUpper(c) ==> d == c
  {
    if IsUpper(c) then (c as int + 32) as char else c
  }

  function Lower(s: string): (r: string)
    ensures |r| == |s|
    ensures forall k :: 0 <= k < |r| ==> !IsUpper(r[k])
    ensures forall k :: 0 <= k < |r| && !IsUpper(s[k]) ==> r[k] == s[k]
    ensures forall k :: 0 <= k < |r| && IsUpper(s[k]) ==> r[k] as int - 'a' as int == s[k] as int - 'A' as int
  {
    seq(|s|, k requires 0 <= k < |s| => LowerChar(s[k]))
  }

  /** Lower-casing a string with no upper-case letter changes nothing. */
  lemma LowerOfLower(s: string)
    requires forall k :: 0 <= k < |s| ==> !IsUpper(s[k])
    ensures Lower(s) == s
  {
  }

  // ---------------------------------------------------------------------------
  // str.strip()
  // ---------------------------------------------------------------------------

  /** `s` with its leading whitespace removed. */
  function StripStart(s: string): (r: string)
    ensures |r| <= |s| && r == s[|s| - |r|..]
    ensures forall k :: 0 <= k < |s| - |r| ==> IsSpace(s[k])
    ensures r == [] || !IsSpace(r[0])
  {
    if s != [] && IsSpace(s[0]) then
      var r := StripStart(s[1..]);
      assert forall k :: 1 <= k < |s| ==> s[k] == s[1..][k - 1];
      r
    else s
  }

  /** `s` with its trailing whitespace removed. */
  function StripEnd(s: string): (r: string)
    ensures |r| <= |s| && r == s[..|r|]
    ensures forall k :: |r| <= k < |s| ==> IsSpace(s[k])
    ensures r == [] || !IsSpace(r[|r| - 1])
  {
    if s != [] && IsSpace(s[|s| - 1]) then
      var r := StripEnd(s[..|s| - 1]);
      assert forall k :: 0 <= k < |s| - 1 ==> s[k] == s[..|s| - 1][k];
      r
    else s
  }

  /** `r` is the part of `s` that lies between a run of `i` leading and a run of
      trailing whitespace characters. */
  ghost predicate StrippedAt(s: string, r: string, i: int) {
    0 <= i && i + |r| <= |s| && s[i..i + |r|] == r &&
    (forall k :: 0 <= k < i ==> IsSpace(s[k])) &&
    (forall k :: i + |r| <= k < |s| ==> IsSpace(s[k]))
  }

  /** Python's `s.strip()`: the middle of `s`, without whitespace at either end. */
  function Strip(s: string): (r: string)
    ensures exists i :: StrippedAt(s, r, i)
    ensures r == [] || (!IsSpace(r[0]) && !IsSpace(r[|r| - 1]))
  {
    var t := StripStart(s);
    var r := StripEnd(t);
    StripBothEnds(s, t, r);
    r
  }

  /** Removing the trailing run after the leading one leaves the middle of `s`,
      and keeps the non-space first character. */
  lemma StripBothEnds(s: string, t: string, r: string)
    requires |t| <= |s| && t == s[|s| - |t|..]
    requires forall k :: 0 <= k < |s| - |t| ==> IsSpace(s[k])
    requires t == [] || !IsSpace(t[0])
    requires |r| <= |t| && r == t[..|r|]
    requires forall k :: |r| <= k < |t| ==> IsSpace(t[k])
    requires r == [] || !IsSpace(r[|r| - 1])
    ensures StrippedAt(s, r, |s| - |t|)
    ensures r == [] || (!IsSpace(r[0]) && !IsSpace(r[|r| - 1]))
  {
    var i := |s| - |t|;
    assert s[i..i + |r|] == r;
    assert forall k :: i + |r| <= k < |s| ==> s[k] == t[k - i];
    assert r != [] ==> r[0] == t[0];
  }

  /** A string with no whitespace at either end is already stripped. */
  lemma StripOfStripped(s: string)
    requires s == [] || (!IsSpace(s[0]) && !IsSpace(s[|s| - 1]))
    ensures Strip(s) == s
  {
  }

  // ---------------------------------------------------------------------------
  // clean_phone
  // ---------------------------------------------------------------------------

  /** `clean_phone(phone)`: `None` for an absent cell; otherwise the digits of the
      text when there are exactly ten of them, and `None` when there are not.
      The source compares the first digit with '3' but the branch is a `pass`,
      so a ten-digit result is returned whatever digit it starts with. */
  function CleanPhone(cell: Cell): (r: Cell)
    ensures cell.None? ==> r.None?
    ensures r.Some? <==> cell.Some? && |Digits(cell.value)| == 10
    ensures r.Some? ==> |r.value| == 10 && AllDigits(r.value)
  {
    match cell
    case None => None
    case Some(text) =>
      var cleaned := Digits(text);
      if cleaned == [] || Lower(cleaned) == "nan" || |cleaned| != 10 then None
      // the `cleaned[0] != '3'` test only runs `pass`
      else Some(cleaned)
  }

  /** The `cleaned.lower() == 'nan'` guard of clean_phone can never hold. */
  lemma NanGuardNeverHolds(text: string)
    ensures Lower(Digits(text)) != "nan"
  {
    var d := Digits(text);
    if |d| == 3 {
      assert Lower(d)[0] == LowerChar(d[0]) == d[0];
    }
  }

  /** What clean_phone returns is exactly the digits of the text, in order. */
  lemma CleanPhoneKeepsDigits(text: string)
    requires CleanPhone(Some(text)).Some?
    ensures CleanPhone(Some(text)).value == Digits(text)
    ensures IsSubsequence(CleanPhone(Some(text)).value, text)
    ensures forall c :: IsDigit(c) ==> multiset(CleanPhone(Some(text)).value)[c] == multiset(text)[c]
  {
    NanGuardNeverHolds(text);
    DigitsIsSubsequence(text);
    forall c | IsDigit(c)
      ensures multiset(Digits(text))[c] == multiset(text)[c]
    {
      DigitsCounts(text, c);
    }
  }

  /** Any ten-digit string is accepted unchanged, whatever its first digit. */
  lemma CleanPhoneAcceptsTenDigits(s: string)
    requires |s| == 10 && AllDigits(s)
    ensures CleanPhone(Some(s)) == Some(s)
  {
    DigitsOfDigitString(s);
    NanGuardNeverHolds(s);
  }

  /** A text whose digit count is not ten is rejected, the empty text included. */
  lemma CleanPhoneRejectsOtherLengths(text: string)
    requires |Digits(text)| != 10
    ensures CleanPhone(Some(text)) == None
  {
  }

  /** clean_phone is idempotent. */
  lemma CleanPhoneIdempotent(cell: Cell)
    requires CleanPhone(cell).Some?
    ensures CleanPhone(CleanPhone(cell)) == CleanPhone(cell)
  {
    CleanPhoneAcceptsTenDigits(CleanPhone(cell).value);
  }

  // ---------------------------------------------------------------------------
  // validate_email
  // ---------------------------------------------------------------------------

  /** `[a-zA-Z0-9_.+-]`, the local part's class. */
  predicate IsLocalChar(c: char) {
    IsAsciiAlnum(c) || c == '_' || c == '.' || c == '+' || c == '-'
  }

  /** `[a-zA-Z0-9-]`, the first domain label's class (no dot). */
  predicate IsLabelChar(c: char) {
    IsAsciiAlnum(c) || c == '-'
  }

  /** `[a-zA-Z0-9-.]`, the class of what follows the first dot of the domain. */
  predicate IsTailChar(c: char) {
    IsAsciiAlnum(c) || c == '-' || c == '.'
  }

  predicate LocalPart(s: string) {
    |s| > 0 && forall k :: 0 <= k < |s| ==> IsLocalChar(s[k])
  }

  predicate LabelPart(s: string) {
    |s| > 0 && forall k :: 0 <= k < |s| ==> IsLabelChar(s[k])
  }

  predicate TailPart(s: string) {
    |s| > 0 && forall k :: 0 <= k < |s| ==> IsTailChar(s[k])
  }

  /** `s` splits as `l + "@" + d + "." + t`, each piece one `+`-repetition of the
      regular expression `^[a-zA-Z0-9_.+-]+@[a-zA-Z0-9-]+\.[a-zA-Z0-9-.]+$`. */
  ghost predicate EmailParts(s: string, l: string, d: string, t: string) {
    s == l + "@" + d + "." + t && LocalPart(l) && LabelPart(d) && TailPart(t)
  }

  /** The language of that regular expression, on text without a trailing
      newline (where Python's `$` would also match before it); validate_email
      only ever matches stripped text, which has none. Its shortest strings,
      such as "a@b.c", have five characters. */
  ghost predicate EmailShape(s: string)
    ensures EmailShape(s) ==> 5 <= |s| && '@' in s
  {
    exists l, d, t :: EmailParts(s, l, d, t)
  }

  /** The position of the first `c` in `s`, if any. */
  function IndexOf(s: string, c: char): (r: Option<nat>)
    ensures r.None? ==> forall k :: 0 <= k < |s| ==> s[k] != c
    ensures r.Some? ==> r.value < |s| && s[r.value] == c
    ensures r.Some? ==> forall k :: 0 <= k < r.value ==> s[k] != c
  {
    if s == [] then None
    else if s[0] == c then Some(0)
    else match IndexOf(s[1..], c)
      case None => None
      case Some(i) => Some(i + 1)
  }

  /** The recogniser that stands for the regular expression: split at the first
      '@', then the domain at its first '.'. */
  predicate MatchesEmail(s: string)
    ensures MatchesEmail(s) ==> '@' in s && '.' in s
  {
    match IndexOf(s, '@')
    case None => false
    case Some(at) =>
      var domain := s[at + 1..];
      LocalPart(s[..at]) &&
      match IndexOf(domain, '.')
      case None => false
      case Some(dot) => LabelPart(domain[..dot]) && TailPart(domain[dot + 1..])
  }

  /** IndexOf finds the first occurrence. */
  lemma IndexOfFirst(s: string, c: char, k: nat)
    requires k < |s| && s[k] == c
    requires c !in s[..k]
    ensures IndexOf(s, c) == Some(k)
  {
    assert forall j :: 0 <= j < k ==> s[..k][j] == s[j];
  }

  /** The pieces the recogniser splits an accepted string into are the
      pattern's pieces. */
  ghost function EmailSplit(s: string): (r: (string, string, string))
    requires MatchesEmail(s)
    ensures EmailParts(s, r.0, r.1, r.2)
  {
    var at := IndexOf(s, '@').value;
    var domain := s[at + 1..];
    var dot := IndexOf(domain, '.').value;
    JoinAround(s, at, dot);
    (s[..at], domain[..dot], domain[dot + 1..])
  }

  /** A string with '@' at `at` and '.' at `dot` within the rest is the join of
      the pieces around them. */
  lemma JoinAround(s: string, at: nat, dot: nat)
    requires at < |s| && s[at] == '@'
    requires dot < |s| - at - 1 && s[at + 1..][dot] == '.'
    ensures s == s[..at] + "@" + s[at + 1..][..dot] + "." + s[at + 1..][dot + 1..]
  {
    var domain := s[at + 1..];
    assert domain == domain[..dot] + "." + domain[dot + 1..];
    assert s == s[..at] + "@" + domain;
  }

  /** The recogniser accepts only strings of the pattern's language ... */
  lemma MatchedHasShape(s: string)
    requires MatchesEmail(s)
    ensures EmailShape(s)
  {
    var (l, d, t) := EmailSplit(s);
    assert EmailParts(s, l, d, t);
  }

  /** ... and every string of it. */
  lemma ShapeIsMatched(s: string, l: string, d: string, t: string)
    requires EmailParts(s, l, d, t)
    ensures MatchesEmail(s)
  {
    var domain := d + "." + t;
    assert s == l + "@" + domain;
    PiecesAround(l, '@', domain);
    PiecesAround(d, '.', t);
    LocalHasNoAt(l);
    IndexOfFirst(s, '@', |l|);
    LabelHasNoDot(d);
    IndexOfFirst(domain, '.', |d|);
  }

  /** The pieces of `a + [c] + b` around its separator. */
  lemma PiecesAround(a: string, c: char, b: string)
    ensures (a + [c] + b)[..|a|] == a
    ensures (a + [c] + b)[|a|] == c
    ensures (a + [c] + b)[|a| + 1..] == b
  {
  }

  /** The recogniser accepts exactly the language of the regular expression. */
  lemma MatchesEmailIffShape(s: string)
    ensures MatchesEmail(s) <==> EmailShape(s)
  {
    if MatchesEmail(s) {
      MatchedHasShape(s);
    }
    if EmailShape(s) {
      var l, d, t :| EmailParts(s, l, d, t);
      ShapeIsMatched(s, l, d, t);
    }
  }

  /** `validate_email(email)`: `None` for an absent cell; otherwise the stripped,
      lower-cased text when it matches the e-mail pattern, and `None` when it
      does not. */
  function ValidateEmail(cell: Cell): (r: Cell)
    ensures cell.None? ==> r.None?
    ensures r.Some? <==> cell.Some? && EmailShape(Lower(Strip(cell.value)))
    ensures r.Some? ==> r.value == Lower(Strip(cell.value))
  {
    match cell
    case None => None
    case Some(text) =>
      var e := Lower(Strip(text));
      MatchesEmailIffShape(e);
      if MatchesEmail(e) then Some(e) else None
  }

  /** Everything in the pattern's classes, plus '@', is not whitespace. */
  lemma EmailCharsAreNotSpace(s: string, l: string, d: string, t: string)
    requires EmailParts(s, l, d, t)
    ensures forall k :: 0 <= k < |s| ==> !IsSpace(s[k])
  {
    forall k | 0 <= k < |s| ensures !IsSpace(s[k]) {
      if k < |l| {
        assert s[k] == l[k] && IsLocalChar(l[k]);
      } else if k == |l| {
        assert s[k] == '@';
      } else if k < |l| + 1 + |d| {
        assert s[k] == d[k - |l| - 1] && IsLabelChar(d[k - |l| - 1]);
      } else if k == |l| + 1 + |d| {
        assert s[k] == '.';
      } else {
        assert s[k] == t[k - |l| - 2 - |d|] && IsTailChar(t[k - |l| - 2 - |d|]);
      }
    }
  }

  /** The local part and the domain label hold no '@', nor does the tail. */
  lemma AtCount(s: string, l: string, d: string, t: string)
    requires EmailParts(s, l, d, t)
    ensures multiset(s)['@'] == 1
  {
    assert '@' !in l by {
      forall k | 0 <= k < |l| ensures l[k] != '@' { assert IsLocalChar(l[k]); }
    }
    assert '@' !in d by {
      forall k | 0 <= k < |d| ensures d[k] != '@' { assert IsLabelChar(d[k]); }
    }
    assert '@' !in t by {
      forall k | 0 <= k < |t| ensures t[k] != '@' { assert IsTailChar(t[k]); }
    }
    assert multiset(s) == multiset(l) + multiset{'@'} + multiset(d) + multiset{'.'} + multiset(t);
  }

  /** The local part holds no '@'. */
  lemma LocalHasNoAt(l: string)
    requires LocalPart(l)
    ensures '@' !in l
  {
    forall k | 0 <= k < |l| ensures l[k] != '@' { assert IsLocalChar(l[k]); }
  }

  /** The first domain label holds no dot. */
  lemma LabelHasNoDot(d: string)
    requires LabelPart(d)
    ensures '.' !in d
  {
    forall k | 0 <= k < |d| ensures d[k] != '.' { assert IsLabelChar(d[k]); }
  }

  /** An accepted e-mail has no whitespace and no upper-case letter, exactly one
      '@', a non-empty local part, and after the '@' a dot with non-empty text on
      both sides of the first such dot. */
  lemma ValidatedEmailShape(cell: Cell, e: string)
    requires ValidateEmail(cell) == Some(e)
    ensures forall k :: 0 <= k < |e| ==> !IsSpace(e[k]) && !IsUpper(e[k])
    ensures multiset(e)['@'] == 1
    ensures exists l, d, t :: EmailParts(e, l, d, t) && |l| > 0 && '.' !in d && |d| > 0 && |t| > 0
  {
    assert e == Lower(Strip(cell.value)) && MatchesEmail(e);
    var (l, d, t) := EmailSplit(e);
    EmailCharsAreNotSpace(e, l, d, t);
    AtCount(e, l, d, t);
    LabelHasNoDot(d);
    assert EmailParts(e, l, d, t) && |l| > 0 && '.' !in d && |d| > 0 && |t| > 0;
  }

  /** validate_email is idempotent. */
  lemma ValidateEmailIdempotent(cell: Cell, e: string)
    requires ValidateEmail(cell) == Some(e)
    ensures ValidateEmail(Some(e)) == Some(e)
  {
    assert MatchesEmail(e);
    ValidatedEmailShape(cell, e);
    StripOfStripped(e);
    LowerOfLower(e);
    assert Lower(Strip(e)) == e;
  }
}
