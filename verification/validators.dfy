/**
 * The three input validators of the platform: the e-mail shape check and the
 * password-strength check used by the registration and login forms, and the
 * structural sanity check run on a CSV file before it is imported.
 */
module Validators {

  import Seqs
  import opened Wrappers

  /** The `(ok, message)` pair every validator returns. */
  datatype Verdict = Verdict(ok: bool, message: string)

  // ---------------------------------------------------------------------------
  // Characters and strings

  /** `[a-zA-Z0-9]`, shared by the three character classes of the e-mail pattern. */
  predicate IsAsciiLetterOrDigit(c: char) {
    'a' <= c <= 'z' || 'A' <= c <= 'Z' || '0' <= c <= '9'
  }

  /** `[a-zA-Z0-9_.+-]`: a character of the part before the `@`. */
  predicate IsLocalChar(c: char) {
    IsAsciiLetterOrDigit(c) || c == '_' || c == '.' || c == '+' || c == '-'
  }

  /** `[a-zA-Z0-9-]`: a character between the `@` and the first `.` after it. */
  predicate IsDomainChar(c: char) {
    IsAsciiLetterOrDigit(c) || c == '-'
  }

  /** `[a-zA-Z0-9-.]`: a character of the suffix after that `.`. */
  predicate IsSuffixChar(c: char) {
    IsAsciiLetterOrDigit(c) || c == '-' || c == '.'
  }

  /** `str.isupper` on one character, restricted to ASCII. */
  predicate IsUpper(c: char) {
    'A' <= c <= 'Z'
  }

  /** `str.isdigit` on one character, restricted to ASCII. */
  predicate IsDigit(c: char) {
    '0' <= c <= '9'
  }

  /** Python's `any(p(ch) for ch in s)`. */
  function AnyChar(s: string, p: char -> bool): (b: bool)
    ensures b <==> exists i :: 0 <= i < |s| && p(s[i])
  {
    if s == [] then false
    else
      assert forall i :: 0 <= i < |s| - 1 ==> s[1..][i] == s[i + 1];
      p(s[0]) || AnyChar(s[1..], p)
  }

  /** Position of the first `c` in `s`, or `|s|` when `c` does not occur. */
  function IndexOf(s: string, c: char): (k: nat)
    ensures k <= |s|
    ensures k < |s| ==> s[k] == c
    ensures forall j :: 0 <= j < k ==> s[j] != c
  {
    Seqs.FirstIndex(s, x => x == c)
  }

  /** Python's `s.count(c)` for a single character `c`. */
  function CountChar(s: string, c: char): (n: nat)
    ensures n <= |s|
  {
    if s == [] then 0 else (if s[0] == c then 1 else 0) + CountChar(s[1..], c)
  }

  lemma {:induction false} CountCharAppend(a: string, b: string, c: char)
    ensures CountChar(a + b, c) == CountChar(a, c) + CountChar(b, c)
  {
    if a == [] {
      assert a + b == b;
    } else {
      assert (a + b)[1..] == a[1..] + b;
      CountCharAppend(a[1..], b, c);
    }
  }

  lemma {:induction false} CountCharAbsent(s: string, c: char)
    requires forall i :: 0 <= i < |s| ==> s[i] != c
    ensures CountChar(s, c) == 0
  {
    if s != [] {
      CountCharAbsent(s[1..], c);
    }
  }

  // ---------------------------------------------------------------------------
  // E-mail: `^[a-zA-Z0-9_.+-]+@[a-zA-Z0-9-]+\.[a-zA-Z0-9-.]+$` applied with `re.match`

  /**
   * The pattern's reading of `s` (without any trailing newline): `s[at]` is the `@`,
   * `s[dot]` the `.`, and the three runs around them are non-empty and drawn from
   * their character classes.
   */
  ghost predicate EmailSplit(s: string, at: int, dot: int) {
    && 0 < at && at + 1 < dot && dot + 1 < |s|
    && s[at] == '@' && s[dot] == '.'
    && (forall k :: 0 <= k < at ==> IsLocalChar(s[k]))
    && (forall k :: at < k < dot ==> IsDomainChar(s[k]))
    && (forall k :: dot < k < |s| ==> IsSuffixChar(s[k]))
  }

  ghost predicate MatchesAddress(s: string) {
    exists at, dot :: EmailSplit(s, at, dot)
  }

  /** What `re.match` accepts: `$` matches at the very end or just before one final newline. */
  ghost predicate MatchesEmailPattern(s: string) {
    || MatchesAddress(s)
    || (|s| > 0 && s[|s| - 1] == '\n' && MatchesAddress(s[..|s| - 1]))
  }

  // The pattern read left to right, one character at a time: the local run ends at
  // the first `@`, the domain run at the first `.` after it, and the suffix run at
  // the end. `seen` records whether the current run already has a character.

  datatype ScanState = InLocal(seen: bool) | InDomain(seen: bool) | InSuffix(seen: bool)

  /** The pattern's automaton: accepts `s[i..]` from state `st` exactly when it ends in a non-empty suffix run. */
  predicate Scan(s: string, i: nat, st: ScanState)
    requires i <= |s|
    decreases |s| - i
  {
    if i == |s| then st == InSuffix(true)
    else
      var c := s[i];
      match st
      case InLocal(seen) =>
        if c == '@' then seen && Scan(s, i + 1, InDomain(false))
        else IsLocalChar(c) && Scan(s, i + 1, InLocal(true))
      case InDomain(seen) =>
        if c == '.' then seen && Scan(s, i + 1, InSuffix(false))
        else IsDomainChar(c) && Scan(s, i + 1, InDomain(true))
      case InSuffix(_) =>
        IsSuffixChar(c) && Scan(s, i + 1, InSuffix(true))
  }

  /** What is left for the automaton in the suffix run: suffix characters, at least one unless one was seen. */
  ghost predicate SuffixRun(s: string, i: nat, seen: bool) {
    (seen || i < |s|) && forall k :: i <= k < |s| ==> IsSuffixChar(s[k])
  }

  /** What is left in the domain run: domain characters up to a `.`, then a non-empty suffix run. */
  ghost predicate DomainRun(s: string, i: nat, seen: bool) {
    exists d :: i <= d < |s| && s[d] == '.' && (seen || d > i)
                && (forall k :: i <= k < d ==> IsDomainChar(s[k])) && SuffixRun(s, d + 1, false)
  }

  /** What is left in the local run: local characters up to an `@`, then a non-empty domain run. */
  ghost predicate LocalRun(s: string, i: nat, seen: bool) {
    exists a :: i <= a < |s| && s[a] == '@' && (seen || a > i)
                && (forall k :: i <= k < a ==> IsLocalChar(s[k])) && DomainRun(s, a + 1, false)
  }

  lemma {:induction false} ScanSuffix(s: string, i: nat, seen: bool)
    requires i <= |s|
    ensures Scan(s, i, InSuffix(seen)) <==> SuffixRun(s, i, seen)
    decreases |s| - i
  {
    if i < |s| {
      ScanSuffix(s, i + 1, true);
    }
  }

  /** A domain run that starts with its `.` is the suffix run after it, and needs a character before. */
  lemma DomainRunAtDot(s: string, i: nat, seen: bool)
    requires i < |s| && s[i] == '.'
    ensures DomainRun(s, i, seen) <==> seen && SuffixRun(s, i + 1, false)
  {
  }

  /** A domain run that starts with another character continues after it. */
  lemma DomainRunStep(s: string, i: nat, seen: bool)
    requires i < |s| && s[i] != '.'
    ensures DomainRun(s, i, seen) <==> IsDomainChar(s[i]) && DomainRun(s, i + 1, true)
  {
  }

  lemma {:induction false} ScanDomain(s: string, i: nat, seen: bool)
    requires i <= |s|
    ensures Scan(s, i, InDomain(seen)) <==> DomainRun(s, i, seen)
    decreases |s| - i
  {
    if i < |s| {
      if s[i] == '.' {
        ScanSuffix(s, i + 1, false);
        DomainRunAtDot(s, i, seen);
      } else {
        ScanDomain(s, i + 1, true);
        DomainRunStep(s, i, seen);
      }
    }
  }

  /** A local run that starts with its `@` is the domain run after it, and needs a character before. */
  lemma LocalRunAtSign(s: string, i: nat, seen: bool)
    requires i < |s| && s[i] == '@'
    ensures LocalRun(s, i, seen) <==> seen && DomainRun(s, i + 1, false)
  {
  }

  /** A local run that starts with another character continues after it. */
  lemma LocalRunStep(s: string, i: nat, seen: bool)
    requires i < |s| && s[i] != '@'
    ensures LocalRun(s, i, seen) <==> IsLocalChar(s[i]) && LocalRun(s, i + 1, true)
  {
  }

  lemma {:induction false} ScanLocal(s: string, i: nat, seen: bool)
    requires i <= |s|
    ensures Scan(s, i, InLocal(seen)) <==> LocalRun(s, i, seen)
    decreases |s| - i
  {
    if i < |s| {
      if s[i] == '@' {
        ScanDomain(s, i + 1, false);
        LocalRunAtSign(s, i, seen);
      } else {
        ScanLocal(s, i + 1, true);
        LocalRunStep(s, i, seen);
      }
    }
  }

  /** The automaton accepts exactly the strings the pattern matches (the regex's backtracking adds nothing). */
  lemma ScanMatches(s: string)
    ensures Scan(s, 0, InLocal(false)) <==> MatchesAddress(s)
  {
    ScanLocal(s, 0, false);
    if LocalRun(s, 0, false) {
      var a :| 0 <= a < |s| && s[a] == '@' && a > 0
               && (forall k :: 0 <= k < a ==> IsLocalChar(s[k])) && DomainRun(s, a + 1, false);
      var d :| a + 1 <= d < |s| && s[d] == '.' && d > a + 1
               && (forall k :: a + 1 <= k < d ==> IsDomainChar(s[k])) && SuffixRun(s, d + 1, false);
      assert EmailSplit(s, a, d);
    }
    if MatchesAddress(s) {
      var at, dot :| EmailSplit(s, at, dot);
      assert SuffixRun(s, dot + 1, false);
      assert DomainRun(s, at + 1, false);
    }
  }

  /** The last character of a match belongs to the suffix run, so it is never a newline. */
  lemma LastCharOfAddress(s: string)
    ensures MatchesAddress(s) ==> |s| > 0 && IsSuffixChar(s[|s| - 1])
  {
  }

  /** `validate_email`: the automaton run on `email` without one final newline. */
  predicate ValidateEmail(email: string) {
    var body := if |email| > 0 && email[|email| - 1] == '\n' then email[..|email| - 1] else email;
    Scan(body, 0, InLocal(false))
  }

  /** `validate_email` is true exactly when `re.match` with the pattern succeeds. */
  lemma ValidateEmailMatchesPattern(email: string)
    ensures ValidateEmail(email) <==> MatchesEmailPattern(email)
  {
    var body := if |email| > 0 && email[|email| - 1] == '\n' then email[..|email| - 1] else email;
    ScanMatches(body);
    LastCharOfAddress(email);
  }

  /** In a match, the split's `@` is the only one. */
  lemma SplitHasOneAt(s: string, at: int, dot: int)
    requires EmailSplit(s, at, dot)
    ensures forall j :: 0 <= j < |s| && j != at ==> s[j] != '@'
  {
  }

  lemma {:induction false} CountSingleOccurrence(s: string, k: int, c: char)
    requires 0 <= k < |s| && s[k] == c
    requires forall j :: 0 <= j < |s| && j != k ==> s[j] != c
    ensures CountChar(s, c) == 1
  {
    assert s == s[..k] + [s[k]] + s[k + 1..];
    CountCharAbsent(s[..k], c);
    CountCharAbsent(s[k + 1..], c);
    CountCharAppend(s[..k], [s[k]], c);
    CountCharAppend(s[..k] + [s[k]], s[k + 1..], c);
  }

  /** The split `@` of a match in `email` itself, or in `email` without its final newline. */
  lemma SplitShape(email: string, body: string, at: int, dot: int)
    requires EmailSplit(body, at, dot)
    requires email == body || email == body + ['\n']
    ensures CountChar(email, '@') == 1
    ensures 0 < IndexOf(email, '@') == at < |email|
    ensures at + 1 < dot < |email| && email[dot] == '.'
  {
    SplitHasOneAt(body, at, dot);
    assert forall j :: 0 <= j < |email| && j != at ==> email[j] != '@' by {
      forall j | 0 <= j < |email| && j != at ensures email[j] != '@' {
        if j < |body| { assert email[j] == body[j]; }
      }
    }
    assert email[at] == '@';
    CountSingleOccurrence(email, at, '@');
  }

  lemma PatternShape(email: string)
    requires MatchesEmailPattern(email)
    ensures CountChar(email, '@') == 1
    ensures 0 < IndexOf(email, '@') < |email|
    ensures exists dot :: IndexOf(email, '@') + 1 < dot < |email| && email[dot] == '.'
  {
    if MatchesAddress(email) {
      var at, dot :| EmailSplit(email, at, dot);
      SplitShape(email, email, at, dot);
    } else {
      var body := email[..|email| - 1];
      assert email == body + ['\n'];
      var at, dot :| EmailSplit(body, at, dot);
      SplitShape(email, body, at, dot);
    }
  }

  /** An accepted e-mail has exactly one `@`, at least one character before it, and a `.` after it. */
  lemma AcceptedEmailShape(email: string)
    requires ValidateEmail(email)
    ensures CountChar(email, '@') == 1
    ensures 0 < IndexOf(email, '@') < |email|
    ensures exists dot :: IndexOf(email, '@') + 1 < dot < |email| && email[dot] == '.'
  {
    ValidateEmailMatchesPattern(email);
    PatternShape(email);
  }

  // ---------------------------------------------------------------------------
  // Password strength

  const MinPasswordLength := 8

  const PasswordTooShort := "Password must be at least 8 characters"
  const PasswordNoUpper := "Password must contain at least one uppercase letter"
  const PasswordNoDigit := "Password must contain at least one digit"
  const PasswordValid := "Password is valid"

  /**
   * `validate_password`: the three rules are checked in the order length, uppercase
   * letter, digit, and the message is that of the first rule that fails.
   */
  function ValidatePassword(password: string): (v: Verdict)
    ensures v.ok <==>
      && |password| >= MinPasswordLength
      && (exists i :: 0 <= i < |password| && IsUpper(password[i]))
      && (exists i :: 0 <= i < |password| && IsDigit(password[i]))
    ensures |password| < MinPasswordLength ==> v.message == PasswordTooShort
    ensures |password| >= MinPasswordLength && (forall i :: 0 <= i < |password| ==> !IsUpper(password[i]))
      ==> v.message == PasswordNoUpper
    ensures
      && |password| >= MinPasswordLength
      && (exists i :: 0 <= i < |password| && IsUpper(password[i]))
      && (forall i :: 0 <= i < |password| ==> !IsDigit(password[i]))
      ==> v.message == PasswordNoDigit
    ensures v.ok ==> v.message == PasswordValid
  {
    if |password| < MinPasswordLength then Verdict(false, PasswordTooShort)
    else if !AnyChar(password, IsUpper) then Verdict(false, PasswordNoUpper)
    else if !AnyChar(password, IsDigit) then Verdict(false, PasswordNoDigit)
    else Verdict(true, PasswordValid)
  }

  // ---------------------------------------------------------------------------
  // CSV structure

  /**
   * What the CSV check can observe of a file on disk: whether it is a regular
   * file, its size in bytes, the text of the exception that opening or reading
   * its first lines raises (permission denied, bytes that are not UTF-8), if
   * any, and its lines as Python's text iterator yields them (each with its line
   * terminator, the byte-order mark removed).
   */
  datatype CsvFile = CsvFile(isFile: bool, size: nat, readError: Option<string>, lines: seq<string>)

  const Delimiter := ';'

  const CsvMissing := "File does not exist"
  const CsvEmpty := "File is empty"
  /** `f"Validation error: {e}"` for the `StopIteration` of a file with fewer than three lines, whose text is empty. */
  const CsvErrorPrefix := "Validation error: "
  const CsvTooShort := CsvErrorPrefix
  const CsvInconsistent := "Inconsistent number of delimiters"
  const CsvValid := "CSV appears valid"

  function DelimiterCount(line: string): nat {
    CountChar(line, Delimiter)
  }

  /**
   * `validate_csv_file`: existence first, then size, then three lines must be
   * readable, then their delimiter counts must form a one-element set. Any
   * exception on the way is reported with its text after `Validation error: `.
   */
  function ValidateCsvFile(f: CsvFile): (v: Verdict)
    ensures v.ok <==>
      && f.isFile && f.size > 0 && f.readError.None? && |f.lines| >= 3
      && DelimiterCount(f.lines[0]) == DelimiterCount(f.lines[1]) == DelimiterCount(f.lines[2])
    ensures !f.isFile ==> v.message == CsvMissing
    ensures f.isFile && f.size == 0 ==> v.message == CsvEmpty
    ensures f.isFile && f.size > 0 && f.readError.Some? ==> v.message == CsvErrorPrefix + f.readError.value
    ensures f.isFile && f.size > 0 && f.readError.None? && |f.lines| < 3 ==> v.message == CsvTooShort
    ensures f.isFile && f.size > 0 && f.readError.None? && |f.lines| >= 3 && !v.ok ==> v.message == CsvInconsistent
    ensures v.ok ==> v.message == CsvValid
  {
    if !f.isFile then Verdict(false, CsvMissing)
    else if f.size == 0 then Verdict(false, CsvEmpty)
    else if f.readError.Some? then Verdict(false, CsvErrorPrefix + f.readError.value)
    else if |f.lines| < 3 then Verdict(false, CsvTooShort)
    else
      var counts := {DelimiterCount(f.lines[0]), DelimiterCount(f.lines[1]), DelimiterCount(f.lines[2])};
      DistinctCounts(DelimiterCount(f.lines[0]), DelimiterCount(f.lines[1]), DelimiterCount(f.lines[2]));
      if |counts| > 1 then Verdict(false, CsvInconsistent) else Verdict(true, CsvValid)
  }

  /** `len(set(counts)) > 1` holds exactly when the three counts are not all equal. */
  lemma DistinctCounts(a: nat, b: nat, c: nat)
    ensures |{a, b, c}| > 1 <==> !(a == b == c)
  {
    if a == b == c {
      assert {a, b, c} == {a};
    } else if a != b {
      assert {a, b} <= {a, b, c};
      assert |{a, b}| == 2;
    } else {
      assert {b, c} <= {a, b, c};
      assert |{b, c}| == 2;
    }
  }

  // ---------------------------------------------------------------------------
  // Worked examples

  lemma PasswordExamples()
    ensures !ValidatePassword("short1A").ok && ValidatePassword("short1A").message == PasswordTooShort
    ensures ValidatePassword("LongEnough1").ok
  {
    var p := "LongEnough1";
    assert IsUpper(p[0]) && IsDigit(p[10]);
  }

  /** A string with a reading of the pattern is accepted. */
  lemma SplitAccepted(s: string, at: int, dot: int)
    requires EmailSplit(s, at, dot)
    ensures ValidateEmail(s)
  {
    ValidateEmailMatchesPattern(s);
  }

  /** One local character, `@`, one domain character, `.`, and a suffix: the shortest addresses. */
  lemma ShortAddressAccepted(s: string)
    requires |s| >= 5 && IsLocalChar(s[0]) && s[1] == '@' && IsDomainChar(s[2]) && s[3] == '.'
    requires forall i :: 4 <= i < |s| ==> IsSuffixChar(s[i])
    ensures ValidateEmail(s)
  {
    SplitAccepted(s, 1, 3);
  }

  lemma AcceptsShortAddress()
    ensures ValidateEmail("x@y.com")
  {
    ShortAddressAccepted("x@y.com");
  }

  lemma RejectsAddressWithoutAt()
    ensures !ValidateEmail("not-an-email")
  {
    var t := "not-an-email";
    CountCharAbsent(t, '@');
    if ValidateEmail(t) {
      AcceptedEmailShape(t);
    }
  }
}
