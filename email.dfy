/**
 * The Email value object: a trimmed, lower-cased address of the shape
 * `^[^\s@]+@[^\s@]+\.[^\s@]+$`.
 */
module EmailValueObject {
  import opened Wrappers
  import opened Errors
  import opened Text

  /** `[^\s@]+`: one or more characters, none of them whitespace or `@`. */
  predicate OneOrMoreNonSpaceNonAt(s: string) {
    |s| > 0 && forall k :: 0 <= k < |s| ==> !IsWhitespace(s[k]) && s[k] != '@'
  }

  /**
   * The regular expression `^[^\s@]+@[^\s@]+\.[^\s@]+$`: the string splits as
   * local part, `@`, domain label, `.`, rest, with each of the three parts
   * matching `[^\s@]+` (the parts after `@` may themselves hold dots).
   */
  predicate MatchesEmailPattern(s: string) {
    exists i, j :: 0 <= i < j < |s| && SplitsAt(s, i, j)
  }

  /** `s` is local part, `@` at `i`, domain label, `.` at `j`, rest. */
  predicate SplitsAt(s: string, i: int, j: int) {
    && 0 <= i < j < |s| && s[i] == '@' && s[j] == '.'
    && OneOrMoreNonSpaceNonAt(s[..i])
    && OneOrMoreNonSpaceNonAt(s[i + 1..j])
    && OneOrMoreNonSpaceNonAt(s[j + 1..])
  }

  /**
   * The pattern in plain words: no whitespace anywhere, exactly one `@`, not
   * at the start, and a `.` after it with at least one character on either
   * side of the dot.
   */
  ghost predicate PlainEmailShape(s: string) {
    && (forall k :: 0 <= k < |s| ==> !IsWhitespace(s[k]))
    && exists p :: 0 < p < |s| && s[p] == '@'
         && (forall k :: 0 <= k < |s| && s[k] == '@' ==> k == p)
         && exists d :: p + 1 < d < |s| - 1 && s[d] == '.'
  }

  lemma {:induction false} PatternIsPlainShape(s: string)
    ensures MatchesEmailPattern(s) <==> PlainEmailShape(s)
  {
    if MatchesEmailPattern(s) {
      var i, j :| 0 <= i < j < |s| && SplitsAt(s, i, j);
      forall k | 0 <= k < |s|
        ensures !IsWhitespace(s[k]) && (s[k] == '@' ==> k == i)
      {
        if k < i {
          assert s[k] == s[..i][k];
        } else if i < k < j {
          assert s[k] == s[i + 1..j][k - i - 1];
        } else if j < k {
          assert s[k] == s[j + 1..][k - j - 1];
        }
      }
      assert 0 < i && s[i] == '@';
      assert i + 1 < j < |s| - 1 && s[j] == '.';
    }
    if PlainEmailShape(s) {
      var p :| 0 < p < |s| && s[p] == '@'
         && (forall k :: 0 <= k < |s| && s[k] == '@' ==> k == p)
         && exists d :: p + 1 < d < |s| - 1 && s[d] == '.';
      var d :| p + 1 < d < |s| - 1 && s[d] == '.';
      var local, domainLabel, rest := s[..p], s[p + 1..d], s[d + 1..];
      assert OneOrMoreNonSpaceNonAt(local) by {
        forall k | 0 <= k < |local| ensures !IsWhitespace(local[k]) && local[k] != '@' {
          assert local[k] == s[k];
        }
      }
      assert OneOrMoreNonSpaceNonAt(domainLabel) by {
        forall k | 0 <= k < |domainLabel| ensures !IsWhitespace(domainLabel[k]) && domainLabel[k] != '@' {
          assert domainLabel[k] == s[p + 1 + k];
        }
      }
      assert OneOrMoreNonSpaceNonAt(rest) by {
        forall k | 0 <= k < |rest| ensures !IsWhitespace(rest[k]) && rest[k] != '@' {
          assert rest[k] == s[d + 1 + k];
        }
      }
      assert SplitsAt(s, p, d);
    }
  }

  /**
   * How far a left-to-right reading of a string has got through the pattern:
   * nothing read, inside the local part, just after `@`, inside the domain
   * label, just after a `.` that ends a non-empty label, past such a `.`
   * (the accepting state), or off the pattern.
   */
  datatype ScanState = Start | Local | AtSign | Domain | Dot | Accept | Reject

  function Step(st: ScanState, c: char): ScanState {
    if IsWhitespace(c) then Reject
    else match st
      case Start => if c == '@' then Reject else Local
      case Local => if c == '@' then AtSign else Local
      case AtSign => if c == '@' then Reject else Domain
      case Domain => if c == '@' then Reject else if c == '.' then Dot else Domain
      case Dot => if c == '@' then Reject else Accept
      case Accept => if c == '@' then Reject else Accept
      case Reject => Reject
  }

  /** The state after reading all of `s`. */
  function StateAfter(s: string): ScanState {
    if s == [] then Start else Step(StateAfter(s[..|s| - 1]), s[|s| - 1])
  }

  /**
   * What the test with the local `emailRegex` amounts to: the reading of the
   * whole string ends accepting. An accepted string is non-empty and ends
   * with a character of the last `[^\s@]+` part.
   */
  predicate ScanAccepts(s: string)
    ensures ScanAccepts(s) ==> s != [] && !IsWhitespace(s[|s| - 1]) && s[|s| - 1] != '@'
  {
    StateAfter(s) == Accept
  }

  /** What each state says about the text read so far. */
  ghost predicate Meaning(st: ScanState, s: string) {
    match st
      case Start => s == []
      case Local => OneOrMoreNonSpaceNonAt(s)
      case AtSign => |s| >= 2 && s[|s| - 1] == '@' && OneOrMoreNonSpaceNonAt(s[..|s| - 1])
      case Domain => HasAtSplit(s)
      case Dot => |s| >= 2 && s[|s| - 1] == '.' && HasAtSplit(s[..|s| - 1])
      case Accept => exists i, j :: 0 <= i < j < |s| && SplitsAt(s, i, j)
      case Reject => true
  }

  /** `s` is a local part, `@`, and a non-empty tail without whitespace or `@`. */
  ghost predicate HasAtSplit(s: string) {
    exists i :: 0 < i < |s| - 1 && AtSplit(s, i)
  }

  /** `s` is a local part, `@` at `i`, and a non-empty tail without whitespace or `@`. */
  ghost predicate AtSplit(s: string, i: int) {
    0 <= i < |s| && s[i] == '@' && OneOrMoreNonSpaceNonAt(s[..i]) && OneOrMoreNonSpaceNonAt(s[i + 1..])
  }

  lemma CleanAppend(s: string, c: char)
    requires OneOrMoreNonSpaceNonAt(s) && !IsWhitespace(c) && c != '@'
    ensures OneOrMoreNonSpaceNonAt(s + [c])
  {
    var t := s + [c];
    forall k | 0 <= k < |t| ensures !IsWhitespace(t[k]) && t[k] != '@' {
      if k < |s| {
        assert t[k] == s[k];
      }
    }
  }

  /** Reading one more character keeps each state's meaning. */
  lemma StepMeaning(st: ScanState, s: string, c: char)
    requires Meaning(st, s)
    ensures Meaning(Step(st, c), s + [c])
  {
    var t := s + [c];
    assert t[..|s|] == s;
    if IsWhitespace(c) || Step(st, c) == Reject {
    } else {
      match st
      case Start =>
        assert OneOrMoreNonSpaceNonAt(t) by { assert t == [c]; }
      case Local =>
        if c != '@' {
          CleanAppend(s, c);
        }
      case AtSign =>
        var i := |s| - 1;
        assert t[..i] == s[..|s| - 1] && t[i + 1..] == [c];
        assert AtSplit(t, i);
      case Domain =>
        StepFromDomain(s, c);
      case Dot =>
        StepFromDot(s, c);
      case Accept =>
        StepFromAccept(s, c);
    }
  }

  /** Inside the domain label, a `.` ends the label and any other allowed character extends it. */
  lemma StepFromDomain(s: string, c: char)
    requires HasAtSplit(s) && !IsWhitespace(c) && c != '@'
    ensures c == '.' ==> HasAtSplit(s)
    ensures c != '.' ==> HasAtSplit(s + [c])
  {
    if c != '.' {
      var t := s + [c];
      var i :| 0 < i < |s| - 1 && AtSplit(s, i);
      assert t[..i] == s[..i];
      assert t[i + 1..] == s[i + 1..] + [c];
      CleanAppend(s[i + 1..], c);
      assert AtSplit(t, i);
    }
  }

  /** Just after the `.` that ends a label, any allowed character completes a match. */
  lemma StepFromDot(s: string, c: char)
    requires |s| >= 2 && s[|s| - 1] == '.' && HasAtSplit(s[..|s| - 1])
    requires !IsWhitespace(c) && c != '@'
    ensures MatchesEmailPattern(s + [c])
  {
    var t := s + [c];
    var u := s[..|s| - 1];
    var i :| 0 < i < |u| - 1 && AtSplit(u, i);
    var j := |s| - 1;
    assert t[..i] == u[..i] && t[i + 1..j] == u[i + 1..] && t[j + 1..] == [c];
    assert SplitsAt(t, i, j);
  }

  /** A match extended by an allowed character is still a match, with the same `@` and `.`. */
  lemma StepFromAccept(s: string, c: char)
    requires MatchesEmailPattern(s) && !IsWhitespace(c) && c != '@'
    ensures MatchesEmailPattern(s + [c])
  {
    var t := s + [c];
    var i, j :| 0 <= i < j < |s| && SplitsAt(s, i, j);
    assert t[..i] == s[..i] && t[i + 1..j] == s[i + 1..j];
    assert t[j + 1..] == s[j + 1..] + [c];
    CleanAppend(s[j + 1..], c);
    assert SplitsAt(t, i, j);
  }

  lemma {:induction false} ScanMeaning(s: string)
    ensures Meaning(StateAfter(s), s)
  {
    if s != [] {
      var t := s[..|s| - 1];
      ScanMeaning(t);
      StepMeaning(StateAfter(t), t, s[|s| - 1]);
      assert t + [s[|s| - 1]] == s;
    }
  }

  /** The states the prefixes of a string that matches at `i` (`@`) and `j` (`.`) pass through. */
  lemma {:induction false} PrefixStates(s: string, i: int, j: int, n: nat)
    requires 0 <= i < j < |s| && SplitsAt(s, i, j) && n <= |s|
    ensures n == 0 ==> StateAfter(s[..n]) == Start
    ensures 0 < n <= i ==> StateAfter(s[..n]) == Local
    ensures n == i + 1 ==> StateAfter(s[..n]) == AtSign
    ensures i + 1 < n <= j ==> StateAfter(s[..n]) in {Domain, Dot, Accept}
    ensures n == j + 1 ==> StateAfter(s[..n]) in {Dot, Accept}
    ensures j + 1 < n ==> StateAfter(s[..n]) == Accept
  {
    if n > 0 {
      PrefixStates(s, i, j, n - 1);
      var k := n - 1;
      assert s[..n][..k] == s[..k];
      if k < i {
        assert s[k] == s[..i][k];
      } else if i < k < j {
        assert s[k] == s[i + 1..j][k - i - 1];
      } else if j < k {
        assert s[k] == s[j + 1..][k - j - 1];
      }
    }
  }

  /** The matcher accepts exactly the strings the regular expression matches. */
  lemma ScanAcceptsIffPattern(s: string)
    ensures ScanAccepts(s) <==> MatchesEmailPattern(s)
  {
    if ScanAccepts(s) {
      ScanMeaning(s);
    }
    if MatchesEmailPattern(s) {
      var i, j :| 0 <= i < j < |s| && SplitsAt(s, i, j);
      PrefixStates(s, i, j, |s|);
      assert s[..|s|] == s;
    }
  }

  /** The matcher only tells whitespace, `@` and `.` apart, so letter case does not affect it. */
  lemma {:induction false} ScanIgnoresCase(s: string)
    ensures StateAfter(ToLower(s)) == StateAfter(s)
  {
    if s != [] {
      var t := s[..|s| - 1];
      ScanIgnoresCase(t);
      assert ToLower(s)[..|s| - 1] == ToLower(t);
    }
  }

  datatype Email = Email(value: string) {

    /** What every Email that Create produces satisfies: trimmed, lower-case, of the required shape. */
    predicate Valid() {
      IsTrimmed(value) && IsLowerCase(value) && ScanAccepts(value)
    }

    /**
     * Trims the input (a missing input counts as empty), rejects an empty
     * result before testing the pattern, and keeps the lower-cased string.
     * CreateFollowsPattern restates the test in terms of the pattern itself.
     */
    static function Create(raw: Option<string>): (r: Result<Email, Error>)
      ensures r == Failure(ValidationError(EmailEmpty)) <==> raw.None? || Trim(raw.value) == []
      ensures (r == Failure(ValidationError(EmailInvalidFormat)))
          <==> raw.Some? && Trim(raw.value) != [] && !ScanAccepts(Trim(raw.value))
      ensures r.Success? <==> raw.Some? && ScanAccepts(Trim(raw.value))
      ensures r.Success? ==> r.value.value == ToLower(Trim(raw.value)) && r.value.Valid()
    {
      var trimmed := if raw.None? then [] else Trim(raw.value);
      if |trimmed| == 0 then
        Failure(ValidationError(EmailEmpty))
      else if !ScanAccepts(trimmed) then
        Failure(ValidationError(EmailInvalidFormat))
      else
        LowerOfTrimmed(trimmed);
        LowerCaseIsFixedPoint(trimmed);
        ScanIgnoresCase(trimmed);
        Success(Email(ToLower(trimmed)))
    }

    /** Emails are compared by their stored string, so `equals` is equality of emails. */
    predicate Equals(other: Email)
      ensures Equals(other) <==> this == other
    {
      value == other.value
    }
  }

  /**
   * `Email.create` in terms of `^[^\s@]+@[^\s@]+\.[^\s@]+$`: a missing or
   * blank input is "empty"; otherwise the trimmed input either matches the
   * pattern and is kept lower-cased, or is an "invalid format".
   */
  lemma CreateFollowsPattern(raw: Option<string>)
    ensures Email.Create(raw) == Failure(ValidationError(EmailEmpty)) <==> raw.None? || Trim(raw.value) == []
    ensures Email.Create(raw) == Failure(ValidationError(EmailInvalidFormat))
            <==> raw.Some? && Trim(raw.value) != [] && !MatchesEmailPattern(Trim(raw.value))
    ensures Email.Create(raw).Success? <==> raw.Some? && MatchesEmailPattern(Trim(raw.value))
    ensures Email.Create(raw).Success? ==> Email.Create(raw).value.value == ToLower(Trim(raw.value))
  {
    if raw.Some? {
      ScanAcceptsIffPattern(Trim(raw.value));
    }
  }

  /** A valid Email survives being created again from its own value: reading it back from storage changes nothing. */
  lemma RecreateValid(e: Email)
    requires e.Valid()
    ensures Email.Create(Some(e.value)) == Success(e)
  {
    TrimOfTrimmed(e.value);
    LowerCaseIsFixedPoint(e.value);
  }

  /** Creation is idempotent. */
  lemma CreateIdempotent(raw: Option<string>)
    requires Email.Create(raw).Success?
    ensures Email.Create(Some(Email.Create(raw).value.value)) == Email.Create(raw)
  {
    RecreateValid(Email.Create(raw).value);
  }

  /** Inputs that differ only in letter case or surrounding whitespace give equal Emails. */
  lemma EqualsIgnoresCaseAndSpace(a: string, b: string)
    requires Email.Create(Some(a)).Success? && Email.Create(Some(b)).Success?
    ensures Email.Create(Some(a)).value.Equals(Email.Create(Some(b)).value) <==> ToLower(Trim(a)) == ToLower(Trim(b))
  {
  }

  /** A trimmed string the matcher accepts is kept as its lower-case form. */
  lemma CreateOfAccepted(s: string)
    requires IsTrimmed(s) && ScanAccepts(s)
    ensures Email.Create(Some(s)) == Success(Email(ToLower(s)))
  {
    TrimOfTrimmed(s);
  }

  lemma MixedCaseAddressShape(s: string)
    requires s == "John@Example.com"
    ensures IsTrimmed(s) && ScanAccepts(s) && ToLower(s) == "john@example.com"
  {
    assert SplitsAt(s, 4, 12) by {
      assert s[..4] == "John" && s[5..12] == "Example" && s[13..] == "com";
    }
    ScanAcceptsIffPattern(s);
  }

  /** A mixed-case address is stored lower-cased. */
  lemma CreateExampleMixedCase(s: string)
    requires s == "John@Example.com"
    ensures Email.Create(Some(s)) == Success(Email("john@example.com"))
  {
    MixedCaseAddressShape(s);
    CreateOfAccepted(s);
  }

  /** Whitespace-only input reports "empty", not the format: the empty check comes first. */
  lemma BlankIsEmpty(s: string)
    requires AllWhitespace(s)
    ensures Email.Create(Some(s)) == Failure(ValidationError(EmailEmpty))
  {
  }

  /** Non-blank input without an `@` reports the format. */
  lemma NoAtIsInvalid(s: string)
    requires Trim(s) != [] && '@' !in Trim(s)
    ensures Email.Create(Some(s)) == Failure(ValidationError(EmailInvalidFormat))
  {
    CreateFollowsPattern(Some(s));
  }

  lemma NoAtExample(bad: string)
    requires bad == "invalid-email"
    ensures IsTrimmed(bad) && bad != [] && '@' !in bad
  {
  }

  /** Missing and blank input both report "empty". */
  lemma CreateExampleBlank(blank: string)
    requires blank == "   "
    ensures Email.Create(None) == Failure(ValidationError(EmailEmpty))
    ensures Email.Create(Some(blank)) == Failure(ValidationError(EmailEmpty))
  {
    assert AllWhitespace(blank) by {
      assert blank[0] == blank[1] == blank[2] == ' ';
    }
    BlankIsEmpty(blank);
  }

  /** Input without `@`, such as "invalid-email", reports the format. */
  lemma CreateExampleNoAt(bad: string)
    requires bad == "invalid-email"
    ensures Email.Create(Some(bad)) == Failure(ValidationError(EmailInvalidFormat))
  {
    NoAtExample(bad);
    TrimOfTrimmed(bad);
    NoAtIsInvalid(bad);
  }
}
