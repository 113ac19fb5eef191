/**
 * The input validators of the sign-up, log-in and create-post screens
 * (src/utils/validation.ts). Each object-returning validator yields a
 * `Verdict` holding `valid` and the optional `error` message; the rule order
 * decides which message a string that breaks two rules gets.
 */
module Validation {
  import opened Options
  import opened JsString

  /** The `{ valid, error? }` object the validators return. */
  datatype Verdict = Verdict(valid: bool, error: Option<string>)

  /** A verdict carries a message exactly when it rejects. */
  predicate WellFormed(v: Verdict)
  {
    v.valid <==> v.error.None?
  }

  const MinPasswordLength: nat := 6
  const MinNameLength: nat := 2
  const MaxNameLength: nat := 50
  const MaxPostLength: nat := 5000

  const PasswordTooShort := "Password must be at least 6 characters"
  const NameTooShort := "Name must be at least 2 characters"
  const NameTooLong := "Name must be less than 50 characters"
  const PostEmpty := "Post cannot be empty"
  const PostTooLong := "Post must be less than 5000 characters"

  const Accept := Verdict(true, None)

  function Reject(message: string): Verdict
  {
    Verdict(false, Some(message))
  }

  // ---------------------------------------------------------------------
  // validatePassword

  function ValidatePassword(password: string): (v: Verdict)
    ensures WellFormed(v)
    ensures v.valid <==> Utf16Length(password) >= MinPasswordLength
    ensures !v.valid ==> v.error == Some(PasswordTooShort)
  {
    if Utf16Length(password) < MinPasswordLength then Reject(PasswordTooShort) else Accept
  }

  // ---------------------------------------------------------------------
  // validateName

  function ValidateName(name: string): (v: Verdict)
    ensures WellFormed(v)
    ensures v.valid <==> MinNameLength <= Utf16Length(Trim(name)) <= MaxNameLength
    ensures v.error == Some(NameTooShort) <==> Utf16Length(Trim(name)) < MinNameLength
    ensures v.error == Some(NameTooLong) <==> Utf16Length(Trim(name)) > MaxNameLength
  {
    var n := Utf16Length(Trim(name));
    if n < MinNameLength then Reject(NameTooShort)
    else if n > MaxNameLength then Reject(NameTooLong)
    else Accept
  }

  /** A name is judged by its stripped core alone: surrounding whitespace
      never changes the verdict. */
  lemma ValidateNameIgnoresPadding(p: string, core: string, q: string)
    requires AllWhitespace(p) && AllWhitespace(q) && Stripped(core)
    ensures ValidateName(p + core + q) == ValidateName(core)
  {
    TrimOfPadded(p, core, q);
    TrimOfPadded([], core, []);
    assert [] + core + [] == core;
    SameTrimSameVerdict(p + core + q, core);
  }

  /** The name verdict depends on the trimmed text only. */
  lemma SameTrimSameVerdict(a: string, b: string)
    requires Trim(a) == Trim(b)
    ensures ValidateName(a) == ValidateName(b)
  {
  }

  /** The boundary is inclusive: a stripped name of exactly 50 code units
      passes, although the message speaks of "less than 50". */
  lemma NameOfFiftyAccepted(core: string)
    requires Stripped(core) && Utf16Length(core) == MaxNameLength
    ensures ValidateName(core).valid
  {
    TrimOfPadded([], core, []);
    assert [] + core + [] == core;
  }

  // ---------------------------------------------------------------------
  // validatePostContent

  /** The emptiness test comes first and looks at the trimmed text; the length
      test looks at the untrimmed text. */
  function ValidatePostContent(content: string): (v: Verdict)
    ensures WellFormed(v)
    ensures v.valid <==> !AllWhitespace(content) && Utf16Length(content) <= MaxPostLength
    ensures v.error == Some(PostEmpty) <==> AllWhitespace(content)
    ensures v.error == Some(PostTooLong) <==> !AllWhitespace(content) && Utf16Length(content) > MaxPostLength
  {
    if Utf16Length(Trim(content)) == 0 then Reject(PostEmpty)
    else if Utf16Length(content) > MaxPostLength then Reject(PostTooLong)
    else Accept
  }

  /** Whitespace padding counts against the length limit even though it does
      not make a post non-empty. */
  lemma PaddingCountsTowardsPostLimit(core: string, pad: string)
    requires !AllWhitespace(core) && AllWhitespace(pad)
    requires Utf16Length(core) + Utf16Length(pad) > MaxPostLength
    ensures ValidatePostContent(core + pad).error == Some(PostTooLong)
  {
    Utf16LengthAppend(core, pad);
    var s := core + pad;
    var i :| 0 <= i < |core| && !IsWhitespace(core[i]);
    assert s[i] == core[i];
  }

  // ---------------------------------------------------------------------
  // validateEmail: /^[^\s@]+@[^\s@]+\.[^\s@]+$/

  /** A character of the class `[^\s@]`. */
  predicate IsAtom(c: char)
  {
    !IsWhitespace(c) && c != '@'
  }

  /** Every character of `s[lo..hi]` is in `[^\s@]`. */
  ghost predicate AtomsIn(s: string, lo: int, hi: int)
  {
    forall i :: lo <= i < hi && 0 <= i < |s| ==> IsAtom(s[i])
  }

  /** The regular expression read directly: `s` is `L + "@" + D + "." + T`
      with `L` = `s[..at]`, `D` = `s[at+1..dot]`, `T` = `s[dot+1..]`, each
      non-empty and made of `[^\s@]` characters. */
  ghost predicate MatchesEmailPattern(s: string)
  {
    exists at, dot :: 0 < at && at + 1 < dot && dot + 1 < |s| && s[at] == '@' && s[dot] == '.'
      && AtomsIn(s, 0, at) && AtomsIn(s, at + 1, dot) && AtomsIn(s, dot + 1, |s|)
  }

  /** The states of a left-to-right matcher for the email pattern. */
  datatype EmailState =
    | Start    // nothing read
    | Local    // inside L
    | AfterAt  // just read the '@'
    | Domain   // inside D, no usable '.' yet
    | Dot      // the last character is a '.' that can end D
    | Tail     // inside T: the pattern is complete
    | Dead     // no continuation can match

  /** One step of the matcher. Whitespace, and an '@' anywhere but right
      after a non-empty L, lead to `Dead`, which no character leaves. */
  function EmailStep(st: EmailState, c: char): (next: EmailState)
    ensures st == Dead || IsWhitespace(c) ==> next == Dead
    ensures c == '@' ==> (next == AfterAt <==> st == Local)
    ensures c == '@' && st != Local ==> next == Dead
    ensures next != Start
  {
    if !IsAtom(c) then
      (if c == '@' && st == Local then AfterAt else Dead)
    else
      match st
      case Start => Local
      case Local => Local
      case AfterAt => Domain
      case Domain => if c == '.' then Dot else Domain
      case Dot => Tail
      case Tail => Tail
      case Dead => Dead
  }

  /** The state reached from `st` after reading `s[i..]`. */
  function EmailRun(st: EmailState, s: string, i: nat): (last: EmailState)
    requires i <= |s|
    ensures st == Dead ==> last == Dead
    ensures (exists k :: i <= k < |s| && IsWhitespace(s[k])) ==> last == Dead
    decreases |s| - i
  {
    if i == |s| then st else EmailRun(EmailStep(st, s[i]), s, i + 1)
  }

  /** `validateEmail`: the pattern's `test`. */
  function ValidateEmail(email: string): (ok: bool)
    ensures ok <==> MatchesEmailPattern(email)
  {
    MatcherAcceptsPattern(email);
    EmailRun(Start, email, 0) == Tail
  }

  /** `s` has a '.' at an index `k` with `lo <= k` that is not the last one. */
  ghost predicate DotFrom(s: string, lo: int)
  {
    exists k :: lo <= k < |s| - 1 && 0 <= k && s[k] == '.'
  }

  /** `s[i..]` is `D + "." + T`: what may follow the '@'. */
  ghost predicate DomainAndTail(s: string, i: int)
  {
    AtomsIn(s, i, |s|) && DotFrom(s, i + 1)
  }

  /** `s[i..]` is `L + "@" + R`, `R` a `DomainAndTail`, with `L` of at least
      `min` atoms. */
  ghost predicate LocalThen(s: string, i: int, min: nat)
  {
    exists at :: i + min <= at < |s| && 0 <= at && s[at] == '@' && AtomsIn(s, i, at) && DomainAndTail(s, at + 1)
  }

  /** The rest of the input, `s[i..]`, that a run from `st` accepts. */
  ghost predicate Accepts(st: EmailState, s: string, i: int)
  {
    match st
    case Tail => AtomsIn(s, i, |s|)
    case Dot => i < |s| && AtomsIn(s, i, |s|)
    case Domain => AtomsIn(s, i, |s|) && DotFrom(s, i)
    case AfterAt => DomainAndTail(s, i)
    case Local => LocalThen(s, i, 0)
    case Start => LocalThen(s, i, 1)
    case Dead => false
  }

  lemma {:induction false} EmailRunAccepts(st: EmailState, s: string, i: nat)
    requires i <= |s|
    ensures EmailRun(st, s, i) == Tail <==> Accepts(st, s, i)
    decreases |s| - i
  {
    if i == |s| {
      return;
    }
    var c := s[i];
    EmailRunAccepts(EmailStep(st, c), s, i + 1);
    match st
    case Tail =>
    case Dead =>
    case Dot =>
    case Domain =>
      if IsAtom(c) && c != '.' && DotFrom(s, i) {
        var k :| i <= k < |s| - 1 && 0 <= k && s[k] == '.';
        assert DotFrom(s, i + 1);
      }
    case AfterAt =>
    case Local =>
      if IsAtom(c) { LocalThenAtom(s, i, 0); }
      else if c == '@' { LocalThenAt(s, i, 0); }
      else { LocalThenOther(s, i, 0); }
    case Start =>
      if IsAtom(c) { LocalThenAtom(s, i, 1); }
      else if c == '@' { LocalThenAt(s, i, 1); }
      else { LocalThenOther(s, i, 1); }
  }

  /** Inside L, an atom extends L: from `Start` or `Local` the rest is
      accepted exactly when it is accepted from `Local` one step later. */
  lemma LocalThenAtom(s: string, i: nat, min: nat)
    requires i < |s| && min <= 1 && IsAtom(s[i])
    ensures LocalThen(s, i, min) <==> LocalThen(s, i + 1, 0)
  {
    if LocalThen(s, i, min) {
      var at :| i + min <= at < |s| && 0 <= at && s[at] == '@' && AtomsIn(s, i, at) && DomainAndTail(s, at + 1);
      assert at != i;
      assert AtomsIn(s, i + 1, at);
    }
    if LocalThen(s, i + 1, 0) {
      var at :| i + 1 <= at < |s| && 0 <= at && s[at] == '@' && AtomsIn(s, i + 1, at) && DomainAndTail(s, at + 1);
      assert AtomsIn(s, i, at);
    }
  }

  /** An '@' ends L, which must not be empty when the run started at
      `Start`. */
  lemma LocalThenAt(s: string, i: nat, min: nat)
    requires i < |s| && min <= 1 && s[i] == '@'
    ensures LocalThen(s, i, min) <==> min == 0 && DomainAndTail(s, i + 1)
  {
    if LocalThen(s, i, min) {
      var at :| i + min <= at < |s| && 0 <= at && s[at] == '@' && AtomsIn(s, i, at) && DomainAndTail(s, at + 1);
      assert !IsAtom(s[i]);
      assert at == i;
    }
    if min == 0 && DomainAndTail(s, i + 1) {
      assert AtomsIn(s, i, i);
    }
  }

  /** Whitespace inside L leaves no way to match. */
  lemma LocalThenOther(s: string, i: nat, min: nat)
    requires i < |s| && !IsAtom(s[i]) && s[i] != '@'
    ensures !LocalThen(s, i, min)
  {
  }

  /** The matcher accepts exactly the strings the pattern describes. */
  lemma MatcherAcceptsPattern(email: string)
    ensures EmailRun(Start, email, 0) == Tail <==> MatchesEmailPattern(email)
  {
    EmailRunAccepts(Start, email, 0);
    StartAcceptsPattern(email);
  }

  /** What the matcher accepts from `Start` is the pattern. */
  lemma StartAcceptsPattern(email: string)
    ensures Accepts(Start, email, 0) <==> MatchesEmailPattern(email)
  {
    if LocalThen(email, 0, 1) {
      var at :| 1 <= at < |email| && email[at] == '@' && AtomsIn(email, 0, at) && DomainAndTail(email, at + 1);
      var dot :| at + 2 <= dot < |email| - 1 && 0 <= dot && email[dot] == '.';
      assert AtomsIn(email, at + 1, dot) && AtomsIn(email, dot + 1, |email|);
    }
    if MatchesEmailPattern(email) {
      var at, dot :| 0 < at && at + 1 < dot && dot + 1 < |email| && email[at] == '@' && email[dot] == '.'
        && AtomsIn(email, 0, at) && AtomsIn(email, at + 1, dot) && AtomsIn(email, dot + 1, |email|);
      assert DotFrom(email, at + 2);
      assert AtomsIn(email, at + 1, |email|);
    }
  }

  /** An accepted address has no whitespace, and a '.' after the '@' that
      neither follows it directly nor ends the string. */
  lemma AcceptedEmailShape(email: string)
    requires ValidateEmail(email)
    ensures forall i :: 0 <= i < |email| ==> !IsWhitespace(email[i])
    ensures exists at, dot :: 0 < at && at + 1 < dot < |email| - 1 && email[at] == '@' && email[dot] == '.'
  {
    var at, dot :| 0 < at && at + 1 < dot && dot + 1 < |email| && email[at] == '@' && email[dot] == '.'
      && AtomsIn(email, 0, at) && AtomsIn(email, at + 1, dot) && AtomsIn(email, dot + 1, |email|);
    forall i | 0 <= i < |email| ensures !IsWhitespace(email[i]) {
      if i != at && i != dot {
        assert IsAtom(email[i]);
      }
    }
  }

  /** A run of atoms holds no '@'. */
  lemma AtomsHoldNoAt(s: string, lo: nat, hi: nat)
    requires lo <= hi <= |s| && AtomsIn(s, lo, hi)
    ensures multiset(s[lo..hi])['@'] == 0
  {
    var t := s[lo..hi];
    forall k | 0 <= k < |t| ensures t[k] != '@' { assert t[k] == s[lo + k]; }
  }

  /** The text after the '@' of a matching address holds no '@'. */
  lemma DomainHoldsNoAt(s: string, at: nat, dot: nat)
    requires at < dot < |s| && s[dot] == '.' && AtomsIn(s, at + 1, dot) && AtomsIn(s, dot + 1, |s|)
    ensures multiset(s[at + 1..])['@'] == 0
  {
    AtomsHoldNoAt(s, at + 1, dot);
    AtomsHoldNoAt(s, dot + 1, |s|);
    assert s[at + 1..] == s[at + 1..dot] + [s[dot]] + s[dot + 1..|s|];
  }

  /** A string the pattern describes has exactly one '@'. */
  lemma PatternHasOneAt(email: string)
    requires MatchesEmailPattern(email)
    ensures multiset(email)['@'] == 1
  {
    var at, dot :| 0 < at && at + 1 < dot && dot + 1 < |email| && email[at] == '@' && email[dot] == '.'
      && AtomsIn(email, 0, at) && AtomsIn(email, at + 1, dot) && AtomsIn(email, dot + 1, |email|);
    AtomsHoldNoAt(email, 0, at);
    DomainHoldsNoAt(email, at, dot);
    assert email == email[0..at] + [email[at]] + email[at + 1..];
  }

  /** An accepted address has exactly one '@'. */
  lemma AcceptedEmailHasOneAt(email: string)
    requires ValidateEmail(email)
    ensures multiset(email)['@'] == 1
  {
    PatternHasOneAt(email);
  }

  /** The empty string and any string without '@' are rejected. */
  lemma EmailWithoutAtRejected(email: string)
    requires '@' !in email
    ensures !ValidateEmail(email)
  {
  }
}
