/**
 * Credential checks of the login screen (src/screens/LoginScreen.tsx).
 *
 * `MatchesEmailRe` is the test `/^[^\s@]+@[^\s@]+\.[^\s@]+$/` performed by
 * the screen's EMAIL_RE; `ComputeValid` is the screen's memoised `valid`
 * flag; `OnSubmit` is the submit handler, returning the two error messages it
 * stores and the action it dispatches to the auth slice, if any.
 */
module LoginScreen {
  import opened Wrappers
  import AuthSlice

  const InvalidEmailMessage: string := "Please enter a valid email."
  const ShortPasswordMessage: string := "Password must be at least 6 characters."
  const MinPasswordLength: nat := 6

  /**
   * The characters `\s` matches in a JavaScript regular expression: the
   * ECMAScript WhiteSpace and LineTerminator characters (tab, line tab, form
   * feed, the byte order mark, the space separators, LF, CR, U+2028, U+2029).
   */
  predicate IsWhitespace(c: char)
    ensures IsWhitespace(c) ==> c != '@' && c != '.' && (c as int) < 0x1_0000
  {
    c == '\t' || c == '\n' || c == '\U{000B}' || c == '\U{000C}' || c == '\r'
    || c == ' ' || c == '\U{00A0}' || c == '\U{1680}'
    || ('\U{2000}' <= c <= '\U{200A}')
    || c == '\U{2028}' || c == '\U{2029}' || c == '\U{202F}' || c == '\U{205F}'
    || c == '\U{3000}' || c == '\U{FEFF}'
  }

  /** A character of the class `[^\s@]`. */
  predicate Plain(c: char) {
    !IsWhitespace(c) && c != '@'
  }

  predicate AllPlain(t: string) {
    forall k :: 0 <= k < |t| ==> Plain(t[k])
  }

  /**
   * `s` splits as local "@" domain "." tld with the '@' at `i` and the '.' at
   * `j`, each of the three parts non-empty and made of `[^\s@]` characters.
   */
  predicate EmailSplitAt(s: string, i: int, j: int) {
    0 < i && i + 1 < j && j + 1 < |s|
    && s[i] == '@' && s[j] == '.'
    && AllPlain(s[..i]) && AllPlain(s[i + 1..j]) && AllPlain(s[j + 1..])
  }

  /**
   * `EMAIL_RE.test(s)`: some split of `s` fits the pattern. A match has at
   * least five characters and begins with a `[^\s@]` character.
   */
  predicate MatchesEmailRe(s: string)
    ensures MatchesEmailRe(s) ==> 5 <= |s| && Plain(s[0])
  {
    exists i, j | 0 < i < j < |s| :: EmailSplitAt(s, i, j)
  }

  predicate NoWhitespace(s: string) {
    forall k :: 0 <= k < |s| ==> !IsWhitespace(s[k])
  }

  /** The number of positions of `s` holding `c`. */
  function Occurrences(s: string, c: char): nat
  {
    if |s| == 0 then 0 else Occurrences(s[..|s| - 1], c) + (if s[|s| - 1] == c then 1 else 0)
  }

  /**
   * The pattern read without backtracking: no whitespace, a single '@' that is
   * not the first character, and a '.' after the '@' that is neither right
   * after it nor the last character.
   */
  predicate EmailShape(s: string) {
    NoWhitespace(s)
    && exists i | 0 < i < |s| :: s[i] == '@' && '@' !in s[..i] && '@' !in s[i + 1..]
         && i + 3 <= |s| && '.' in s[i + 2..|s| - 1]
  }

  /** The pattern holds exactly when the string has the shape above. */
  lemma MatchesEmailReIffShape(s: string)
    ensures MatchesEmailRe(s) <==> EmailShape(s)
  {
    if MatchesEmailRe(s) {
      var i, j :| 0 < i < j < |s| && EmailSplitAt(s, i, j);
      PlainSplit(s, i, j);
      assert s[i + 1..j] + [s[j]] + s[j + 1..] == s[i + 1..];
      assert '.' in s[i + 2..|s| - 1] by {
        assert s[i + 2..|s| - 1][j - i - 2] == s[j];
      }
    }
    if EmailShape(s) {
      var i :| 0 < i < |s| && s[i] == '@' && '@' !in s[..i] && '@' !in s[i + 1..]
        && i + 3 <= |s| && '.' in s[i + 2..|s| - 1];
      var d :| 0 <= d < |s[i + 2..|s| - 1]| && s[i + 2..|s| - 1][d] == '.';
      var j := i + 2 + d;
      assert s[j] == '.';
      forall k | 0 <= k < |s| && k != i ensures Plain(s[k]) {
        if k < i { assert s[..i][k] == s[k]; } else { assert s[i + 1..][k - i - 1] == s[k]; }
      }
      assert EmailSplitAt(s, i, j);
    }
  }

  /** Helper: a split's parts are plain, so the whole string is plain except at the '@'. */
  lemma PlainSplit(s: string, i: int, j: int)
    requires EmailSplitAt(s, i, j)
    ensures NoWhitespace(s)
    ensures '@' !in s[..i] && '@' !in s[i + 1..]
  {
    forall k | 0 <= k < |s| && k != i ensures Plain(s[k]) {
      if k < i { assert s[..i][k] == s[k]; }
      else if k < j { assert s[i + 1..j][k - i - 1] == s[k]; }
      else if k > j { assert s[j + 1..][k - j - 1] == s[k]; }
    }
  }

  lemma {:induction false} OccurrencesOfConcat(a: string, b: string, c: char)
    ensures Occurrences(a + b, c) == Occurrences(a, c) + Occurrences(b, c)
  {
    if |b| > 0 {
      assert (a + b)[..|a + b| - 1] == a + b[..|b| - 1];
      OccurrencesOfConcat(a, b[..|b| - 1], c);
    } else {
      assert a + b == a;
    }
  }

  lemma {:induction false} OccurrencesAbsent(s: string, c: char)
    requires c !in s
    ensures Occurrences(s, c) == 0
  {
    if |s| > 0 {
      OccurrencesAbsent(s[..|s| - 1], c);
    }
  }

  /** An accepted email has no whitespace and exactly one '@'. */
  lemma AcceptedEmailHasOneAt(s: string)
    requires MatchesEmailRe(s)
    ensures NoWhitespace(s)
    ensures Occurrences(s, '@') == 1
  {
    var i, j :| 0 < i < j < |s| && EmailSplitAt(s, i, j);
    PlainSplit(s, i, j);
    assert s == s[..i] + [s[i]] + s[i + 1..];
    OccurrencesOfConcat(s[..i] + [s[i]], s[i + 1..], '@');
    OccurrencesOfConcat(s[..i], [s[i]], '@');
    OccurrencesAbsent(s[..i], '@');
    OccurrencesAbsent(s[i + 1..], '@');
    assert Occurrences([s[i]], '@') == 1 by {
      assert [s[i]][..0] == [];
    }
  }

  /** The domain may itself hold dots. */
  lemma AcceptedEmailExamples()
    ensures MatchesEmailRe("a@b.com")
    ensures MatchesEmailRe("j.d@mail.co.uk")
  {
    assert EmailSplitAt("a@b.com", 1, 3);
    assert EmailSplitAt("j.d@mail.co.uk", 3, 11);
  }

  /** A missing '.', an empty domain, a space or a second '@' is refused. */
  lemma RejectedEmailExamples()
    ensures !MatchesEmailRe("a@b")
    ensures !MatchesEmailRe("a@.com")
    ensures !MatchesEmailRe("a b@c.com")
    ensures !MatchesEmailRe("a@b@c.com")
  {
    MatchesEmailReIffShape("a@.com");
    forall i | 0 < i < 6 && "a@.com"[i] == '@'
      ensures !(i + 3 <= 6 && '.' in "a@.com"[i + 2..5])
    {
      assert i == 1 && "a@.com"[i + 2..5] == "co";
    }
    MatchesEmailReIffShape("a b@c.com");
    assert IsWhitespace("a b@c.com"[1]);
    MatchesEmailReIffShape("a@b@c.com");
    forall i | 0 < i < 9 && "a@b@c.com"[i] == '@'
      ensures '@' in "a@b@c.com"[..i] || '@' in "a@b@c.com"[i + 1..]
    {
      if i == 1 { assert "a@b@c.com"[i + 1..][1] == '@'; }
      else { assert i == 3 && "a@b@c.com"[..i][1] == '@'; }
    }
  }

  /** `password.length`: the number of UTF-16 code units, two for a character outside the BMP. */
  function Utf16Length(s: string): (n: nat)
    ensures |s| <= n <= 2 * |s|
  {
    if |s| == 0 then 0
    else Utf16Length(s[..|s| - 1]) + (if s[|s| - 1] as int >= 0x1_0000 then 2 else 1)
  }

  predicate InBmp(s: string) {
    forall k :: 0 <= k < |s| ==> s[k] as int < 0x1_0000
  }

  /** For text inside the BMP, the UTF-16 length is the character count. */
  lemma {:induction false} Utf16LengthOfBmp(s: string)
    requires InBmp(s)
    ensures Utf16Length(s) == |s|
  {
    if |s| > 0 {
      Utf16LengthOfBmp(s[..|s| - 1]);
    }
  }

  /** The password passes when its length is at least the minimum. */
  predicate PasswordLongEnough(password: string)
    ensures |password| >= MinPasswordLength ==> PasswordLongEnough(password)
    ensures 2 * |password| < MinPasswordLength ==> !PasswordLongEnough(password)
  {
    Utf16Length(password) >= MinPasswordLength
  }

  /** The boundary: a BMP password of exactly six characters passes, one of five does not. */
  lemma PasswordBoundary(password: string)
    requires InBmp(password)
    ensures |password| == 6 ==> PasswordLongEnough(password)
    ensures |password| == 5 ==> !PasswordLongEnough(password)
  {
    Utf16LengthOfBmp(password);
  }

  /** The memoised `valid` flag: cleared by each check that fails. */
  method ComputeValid(email: string, password: string) returns (ok: bool)
    ensures ok <==> MatchesEmailRe(email) && PasswordLongEnough(password)
  {
    ok := true;
    if !MatchesEmailRe(email) {
      ok := false;
    }
    if Utf16Length(password) < MinPasswordLength {
      ok := false;
    }
  }

  /**
   * The submit handler: sets each error message (empty when its check
   * passes) and dispatches a login carrying the entered email, unchanged,
   * only when both checks pass.
   */
  method OnSubmit(email: string, password: string)
    returns (emailErr: string, passwordErr: string, dispatched: Option<AuthSlice.AuthAction>)
    ensures emailErr == "" <==> MatchesEmailRe(email)
    ensures emailErr != "" ==> emailErr == InvalidEmailMessage
    ensures passwordErr == "" <==> PasswordLongEnough(password)
    ensures passwordErr != "" ==> passwordErr == ShortPasswordMessage
    ensures dispatched.Some? <==> emailErr == "" && passwordErr == ""
    ensures dispatched.Some? ==> dispatched.value == AuthSlice.LoginSucceeded(AuthSlice.User(email))
  {
    emailErr := if MatchesEmailRe(email) then "" else InvalidEmailMessage;
    passwordErr := if Utf16Length(password) >= MinPasswordLength then "" else ShortPasswordMessage;
    var valid := ComputeValid(email, password);
    if !valid {
      return emailErr, passwordErr, None;
    }
    dispatched := Some(AuthSlice.LoginSucceeded(AuthSlice.User(email)));
  }
}
