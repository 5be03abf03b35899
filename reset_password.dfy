/** The reset-password form: the password policy of its schema, the
    confirmation check and the submit step. */
module ResetPassword {
  import opened Strings

  // ---------------------------------------------------------------------------
  // the password policy

  predicate IsLower(c: char) { 'a' <= c <= 'z' }
  predicate IsUpper(c: char) { 'A' <= c <= 'Z' }

  /** `[@$!%*?&]`. */
  predicate IsSpecial(c: char)
  {
    c == '@' || c == '$' || c == '!' || c == '%' || c == '*' || c == '?' || c == '&'
  }

  /** `[A-Za-z\d@$!%*?&]` (`\d` is ASCII). */
  predicate IsAllowed(c: char)
  {
    IsLower(c) || IsUpper(c) || IsDigit(c) || IsSpecial(c)
  }

  /** The characters `.` does not match. */
  predicate IsLineTerminator(c: char)
  {
    c == '\n' || c == '\r' || c == '\U{2028}' || c == '\U{2029}'
  }

  /** The lookahead `(?=.*[class])`, read literally: a character of the class
      occurs with no line terminator before it. */
  predicate Lookahead(s: string, cls: char -> bool)
  {
    exists k :: 0 <= k < |s| && cls(s[k]) && forall j :: 0 <= j < k ==> !IsLineTerminator(s[j])
  }

  /** The pattern `^(?=.*[a-z])(?=.*[A-Z])(?=.*\d)(?=.*[@$!%*?&])[A-Za-z\d@$!%*?&]+$`,
      as a regular-expression engine reads it: four lookaheads at the start,
      then one or more allowed characters up to the end. */
  predicate MatchesPattern(s: string)
  {
    Lookahead(s, IsLower) && Lookahead(s, IsUpper) && Lookahead(s, IsDigit) && Lookahead(s, IsSpecial)
    && |s| >= 1 && forall i :: 0 <= i < |s| ==> IsAllowed(s[i])
  }

  predicate Has(s: string, cls: char -> bool)
  {
    exists k :: 0 <= k < |s| && cls(s[k])
  }

  /** The policy in plain words: only allowed characters, and at least one
      lower-case letter, one upper-case letter, one digit and one special
      character. */
  predicate Policy(s: string)
  {
    (forall i :: 0 <= i < |s| ==> IsAllowed(s[i]))
    && Has(s, IsLower) && Has(s, IsUpper) && Has(s, IsDigit) && Has(s, IsSpecial)
  }

  /** With only allowed characters, no line terminator can block a
      lookahead, so the pattern is the plain policy. */
  lemma PatternIsPolicy(s: string)
    ensures MatchesPattern(s) <==> Policy(s)
  {
    if Policy(s) {
      assert forall j :: 0 <= j < |s| ==> !IsLineTerminator(s[j]);
      LookaheadOfHas(s, IsLower);
      LookaheadOfHas(s, IsUpper);
      LookaheadOfHas(s, IsDigit);
      LookaheadOfHas(s, IsSpecial);
    }
  }

  lemma LookaheadOfHas(s: string, cls: char -> bool)
    requires forall j :: 0 <= j < |s| ==> !IsLineTerminator(s[j])
    requires Has(s, cls)
    ensures Lookahead(s, cls)
  {
    var k :| 0 <= k < |s| && cls(s[k]);
  }

  /** `.length` of a JavaScript string: characters outside the basic plane
      take two code units. */
  function Utf16Length(s: string): (r: nat)
    ensures r >= |s|
    ensures (forall i :: 0 <= i < |s| ==> IsAllowed(s[i])) ==> r == |s|
  {
    if s == [] then 0 else (if s[0] as int > 0xFFFF then 2 else 1) + Utf16Length(s[1..])
  }

  // ---------------------------------------------------------------------------
  // the schema

  datatype Field = Password | ConfirmPassword

  datatype Issue = Issue(path: Field, message: string)

  const TooShort := "A senha deve ter pelo menos 8 caracteres"
  const WeakPassword := "A senha deve conter pelo menos uma letra maiúscula, uma minúscula, um número e um caractere especial"
  const ConfirmRequired := "Confirme sua nova senha"
  const Mismatch := "As senhas não coincidem"

  /** The issues the schema reports, field checks first and the match
      check last, in the order they are declared. */
  function Validate(password: string, confirmPassword: string): (r: seq<Issue>)
    ensures Issue(Password, TooShort) in r <==> Utf16Length(password) < 8
    ensures Issue(Password, WeakPassword) in r <==> !MatchesPattern(password)
    ensures Issue(ConfirmPassword, ConfirmRequired) in r <==> confirmPassword == ""
    ensures Issue(ConfirmPassword, Mismatch) in r <==> password != confirmPassword
    ensures forall i :: 0 <= i < |r| ==> r[i] in [Issue(Password, TooShort), Issue(Password, WeakPassword),
                                                  Issue(ConfirmPassword, ConfirmRequired), Issue(ConfirmPassword, Mismatch)]
  {
    (if Utf16Length(password) < 8 then [Issue(Password, TooShort)] else [])
    + (if !MatchesPattern(password) then [Issue(Password, WeakPassword)] else [])
    + (if |confirmPassword| < 1 then [Issue(ConfirmPassword, ConfirmRequired)] else [])
    + (if password != confirmPassword then [Issue(ConfirmPassword, Mismatch)] else [])
  }

  /** The form is valid exactly when the password has eight or more
      characters, follows the policy, and the confirmation repeats it (the
      confirmation then cannot be empty). */
  lemma ValidIff(password: string, confirmPassword: string)
    ensures Validate(password, confirmPassword) == [] <==>
      (|password| >= 8 && Policy(password) && confirmPassword == password)
  {
    PatternIsPolicy(password);
    var r := Validate(password, confirmPassword);
    if r == [] {
      assert Issue(Password, WeakPassword) !in r;
      assert Issue(Password, TooShort) !in r;
      assert Issue(ConfirmPassword, Mismatch) !in r;
    }
  }

  // ---------------------------------------------------------------------------
  // submit

  datatype Outcome = Reset | RootError(message: string)

  const SubmitError := "Erro ao redefinir a senha. Tente novamente."

  /** `onSubmit` on validated data: without a signed-in user the update is
      not attempted; otherwise `updated` is what the password update
      answered. The result says whether the update was requested and how
      the submit ended. */
  function OnSubmit(hasUser: bool, updated: bool): (r: (bool, Outcome))
    ensures r.0 <==> hasUser
    ensures r.1 == Reset <==> hasUser && updated
    ensures r.1 != Reset ==> r.1 == RootError(SubmitError)
  {
    if !hasUser then (false, RootError(SubmitError))
    else if updated then (true, Reset)
    else (true, RootError(SubmitError))
  }
}
