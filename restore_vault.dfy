/**
  The seed-phrase restore form of the wallet (`RestoreVaultPage`): the user
  types a secret recovery phrase and a new password twice; each keystroke
  re-validates the field it touches, and submitting asks the background
  wallet to create a new vault restored from the phrase.

  The pure part (normalising the phrase, the validation rules, the
  "submit disabled" condition) is written as functions with lemmas; the
  component itself is the class `RestoreVaultPage`, one method per handler,
  each proved against a pure transition on `FormState`.
 */
module RestoreVault {
  import opened Wrappers
  import opened JsText

  // ---------------------------------------------------------------------
  // Messages and constants
  // ---------------------------------------------------------------------

  /** The localised error messages, by their message key. */
  datatype Message = SeedPhraseReq | InvalidSeedPhrase | PasswordNotLongEnough | PasswordsDontMatch

  /** Shortest password the form accepts without an error. */
  const MinPasswordLength: nat := 8

  /** The mnemonic lengths BIP-39 allows ("Generating the mnemonic"). */
  const ValidWordCounts: set<nat> := {12, 15, 18, 21, 24}

  // ---------------------------------------------------------------------
  // parseSeedPhrase
  // ---------------------------------------------------------------------

  /** What `\w` can match after `toLowerCase`: `[a-z0-9_]`. */
  predicate IsNormalChar(c: char) {
    ('a' <= c <= 'z') || ('0' <= c <= '9') || c == '_'
  }

  predicate IsNormalWord(w: string) {
    w != [] && forall j :: 0 <= j < |w| ==> IsNormalChar(w[j])
  }

  /** A normalised phrase: lower-case word characters separated by single
      spaces, with no space at either end. */
  predicate IsNormalised(p: string) {
    forall i :: 0 <= i < |p| ==> NormalAt(p, i)
  }

  /** Position `i` of `p` holds a lower-case word character, or a single
      space between two words. */
  predicate NormalAt(p: string, i: nat)
    requires i < |p|
  {
    IsNormalChar(p[i]) || (p[i] == ' ' && 0 < i < |p| - 1 && p[i + 1] != ' ')
  }

  lemma LowerHasNoUpper(s: string, c: char)
    requires c in Lower(s)
    ensures !IsUpperAscii(c)
  {
    var i :| 0 <= i < |Lower(s)| && Lower(s)[i] == c;
  }

  /** The words of a seed phrase: the `\w+` matches of the trimmed,
      lowercased input. Each is a non-empty run of `[a-z0-9_]`. */
  function Words(seedPhrase: string): (ws: seq<string>)
    ensures forall i :: 0 <= i < |ws| ==> IsNormalWord(ws[i])
  {
    var l := Lower(Trim(seedPhrase));
    var ws := Tokens(l);
    TokenCharsComeFromInput(l);
    assert forall i, j :: 0 <= i < |ws| && 0 <= j < |ws[i]| ==> !IsUpperAscii(ws[i][j]) by {
      forall i, j | 0 <= i < |ws| && 0 <= j < |ws[i]| ensures !IsUpperAscii(ws[i][j]) {
        LowerHasNoUpper(Trim(seedPhrase), ws[i][j]);
      }
    }
    ws
  }

  /** `parseSeedPhrase`: `null` (`None`) reads as the empty string; the input
      is trimmed and lowercased, and its `\w+` matches are joined with single
      spaces, or the result is `''` when there is no match. */
  function ParseSeedPhrase(seedPhrase: Option<string>): (r: string)
    ensures r == "" <==> Words(seedPhrase.GetOr("")) == []
    ensures seedPhrase.None? ==> r == ""
  {
    match MatchWords(Lower(Trim(seedPhrase.GetOr(""))))
    case None => ""
    case Some(ws) =>
      assert ws == Words(seedPhrase.GetOr(""));
      JoinedWordsAreNormalised(ws);
      Join(ws)
  }

  /** Joining normal words with single spaces gives a normalised phrase,
      empty exactly when there are no words. */
  lemma {:induction false} JoinedWordsAreNormalised(ws: seq<string>)
    requires forall i :: 0 <= i < |ws| ==> IsNormalWord(ws[i])
    ensures IsNormalised(Join(ws))
    ensures Join(ws) == "" <==> ws == []
  {
    if |ws| > 1 {
      var w, j := ws[0], Join(ws[1..]);
      JoinedWordsAreNormalised(ws[1..]);
      var p := Join(ws);
      assert p == w + " " + j;
      forall i | 0 <= i < |p| ensures NormalAt(p, i) {
        if i < |w| {
          assert p[i] == w[i];
        } else if i == |w| {
          assert NormalAt(j, 0);
          assert p[i + 1] == j[0];
        } else {
          var k := i - |w| - 1;
          assert NormalAt(j, k);
          assert p[i] == j[k];
          if k + 1 < |j| {
            assert p[i + 1] == j[k + 1];
          }
        }
      }
    }
  }

  /** The normalised phrase is the input's words joined by single spaces. */
  lemma ParsedIsJoinedWords(seedPhrase: Option<string>)
    ensures ParseSeedPhrase(seedPhrase) == Join(Words(seedPhrase.GetOr("")))
  {
  }

  /** `parseSeedPhrase` returns a normalised phrase: no leading, trailing or
      doubled spaces, and nothing but `[a-z0-9_]` between the spaces. */
  lemma ParsedPhraseIsNormalised(seedPhrase: Option<string>)
    ensures IsNormalised(ParseSeedPhrase(seedPhrase))
  {
    JoinedWordsAreNormalised(Words(seedPhrase.GetOr("")));
  }

  /** The words of the normalised phrase are the words of the input: matching
      `/\w+/g` again, or splitting on white space when it is not empty, gives
      them back one by one. */
  lemma ParsedPhraseWords(seedPhrase: Option<string>)
    ensures var ws := Words(seedPhrase.GetOr(""));
      Tokens(ParseSeedPhrase(seedPhrase)) == ws
      && (ws != [] ==> Split(ParseSeedPhrase(seedPhrase)) == ws)
  {
    var ws := Words(seedPhrase.GetOr(""));
    TokensJoin(ws);
    if ws != [] {
      SplitJoin(ws);
    }
  }

  /** `parseSeedPhrase` is idempotent: a normalised phrase normalises to
      itself. */
  lemma ParseSeedPhraseIdempotent(seedPhrase: Option<string>)
    ensures ParseSeedPhrase(Some(ParseSeedPhrase(seedPhrase))) == ParseSeedPhrase(seedPhrase)
  {
    var p := ParseSeedPhrase(seedPhrase);
    ParsedPhraseIsNormalised(seedPhrase);
    ParsedPhraseWords(seedPhrase);
    NormalisedIsFixed(p);
    assert Words(p) == Tokens(p);
    ParsedIsJoinedWords(seedPhrase);
  }

  lemma NormalCharIsPlain(c: char)
    requires IsNormalChar(c)
    ensures !IsWhitespace(c) && !IsUpperAscii(c)
  {
  }

  /** Trimming and lowercasing leave a normalised phrase unchanged. */
  lemma NormalisedIsFixed(p: string)
    requires IsNormalised(p)
    ensures Trim(p) == p && Lower(p) == p
  {
    if p != [] {
      assert NormalAt(p, 0);
      NormalCharIsPlain(p[0]);
      assert TrimStart(p) == p;
      assert NormalAt(p, |p| - 1);
      NormalCharIsPlain(p[|p| - 1]);
      assert TrimEnd(p) == p;
    }
    forall i | 0 <= i < |p| ensures Lower(p)[i] == p[i] {
      assert NormalAt(p, i);
      if p[i] != ' ' {
        NormalCharIsPlain(p[i]);
      }
    }
  }

  /** The trim in `parseSeedPhrase` never changes its result. */
  lemma ParseSeedPhraseIgnoresTrim(seedPhrase: string)
    ensures Words(seedPhrase) == Tokens(Lower(seedPhrase))
  {
    TokensIgnoreTrim(seedPhrase);
  }

  // ---------------------------------------------------------------------
  // Validation
  // ---------------------------------------------------------------------

  /** `parseSeedPhrase.split(/\s/u).length`: one more than the number of
      white-space characters, so never zero. */
  function WordCount(p: string): (n: nat)
    ensures n == 1 + WhitespaceCount(p)
    ensures n >= 1
  {
    |Split(p)|
  }

  /** The word count of the normalised phrase is the number of words in the
      input; the empty phrase still counts as one piece. */
  lemma {:induction false} WordCountOfParsed(seedPhrase: string)
    ensures var p := ParseSeedPhrase(Some(seedPhrase));
      WordCount(p) == if p == "" then 1 else |Words(seedPhrase)|
  {
    var p := ParseSeedPhrase(Some(seedPhrase));
    if p == "" {
      assert Split(p) == [[]];
    } else {
      ParsedPhraseWords(Some(seedPhrase));
    }
  }

  /** The length rule of `handleSeedPhraseChange` accepts exactly the BIP-39
      mnemonic lengths. */
  lemma LengthRuleIsBip39(n: nat)
    ensures !(n % 3 != 0 || n < 12 || n > 24) <==> n in ValidWordCounts
  {
  }

  /** The error `handleSeedPhraseChange` stores for the raw input, given the
      external BIP-39 checksum predicate `isValidMnemonic`: the length error
      when the normalised phrase is not empty and its word count is not a
      multiple of three from 12 to 24, otherwise the checksum error when the
      phrase fails the check, otherwise none. */
  function SeedPhraseError(seedPhrase: string, isValidMnemonic: string -> bool): (e: Option<Message>)
    ensures e.None? || e == Some(SeedPhraseReq) || e == Some(InvalidSeedPhrase)
  {
    var parsed := ParseSeedPhrase(Some(seedPhrase));
    var wordCount := WordCount(parsed);
    if parsed != "" && (wordCount % 3 != 0 || wordCount < 12 || wordCount > 24) then
      Some(SeedPhraseReq)
    else if !isValidMnemonic(parsed) then
      Some(InvalidSeedPhrase)
    else
      None
  }

  /** What the seed-phrase error means in terms of the words of the input:
      the length error when the input has words but not 12, 15, 18, 21 or 24
      of them, whatever the checksum says; otherwise the checksum error
      exactly when the normalised phrase fails the check (an input with no
      words skips the length rule and goes straight to the check); otherwise
      no error. */
  lemma SeedPhraseErrorMeaning(seedPhrase: string, isValidMnemonic: string -> bool)
    ensures var ws, e := Words(seedPhrase), SeedPhraseError(seedPhrase, isValidMnemonic);
      && (e == Some(SeedPhraseReq) <==> ws != [] && |ws| !in ValidWordCounts)
      && (e == Some(InvalidSeedPhrase) <==>
            (ws == [] || |ws| in ValidWordCounts) && !isValidMnemonic(ParseSeedPhrase(Some(seedPhrase))))
      && (e == None <==>
            (ws == [] || |ws| in ValidWordCounts) && isValidMnemonic(ParseSeedPhrase(Some(seedPhrase))))
  {
    WordCountOfParsed(seedPhrase);
    LengthRuleIsBip39(WordCount(ParseSeedPhrase(Some(seedPhrase))));
  }

  /** The password error: set exactly when the password is non-empty and
      shorter than the minimum length. */
  function PasswordError(password: string): (e: Option<Message>)
    ensures e.Some? <==> password != "" && |password| < MinPasswordLength
    ensures e.None? || e == Some(PasswordNotLongEnough)
  {
    if password != "" && |password| < MinPasswordLength then Some(PasswordNotLongEnough) else None
  }

  // ---------------------------------------------------------------------
  // Component state and its transitions
  // ---------------------------------------------------------------------

  /** The seven fields of the component's `state`; `null` is `None`. */
  datatype FormState = FormState(
    seedPhrase: string,
    showSeedPhrase: bool,
    password: string,
    confirmPassword: string,
    seedPhraseError: Option<Message>,
    passwordError: Option<Message>,
    confirmPasswordError: Option<Message>)

  /** The state the component is created with. */
  function Initial(): (s: FormState)
    ensures s.seedPhrase == "" && s.password == "" && s.confirmPassword == ""
    ensures !s.showSeedPhrase && HasError(s).None?
  {
    FormState("", false, "", "", None, None, None)
  }

  /** `handleSeedPhraseChange`: stores the raw input (not the normalised
      phrase) and its error; no other field changes. */
  function SeedPhraseChanged(s: FormState, seedPhrase: string, isValidMnemonic: string -> bool): (r: FormState)
    ensures r.seedPhrase == seedPhrase
    ensures r.seedPhraseError == SeedPhraseError(seedPhrase, isValidMnemonic)
    ensures r.showSeedPhrase == s.showSeedPhrase
    ensures r.password == s.password && r.passwordError == s.passwordError
    ensures r.confirmPassword == s.confirmPassword && r.confirmPasswordError == s.confirmPasswordError
  {
    s.(seedPhrase := seedPhrase, seedPhraseError := SeedPhraseError(seedPhrase, isValidMnemonic))
  }

  /** `handlePasswordChange`: stores the password and its error, and
      re-checks the confirmation against it, reporting a mismatch only when a
      confirmation was typed; the seed-phrase fields, the confirmation and the
      visibility flag do not change. */
  function PasswordChanged(s: FormState, password: string): (r: FormState)
    ensures r.password == password
    ensures r.passwordError.Some? <==> password != "" && |password| < MinPasswordLength
    ensures r.confirmPasswordError.Some? <==> s.confirmPassword != "" && password != s.confirmPassword
    ensures r.confirmPasswordError.None? || r.confirmPasswordError == Some(PasswordsDontMatch)
    ensures r.seedPhrase == s.seedPhrase && r.seedPhraseError == s.seedPhraseError
    ensures r.confirmPassword == s.confirmPassword && r.showSeedPhrase == s.showSeedPhrase
  {
    s.(password := password,
       passwordError := PasswordError(password),
       confirmPasswordError :=
         if s.confirmPassword != "" && password != s.confirmPassword then Some(PasswordsDontMatch) else None)
  }

  /** `handleConfirmPasswordChange`: stores the confirmation and reports a
      mismatch exactly when it differs from the password, with no guard for
      an empty confirmation; the password, its error, the seed-phrase fields
      and the visibility flag do not change. */
  function ConfirmPasswordChanged(s: FormState, confirmPassword: string): (r: FormState)
    ensures r.confirmPassword == confirmPassword
    ensures r.confirmPasswordError.Some? <==> s.password != confirmPassword
    ensures r.confirmPasswordError.None? || r.confirmPasswordError == Some(PasswordsDontMatch)
    ensures r.password == s.password && r.passwordError == s.passwordError
    ensures r.seedPhrase == s.seedPhrase && r.seedPhraseError == s.seedPhraseError
    ensures r.showSeedPhrase == s.showSeedPhrase
  {
    s.(confirmPassword := confirmPassword,
       confirmPasswordError := if s.password != confirmPassword then Some(PasswordsDontMatch) else None)
  }

  /** `toggleShowSeedPhrase`: flips the visibility flag and nothing else. */
  function ShowSeedPhraseToggled(s: FormState): (r: FormState)
    ensures r.showSeedPhrase == !s.showSeedPhrase
    ensures r.seedPhrase == s.seedPhrase && r.seedPhraseError == s.seedPhraseError
    ensures r.password == s.password && r.passwordError == s.passwordError
    ensures r.confirmPassword == s.confirmPassword && r.confirmPasswordError == s.confirmPasswordError
  {
    s.(showSeedPhrase := !s.showSeedPhrase)
  }

  /** `hasError`: the first error that is set, in the order password,
      confirmation, seed phrase; `None` when none is. */
  function HasError(s: FormState): (e: Option<Message>)
    ensures e.None? <==> s.passwordError.None? && s.confirmPasswordError.None? && s.seedPhraseError.None?
    ensures e.Some? ==> e == s.passwordError || e == s.confirmPasswordError || e == s.seedPhraseError
    ensures s.passwordError.Some? ==> e == s.passwordError
    ensures s.passwordError.None? && s.confirmPasswordError.Some? ==> e == s.confirmPasswordError
  {
    if s.passwordError.Some? then s.passwordError
    else if s.confirmPasswordError.Some? then s.confirmPasswordError
    else s.seedPhraseError
  }

  /** The `disabled` flag of the submit button; `isLoading` comes from the
      application store. It is set when a field is empty, while loading, or
      when any of the three errors is set. */
  function SubmitDisabled(s: FormState, isLoading: bool): (d: bool)
    ensures d <==> s.seedPhrase == "" || s.password == "" || s.confirmPassword == "" || isLoading
                   || s.passwordError.Some? || s.confirmPasswordError.Some? || s.seedPhraseError.Some?
  {
    s.seedPhrase == "" || s.password == "" || s.confirmPassword == "" || isLoading || HasError(s).Some?
  }

  /** What holds of every state the handlers can reach from `Initial()`:
      each error field agrees with the field it validates (the seed-phrase
      error may still be unset for an untouched, empty phrase), and the
      mismatch error is set only for different passwords, and always when a
      non-empty confirmation differs from the password. */
  ghost predicate Consistent(s: FormState, isValidMnemonic: string -> bool) {
    && (s.seedPhraseError == SeedPhraseError(s.seedPhrase, isValidMnemonic)
        || (s.seedPhrase == "" && s.seedPhraseError.None?))
    && s.passwordError == PasswordError(s.password)
    && (s.confirmPasswordError.None? || s.confirmPasswordError == Some(PasswordsDontMatch))
    && (s.confirmPasswordError.Some? ==> s.password != s.confirmPassword)
    && (s.confirmPassword != "" && s.password != s.confirmPassword ==> s.confirmPasswordError.Some?)
  }

  // ---------------------------------------------------------------------
  // Lemmas about the transitions
  // ---------------------------------------------------------------------

  /** The form starts consistent ... */
  lemma InitialIsConsistent(isValidMnemonic: string -> bool)
    ensures Consistent(Initial(), isValidMnemonic)
  {
  }

  /** ... and every handler keeps it so. */
  lemma SeedPhraseChangePreservesConsistency(s: FormState, isValidMnemonic: string -> bool, seedPhrase: string)
    requires Consistent(s, isValidMnemonic)
    ensures Consistent(SeedPhraseChanged(s, seedPhrase, isValidMnemonic), isValidMnemonic)
  {
  }

  lemma PasswordChangePreservesConsistency(s: FormState, isValidMnemonic: string -> bool, password: string)
    requires Consistent(s, isValidMnemonic)
    ensures Consistent(PasswordChanged(s, password), isValidMnemonic)
  {
  }

  lemma ConfirmPasswordChangePreservesConsistency(s: FormState, isValidMnemonic: string -> bool, confirmPassword: string)
    requires Consistent(s, isValidMnemonic)
    ensures Consistent(ConfirmPasswordChanged(s, confirmPassword), isValidMnemonic)
  {
  }

  lemma TogglePreservesConsistency(s: FormState, isValidMnemonic: string -> bool)
    requires Consistent(s, isValidMnemonic)
    ensures Consistent(ShowSeedPhraseToggled(s), isValidMnemonic)
  {
  }

  /** The initial form cannot be submitted. */
  lemma InitialStateIsDisabled(isLoading: bool)
    ensures SubmitDisabled(Initial(), isLoading)
  {
  }

  /** When a consistent form is enabled, submitting it sends a password of at
      least eight characters that equals its confirmation, and a phrase the
      mnemonic check accepts whose word count, if it has words, is a BIP-39
      length. */
  lemma EnabledSubmitIsWellFormed(s: FormState, isValidMnemonic: string -> bool, isLoading: bool)
    requires Consistent(s, isValidMnemonic)
    requires !SubmitDisabled(s, isLoading)
    ensures !isLoading && s.seedPhrase != ""
    ensures s.password == s.confirmPassword && |s.password| >= MinPasswordLength
    ensures isValidMnemonic(ParseSeedPhrase(Some(s.seedPhrase)))
    ensures Words(s.seedPhrase) == [] || |Words(s.seedPhrase)| in ValidWordCounts
  {
    SeedPhraseErrorMeaning(s.seedPhrase, isValidMnemonic);
  }

  /** In a consistent form the button's state depends on the typed text
      alone: it is disabled exactly when a field is empty, while loading,
      when the password is shorter than eight characters, when the
      confirmation differs from it, or when the phrase fails the seed-phrase
      rules. */
  lemma DisabledMeaning(s: FormState, isValidMnemonic: string -> bool, isLoading: bool)
    requires Consistent(s, isValidMnemonic)
    ensures SubmitDisabled(s, isLoading) <==>
      || s.seedPhrase == "" || s.password == "" || s.confirmPassword == "" || isLoading
      || |s.password| < MinPasswordLength
      || s.password != s.confirmPassword
      || SeedPhraseError(s.seedPhrase, isValidMnemonic).Some?
  {
  }

  /** Typing a password of at least eight characters and the same text as
      confirmation, in either order, leaves neither password error set. */
  lemma MatchingPasswordsHaveNoErrors(s: FormState, password: string)
    requires |password| >= MinPasswordLength
    ensures var t := ConfirmPasswordChanged(PasswordChanged(s, password), password);
      t.passwordError.None? && t.confirmPasswordError.None?
    ensures var t := PasswordChanged(ConfirmPasswordChanged(s, password), password);
      t.passwordError.None? && t.confirmPasswordError.None?
  {
  }

  /** Typing a password equal to the confirmation clears the mismatch error,
      and so does typing a confirmation equal to the password. */
  lemma MatchingPasswordsClearMismatch(s: FormState, text: string)
    ensures s.confirmPassword == text ==> PasswordChanged(s, text).confirmPasswordError.None?
    ensures s.password == text ==> ConfirmPasswordChanged(s, text).confirmPasswordError.None?
  {
  }

  /** Clearing the confirmation while a password is set reports a mismatch
      (the confirmation handler has no empty guard), whereas clearing or
      changing the password while the confirmation is empty never does. */
  lemma EmptyConfirmationAsymmetry(s: FormState, text: string)
    ensures s.password != "" ==> ConfirmPasswordChanged(s, "").confirmPasswordError == Some(PasswordsDontMatch)
    ensures s.confirmPassword == "" ==> PasswordChanged(s, text).confirmPasswordError.None?
  {
  }

  /** Toggling twice gives the original state back. */
  lemma ToggleTwiceIsIdentity(s: FormState)
    ensures ShowSeedPhraseToggled(ShowSeedPhraseToggled(s)) == s
  {
  }

  // ---------------------------------------------------------------------
  // Effects
  // ---------------------------------------------------------------------

  datatype Route = DefaultRoute

  /** Calls made from the form to the store, analytics and the router.
      `UnMarkPasswordForgotten` is the `leaveImportSeedScreenState` prop,
      which dispatches `unMarkPasswordForgotten`. */
  datatype Effect =
    | UnMarkPasswordForgotten
    | CreateNewVaultAndRestore(password: string, seedPhrase: string)
    | MetricsEvent(category: string, action: string, name: string)
    | InitializeThreeBox
    | HistoryPush(route: Route)

  /** The retention event sent once the vault is restored. */
  const RestoredVaultEvent: Effect := MetricsEvent("Retention", "userEntersSeedPhrase", "onboardingRestoredVault")

  /** What the `.then` continuation of the restore does, in order. */
  function RestoreResolvedEffects(): seq<Effect> {
    [RestoredVaultEvent, InitializeThreeBox, HistoryPush(DefaultRoute)]
  }

  // ---------------------------------------------------------------------
  // The component
  // ---------------------------------------------------------------------

  class RestoreVaultPage {
    /** The BIP-39 word-list and checksum check of the wallet library. */
    const isValidMnemonic: string -> bool

    /** `this.state`; each handler merges its fields in, as `setState` does. */
    var state: FormState

    /** Calls made to the outside so far, oldest first. */
    var effects: seq<Effect>
    /** Restore requests whose `.then` continuation has not run yet. */
    var pendingRestores: nat

    ghost predicate Valid()
      reads this
    {
      Consistent(state, isValidMnemonic)
    }

    constructor (isValidMnemonic: string -> bool)
      ensures Valid()
      ensures this.isValidMnemonic == isValidMnemonic
      ensures state == Initial()
      ensures effects == [] && pendingRestores == 0
    {
      this.isValidMnemonic := isValidMnemonic;
      state := Initial();
      effects, pendingRestores := [], 0;
      InitialIsConsistent(isValidMnemonic);
    }

    method HandleSeedPhraseChange(seedPhrase: string)
      requires Valid()
      modifies this
      ensures Valid()
      ensures state == SeedPhraseChanged(old(state), seedPhrase, isValidMnemonic)
      ensures effects == old(effects) && pendingRestores == old(pendingRestores)
    {
      SeedPhraseChangePreservesConsistency(state, isValidMnemonic, seedPhrase);
      var seedPhraseError: Option<Message> := None;
      var parsed := ParseSeedPhrase(Some(seedPhrase));
      var wordCount := WordCount(parsed);
      if parsed != "" && (wordCount % 3 != 0 || wordCount < 12 || wordCount > 24) {
        seedPhraseError := Some(SeedPhraseReq);
      } else if !isValidMnemonic(parsed) {
        seedPhraseError := Some(InvalidSeedPhrase);
      }
      state := state.(seedPhrase := seedPhrase, seedPhraseError := seedPhraseError);
    }

    method HandlePasswordChange(password: string)
      requires Valid()
      modifies this
      ensures Valid()
      ensures state == PasswordChanged(old(state), password)
      ensures effects == old(effects) && pendingRestores == old(pendingRestores)
    {
      PasswordChangePreservesConsistency(state, isValidMnemonic, password);
      var confirmPassword := state.confirmPassword;
      var confirmPasswordError: Option<Message> := None;
      var passwordError: Option<Message> := None;
      if password != "" && |password| < MinPasswordLength {
        passwordError := Some(PasswordNotLongEnough);
      }
      if confirmPassword != "" && password != confirmPassword {
        confirmPasswordError := Some(PasswordsDontMatch);
      }
      state := state.(password := password, passwordError := passwordError,
                      confirmPasswordError := confirmPasswordError);
    }

    method HandleConfirmPasswordChange(confirmPassword: string)
      requires Valid()
      modifies this
      ensures Valid()
      ensures state == ConfirmPasswordChanged(old(state), confirmPassword)
      ensures effects == old(effects) && pendingRestores == old(pendingRestores)
    {
      ConfirmPasswordChangePreservesConsistency(state, isValidMnemonic, confirmPassword);
      var password := state.password;
      var confirmPasswordError: Option<Message> := None;
      if password != confirmPassword {
        confirmPasswordError := Some(PasswordsDontMatch);
      }
      state := state.(confirmPassword := confirmPassword, confirmPasswordError := confirmPasswordError);
    }

    /** `handleImport`. Its `disabled` guard reads a key that no code ever
        stores in the component state, so it reads `undefined` and never
        returns early: the calls below are made whatever the form holds. */
    method HandleImport()
      requires Valid()
      modifies this
      ensures Valid()
      ensures state == old(state)
      ensures effects == old(effects)
        + [UnMarkPasswordForgotten, CreateNewVaultAndRestore(state.password, ParseSeedPhrase(Some(state.seedPhrase)))]
      ensures pendingRestores == old(pendingRestores) + 1
    {
      var password, seedPhrase := state.password, state.seedPhrase;
      effects := effects + [UnMarkPasswordForgotten];
      effects := effects + [CreateNewVaultAndRestore(password, ParseSeedPhrase(Some(seedPhrase)))];
      pendingRestores := pendingRestores + 1;
    }

    /** The `.then` continuation of a restore request, run once the request
        resolves: analytics, then 3Box, then navigation. */
    method OnRestoreResolved()
      requires Valid()
      requires pendingRestores > 0
      modifies this
      ensures Valid()
      ensures state == old(state)
      ensures effects == old(effects) + RestoreResolvedEffects()
      ensures pendingRestores == old(pendingRestores) - 1
    {
      effects := effects + [RestoredVaultEvent];
      effects := effects + [InitializeThreeBox];
      effects := effects + [HistoryPush(DefaultRoute)];
      pendingRestores := pendingRestores - 1;
    }

    method ToggleShowSeedPhrase()
      requires Valid()
      modifies this
      ensures Valid()
      ensures state == ShowSeedPhraseToggled(old(state))
      ensures effects == old(effects) && pendingRestores == old(pendingRestores)
    {
      TogglePreservesConsistency(state, isValidMnemonic);
      state := state.(showSeedPhrase := !state.showSeedPhrase);
    }
  }
}
