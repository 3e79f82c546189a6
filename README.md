# Restore-vault form

A Dafny model of the wallet's "restore from secret recovery phrase" page,
`RestoreVaultPage` (`ui/pages/keychains/restore-vault.js`). The user types a
seed phrase and a new password twice. Each keystroke re-validates the field it
touches, and submitting asks the background wallet to create a new vault
restored from the phrase.

The project has three modules:

- `Wrappers` holds `Option`, which stands for JavaScript's `null`.
- `JsText` models the JavaScript string built-ins the page relies on: `trim`,
  `toLowerCase`, `match(/\w+/gu)`, `join(' ')` and `split(/\s/u)`. Each has a
  contract of its own, and lemmas relate them to each other: `TrimIsSlice`
  says where `trim`'s result sits in its input, `SplitJoin` and `TokensJoin`
  show that splitting or matching a space-joined list of words gives the list
  back, and `TokensIgnoreTrim` shows that trimming never changes the matches.
- `RestoreVault` models the page:
  - `ParseSeedPhrase` is `parseSeedPhrase`.
  - `SeedPhraseError` and `PasswordError` are the validation rules. The word
    count rule is shown to accept exactly the BIP-39 mnemonic lengths.
  - `HasError` and `SubmitDisabled` are the render-time `disabled` flag.
  - `FormState` is the seven-field component state. The pure transitions
    `SeedPhraseChanged`, `PasswordChanged`, `ConfirmPasswordChanged` and
    `ShowSeedPhraseToggled` act on it.
  - `RestoreVaultPage` is the component: one field `state` that every handler
    merges into (as `setState` does), one method per handler, and a trace
    `effects` of the calls made to the store, analytics and router.

Each handler method is proved against its pure transition and keeps the
invariant `Consistent`. That invariant says every error field agrees with the
field it validates. On top of it, `DisabledMeaning` describes the submit
button in terms of the typed text alone. `EnabledSubmitIsWellFormed` shows
what an enabled submission sends.

Two behaviours of the code are kept as written:

- `handleConfirmPasswordChange` has no guard for an empty confirmation.
  Clearing the confirmation while a password is set reports a mismatch
  (`EmptyConfirmationAsymmetry`).
- `handleImport` begins with a guard on `this.state.disabled`. No code ever
  stores that key, so the guard never returns early. `HandleImport` therefore
  has no precondition on the form: it emits its calls whatever the form
  holds. Only the button's `disabled` attribute keeps an incomplete or
  invalid form from being submitted, and the model follows the code.

`isValidMnemonic` (the BIP-39 word-list and checksum check of the wallet
library) is not part of this model. It is a function-valued parameter, fixed
when the component is constructed, and nothing is assumed about it.

## Model

| member | source | states |
|---|---|---|
| JsText.Lower | ui/pages/keychains/restore-vault.js:42 | `toLowerCase` keeps the length and lowercases each ASCII capital, leaving every other character as it is |
| JsText.IsWhitespace | ui/pages/keychains/restore-vault.js:42 | the ECMAScript white-space and line-terminator set, which `trim` drops and `\s` matches; no white-space character is a word character |
| JsText.IsWordChar | ui/pages/keychains/restore-vault.js:42 | `\w` under the `u` flag: every ASCII capital is a word character, and no word character lies outside ASCII |
| JsText.ToLower | ui/pages/keychains/restore-vault.js:42 | an ASCII capital becomes the lower-case letter at the same place in the alphabet; the result is never a capital, is a word or white-space character exactly when the original is, and equals the original unless that was a capital |
| JsText.SkipWhitespace | ui/pages/keychains/restore-vault.js:42 | the index returned is the first non-white-space character at or after the start, with only white space skipped |
| JsText.SkipWhitespaceBack | ui/pages/keychains/restore-vault.js:42 | the index returned is just past the last non-white-space character, with only white space skipped |
| JsText.TrimStart | ui/pages/keychains/restore-vault.js:42 | the result does not start with white space, and everything dropped from the front is white space |
| JsText.TrimEnd | ui/pages/keychains/restore-vault.js:42 | the result does not end with white space, and everything dropped from the back is white space |
| JsText.Trim | ui/pages/keychains/restore-vault.js:42 | `trim`'s result is no longer than its input and has no white space at either end |
| JsText.TrimIsSlice | ui/pages/keychains/restore-vault.js:42 | `trim` returns a slice of its input with only white space outside it and no white space at either end |
| JsText.WordLength | ui/pages/keychains/restore-vault.js:42 | the leading run of `\w` characters: all of it are word characters, and the character after it is not |
| JsText.Tokens | ui/pages/keychains/restore-vault.js:42 | every match of `/\w+/g` is a non-empty run of `[A-Za-z0-9_]` |
| JsText.TokenCharsComeFromInput | ui/pages/keychains/restore-vault.js:42 | every character of a match occurs in the input |
| JsText.MatchWords | ui/pages/keychains/restore-vault.js:42 | `match` returns `null` exactly when there is no match, and the list of matches otherwise |
| JsText.Join | ui/pages/keychains/restore-vault.js:42 | `join(' ')` of words that are not empty is empty exactly when there are no words |
| JsText.WhitespaceCount | ui/pages/keychains/restore-vault.js:49 | the number of white-space characters is at most the length |
| JsText.Split | ui/pages/keychains/restore-vault.js:49 | `split(/\s/u)` returns one more piece than there are white-space characters, and no piece contains white space |
| JsText.SplitAfterWord | ui/pages/keychains/restore-vault.js:49 | splitting a white-space-free word followed by `t` glues the word to the first piece of `t` |
| JsText.SplitWordSpace | ui/pages/keychains/restore-vault.js:49 | splitting a white-space-free word, a space and `t` gives the word and then the pieces of `t` |
| JsText.SplitJoin | ui/pages/keychains/restore-vault.js:49 | splitting a non-empty list of tokens joined by single spaces gives the list back |
| JsText.WordLengthOfToken | ui/pages/keychains/restore-vault.js:42 | the leading run of word characters of `w + t` is exactly `w` when `t` does not continue it |
| JsText.TokensOfToken | ui/pages/keychains/restore-vault.js:42 | a token followed by a non-word character is matched whole, before the matches of the rest |
| JsText.TokensJoin | ui/pages/keychains/restore-vault.js:42 | matching `/\w+/g` against a list of tokens joined by single spaces gives the list back |
| JsText.TokensDropLast | ui/pages/keychains/restore-vault.js:42 | a trailing non-word character does not change the matches |
| JsText.TokensDropPrefix | ui/pages/keychains/restore-vault.js:42 | dropping a prefix of non-word characters does not change the matches |
| JsText.TokensDropSuffix | ui/pages/keychains/restore-vault.js:42 | dropping a suffix of non-word characters does not change the matches |
| JsText.LowerSlice | ui/pages/keychains/restore-vault.js:42 | lowercasing commutes with slicing |
| JsText.TokensIgnoreTrimStart | ui/pages/keychains/restore-vault.js:42 | dropping the leading white space does not change the matches of the lowercased text |
| JsText.TokensIgnoreTrimEnd | ui/pages/keychains/restore-vault.js:42 | dropping the trailing white space does not change the matches of the lowercased text |
| JsText.TokensIgnoreTrim | ui/pages/keychains/restore-vault.js:42 | the `trim` in the pipeline never changes the matches of the lowercased text |
| RestoreVault.Words | ui/pages/keychains/restore-vault.js:42 | every word of the trimmed, lowercased input is a non-empty run of `[a-z0-9_]` |
| RestoreVault.ParseSeedPhrase | ui/pages/keychains/restore-vault.js:41-42 | the result is `''` exactly when the input has no word, and always for `null` |
| RestoreVault.JoinedWordsAreNormalised | ui/pages/keychains/restore-vault.js:42 | words joined by single spaces have no leading, trailing or doubled space and only `[a-z0-9_]` besides spaces, and are empty only for no words |
| RestoreVault.ParsedIsJoinedWords | ui/pages/keychains/restore-vault.js:41-42 | the result is the input's lowercased `\w+` matches joined by single spaces |
| RestoreVault.ParsedPhraseIsNormalised | ui/pages/keychains/restore-vault.js:41-42 | the result has no leading, trailing or doubled space |
| RestoreVault.ParsedPhraseWords | ui/pages/keychains/restore-vault.js:41-49 | the result's `\w+` matches, and its pieces under `split(/\s/u)` when it is not empty, are the input's words |
| RestoreVault.ParseSeedPhraseIdempotent | ui/pages/keychains/restore-vault.js:41-42 | parsing twice is the same as parsing once |
| RestoreVault.NormalisedIsFixed | ui/pages/keychains/restore-vault.js:42 | trimming and lowercasing leave a normalised phrase unchanged |
| RestoreVault.ParseSeedPhraseIgnoresTrim | ui/pages/keychains/restore-vault.js:42 | the words of the input are the matches of the lowercased, untrimmed input |
| RestoreVault.WordCount | ui/pages/keychains/restore-vault.js:49 | `split(/\s/u).length` is one more than the number of white-space characters, so it is never 0 |
| RestoreVault.WordCountOfParsed | ui/pages/keychains/restore-vault.js:48-49 | the word count of the parsed phrase is its number of words, or 1 for the empty phrase |
| RestoreVault.LengthRuleIsBip39 | ui/pages/keychains/restore-vault.js:52 | "a multiple of 3 from 12 to 24" is exactly the set {12, 15, 18, 21, 24} |
| RestoreVault.SeedPhraseError | ui/pages/keychains/restore-vault.js:46-57 | the seed-phrase error is none, the length error or the checksum error |
| RestoreVault.SeedPhraseErrorMeaning | ui/pages/keychains/restore-vault.js:48-57 | length error exactly when the input has words but not 12, 15, 18, 21 or 24 of them, whatever the checksum says; otherwise checksum error exactly when the check fails on the parsed phrase, and no error when it passes; input with no words skips the length rule |
| RestoreVault.PasswordError | ui/pages/keychains/restore-vault.js:67-69 | the password error is set exactly when the password is non-empty and shorter than 8 characters |
| RestoreVault.Initial | ui/pages/keychains/restore-vault.js:31-39 | the component starts with empty text fields, a hidden phrase and no error set |
| RestoreVault.SeedPhraseChanged | ui/pages/keychains/restore-vault.js:44-60 | stores the raw input, not the parsed phrase, and its error; no other field changes |
| RestoreVault.PasswordChanged | ui/pages/keychains/restore-vault.js:62-76 | stores the password and its error; the mismatch error is set exactly when a non-empty confirmation differs from the new password; the seed-phrase fields, the confirmation and the visibility flag do not change |
| RestoreVault.ConfirmPasswordChanged | ui/pages/keychains/restore-vault.js:78-87 | stores the confirmation; the mismatch error is set exactly when it differs from the password, even when it is empty; nothing else changes |
| RestoreVault.ShowSeedPhraseToggled | ui/pages/keychains/restore-vault.js:123-127 | flips the visibility flag and nothing else |
| RestoreVault.HasError | ui/pages/keychains/restore-vault.js:118-121 | no error exactly when all three error fields are unset; otherwise the first one set, in the order password, confirmation, seed phrase |
| RestoreVault.SubmitDisabled | ui/pages/keychains/restore-vault.js:141-146 | disabled exactly when a field is empty, while loading, or when any error field is set |
| RestoreVault.InitialIsConsistent | ui/pages/keychains/restore-vault.js:31-39 | the initial state satisfies the invariant |
| RestoreVault.SeedPhraseChangePreservesConsistency | ui/pages/keychains/restore-vault.js:44-60 | the seed-phrase handler keeps the invariant |
| RestoreVault.PasswordChangePreservesConsistency | ui/pages/keychains/restore-vault.js:62-76 | the password handler keeps the invariant |
| RestoreVault.ConfirmPasswordChangePreservesConsistency | ui/pages/keychains/restore-vault.js:78-87 | the confirmation handler keeps the invariant |
| RestoreVault.TogglePreservesConsistency | ui/pages/keychains/restore-vault.js:123-127 | the toggle keeps the invariant |
| RestoreVault.InitialStateIsDisabled | ui/pages/keychains/restore-vault.js:141-146 | the initial form cannot be submitted |
| RestoreVault.DisabledMeaning | ui/pages/keychains/restore-vault.js:141-146 | in a consistent form, disabled exactly when a field is empty, while loading, when the password is shorter than 8, when the passwords differ, or when the phrase fails the seed-phrase rules |
| RestoreVault.EnabledSubmitIsWellFormed | ui/pages/keychains/restore-vault.js:141-146 | an enabled consistent form holds a non-empty phrase the mnemonic check accepts, with a BIP-39 word count if it has words, and equal passwords of at least 8 characters |
| RestoreVault.MatchingPasswordsHaveNoErrors | ui/pages/keychains/restore-vault.js:62-87 | typing the same password of at least 8 characters in both fields, in either order, leaves no password error |
| RestoreVault.MatchingPasswordsClearMismatch | ui/pages/keychains/restore-vault.js:62-87 | typing a password equal to the confirmation, or a confirmation equal to the password, clears the mismatch error |
| RestoreVault.EmptyConfirmationAsymmetry | ui/pages/keychains/restore-vault.js:78-87 | clearing the confirmation while a password is set reports a mismatch, whereas any password typed with an empty confirmation does not |
| RestoreVault.ToggleTwiceIsIdentity | ui/pages/keychains/restore-vault.js:123-127 | toggling twice restores the original state |
| RestoreVault.RestoreVaultPage.constructor | ui/pages/keychains/restore-vault.js:31-39 | the component starts in the initial state, consistent, with no calls made |
| RestoreVault.RestoreVaultPage.HandleSeedPhraseChange | ui/pages/keychains/restore-vault.js:44-60 | the new state is `SeedPhraseChanged` of the old one, the invariant holds, and no call is made |
| RestoreVault.RestoreVaultPage.HandlePasswordChange | ui/pages/keychains/restore-vault.js:62-76 | the new state is `PasswordChanged` of the old one, the invariant holds, and no call is made |
| RestoreVault.RestoreVaultPage.HandleConfirmPasswordChange | ui/pages/keychains/restore-vault.js:78-87 | the new state is `ConfirmPasswordChanged` of the old one, the invariant holds, and no call is made |
| RestoreVault.RestoreVaultPage.HandleImport | ui/pages/keychains/restore-vault.js:89-103 | whatever the form holds, first clears the password-forgotten flag, then requests a restore with the password and the parsed phrase; the state is unchanged and one more restore is pending |
| RestoreVault.RestoreVaultPage.OnRestoreResolved | ui/pages/keychains/restore-vault.js:103-115 | once a pending restore resolves: the retention event, then the 3Box initialisation, then navigation to the default route; the state is unchanged |
| RestoreVault.RestoreVaultPage.ToggleShowSeedPhrase | ui/pages/keychains/restore-vault.js:123-127 | the new state is `ShowSeedPhraseToggled` of the old one, the invariant holds, and no call is made |

## Left out

- `isValidMnemonic` (ethers' BIP-39 word-list and checksum check) is an uninterpreted function parameter.
- Localisation through `this.context.t`: the four error messages are the constructors of `Message`.
- Rendering: the JSX, `TextField`, `Button`, `clearClipboard` on paste and the back button's `history.goBack()` (lines 148-263).
- The Redux `connect` wiring and the store actions (lines 266-277) are entries in the `effects` trace. `DEFAULT_ROUTE` is the constant `Route.DefaultRoute`, because `ui/helpers/constants/routes.js` is not part of this model.
- `event.preventDefault()` in `handleImport` touches only the browser event, so it is not in the trace.
- Promise mechanics: the `.then` continuation is the separate step `OnRestoreResolved`. The code has no rejection path, so the model has none.
- RestoreVault.RestoreVaultPage.HandleImport: the `disabled` guard is absent from the model because the key it reads is never stored.
- JsText.Lower: only the ASCII capitals are lowercased. A few non-ASCII characters lowercase to text containing ASCII letters (U+0130, U+212A), and `\w` would then match them.
- RestoreVault.PasswordError: the length counts characters, whereas JavaScript's `length` counts UTF-16 code units. A password with characters outside the Basic Multilingual Plane is therefore measured shorter than JavaScript measures it.
- `ui/hooks/gasFeeInput/useMaxPriorityFeePerGasInput.js` is not part of this model. It is React-hook glue over floating-point conversions and helpers that are not available.
