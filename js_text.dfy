/**
  The JavaScript string built-ins that the restore form relies on, modelled on
  `string` (a sequence of characters):

  - `String.prototype.trim`                 -> Trim
  - `String.prototype.toLowerCase`          -> Lower (ASCII letters only)
  - `String.prototype.match(/\w+/gu)`       -> MatchWords (and Tokens)
  - `Array.prototype.join(' ')`             -> Join
  - `String.prototype.split(/\s/u)`         -> Split

  Each comes with a contract saying what the built-in promises, and the
  lemmas at the end relate them to each other (splitting or tokenising a
  space-joined list of words gives the list back; trimming never changes the
  tokens).
 */
module JsText {
  import opened Wrappers

  // ---------------------------------------------------------------------
  // Character classes
  // ---------------------------------------------------------------------

  /** ECMAScript WhiteSpace and LineTerminator code points: what `trim`
      removes and what the regular-expression class `\s` matches. */
  predicate IsWhitespace(c: char): (b: bool)
    ensures b ==> !IsWordChar(c)
  {
    var n := c as int;
    (0x09 <= n <= 0x0D) || n == 0x20 || n == 0xA0 || n == 0x1680
    || (0x2000 <= n <= 0x200A) || n == 0x2028 || n == 0x2029
    || n == 0x202F || n == 0x205F || n == 0x3000 || n == 0xFEFF
  }

  /** The regular-expression class `\w`; with the `u` flag and without `i`
      it is exactly `[A-Za-z0-9_]`, so it never matches outside ASCII. */
  predicate IsWordChar(c: char): (b: bool)
    ensures IsUpperAscii(c) ==> b
    ensures b ==> c as int < 0x80
  {
    ('a' <= c <= 'z') || ('A' <= c <= 'Z') || ('0' <= c <= '9') || c == '_'
  }

  predicate IsUpperAscii(c: char) {
    'A' <= c <= 'Z'
  }

  /** A non-empty run of `\w` characters: one match of `/\w+/`. */
  predicate IsToken(w: string) {
    w != [] && forall j :: 0 <= j < |w| ==> IsWordChar(w[j])
  }

  // ---------------------------------------------------------------------
  // toLowerCase
  // ---------------------------------------------------------------------

  /** One character of `toLowerCase`: an ASCII capital becomes the
      lower-case letter at the same place in the alphabet. */
  function ToLower(c: char): (d: char)
    ensures IsUpperAscii(c) ==> 'a' <= d <= 'z' && d as int - 'a' as int == c as int - 'A' as int
    ensures !IsUpperAscii(d)
    ensures IsWordChar(d) <==> IsWordChar(c)
    ensures IsWhitespace(d) <==> IsWhitespace(c)
    ensures !IsUpperAscii(c) ==> d == c
  {
    if IsUpperAscii(c) then (c as int + 32) as char else c
  }

  /** `s.toLowerCase()`, restricted to the ASCII letters. */
  function Lower(s: string): (r: string)
    ensures |r| == |s|
    ensures forall i :: 0 <= i < |s| ==> r[i] == ToLower(s[i])
  {
    seq(|s|, i requires 0 <= i < |s| => ToLower(s[i]))
  }

  // ---------------------------------------------------------------------
  // trim
  // ---------------------------------------------------------------------

  /** Index of the first character of `s` at or after `i` that is not white
      space, or `|s|` when there is none. */
  function SkipWhitespace(s: string, i: nat): (k: nat)
    requires i <= |s|
    ensures i <= k <= |s|
    ensures forall j :: i <= j < k ==> IsWhitespace(s[j])
    ensures k < |s| ==> !IsWhitespace(s[k])
    decreases |s| - i
  {
    if i < |s| && IsWhitespace(s[i]) then SkipWhitespace(s, i + 1) else i
  }

  /** Index just past the last character of `s` before `j` that is not white
      space, or `0` when there is none. */
  function SkipWhitespaceBack(s: string, j: nat): (k: nat)
    requires j <= |s|
    ensures k <= j
    ensures forall i :: k <= i < j ==> IsWhitespace(s[i])
    ensures 0 < k ==> !IsWhitespace(s[k - 1])
  {
    if 0 < j && IsWhitespace(s[j - 1]) then SkipWhitespaceBack(s, j - 1) else j
  }

  /** `s.trimStart()`: the leading white space dropped. */
  function TrimStart(s: string): (r: string)
    ensures |r| <= |s|
    ensures r == [] || !IsWhitespace(r[0])
    ensures forall i :: 0 <= i < |s| - |r| ==> IsWhitespace(s[i])
  {
    s[SkipWhitespace(s, 0)..]
  }

  /** `s.trimEnd()`: the trailing white space dropped. */
  function TrimEnd(s: string): (r: string)
    ensures |r| <= |s|
    ensures r == [] || !IsWhitespace(r[|r| - 1])
    ensures forall i :: |r| <= i < |s| ==> IsWhitespace(s[i])
  {
    s[..SkipWhitespaceBack(s, |s|)]
  }

  /** `s.trim()`: white space removed from both ends (`TrimIsSlice` says
      where the result sits in `s`). */
  function Trim(s: string): (r: string)
    ensures |r| <= |s|
    ensures r == [] || (!IsWhitespace(r[0]) && !IsWhitespace(r[|r| - 1]))
  {
    TrimEnd(TrimStart(s))
  }

  /** What `trim` promises: its result is the slice `s[a..b]` with only white
      space outside it and no white space at either end of it. */
  lemma TrimIsSlice(s: string) returns (a: nat, b: nat)
    ensures a <= b <= |s| && Trim(s) == s[a..b]
    ensures forall i :: 0 <= i < a ==> IsWhitespace(s[i])
    ensures forall i :: b <= i < |s| ==> IsWhitespace(s[i])
    ensures a < b ==> !IsWhitespace(s[a]) && !IsWhitespace(s[b - 1])
  {
    a := SkipWhitespace(s, 0);
    var t := TrimStart(s);
    var c := SkipWhitespaceBack(t, |t|);
    b := a + c;
    SliceOfSlice(s, t, TrimEnd(t), a, b);
  }

  /** Sequence bookkeeping for `TrimIsSlice`: `r`, a prefix of the suffix `t`
      of `s`, is the slice `s[a..b]`, and what lies outside it in `t` lies
      outside it in `s`. */
  lemma SliceOfSlice(s: string, t: string, r: string, a: nat, b: nat)
    requires a == |s| - |t| && t == s[a..]
    requires b == a + |r| && |r| <= |t| && r == t[..|r|]
    requires forall j :: |r| <= j < |t| ==> IsWhitespace(t[j])
    ensures b <= |s| && r == s[a..b]
    ensures forall i :: b <= i < |s| ==> IsWhitespace(s[i])
    ensures a < b ==> s[a] == r[0] && s[b - 1] == r[|r| - 1]
  {
  }

  // ---------------------------------------------------------------------
  // match(/\w+/gu)
  // ---------------------------------------------------------------------

  /** Length of the run of `\w` characters at the start of `s`. */
  function WordLength(s: string): (n: nat)
    ensures n <= |s|
    ensures forall i :: 0 <= i < n ==> IsWordChar(s[i])
    ensures n < |s| ==> !IsWordChar(s[n])
  {
    if s != [] && IsWordChar(s[0]) then 1 + WordLength(s[1..]) else 0
  }

  /** The successive matches of `/\w+/g` in `s`: its maximal runs of word
      characters, left to right. Every match is a token. */
  function Tokens(s: string): (r: seq<string>)
    ensures forall i :: 0 <= i < |r| ==> IsToken(r[i])
    decreases |s|
  {
    if s == [] then []
    else if !IsWordChar(s[0]) then Tokens(s[1..])
    else
      var n := WordLength(s);
      [s[..n]] + Tokens(s[n..])
  }

  /** Every character of a match is a character of the input. */
  lemma {:induction false} TokenCharsComeFromInput(s: string)
    ensures forall i, j :: 0 <= i < |Tokens(s)| && 0 <= j < |Tokens(s)[i]| ==> Tokens(s)[i][j] in s
    decreases |s|
  {
    if s == [] {
    } else if !IsWordChar(s[0]) {
      var r := Tokens(s);
      assert r == Tokens(s[1..]);
      TokenCharsComeFromInput(s[1..]);
      forall i, j | 0 <= i < |r| && 0 <= j < |r[i]| ensures r[i][j] in s {
        InSuffix(s, 1, r[i][j]);
      }
    } else {
      var n := WordLength(s);
      var r, rest := Tokens(s), Tokens(s[n..]);
      assert r == [s[..n]] + rest;
      TokenCharsComeFromInput(s[n..]);
      forall i, j | 0 <= i < |r| && 0 <= j < |r[i]| ensures r[i][j] in s {
        if i == 0 {
          assert r[0][j] == s[j];
        } else {
          assert r[i] == rest[i - 1];
          InSuffix(s, n, r[i][j]);
        }
      }
    }
  }

  lemma InSuffix(s: string, k: nat, c: char)
    requires k <= |s| && c in s[k..]
    ensures c in s
  {
  }

  /** `s.match(/\w+/gu)`: `null` (here `None`) when there is no match,
      otherwise the non-empty list of matches. */
  function MatchWords(s: string): (r: Option<seq<string>>)
    ensures r.None? <==> Tokens(s) == []
    ensures r.Some? ==> r.value == Tokens(s)
  {
    var ws := Tokens(s);
    if ws == [] then None else Some(ws)
  }

  // ---------------------------------------------------------------------
  // join(' ') and split(/\s/u)
  // ---------------------------------------------------------------------

  /** `ws.join(' ')`: the result is empty exactly when there are no words,
      provided no word is empty (`SplitJoin` and `TokensJoin` give the words
      back from it). */
  function Join(ws: seq<string>): (r: string)
    ensures (forall i :: 0 <= i < |ws| ==> ws[i] != []) ==> (r == [] <==> ws == [])
  {
    if |ws| == 0 then ""
    else if |ws| == 1 then ws[0]
    else ws[0] + " " + Join(ws[1..])
  }

  /** Number of white-space characters in `s`. */
  function WhitespaceCount(s: string): (n: nat)
    ensures n <= |s|
  {
    if s == [] then 0 else (if IsWhitespace(s[0]) then 1 else 0) + WhitespaceCount(s[1..])
  }

  /** `s.split(/\s/u)`: the pieces of `s` between single white-space
      characters. There is always one more piece than there are white-space
      characters, so the empty string splits into one empty piece, and no
      piece contains white space. */
  function Split(s: string): (r: seq<string>)
    ensures |r| == 1 + WhitespaceCount(s)
    ensures forall k, j :: 0 <= k < |r| && 0 <= j < |r[k]| ==> !IsWhitespace(r[k][j])
  {
    if s == [] then [[]]
    else
      var rest := Split(s[1..]);
      if IsWhitespace(s[0]) then [[]] + rest
      else [[s[0]] + rest[0]] + rest[1..]
  }

  // ---------------------------------------------------------------------
  // Lemmas
  // ---------------------------------------------------------------------

  /** Splitting a string that starts with a white-space-free word: the word
      is glued to the first piece of the rest. */
  lemma {:induction false} SplitAfterWord(w: string, t: string)
    requires forall j :: 0 <= j < |w| ==> !IsWhitespace(w[j])
    ensures Split(w + t) == [w + Split(t)[0]] + Split(t)[1..]
    decreases |w|
  {
    var st := Split(t);
    if w == [] {
      assert w + t == t;
      assert w + st[0] == st[0];
      assert st == [st[0]] + st[1..];
    } else {
      var tail := w[1..] + t;
      assert (w + t)[1..] == tail;
      assert (w + t)[0] == w[0];
      SplitAfterWord(w[1..], t);
      var sr := Split(tail);
      assert sr[0] == w[1..] + st[0] && sr[1..] == st[1..];
      assert Split(w + t) == [[w[0]] + sr[0]] + sr[1..];
      assert [w[0]] + (w[1..] + st[0]) == w + st[0];
    }
  }

  /** `ws.join(' ').split(/\s/u)` gives back `ws` when there is at least one
      word and no word is empty or contains white space. */
  lemma {:induction false} SplitJoin(ws: seq<string>)
    requires |ws| > 0
    requires forall i :: 0 <= i < |ws| ==> IsToken(ws[i])
    ensures Split(Join(ws)) == ws
  {
    TokenHasNoWhitespace(ws[0]);
    if |ws| == 1 {
      SplitAfterWord(ws[0], []);
      assert ws[0] + [] == ws[0];
    } else {
      SplitJoin(ws[1..]);
      SplitWordSpace(ws[0], Join(ws[1..]));
      assert ws == [ws[0]] + ws[1..];
    }
  }

  /** Splitting a white-space-free word, a space and `t` gives the word and
      then the pieces of `t`. */
  lemma SplitWordSpace(w: string, t: string)
    requires forall j :: 0 <= j < |w| ==> !IsWhitespace(w[j])
    ensures Split(w + " " + t) == [w] + Split(t)
  {
    assert w + " " + t == w + (" " + t);
    SplitAfterWord(w, " " + t);
    SplitAfterSpace(t);
    assert w + [] == w;
  }

  lemma SplitAfterSpace(t: string)
    ensures Split(" " + t) == [[]] + Split(t)
  {
  }

  lemma TokenHasNoWhitespace(w: string)
    requires IsToken(w)
    ensures forall j :: 0 <= j < |w| ==> !IsWhitespace(w[j])
  {
  }

  /** The run of word characters at the start of `w + t` is `w` when `w` is
      all word characters and `t` does not continue it. */
  lemma {:induction false} WordLengthOfToken(w: string, t: string)
    requires forall j :: 0 <= j < |w| ==> IsWordChar(w[j])
    requires t == [] || !IsWordChar(t[0])
    ensures WordLength(w + t) == |w|
    decreases |w|
  {
    if w == [] {
      assert w + t == t;
    } else {
      assert (w + t)[1..] == w[1..] + t;
      WordLengthOfToken(w[1..], t);
    }
  }

  /** Matching `/\w+/g` against `ws.join(' ')` gives back `ws` when every
      word is a token. */
  lemma {:induction false} TokensJoin(ws: seq<string>)
    requires forall i :: 0 <= i < |ws| ==> IsToken(ws[i])
    ensures Tokens(Join(ws)) == ws
  {
    if |ws| == 1 {
      TokensOfToken(ws[0], []);
      assert ws[0] + [] == ws[0];
    } else if |ws| > 1 {
      var w, rest := ws[0], Join(ws[1..]);
      assert Join(ws) == w + (" " + rest);
      TokensOfToken(w, " " + rest);
      TokensAfterSpace(rest);
      TokensJoin(ws[1..]);
      assert ws == [w] + ws[1..];
    }
  }

  /** A whole token followed by a non-word character is matched as it is. */
  lemma TokensOfToken(w: string, t: string)
    requires IsToken(w)
    requires t == [] || !IsWordChar(t[0])
    ensures Tokens(w + t) == [w] + Tokens(t)
  {
    var s := w + t;
    WordLengthOfToken(w, t);
    assert s[..|w|] == w;
    assert s[|w|..] == t;
  }

  lemma TokensAfterSpace(t: string)
    ensures Tokens(" " + t) == Tokens(t)
  {
  }

  /** A non-word character at the end never changes the matches. */
  lemma {:induction false} TokensDropLast(s: string, c: char)
    requires !IsWordChar(c)
    ensures Tokens(s + [c]) == Tokens(s)
    decreases |s|
  {
    var sc := s + [c];
    if s == [] {
      assert sc[1..] == [];
    } else if !IsWordChar(s[0]) {
      assert sc[1..] == s[1..] + [c];
      TokensDropLast(s[1..], c);
    } else {
      var n := WordLength(s);
      WordLengthOfToken(s[..n], s[n..] + [c]);
      assert sc == s[..n] + (s[n..] + [c]);
      assert sc[..n] == s[..n];
      assert sc[n..] == s[n..] + [c];
      TokensDropLast(s[n..], c);
    }
  }

  /** Dropping a prefix of non-word characters never changes the matches. */
  lemma {:induction false} TokensDropPrefix(s: string, a: nat)
    requires a <= |s|
    requires forall i :: 0 <= i < a ==> !IsWordChar(s[i])
    ensures Tokens(s[a..]) == Tokens(s)
    decreases a
  {
    if a > 0 {
      TokensDropPrefix(s[1..], a - 1);
      assert s[1..][a - 1..] == s[a..];
    }
  }

  /** Dropping a suffix of non-word characters never changes the matches. */
  lemma {:induction false} TokensDropSuffix(s: string, b: nat)
    requires b <= |s|
    requires forall i :: b <= i < |s| ==> !IsWordChar(s[i])
    ensures Tokens(s[..b]) == Tokens(s)
    decreases |s| - b
  {
    if b < |s| {
      var t := s[..|s| - 1];
      TokensDropSuffix(t, b);
      assert t[..b] == s[..b];
      TokensDropLast(t, s[|s| - 1]);
      assert t + [s[|s| - 1]] == s;
    } else {
      assert s[..b] == s;
    }
  }

  /** Lowercasing commutes with slicing. */
  lemma LowerSlice(s: string, a: nat, b: nat)
    requires a <= b <= |s|
    ensures Lower(s[a..b]) == Lower(s)[a..b]
  {
  }

  lemma WhitespaceIsNotWord(c: char)
    requires IsWhitespace(c)
    ensures !IsWordChar(c)
  {
  }

  /** Dropping the leading white space never changes the matches. */
  lemma TokensIgnoreTrimStart(s: string)
    ensures Tokens(Lower(TrimStart(s))) == Tokens(Lower(s))
  {
    var t := TrimStart(s);
    var k := |s| - |t|;
    var l := Lower(s);
    assert Lower(t) == l[k..] by {
      LowerSlice(s, k, |s|);
      assert s[k..|s|] == t;
      assert l[k..|s|] == l[k..];
    }
    forall i | 0 <= i < k ensures !IsWordChar(l[i]) {
      assert IsWhitespace(s[i]);
      WhitespaceIsNotWord(s[i]);
    }
    TokensDropPrefix(l, k);
  }

  /** Dropping the trailing white space never changes the matches. */
  lemma TokensIgnoreTrimEnd(s: string)
    ensures Tokens(Lower(TrimEnd(s))) == Tokens(Lower(s))
  {
    var r := TrimEnd(s);
    var l := Lower(s);
    LowerSlice(s, 0, |r|);
    assert s[0..|r|] == r;
    assert l[0..|r|] == l[..|r|];
    forall i | |r| <= i < |s| ensures !IsWordChar(l[i]) {
      WhitespaceIsNotWord(s[i]);
    }
    TokensDropSuffix(l, |r|);
  }

  /** Trimming never changes the matches of `/\w+/g`, even after lowercasing:
      white space is not a word character. */
  lemma TokensIgnoreTrim(s: string)
    ensures Tokens(Lower(Trim(s))) == Tokens(Lower(s))
  {
    TokensIgnoreTrimStart(s);
    TokensIgnoreTrimEnd(TrimStart(s));
  }
}
