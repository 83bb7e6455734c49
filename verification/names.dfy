/** Name validation (`is_valid_username`) and the canonical key a name is
    registered under (`" ".join(word.capitalize() for word in name.split())`). */
module Names {
  import opened Text

  /** A character of the class `[a-zA-Z ]`. */
  predicate IsNameChar(c: char) {
    IsAsciiLetter(c) || c == ' '
  }

  predicate AllNameChars(s: string) {
    forall i :: 0 <= i < |s| ==> IsNameChar(s[i])
  }

  /** `re.match(r"^[a-zA-Z ]+$", s)`: one or more characters of the class
      up to the end of `s`. Python's `$` also matches just before a final
      newline, so one trailing `\n` is accepted. */
  predicate PatternMatches(s: string) {
    || (s != [] && AllNameChars(s))
    || (|s| > 1 && s[|s| - 1] == '\n' && AllNameChars(s[..|s| - 1]))
  }

  /** `is_valid_username`: strip, then non-empty and matching the pattern.
      Because the stripped text never ends in a newline, the pattern's
      newline allowance never fires: what is accepted is exactly a non-blank
      text made of ASCII letters and spaces once the outer whitespace is gone. */
  function IsValidUsername(s: string): (ok: bool)
    ensures ok <==> Strip(s) != [] && AllNameChars(Strip(s))
  {
    var u := Strip(s);
    u != [] && PatternMatches(u)
  }

  /** A character that is neither whitespace nor an ASCII letter (a digit,
      punctuation, an accented letter) anywhere in the input rejects it. */
  lemma NonNameCharacterRejected(s: string, i: int)
    requires 0 <= i < |s| && !IsSpace(s[i]) && !IsAsciiLetter(s[i])
    ensures !IsValidUsername(s)
  {
    var u := Strip(s);
    var k := Lead(s);
    assert k <= i < k + |u|;
    assert u[i - k] == s[i];
  }

  /** Whitespace other than a plain space (a tab, a newline) between two
      visible characters rejects the input; only at the ends is it
      stripped away. */
  lemma InnerWhitespaceRejected(s: string, j: int, i: int, k: int)
    requires 0 <= j < i < k < |s|
    requires !IsSpace(s[j]) && !IsSpace(s[k])
    requires IsSpace(s[i]) && s[i] != ' '
    ensures !IsValidUsername(s)
  {
    var u := Strip(s);
    var n := Lead(s);
    assert n <= j && k < n + |u|;
    assert u[i - n] == s[i];
  }

  /** `str.lower()` of a word, restricted to ASCII. */
  function LowerAll(w: string): (r: string)
    ensures |r| == |w|
    ensures forall i :: 0 <= i < |w| ==> r[i] == ToLower(w[i])
  {
    seq(|w|, i requires 0 <= i < |w| => ToLower(w[i]))
  }

  /** `w.capitalize()` on ASCII: the first character upper-cased, all
      others lower-cased. */
  function Capitalize(w: string): (r: string)
    ensures |r| == |w|
  {
    if w == [] then [] else [ToUpper(w[0])] + LowerAll(w[1..])
  }

  /** One upper-case ASCII letter followed by lower-case ASCII letters. */
  predicate IsCapitalizedWord(w: string) {
    && w != []
    && IsAsciiUpper(w[0])
    && forall i :: 0 < i < |w| ==> IsAsciiLower(w[i])
  }

  lemma CapitalizeKeepsWords(w: string)
    requires IsWord(w)
    ensures IsWord(Capitalize(w))
  {
    var r := Capitalize(w);
    CaseRoundTrip(w[0]);
    forall i | 0 < i < |w| ensures !IsSpace(r[i]) {
      CaseRoundTrip(w[i]);
    }
  }

  lemma CapitalizeLetters(w: string)
    requires w != [] && forall i :: 0 <= i < |w| ==> IsAsciiLetter(w[i])
    ensures IsCapitalizedWord(Capitalize(w))
  {
  }

  lemma CapitalizedWordIsFixed(w: string)
    requires IsCapitalizedWord(w)
    ensures Capitalize(w) == w
  {
  }

  lemma LowerOfCapitalize(a: string)
    ensures LowerAll(Capitalize(a)) == LowerAll(a)
  {
    if a != [] {
      CaseRoundTrip(a[0]);
      var c := Capitalize(a);
      assert LowerAll(c)[0] == LowerAll(a)[0];
      forall i | 0 < i < |a| ensures LowerAll(c)[i] == LowerAll(a)[i] {
        CaseRoundTrip(a[i]);
      }
    }
  }

  lemma CapitalizeByLower(a: string, b: string)
    requires LowerAll(a) == LowerAll(b)
    ensures Capitalize(a) == Capitalize(b)
  {
    if a != [] {
      assert ToLower(a[0]) == ToLower(b[0]);
      CaseRoundTrip(a[0]);
      CaseRoundTrip(b[0]);
      assert LowerAll(a[1..]) == LowerAll(b[1..]) by {
        forall i | 0 <= i < |a| - 1 ensures ToLower(a[1..][i]) == ToLower(b[1..][i]) {
          assert LowerAll(a)[i + 1] == LowerAll(b)[i + 1];
        }
      }
    }
  }

  lemma CapitalizeIdempotent(a: string)
    ensures Capitalize(Capitalize(a)) == Capitalize(a)
  {
    var c := Capitalize(a);
    if a != [] {
      CaseRoundTrip(a[0]);
      forall i | 0 < i < |a| ensures ToLower(c[i]) == c[i] {
        assert c[i] == ToLower(a[i]);
      }
      assert LowerAll(c[1..]) == c[1..];
    }
  }

  /** What `capitalize` returns depends only on the lower-cased word, and
      lower-casing its result gives that lower-cased word back. */
  lemma CapitalizeFoldsCase(a: string, b: string)
    ensures LowerAll(Capitalize(a)) == LowerAll(a)
    ensures LowerAll(a) == LowerAll(b) ==> Capitalize(a) == Capitalize(b)
    ensures Capitalize(Capitalize(a)) == Capitalize(a)
  {
    LowerOfCapitalize(a);
    if LowerAll(a) == LowerAll(b) {
      CapitalizeByLower(a, b);
    }
    CapitalizeIdempotent(a);
  }

  function CapitalizeAll(ws: seq<string>): (rs: seq<string>)
    ensures |rs| == |ws|
    ensures forall k :: 0 <= k < |ws| ==> rs[k] == Capitalize(ws[k])
  {
    seq(|ws|, k requires 0 <= k < |ws| => Capitalize(ws[k]))
  }

  /** Split on whitespace, capitalize every word, rejoin with single spaces. */
  function Canonical(s: string): string {
    Join(CapitalizeAll(Words(s)))
  }

  /** The key under which an entered line is registered: the line is stripped
      first and then canonicalised. */
  function Key(entered: string): string {
    Canonical(Strip(entered))
  }

  /** The seam between the characters at `j - 1` and `j` of a canonical
      name: never two spaces in a row, and a letter is upper-case exactly
      when a space precedes it. */
  predicate GoodSeam(s: string, j: nat)
    requires 0 < j < |s|
  {
    && !(s[j - 1] == ' ' && s[j] == ' ')
    && (s[j] != ' ' ==> (IsAsciiUpper(s[j]) <==> s[j - 1] == ' '))
  }

  /** The shape of a canonical name, character by character: ASCII letters
      and single inner spaces, no space at either end, and an upper-case
      letter exactly where a word starts. */
  predicate IsCanonicalName(s: string) {
    && s != []
    && IsAsciiUpper(s[0]) && s[|s| - 1] != ' '
    && AllNameChars(s)
    && forall j :: 0 < j < |s| ==> GoodSeam(s, j)
  }

  lemma CapitalizedWordIsCanonical(w: string)
    requires IsCapitalizedWord(w)
    ensures IsCanonicalName(w)
  {
  }

  lemma ConcatCanonical(w: string, t: string)
    requires IsCapitalizedWord(w) && IsCanonicalName(t)
    ensures IsCanonicalName(w + " " + t)
  {
    var s := w + " " + t;
    var m := |w|;
    forall i | 0 <= i < |s| ensures IsNameChar(s[i]) {
      if i > m {
        assert s[i] == t[i - m - 1];
      }
    }
    assert s[|s| - 1] == t[|t| - 1];
    forall j | 0 < j < |s| ensures GoodSeam(s, j) {
      if j < m {
        assert s[j - 1] == w[j - 1] && s[j] == w[j];
      } else if j == m + 1 {
        assert s[j] == t[0];
      } else if j > m + 1 {
        assert GoodSeam(t, j - m - 1);
        assert s[j - 1] == t[j - m - 2] && s[j] == t[j - m - 1];
      }
    }
  }

  /** Words in capitalized form joined by single spaces have the canonical shape. */
  lemma {:induction false} JoinOfCapitalizedWords(ws: seq<string>)
    requires |ws| > 0
    requires forall k :: 0 <= k < |ws| ==> IsCapitalizedWord(ws[k])
    ensures IsCanonicalName(Join(ws))
    decreases |ws|
  {
    if |ws| == 1 {
      CapitalizedWordIsCanonical(ws[0]);
    } else {
      var tail := ws[1..];
      assert forall k :: 0 <= k < |tail| ==> IsCapitalizedWord(tail[k]) by {
        forall k | 0 <= k < |tail| ensures IsCapitalizedWord(tail[k]) {
          assert tail[k] == ws[k + 1];
        }
      }
      JoinOfCapitalizedWords(tail);
      ConcatCanonical(ws[0], Join(tail));
    }
  }

  predicate AllLetters(w: string) {
    forall i :: 0 <= i < |w| ==> IsAsciiLetter(w[i])
  }

  lemma LStripKeepsNameChars(u: string)
    requires AllNameChars(u)
    ensures AllNameChars(LStrip(u))
  {
    var t := LStrip(u);
    forall i | 0 <= i < |t| ensures IsNameChar(t[i]) {
      assert t[i] == u[|u| - |t| + i];
    }
  }

  /** In text of letters and spaces the first token is all letters and what
      follows it is again letters and spaces. */
  lemma TokenOfNameChars(t: string)
    requires AllNameChars(t)
    ensures AllLetters(t[..TokenEnd(t)]) && AllNameChars(t[TokenEnd(t)..])
  {
    var n := TokenEnd(t);
    forall i | 0 <= i < n ensures IsAsciiLetter(t[..n][i]) {
      assert !IsSpace(t[i]);
    }
    forall i | 0 <= i < |t| - n ensures IsNameChar(t[n..][i]) {
      assert t[n..][i] == t[n + i];
    }
  }

  lemma ConsAllLetters(a: string, rest: seq<string>, ws: seq<string>)
    requires ws == [a] + rest && AllLetters(a)
    requires forall k :: 0 <= k < |rest| ==> AllLetters(rest[k])
    ensures forall k :: 0 <= k < |ws| ==> AllLetters(ws[k])
  {
    forall k | 0 <= k < |ws| ensures AllLetters(ws[k]) {
      if k > 0 {
        assert ws[k] == rest[k - 1];
      }
    }
  }

  /** Splitting text made of letters and spaces yields words of letters. */
  lemma {:induction false} WordsOfNameChars(u: string)
    requires AllNameChars(u)
    ensures forall k :: 0 <= k < |Words(u)| ==> AllLetters(Words(u)[k])
    decreases |u|
  {
    var t := LStrip(u);
    if t == [] {
      assert Words(u) == [];
    } else {
      var n := TokenEnd(t);
      LStripKeepsNameChars(u);
      TokenOfNameChars(t);
      WordsOfNameChars(t[n..]);
      WordsUnfold(u);
      ConsAllLetters(t[..n], Words(t[n..]), Words(u));
    }
  }

  /** Every accepted name is registered under a key of canonical shape. */
  lemma ValidKeyIsCanonical(s: string)
    requires IsValidUsername(s)
    ensures IsCanonicalName(Key(s))
  {
    var u := Strip(s);
    var ws := Words(u);
    WordsOfNameChars(u);
    assert ws != [] by {
      assert !IsSpace(u[0]);
      WordsEmptyIffBlank(u);
    }
    var cs := CapitalizeAll(ws);
    forall k | 0 <= k < |cs| ensures IsCapitalizedWord(cs[k]) {
      assert AllLetters(ws[k]);
      CapitalizeLetters(ws[k]);
    }
    JoinOfCapitalizedWords(cs);
  }

  lemma CapitalizedWordIsWord(w: string)
    requires IsCapitalizedWord(w)
    ensures IsWord(w)
  {
  }

  /** A canonical name has no whitespace in front to strip. */
  lemma CanonicalNameUnpadded(s: string)
    requires IsCanonicalName(s)
    ensures Lead(s) == 0 && LStrip(s) == s
  {
    assert !IsSpace(s[0]);
  }

  /** A canonical name begins with a capitalized word that runs up to its
      first space, or to its end. */
  lemma CanonicalNameHead(s: string)
    requires IsCanonicalName(s)
    ensures 0 < TokenEnd(s) && IsCapitalizedWord(s[..TokenEnd(s)])
    ensures TokenEnd(s) < |s| ==> s[TokenEnd(s)] == ' '
  {
    var n := TokenEnd(s);
    var w := s[..n];
    assert !IsSpace(s[0]);
    assert w[0] == s[0];
    forall j | 0 < j < n ensures IsAsciiLower(w[j]) {
      assert GoodSeam(s, j);
      assert !IsSpace(s[j - 1]) && !IsSpace(s[j]) && IsNameChar(s[j]);
    }
    if n < |s| {
      assert IsNameChar(s[n]);
    }
  }

  /** After any space of a canonical name comes another canonical name. */
  lemma CanonicalNameTail(s: string, n: nat)
    requires IsCanonicalName(s) && n < |s| && s[n] == ' '
    ensures n + 1 < |s| && IsCanonicalName(s[n + 1..])
  {
    var t := s[n + 1..];
    assert GoodSeam(s, n + 1);
    assert t[0] == s[n + 1];
    forall j | 0 < j < |t| ensures GoodSeam(t, j) {
      assert GoodSeam(s, n + 1 + j);
      assert t[j - 1] == s[n + j] && t[j] == s[n + 1 + j];
    }
  }

  lemma CanonicalOfCapitalizedWord(w: string)
    requires IsCapitalizedWord(w)
    ensures Canonical(w) == w
  {
    CapitalizedWordIsWord(w);
    WordsOfWord(w);
    CapitalizedWordIsFixed(w);
    assert CapitalizeAll([w]) == [w];
  }

  lemma CapitalizeAllPrepend(w: string, ws: seq<string>)
    ensures CapitalizeAll([w] + ws) == [Capitalize(w)] + CapitalizeAll(ws)
  {
    var l, r := CapitalizeAll([w] + ws), [Capitalize(w)] + CapitalizeAll(ws);
    forall k | 0 <= k < |l| ensures l[k] == r[k] {
      if k > 0 {
        assert ([w] + ws)[k] == ws[k - 1];
      }
    }
  }

  lemma CanonicalOfWordSpaceThen(w: string, t: string)
    requires IsCapitalizedWord(w) && Canonical(t) == t && t != []
    ensures Canonical(w + ([' '] + t)) == w + ([' '] + t)
  {
    CapitalizedWordIsWord(w);
    WordsOfWordSpaceThen(w, t);
    CapitalizedWordIsFixed(w);
    var cs := CapitalizeAll(Words(t));
    assert |cs| > 0;
    CapitalizeAllPrepend(w, Words(t));
    JoinPrepend(w, cs);
  }

  /** A text of canonical shape is its own canonical form. */
  lemma {:induction false} CanonicalNameIsFixed(s: string)
    requires IsCanonicalName(s)
    ensures Canonical(s) == s
    decreases |s|
  {
    CanonicalNameUnpadded(s);
    CanonicalNameHead(s);
    var n := TokenEnd(s);
    var w := s[..n];
    if n == |s| {
      assert w == s;
      CanonicalOfCapitalizedWord(w);
    } else {
      CanonicalNameTail(s, n);
      var t := s[n + 1..];
      CanonicalNameIsFixed(t);
      CanonicalOfWordSpaceThen(w, t);
      SplitAround(s, n);
    }
  }

  /** Canonicalisation is idempotent on every text, not only on valid names. */
  lemma CanonicalIdempotent(s: string)
    ensures Canonical(Canonical(s)) == Canonical(s)
  {
    var ws := Words(s);
    var cs := CapitalizeAll(ws);
    forall k | 0 <= k < |cs| ensures IsWord(cs[k]) {
      CapitalizeKeepsWords(ws[k]);
    }
    WordsOfJoin(cs);
    forall k | 0 <= k < |cs| ensures Capitalize(cs[k]) == cs[k] {
      CapitalizeFoldsCase(ws[k], ws[k]);
    }
    assert CapitalizeAll(cs) == cs;
  }

  /** A joined sequence of words starts and ends with a visible character,
      so stripping it changes nothing. */
  lemma {:induction false} JoinIsStripped(ws: seq<string>)
    requires forall k :: 0 <= k < |ws| ==> IsWord(ws[k])
    ensures var j := Join(ws); j == [] || (!IsSpace(j[0]) && !IsSpace(j[|j| - 1]))
    decreases |ws|
  {
    if |ws| > 1 {
      var tail := ws[1..];
      assert forall k :: 0 <= k < |tail| ==> IsWord(tail[k]) by {
        forall k | 0 <= k < |tail| ensures IsWord(tail[k]) {
          assert tail[k] == ws[k + 1];
        }
      }
      JoinIsStripped(tail);
      var j := Join(tail);
      assert j != [] by {
        assert |tail| == 1 || Join(tail) == tail[0] + " " + Join(tail[1..]);
      }
    }
  }

  /** The key computation applied to its own output returns it unchanged. */
  lemma KeyIdempotent(s: string)
    ensures Key(Key(s)) == Key(s)
  {
    var c := Key(s);
    var ws := Words(Strip(s));
    var cs := CapitalizeAll(ws);
    forall k | 0 <= k < |cs| ensures IsWord(cs[k]) {
      CapitalizeKeepsWords(ws[k]);
    }
    JoinIsStripped(cs);
    StripOfStripped(c);
    CanonicalIdempotent(Strip(s));
  }

  /** Exactly the canonical names are the valid inputs that are their own key. */
  lemma CanonicalNameIffOwnKey(s: string)
    ensures IsCanonicalName(s) <==> IsValidUsername(s) && Key(s) == s
  {
    if IsCanonicalName(s) {
      assert !IsSpace(s[0]) && !IsSpace(s[|s| - 1]);
      StripOfStripped(s);
      CanonicalNameIsFixed(s);
    }
    if IsValidUsername(s) && Key(s) == s {
      ValidKeyIsCanonical(s);
    }
  }

  /** The words of the stripped input, lower-cased: what is left once letter
      case and the length of whitespace runs are forgotten. */
  function FoldedWords(s: string): (fs: seq<string>)
    ensures |fs| == |Words(Strip(s))|
  {
    var ws := Words(Strip(s));
    seq(|ws|, k requires 0 <= k < |ws| => LowerAll(ws[k]))
  }

  lemma SameFoldedWordsSameKey(a: string, b: string)
    requires FoldedWords(a) == FoldedWords(b)
    ensures Key(a) == Key(b)
  {
    var wa, wb := Words(Strip(a)), Words(Strip(b));
    var ca, cb := CapitalizeAll(wa), CapitalizeAll(wb);
    forall k | 0 <= k < |wa| ensures ca[k] == cb[k] {
      assert FoldedWords(a)[k] == FoldedWords(b)[k];
      CapitalizeFoldsCase(wa[k], wb[k]);
    }
    assert ca == cb;
  }

  /** Splitting a key gives back the capitalized words it was joined from. */
  lemma WordsOfKey(s: string)
    ensures Words(Key(s)) == CapitalizeAll(Words(Strip(s)))
  {
    var ws := Words(Strip(s));
    var cs := CapitalizeAll(ws);
    forall k | 0 <= k < |cs| ensures IsWord(cs[k]) {
      CapitalizeKeepsWords(ws[k]);
    }
    WordsOfJoin(cs);
  }

  lemma SameKeySameFoldedWords(a: string, b: string)
    requires Key(a) == Key(b)
    ensures FoldedWords(a) == FoldedWords(b)
  {
    WordsOfKey(a);
    WordsOfKey(b);
    var wa, wb := Words(Strip(a)), Words(Strip(b));
    var ca, cb := CapitalizeAll(wa), CapitalizeAll(wb);
    assert ca == cb;
    forall k | 0 <= k < |wa| ensures FoldedWords(a)[k] == FoldedWords(b)[k] {
      CapitalizeFoldsCase(wa[k], wa[k]);
      CapitalizeFoldsCase(wb[k], wb[k]);
      assert LowerAll(ca[k]) == LowerAll(cb[k]);
    }
  }

  /** Two inputs share a key exactly when they differ only in letter case
      and in the whitespace around and between their words. */
  lemma SameKeyIffSameFoldedWords(a: string, b: string)
    ensures Key(a) == Key(b) <==> FoldedWords(a) == FoldedWords(b)
  {
    if FoldedWords(a) == FoldedWords(b) {
      SameFoldedWordsSameKey(a, b);
    }
    if Key(a) == Key(b) {
      SameKeySameFoldedWords(a, b);
    }
  }
}
