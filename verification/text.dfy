/** The few Python `str` operations the lottery relies on: `strip()`,
    `split()` with no argument, `" ".join(...)`, `startswith` and the
    ASCII part of case conversion. Strings are sequences of Unicode scalar
    values, as Python's `str` is. */
module Text {

  /** Whitespace as Python's `str.isspace()` defines it. `str.strip()` and
      `str.split()` without arguments remove, and split on, exactly these. */
  predicate IsSpace(c: char) {
    var n := c as int;
    || 0x09 <= n <= 0x0D
    || 0x1C <= n <= 0x20
    || n == 0x85 || n == 0xA0 || n == 0x1680
    || 0x2000 <= n <= 0x200A
    || n == 0x2028 || n == 0x2029 || n == 0x202F || n == 0x205F || n == 0x3000
  }

  predicate IsAsciiUpper(c: char) { 'A' <= c <= 'Z' }
  predicate IsAsciiLower(c: char) { 'a' <= c <= 'z' }
  predicate IsAsciiLetter(c: char) { IsAsciiUpper(c) || IsAsciiLower(c) }

  /** Upper-casing restricted to ASCII; every other character is kept. */
  function ToUpper(c: char): (u: char)
    ensures IsAsciiLetter(c) ==> IsAsciiUpper(u)
    ensures !IsAsciiLower(c) ==> u == c
  {
    if IsAsciiLower(c) then (c as int - 32) as char else c
  }

  /** Lower-casing restricted to ASCII; every other character is kept. */
  function ToLower(c: char): (l: char)
    ensures IsAsciiLetter(c) ==> IsAsciiLower(l)
    ensures !IsAsciiUpper(c) ==> l == c
  {
    if IsAsciiUpper(c) then (c as int + 32) as char else c
  }

  /** Case conversion forgets the case it started from. */
  lemma CaseRoundTrip(c: char)
    ensures ToUpper(ToLower(c)) == ToUpper(c)
    ensures ToLower(ToUpper(c)) == ToLower(c)
    ensures IsSpace(ToUpper(c)) == IsSpace(c) && IsSpace(ToLower(c)) == IsSpace(c)
  {
  }

  predicate StartsWith(s: string, prefix: string) {
    |prefix| <= |s| && s[..|prefix|] == prefix
  }

  /** Number of whitespace characters at the front of `s`. */
  function Lead(s: string): (n: nat)
    ensures n <= |s|
    ensures forall i :: 0 <= i < n ==> IsSpace(s[i])
    ensures n == |s| || !IsSpace(s[n])
  {
    if s != [] && IsSpace(s[0]) then 1 + Lead(s[1..]) else 0
  }

  /** Number of whitespace characters at the back of `s`. */
  function Trail(s: string): (n: nat)
    ensures n <= |s|
    ensures forall i :: |s| - n <= i < |s| ==> IsSpace(s[i])
    ensures n == |s| || !IsSpace(s[|s| - n - 1])
  {
    if s != [] && IsSpace(s[|s| - 1]) then 1 + Trail(s[..|s| - 1]) else 0
  }

  /** `s.lstrip()`: drops the leading whitespace and nothing else. */
  function LStrip(s: string): (r: string)
    ensures |r| == |s| - Lead(s)
    ensures forall i :: 0 <= i < |r| ==> r[i] == s[Lead(s) + i]
    ensures r == [] || !IsSpace(r[0])
  {
    s[Lead(s)..]
  }

  /** `s.strip()`: the infix of `s` that starts after the leading
      whitespace and leaves only whitespace behind it. */
  function Strip(s: string): (r: string)
    ensures Lead(s) + |r| <= |s|
    ensures forall i :: 0 <= i < |r| ==> r[i] == s[Lead(s) + i]
    ensures forall i :: Lead(s) + |r| <= i < |s| ==> IsSpace(s[i])
    ensures r == [] <==> forall i :: 0 <= i < |s| ==> IsSpace(s[i])
    ensures r != [] ==> !IsSpace(r[0]) && !IsSpace(r[|r| - 1])
  {
    if Lead(s) == |s| then []
    else
      assert !IsSpace(s[Lead(s)]);
      s[Lead(s)..|s| - Trail(s)]
  }

  /** Stripping twice strips nothing more, and a string that already has no
      whitespace at either end is its own stripped form. */
  lemma StripOfStripped(s: string)
    requires s == [] || (!IsSpace(s[0]) && !IsSpace(s[|s| - 1]))
    ensures Strip(s) == s
  {
    var r := Strip(s);
    if s != [] {
      assert Lead(s) == 0;
      assert Lead(s) + |r| == |s|;
    }
  }

  lemma StripIdempotent(s: string)
    ensures Strip(Strip(s)) == Strip(s)
  {
    StripOfStripped(Strip(s));
  }

  /** Length of the leading run of non-whitespace characters of `t`. */
  function TokenEnd(t: string): (n: nat)
    ensures n <= |t|
    ensures forall i :: 0 <= i < n ==> !IsSpace(t[i])
    ensures n == |t| || IsSpace(t[n])
  {
    if t == [] || IsSpace(t[0]) then 0 else 1 + TokenEnd(t[1..])
  }

  lemma {:induction false} TokenEndAt(t: string, n: nat)
    requires n <= |t|
    requires forall i :: 0 <= i < n ==> !IsSpace(t[i])
    requires n == |t| || IsSpace(t[n])
    ensures TokenEnd(t) == n
    decreases n
  {
    if n > 0 {
      TokenEndAt(t[1..], n - 1);
    }
  }

  /** A word as `str.split()` produces it: non-empty, no whitespace. */
  predicate IsWord(w: string) {
    w != [] && forall i :: 0 <= i < |w| ==> !IsSpace(w[i])
  }

  /** `s.split()`: the maximal runs of non-whitespace characters, in order. */
  function Words(s: string): (ws: seq<string>)
    ensures forall k :: 0 <= k < |ws| ==> IsWord(ws[k])
    decreases |s|
  {
    var t := LStrip(s);
    if t == [] then []
    else
      var n := TokenEnd(t);
      [t[..n]] + Words(t[n..])
  }

  /** Only blank text splits into no words at all. */
  lemma WordsEmptyIffBlank(s: string)
    ensures Words(s) == [] <==> forall i :: 0 <= i < |s| ==> IsSpace(s[i])
  {
    var t := LStrip(s);
    if t != [] {
      assert !IsSpace(s[|s| - |t|]);
    }
  }

  lemma WordsUnfold(s: string)
    requires LStrip(s) != []
    ensures var t := LStrip(s); Words(s) == [t[..TokenEnd(t)]] + Words(t[TokenEnd(t)..])
  {
  }

  /** `" ".join(ws)`. */
  function Join(ws: seq<string>): string {
    if |ws| == 0 then []
    else if |ws| == 1 then ws[0]
    else ws[0] + " " + Join(ws[1..])
  }

  /** `split()` skips whitespace in front of the first word. */
  lemma WordsSkipsLeadingSpace(c: char, t: string)
    requires IsSpace(c)
    ensures Words([c] + t) == Words(t)
  {
    var s := [c] + t;
    assert s[1..] == t;
    assert Lead(s) == 1 + Lead(t);
    assert LStrip(s) == LStrip(t) by {
      assert s[Lead(s)..] == t[Lead(t)..];
    }
  }

  /** A word followed by whitespace (or by nothing) is split off whole. */
  lemma WordsOfWordThen(w: string, rest: string)
    requires IsWord(w)
    requires rest == [] || IsSpace(rest[0])
    ensures Words(w + rest) == [w] + Words(rest)
  {
    var s := w + rest;
    assert s[0] == w[0];
    assert LStrip(s) == s;
    TokenEndAt(s, |w|);
    assert s[..|w|] == w;
    assert s[|w|..] == rest;
  }

  lemma WordsOfBlank()
    ensures Words([]) == []
  {
    assert LStrip([]) == [];
  }

  lemma WordsOfWord(w: string)
    requires IsWord(w)
    ensures Words(w) == [w]
  {
    WordsOfWordThen(w, []);
    WordsOfBlank();
    assert w + [] == w;
  }

  /** A word, one space, then more text: the word comes first, then the
      words of the rest. */
  lemma WordsOfWordSpaceThen(w: string, j: string)
    requires IsWord(w)
    ensures Words(w + ([' '] + j)) == [w] + Words(j)
  {
    WordsOfWordThen(w, [' '] + j);
    WordsSkipsLeadingSpace(' ', j);
  }

  lemma JoinCons(ws: seq<string>)
    requires |ws| > 1
    ensures Join(ws) == ws[0] + ([' '] + Join(ws[1..]))
  {
  }

  /** A text is what comes before position `n`, the character there, and
      what comes after. */
  lemma SplitAround(s: string, n: nat)
    requires n < |s|
    ensures s == s[..n] + ([s[n]] + s[n + 1..])
  {
  }

  lemma JoinPrepend(w: string, ws: seq<string>)
    requires |ws| > 0
    ensures Join([w] + ws) == w + ([' '] + Join(ws))
  {
    JoinCons([w] + ws);
    assert ([w] + ws)[1..] == ws;
  }

  lemma WordsOfJoinSingle(ws: seq<string>)
    requires |ws| == 1 && IsWord(ws[0])
    ensures Words(Join(ws)) == ws
  {
    assert ws == [ws[0]];
    WordsOfWord(ws[0]);
  }

  lemma WordsOfJoinCons(ws: seq<string>)
    requires |ws| > 1 && IsWord(ws[0])
    requires Words(Join(ws[1..])) == ws[1..]
    ensures Words(Join(ws)) == ws
  {
    JoinCons(ws);
    WordsOfWordSpaceThen(ws[0], Join(ws[1..]));
    assert ws == [ws[0]] + ws[1..];
  }

  /** `split()` undoes `" ".join` of words: the first half of the
      round trip that makes the canonical form a fixed point. */
  lemma {:induction false} WordsOfJoin(ws: seq<string>)
    requires forall k :: 0 <= k < |ws| ==> IsWord(ws[k])
    ensures Words(Join(ws)) == ws
    decreases |ws|
  {
    if |ws| == 0 {
      WordsOfBlank();
    } else if |ws| == 1 {
      WordsOfJoinSingle(ws);
    } else {
      var tail := ws[1..];
      assert forall k :: 0 <= k < |tail| ==> IsWord(tail[k]) by {
        forall k | 0 <= k < |tail| ensures IsWord(tail[k]) {
          assert tail[k] == ws[k + 1];
        }
      }
      WordsOfJoin(tail);
      WordsOfJoinCons(ws);
    }
  }
}
