/**
 The string primitives the headline code relies on: Python's `str.split()`
 with no argument, `str.strip()`, `" ".join(...)`, slicing off the last
 character and `str.isupper()` on one character.
 */
module Text {

  /** The characters Python's `str.isspace()` accepts; `split()` and `strip()`
      without arguments cut on exactly these. */
  predicate IsSpace(c: char)
    ensures c == ' ' ==> IsSpace(c)
    ensures IsSpace(c) ==> c != '.' && c != '\U{2013}'
  {
    c == ' ' || '\t' <= c <= '\r' || '\U{1C}' <= c <= '\U{1F}'
    || c == '\U{85}' || c == '\U{A0}' || c == '\U{1680}'
    || '\U{2000}' <= c <= '\U{200A}' || c == '\U{2028}' || c == '\U{2029}'
    || c == '\U{202F}' || c == '\U{205F}' || c == '\U{3000}'
  }

  /** `c.isupper()` for the upper-case letters of Basic Latin, Latin-1,
      basic Greek and basic Cyrillic. */
  predicate IsUpper(c: char)
    ensures IsUpper(c) ==> !IsSpace(c) && c != '.'
  {
    'A' <= c <= 'Z'
    || ('\U{C0}' <= c <= '\U{DE}' && c != '\U{D7}')
    || ('\U{391}' <= c <= '\U{3A9}' && c != '\U{3A2}')
    || '\U{400}' <= c <= '\U{42F}'
  }

  /** A token `split()` can produce: non-empty, without whitespace. */
  predicate IsWord(w: string) {
    w != [] && forall i :: 0 <= i < |w| ==> !IsSpace(w[i])
  }

  /** `w` is non-empty and its last character is `c`. */
  predicate EndsWith(w: string, c: char) {
    w != [] && w[|w| - 1] == c
  }

  /** Length of the longest whitespace-free prefix of `s`. */
  function WordLength(s: string): (n: nat)
    ensures n <= |s|
    ensures forall i :: 0 <= i < n ==> !IsSpace(s[i])
    ensures n < |s| ==> IsSpace(s[n])
  {
    if s == [] || IsSpace(s[0]) then 0 else 1 + WordLength(s[1..])
  }

  /** `s.split()`: the maximal whitespace-free runs of `s`, in order. */
  function Split(s: string): (r: seq<string>)
    ensures forall k :: 0 <= k < |r| ==> IsWord(r[k])
    decreases |s|
  {
    if s == [] then []
    else if IsSpace(s[0]) then Split(s[1..])
    else
      var n := WordLength(s);
      [s[..n]] + Split(s[n..])
  }

  /** `" ".join(ws)`. */
  function JoinSpaces(ws: seq<string>): (r: string)
    ensures ws != [] ==> ws[0] <= r
    ensures |ws| > 1 ==> |ws[0]| < |r| && r[|ws[0]|] == ' '
  {
    if |ws| == 0 then ""
    else if |ws| == 1 then ws[0]
    else ws[0] + " " + JoinSpaces(ws[1..])
  }

  /** `s[:-1]`: everything but the last character (the empty string stays empty). */
  function DropLast(s: string): (r: string)
    ensures s != [] ==> r + [s[|s| - 1]] == s
    ensures s == [] ==> r == []
  {
    if s == [] then [] else s[..|s| - 1]
  }

  /** `s.strip()`: `s` without its leading and trailing whitespace. */
  function Strip(s: string): (r: string)
    ensures r == [] || (!IsSpace(r[0]) && !IsSpace(r[|r| - 1]))
    ensures exists i, j ::
              && 0 <= i <= j <= |s| && r == s[i..j]
              && (forall k :: 0 <= k < i ==> IsSpace(s[k]))
              && (forall k :: j <= k < |s| ==> IsSpace(s[k]))
  {
    var i := LeadingSpaces(s);
    var j := |s| - TrailingSpaces(s[i..]);
    s[i..j]
  }

  function LeadingSpaces(s: string): (n: nat)
    ensures n <= |s|
    ensures forall k :: 0 <= k < n ==> IsSpace(s[k])
    ensures n < |s| ==> !IsSpace(s[n])
  {
    if s == [] || !IsSpace(s[0]) then 0 else 1 + LeadingSpaces(s[1..])
  }

  function TrailingSpaces(s: string): (n: nat)
    ensures n <= |s|
    ensures forall k :: |s| - n <= k < |s| ==> IsSpace(s[k])
    ensures n < |s| ==> !IsSpace(s[|s| - n - 1])
  {
    if s == [] || !IsSpace(s[|s| - 1]) then 0 else 1 + TrailingSpaces(s[..|s| - 1])
  }

  /** The characters of `s` that are not whitespace, in order. */
  function NonSpace(s: string): string {
    if s == [] then []
    else if IsSpace(s[0]) then NonSpace(s[1..])
    else [s[0]] + NonSpace(s[1..])
  }

  /** All the strings of `ws` written one after the other. */
  function Concat(ws: seq<string>): string {
    if ws == [] then [] else ws[0] + Concat(ws[1..])
  }

  lemma {:induction false} NonSpaceAppend(a: string, b: string)
    ensures NonSpace(a + b) == NonSpace(a) + NonSpace(b)
  {
    if a != [] {
      assert (a + b)[1..] == a[1..] + b;
      NonSpaceAppend(a[1..], b);
    } else {
      assert a + b == b;
    }
  }

  lemma {:induction false} NonSpaceOfWord(w: string)
    requires forall i :: 0 <= i < |w| ==> !IsSpace(w[i])
    ensures NonSpace(w) == w
  {
    if w != [] {
      NonSpaceOfWord(w[1..]);
    }
  }

  /** `split()` loses only whitespace: the tokens, written one after the
      other, are the non-whitespace characters of the input. */
  lemma {:induction false} SplitKeepsCharacters(s: string)
    ensures Concat(Split(s)) == NonSpace(s)
    decreases |s|
  {
    if s == [] {
    } else if IsSpace(s[0]) {
      SplitKeepsCharacters(s[1..]);
    } else {
      var n := WordLength(s);
      assert s == s[..n] + s[n..];
      SplitKeepsCharacters(s[n..]);
      NonSpaceAppend(s[..n], s[n..]);
      NonSpaceOfWord(s[..n]);
      assert ([s[..n]] + Split(s[n..]))[1..] == Split(s[n..]);
    }
  }

  /** The last token of `split()` ends with the last character of the
      input, when that character is not whitespace. */
  lemma {:induction false} SplitLastToken(s: string)
    requires s != [] && !IsSpace(s[|s| - 1])
    ensures Split(s) != []
    ensures EndsWith(Split(s)[|Split(s)| - 1], s[|s| - 1])
    decreases |s|
  {
    if IsSpace(s[0]) {
      SplitLastToken(s[1..]);
    } else {
      var n := WordLength(s);
      if n < |s| {
        var rest := s[n..];
        assert rest[|rest| - 1] == s[|s| - 1];
        SplitLastToken(rest);
        assert Split(s) == [s[..n]] + Split(rest);
      } else {
        assert s[n..] == [];
        assert Split(s) == [s[..n]];
      }
    }
  }

  lemma {:induction false} WordLengthOfWord(w: string, rest: string)
    requires forall i :: 0 <= i < |w| ==> !IsSpace(w[i])
    requires rest == [] || IsSpace(rest[0])
    ensures WordLength(w + rest) == |w|
  {
    if w != [] {
      assert (w + rest)[1..] == w[1..] + rest;
      WordLengthOfWord(w[1..], rest);
    } else {
      assert w + rest == rest;
    }
  }

  /** `split()` undoes `" ".join(...)` on words: a single-space join of
      whitespace-free, non-empty tokens splits back into the same tokens. */
  lemma {:induction false} SplitJoinSpaces(ws: seq<string>)
    requires forall k :: 0 <= k < |ws| ==> IsWord(ws[k])
    ensures Split(JoinSpaces(ws)) == ws
  {
    if |ws| == 1 {
      var w := ws[0];
      WordLengthOfWord(w, []);
      assert w + [] == w;
      assert w[|w|..] == [];
    } else if |ws| > 1 {
      var w := ws[0];
      var rest := JoinSpaces(ws[1..]);
      var s := w + " " + rest;
      assert s == w + (" " + rest);
      WordLengthOfWord(w, " " + rest);
      assert s[..|w|] == w;
      assert s[|w|..] == " " + rest;
      assert (" " + rest)[1..] == rest;
      SplitJoinSpaces(ws[1..]);
    }
  }

  /** The length of a single-space join: the token lengths plus one
      separator between each two. */
  lemma {:induction false} JoinSpacesLength(ws: seq<string>)
    requires ws != []
    ensures |JoinSpaces(ws)| == |Concat(ws)| + |ws| - 1
  {
    if |ws| > 1 {
      JoinSpacesLength(ws[1..]);
    } else {
      assert Concat(ws[1..]) == [];
    }
  }

  /** The single-space join of tokens ends with the last character of the
      last token. */
  lemma {:induction false} JoinSpacesLast(ws: seq<string>)
    requires ws != [] && ws[|ws| - 1] != []
    ensures EndsWith(JoinSpaces(ws), ws[|ws| - 1][|ws[|ws| - 1]| - 1])
  {
    if |ws| > 1 {
      JoinSpacesLast(ws[1..]);
    }
  }
}
