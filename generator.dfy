/**
 The constrained generator (`generate_headline`): pick a start key whose
 first token begins with an upper-case letter, reject it when either token
 ends with the terminator, then walk the table, appending a follower of the
 current key at each step, for at most `headline_length` steps. The result
 is the single-space join of the tokens with its last character cut off.

 `random.choice` is an injected oracle: `o(d, n)` is the index the `d`-th
 draw of the run picks from a list of length `n`. Nothing is assumed of it
 beyond the index being in range, so every statement below holds for every
 sequence of draws.
 */
module Generator {
  import opened Wrappers
  import opened Text
  import opened TrigramIndex

  /** The terminator tokens: `EOS = ["."]`. */
  const EOS: seq<string> := ["."]

  /** `w[-1] in EOS`. */
  predicate EndsWithTerminator(w: string)
    ensures EndsWithTerminator(w) <==> EndsWith(w, '.')
  {
    w != [] && [w[|w| - 1]] in EOS
  }

  /** What `generate_headline` needs of its dictionary to run without an
      exception: no empty token (`k[0][0]`, `first[-1]`, `third[-1]`) and no
      empty follower list (`choice([])`). */
  predicate WellFormed(t: Table) {
    && Valid(t)
    && (forall k :: k in t.next ==> k.0 != [] && k.1 != [])
    && (forall k :: k in t.next ==> forall j :: 0 <= j < |t.next[k]| ==> t.next[k][j] != [])
  }

  /** Every token in the table is one `split()` can produce. */
  predicate WordsOnly(t: Table) {
    && (forall k :: k in t.next ==> IsWord(k.0) && IsWord(k.1))
    && (forall k :: k in t.next ==> forall j :: 0 <= j < |t.next[k]| ==> IsWord(t.next[k][j]))
  }

  /** The random source: draw number and list length to an index. */
  type Oracle = (nat, nat) -> nat

  /** `random.choice` only ever returns an element of the list. */
  ghost predicate InRange(o: Oracle) {
    forall d: nat, n: nat :: 0 < n ==> o(d, n) < n
  }

  /** The element the `d`-th draw picks from `s`. */
  function Pick<T>(o: Oracle, d: nat, s: seq<T>): (x: T)
    requires InRange(o) && s != []
    ensures x in s
  {
    s[o(d, |s|)]
  }

  /** The keys of `ks` whose first token starts with an upper-case character,
      in order: `[k for k in word_dict.keys() if k[0][0].isupper()]`. */
  function Capitalized(ks: seq<Key>): (c: seq<Key>)
    requires forall i :: 0 <= i < |ks| ==> ks[i].0 != []
    ensures |c| <= |ks|
  {
    if ks == [] then []
    else if IsUpper(ks[0].0[0]) then [ks[0]] + Capitalized(ks[1..])
    else Capitalized(ks[1..])
  }

  /** The filter keeps exactly the keys whose first token starts with an
      upper-case character. */
  lemma {:induction false} CapitalizedMembers(ks: seq<Key>)
    requires forall i :: 0 <= i < |ks| ==> ks[i].0 != []
    ensures forall k :: k in Capitalized(ks) <==> k in ks && IsUpper(k.0[0])
  {
    if ks != [] {
      CapitalizedMembers(ks[1..]);
      assert forall k :: k in ks <==> k == ks[0] || k in ks[1..];
    }
  }

  /** The possible start keys of a walk. */
  function Candidates(t: Table): seq<Key>
    requires WellFormed(t)
  {
    Capitalized(t.keys)
  }

  /** `range(headline_length)` runs `max(0, headline_length)` times. */
  function Budget(length: int): nat {
    if length > 0 then length else 0
  }

  /** The tokens a walk from key `(a, b)` appends, with `budget` steps left
      and the next draw being the `d`-th. */
  function Walk(t: Table, a: string, b: string, budget: nat, o: Oracle, d: nat): (ws: seq<string>)
    requires WellFormed(t) && InRange(o)
    ensures |ws| <= budget
    decreases budget
  {
    if budget == 0 || (a, b) !in t.next then []
    else
      var w := Pick(o, d, t.next[(a, b)]);
      if EndsWithTerminator(w) then [w]
      else [w] + Walk(t, b, w, budget - 1, o, d + 1)
  }

  /** The token list of one attempt whose first draw is the `d`-th, or None
      when there is no candidate or the chosen start key is sentence-final. */
  function Tokens(t: Table, length: int, o: Oracle, d: nat): Option<seq<string>>
    requires WellFormed(t) && InRange(o)
  {
    var c := Candidates(t);
    if c == [] then None
    else
      var k := Pick(o, d, c);
      if EndsWithTerminator(k.0) || EndsWithTerminator(k.1) then None
      else Some([k.0, k.1] + Walk(t, k.0, k.1, Budget(length), o, d + 1))
  }

  /** What `generate_headline` returns for that attempt. */
  function Generate(t: Table, length: int, o: Oracle, d: nat): Option<string>
    requires WellFormed(t) && InRange(o)
  {
    match Tokens(t, length, o, d)
    case None => None
    case Some(ts) => Some(DropLast(JoinSpaces(ts)))
  }

  /** How many draws that attempt makes: one for the start key and one per
      appended token. */
  function Draws(t: Table, length: int, o: Oracle, d: nat): nat
    requires WellFormed(t) && InRange(o)
  {
    match Tokens(t, length, o, d)
    case None => if Candidates(t) == [] then 0 else 1
    case Some(ts) => |ts| - 1
  }

  /** `generate_headline(word_dict, headline_length)`, its first draw being
      the `d`-th; `used` is the number of draws it made. */
  method GenerateHeadline(t: Table, length: int, o: Oracle, d: nat) returns (h: Option<string>, used: nat)
    requires WellFormed(t) && InRange(o)
    ensures h == Generate(t, length, o, d)
    ensures used == Draws(t, length, o, d)
  {
    var candidates := Candidates(t);
    if |candidates| == 0 {
      return None, 0;
    }
    var key := candidates[o(d, |candidates|)];
    var first, second := key.0, key.1;
    if EndsWithTerminator(first) || EndsWithTerminator(second) {
      return None, 1;
    }
    var wordList, steps := WalkLoop(t, first, second, length, o, d + 1);
    used := 1 + steps;
    var headline := JoinSpaces(wordList);
    h := Some(DropLast(headline));
  }

  /** The `for x in range(headline_length)` loop of `generate_headline`,
      from the start key `(first, second)` with the next draw numbered `d`:
      the tokens it leaves in `word_list`, and how many draws it made. */
  method WalkLoop(t: Table, first: string, second: string, length: int, o: Oracle, d: nat)
    returns (wordList: seq<string>, draws: nat)
    requires WellFormed(t) && InRange(o)
    ensures wordList == [first, second] + Walk(t, first, second, Budget(length), o, d)
    ensures draws + 2 == |wordList|
  {
    ghost var full := [first, second] + Walk(t, first, second, Budget(length), o, d);
    var key := (first, second);
    var a, b := first, second;
    wordList := [first, second];
    draws := 0;
    var x := 0;
    while x < length
      invariant 0 <= x <= Budget(length)
      invariant key == (a, b)
      invariant draws + 2 == |wordList|
      invariant wordList + Walk(t, a, b, Budget(length) - x, o, d + draws) == full
    {
      if key !in t.next {
        assert wordList == full;
        break;
      }
      var followers := t.next[key];
      var third := followers[o(d + draws, |followers|)];
      draws := draws + 1;
      wordList := wordList + [third];
      if EndsWithTerminator(third) {
        assert wordList == full;
        break;
      }
      key := (b, third);
      a, b := key.0, key.1;
      x := x + 1;
    }
    assert wordList == full;
  }

  // ----- What an attempt produces -----

  /** An attempt fails exactly when no key starts with an upper-case
      character, or when the start key it draws has a token ending with the
      terminator. */
  lemma GenerateFails(t: Table, length: int, o: Oracle, d: nat)
    requires WellFormed(t) && InRange(o)
    ensures Candidates(t) == [] <==> forall k :: k in t.keys ==> !IsUpper(k.0[0])
    ensures Generate(t, length, o, d).None? <==>
              || (forall k :: k in t.keys ==> !IsUpper(k.0[0]))
              || (Candidates(t) != [] &&
                  var k := Pick(o, d, Candidates(t));
                  EndsWithTerminator(k.0) || EndsWithTerminator(k.1))
  {
    var c := Candidates(t);
    CapitalizedMembers(t.keys);
    if c != [] {
      assert c[0] in c;
    }
  }

  /** Each appended token `ts[i + 2]` is the follower of the key
      `(ts[i], ts[i + 1])` that the draw numbered `d + i` picks. */
  ghost predicate DrawnFromTable(t: Table, ts: seq<string>, o: Oracle, d: nat)
    requires InRange(o)
  {
    forall i :: 0 <= i < |ts| - 2 ==>
      && KeyAt(ts, i) in t.next
      && t.next[KeyAt(ts, i)] != []
      && ts[i + 2] == Pick(o, d + i, t.next[KeyAt(ts, i)])
  }

  /** How a walk ends: it never runs past a terminator, and it stops at a
      terminator, at the end of the budget, or at a key with no entry. */
  ghost predicate StopsProperly(t: Table, ts: seq<string>, budget: nat)
    requires |ts| >= 2
  {
    && (forall j :: 2 <= j < |ts| - 1 ==> !EndsWithTerminator(ts[j]))
    && |ts| <= 2 + budget
    && (|ts| == 2 + budget
        || (|ts| > 2 && EndsWithTerminator(ts[|ts| - 1]))
        || KeyAt(ts, |ts| - 2) !in t.next)
  }

  lemma {:induction false} WalkDrawn(t: Table, a: string, b: string, budget: nat, o: Oracle, d: nat)
    requires WellFormed(t) && InRange(o)
    ensures DrawnFromTable(t, [a, b] + Walk(t, a, b, budget, o, d), o, d)
    decreases budget
  {
    var ts := [a, b] + Walk(t, a, b, budget, o, d);
    if budget > 0 && (a, b) in t.next {
      var w := Pick(o, d, t.next[(a, b)]);
      assert KeyAt(ts, 0) == (a, b) && ts[2] == w;
      if !EndsWithTerminator(w) {
        var ts' := [b, w] + Walk(t, b, w, budget - 1, o, d + 1);
        WalkDrawn(t, b, w, budget - 1, o, d + 1);
        assert ts == [a] + ts';
        forall i | 1 <= i < |ts| - 2
          ensures && KeyAt(ts, i) in t.next
                  && t.next[KeyAt(ts, i)] != []
                  && ts[i + 2] == Pick(o, d + i, t.next[KeyAt(ts, i)])
        {
          assert KeyAt(ts, i) == KeyAt(ts', i - 1);
          assert ts[i + 2] == ts'[i + 1];
        }
      }
    }
  }

  lemma {:induction false} WalkStops(t: Table, a: string, b: string, budget: nat, o: Oracle, d: nat)
    requires WellFormed(t) && InRange(o)
    ensures StopsProperly(t, [a, b] + Walk(t, a, b, budget, o, d), budget)
    decreases budget
  {
    var ts := [a, b] + Walk(t, a, b, budget, o, d);
    if budget == 0 || (a, b) !in t.next {
      assert ts == [a, b];
      assert KeyAt(ts, 0) == (a, b);
    } else {
      var w := Pick(o, d, t.next[(a, b)]);
      if EndsWithTerminator(w) {
        assert ts == [a, b, w];
      } else {
        var ts' := [b, w] + Walk(t, b, w, budget - 1, o, d + 1);
        WalkStops(t, b, w, budget - 1, o, d + 1);
        assert ts == [a] + ts';
        forall j | 2 <= j < |ts| - 1
          ensures !EndsWithTerminator(ts[j])
        {
          assert ts[j] == ts'[j - 1];
        }
        assert ts[|ts| - 1] == ts'[|ts'| - 1];
        assert KeyAt(ts, |ts| - 2) == KeyAt(ts', |ts'| - 2);
      }
    }
  }

  /** A successful attempt starts with a capitalised key drawn from the
      candidates, neither of whose tokens is sentence-final; it then holds
      at most `headline_length` more tokens, each drawn from the followers
      of the two tokens before it, and it ends at the first terminator, at
      the end of the budget, or at a key with no entry. */
  lemma TokensShape(t: Table, length: int, o: Oracle, d: nat)
    requires WellFormed(t) && InRange(o)
    requires Tokens(t, length, o, d).Some?
    ensures var ts := Tokens(t, length, o, d).value;
      && |ts| >= 2
      && Candidates(t) != []
      && (ts[0], ts[1]) == Pick(o, d, Candidates(t))
      && (ts[0], ts[1]) in t.keys && IsUpper(ts[0][0])
      && !EndsWithTerminator(ts[0]) && !EndsWithTerminator(ts[1])
      && DrawnFromTable(t, ts, o, d + 1)
      && StopsProperly(t, ts, Budget(length))
  {
    var k := Pick(o, d, Candidates(t));
    CapitalizedMembers(t.keys);
    WalkDrawn(t, k.0, k.1, Budget(length), o, d + 1);
    WalkStops(t, k.0, k.1, Budget(length), o, d + 1);
  }

  /** Every appended token is one of the recorded followers of the two
      tokens before it. */
  lemma TokensFollowTable(t: Table, length: int, o: Oracle, d: nat, j: nat)
    requires WellFormed(t) && InRange(o)
    requires Tokens(t, length, o, d).Some?
    requires j + 2 < |Tokens(t, length, o, d).value|
    ensures var ts := Tokens(t, length, o, d).value;
      KeyAt(ts, j) in t.next && ts[j + 2] in t.next[KeyAt(ts, j)]
  {
    TokensShape(t, length, o, d);
    var ts := Tokens(t, length, o, d).value;
    assert KeyAt(ts, j) in t.next;
  }

  /** The headline is the single-space join of the tokens with exactly its
      last character removed, and that character is the last character of
      the last token, whether or not the walk ended at a terminator. */
  lemma GenerateText(t: Table, length: int, o: Oracle, d: nat)
    requires WellFormed(t) && InRange(o)
    requires Tokens(t, length, o, d).Some?
    ensures var ts := Tokens(t, length, o, d).value;
      var h := Generate(t, length, o, d).value;
      var last := ts[|ts| - 1];
      && last != []
      && h + [last[|last| - 1]] == JoinSpaces(ts)
      && |h| == |Concat(ts)| + |ts| - 2
  {
    var ts := Tokens(t, length, o, d).value;
    TokensShape(t, length, o, d);
    var last := ts[|ts| - 1];
    assert last != [] by {
      if |ts| > 2 {
        TokensFollowTable(t, length, o, d, |ts| - 3);
      }
    }
    JoinSpacesLast(ts);
    JoinSpacesLength(ts);
  }

  /** When the walk ends at a terminator and the table holds only words,
      tokenizing the headline again, as the corpus tokenizer does (append
      "." and split), gives back exactly the walk's tokens. */
  lemma TokensAreWords(t: Table, length: int, o: Oracle, d: nat)
    requires WellFormed(t) && WordsOnly(t) && InRange(o)
    requires Tokens(t, length, o, d).Some?
    ensures forall j :: 0 <= j < |Tokens(t, length, o, d).value| ==> IsWord(Tokens(t, length, o, d).value[j])
  {
    var ts := Tokens(t, length, o, d).value;
    TokensShape(t, length, o, d);
    forall j | 0 <= j < |ts|
      ensures IsWord(ts[j])
    {
      if j >= 2 {
        TokensFollowTable(t, length, o, d, j - 2);
      } else {
        assert KeyAt(ts, 0) in t.next;
      }
    }
  }

  lemma GenerateRetokenizes(t: Table, length: int, o: Oracle, d: nat)
    requires WellFormed(t) && WordsOnly(t) && InRange(o)
    requires Tokens(t, length, o, d).Some?
    requires EndsWithTerminator(Tokens(t, length, o, d).value[|Tokens(t, length, o, d).value| - 1])
    ensures Split(Generate(t, length, o, d).value + ".") == Tokens(t, length, o, d).value
  {
    var ts := Tokens(t, length, o, d).value;
    var h := Generate(t, length, o, d).value;
    GenerateText(t, length, o, d);
    var last := ts[|ts| - 1];
    assert [last[|last| - 1]] == ".";
    assert h + "." == JoinSpaces(ts);
    TokensAreWords(t, length, o, d);
    SplitJoinSpaces(ts);
  }
}
