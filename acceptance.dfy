/**
 The acceptance loop of `main` in headline_generator.py: one generation
 attempt per input headline, and the whole loop stops at the first attempt
 whose headline is missing or empty, repeats an input headline verbatim, or
 is shorter than a third of `headline_length`. Accepted headlines are kept
 in the order they were generated.
 */
module Acceptance {
  import opened Wrappers
  import opened Text
  import opened WordPool
  import opened TrigramIndex
  import opened Generator

  /** An attempt's result passes the three checks of the loop:
      `not headline`, `headline in input_headlines` and
      `len(headline) < headline_length / 3` are all false. The last test
      is stated over integers as `3 * len(headline) < headline_length`,
      which agrees with Python's float division for every
      `headline_length` below 2^53. */
  predicate Acceptable(c: Option<string>, inputs: seq<string>, length: int)
    ensures length <= 3 && c.Some? && c.value != [] && c.value !in inputs ==> Acceptable(c, inputs, length)
  {
    c.Some? && c.value != [] && c.value !in inputs && 3 * |c.value| >= length
  }

  /** One call of `generate_headline` on table `t`, as a function of the
      number of its first draw: the headline it returns ... */
  function Attempt(t: Table, length: int, o: Oracle): (gen: nat -> Option<string>)
    requires WellFormed(t) && InRange(o)
  {
    (d: nat) => Generate(t, length, o, d)
  }

  /** ... and the number of draws it makes. */
  function AttemptDraws(t: Table, length: int, o: Oracle): (cost: nat -> nat)
    requires WellFormed(t) && InRange(o)
  {
    (d: nat) => Draws(t, length, o, d)
  }

  /** `gen` and `cost` are `generate_headline` on table `t`: for every
      first draw, its headline and its number of draws. */
  ghost predicate Generates(t: Table, length: int, o: Oracle, gen: nat -> Option<string>, cost: nat -> nat)
    requires WellFormed(t) && InRange(o)
  {
    forall d: nat {:trigger Generate(t, length, o, d)} ::
      gen(d) == Generate(t, length, o, d) && cost(d) == Draws(t, length, o, d)
  }

  /** The results of `n` attempts made one after the other by a generator
      `gen` that makes `cost(d)` draws when its first draw is the `d`-th:
      the first attempt starts at draw `d`, each later one where the one
      before it stopped. */
  function Attempts(gen: nat -> Option<string>, cost: nat -> nat, d: nat, n: nat): (r: seq<Option<string>>)
    ensures |r| == n
    decreases n
  {
    if n == 0 then [] else [gen(d)] + Attempts(gen, cost, d + cost(d), n - 1)
  }

  /** What the loop keeps of those attempts: the headlines of the
      acceptable ones up to the first one that is not. */
  function Selected(gen: nat -> Option<string>, cost: nat -> nat, inputs: seq<string>, length: int, d: nat, n: nat): seq<string>
    decreases n
  {
    if n == 0 || !Acceptable(gen(d), inputs, length) then []
    else [gen(d).value] + Selected(gen, cost, inputs, length, d + cost(d), n - 1)
  }

  /** Every kept headline passed the three checks: it is non-empty, it is
      not one of the input headlines and it is at least a third of
      `headline_length` long; at most one headline is kept per attempt. */
  lemma {:induction false} SelectedAcceptable(gen: nat -> Option<string>, cost: nat -> nat, inputs: seq<string>, length: int, d: nat, n: nat)
    ensures var r := Selected(gen, cost, inputs, length, d, n);
      && |r| <= n
      && forall j :: 0 <= j < |r| ==> r[j] != [] && r[j] !in inputs && 3 * |r[j]| >= length
    decreases n
  {
    if n > 0 && Acceptable(gen(d), inputs, length) {
      var r' := Selected(gen, cost, inputs, length, d + cost(d), n - 1);
      SelectedAcceptable(gen, cost, inputs, length, d + cost(d), n - 1);
      assert Selected(gen, cost, inputs, length, d, n) == [gen(d).value] + r';
    }
  }

  /** The kept headlines are the longest run of acceptable attempts from
      the first one, in order; when fewer than `n` are kept, the attempt
      after the run was rejected. */
  lemma {:induction false} SelectedAttempts(gen: nat -> Option<string>, cost: nat -> nat, inputs: seq<string>, length: int, d: nat, n: nat)
    ensures var r, attempts := Selected(gen, cost, inputs, length, d, n), Attempts(gen, cost, d, n);
      && |r| <= n
      && (forall j :: 0 <= j < |r| ==> Acceptable(attempts[j], inputs, length) && r[j] == attempts[j].value)
      && (|r| < n ==> !Acceptable(attempts[|r|], inputs, length))
    decreases n
  {
    if n > 0 && Acceptable(gen(d), inputs, length) {
      var d' := d + cost(d);
      var r, attempts := Selected(gen, cost, inputs, length, d, n), Attempts(gen, cost, d, n);
      var r', attempts' := Selected(gen, cost, inputs, length, d', n - 1), Attempts(gen, cost, d', n - 1);
      SelectedAttempts(gen, cost, inputs, length, d', n - 1);
      assert r == [gen(d).value] + r' && attempts == [gen(d)] + attempts';
      forall j | 0 < j < |r|
        ensures Acceptable(attempts[j], inputs, length) && r[j] == attempts[j].value
      {
        assert r[j] == r'[j - 1] && attempts[j] == attempts'[j - 1];
      }
      if |r| < n {
        assert attempts[|r|] == attempts'[|r'|];
      }
    }
  }

  /** One turn of the loop: an acceptable attempt moves its headline to
      the kept ones, any other attempt ends the selection. */
  lemma SelectedStep(gen: nat -> Option<string>, cost: nat -> nat, inputs: seq<string>, length: int,
                     d: nat, n: nat, kept: seq<string>, full: seq<string>)
    requires n > 0
    requires kept + Selected(gen, cost, inputs, length, d, n) == full
    ensures Acceptable(gen(d), inputs, length) ==>
              (kept + [gen(d).value]) + Selected(gen, cost, inputs, length, d + cost(d), n - 1) == full
    ensures !Acceptable(gen(d), inputs, length) ==> kept == full
  {
    if Acceptable(gen(d), inputs, length) {
      assert kept + Selected(gen, cost, inputs, length, d, n)
             == (kept + [gen(d).value]) + Selected(gen, cost, inputs, length, d + cost(d), n - 1);
    }
  }

  /** `generate_headline(word_dict, headline_length)` at draw `d`, its
      results stated through the functions `gen` and `cost` that describe
      it. */
  method GenerateAt(t: Table, length: int, o: Oracle, d: nat,
                    ghost gen: nat -> Option<string>, ghost cost: nat -> nat)
    returns (headline: Option<string>, used: nat)
    requires WellFormed(t) && InRange(o) && Generates(t, length, o, gen, cost)
    ensures headline == gen(d) && used == cost(d)
  {
    headline, used := GenerateHeadline(t, length, o, d);
  }

  /** The acceptance loop of `main`: what it keeps is `Selected` of one
      attempt per input headline, starting at the first draw. */
  method SelectHeadlines(inputs: seq<string>, t: Table, length: int, o: Oracle,
                         ghost gen: nat -> Option<string>, ghost cost: nat -> nat)
    returns (result: seq<string>)
    requires WellFormed(t) && InRange(o) && Generates(t, length, o, gen, cost)
    ensures result == Selected(gen, cost, inputs, length, 0, |inputs|)
  {
    ghost var full := Selected(gen, cost, inputs, length, 0, |inputs|);
    result := [];
    var d := 0;
    var x := 0;
    while x < |inputs|
      invariant x <= |inputs|
      invariant result + Selected(gen, cost, inputs, length, d, |inputs| - x) == full
    {
      var headline, used := GenerateAt(t, length, o, d, gen, cost);
      SelectedStep(gen, cost, inputs, length, d, |inputs| - x, result, full);
      if headline.None? || headline.value == "" {
        break;
      }
      if headline.value in inputs {
        break;
      }
      if 3 * |headline.value| < length {
        break;
      }
      result := result + [headline.value];
      d := d + used;
      x := x + 1;
    }
    assert result == full;
  }

  /** A dictionary built from a word pool can be walked: its tokens are
      non-empty and whitespace-free and its follower lists are non-empty. */
  lemma DictionaryWellFormed(words: seq<string>)
    requires forall i :: 0 <= i < |words| ==> IsWord(words[i])
    ensures WellFormed(Dictionary(words)) && WordsOnly(Dictionary(words))
  {
    var t := Dictionary(words);
    DictionaryFollowers(words);
    forall k | k in t.next
      ensures IsWord(k.0) && IsWord(k.1)
      ensures forall j :: 0 <= j < |t.next[k]| ==> IsWord(t.next[k][j])
    {
      DictionaryKeysAdjacent(words, k);
      FollowersUpToFromPool(words, WindowCount(words), k);
      assert t.next[k] == Followers(words, k);
      forall j | 0 <= j < |t.next[k]|
        ensures IsWord(t.next[k][j])
      {
        assert t.next[k][j] in Followers(words, k);
        assert t.next[k][j] in words;
      }
    }
  }

  /** The whole run: tokenize the input headlines, build the dictionary and
      select headlines with it. */
  method Run(headlines: seq<string>, length: int, o: Oracle) returns (result: seq<string>)
    requires InRange(o)
    ensures WellFormed(Dictionary(Pool(headlines)))
    ensures var t := Dictionary(Pool(headlines));
      result == Selected(Attempt(t, length, o), AttemptDraws(t, length, o), headlines, length, 0, |headlines|)
    ensures (forall k :: k in Dictionary(Pool(headlines)).keys ==> !IsUpper(k.0[0])) ==> result == []
  {
    var pool := GenerateWordPool(headlines);
    var t := GenerateDictionary(pool);
    DictionaryWellFormed(pool);
    assert Generates(t, length, o, Attempt(t, length, o), AttemptDraws(t, length, o));
    result := SelectHeadlines(headlines, t, length, o, Attempt(t, length, o), AttemptDraws(t, length, o));
    if headlines != [] && forall k :: k in t.keys ==> !IsUpper(k.0[0]) {
      GenerateFails(t, length, o, 0);
      assert Attempt(t, length, o)(0).None?;
    }
  }
}
