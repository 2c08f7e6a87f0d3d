/**
 The corpus tokenizer (`generate_word_pool`): every headline gets a "."
 glued to its end and is split on whitespace; the tokens of all headlines
 are concatenated in input order into one word pool.
 */
module WordPool {
  import opened Text

  /** The tokens one headline contributes: `(h + '.').split()`. */
  function HeadlineTokens(h: string): (ws: seq<string>)
    ensures ws != []
    ensures forall k :: 0 <= k < |ws| ==> IsWord(ws[k])
    ensures EndsWith(ws[|ws| - 1], '.')
  {
    SplitLastToken(h + ".");
    Split(h + ".")
  }

  /** The word pool of `headlines`: their tokens, headline after headline. */
  function Pool(headlines: seq<string>): seq<string> {
    if headlines == [] then []
    else Pool(headlines[..|headlines| - 1]) + HeadlineTokens(headlines[|headlines| - 1])
  }

  /** `generate_word_pool`: extends the pool headline by headline. */
  method GenerateWordPool(headlines: seq<string>) returns (pool: seq<string>)
    ensures pool == Pool(headlines)
    ensures forall k :: 0 <= k < |pool| ==> IsWord(pool[k])
  {
    pool := [];
    for i := 0 to |headlines|
      invariant pool == Pool(headlines[..i])
    {
      var h := headlines[i] + ".";
      var tokens := Split(h);
      pool := pool + tokens;
      assert headlines[..i + 1][..i] == headlines[..i];
    }
    assert headlines[..|headlines|] == headlines;
    PoolTokensAreWords(headlines);
  }

  /** Every pool entry is a whitespace-free, non-empty token. */
  lemma {:induction false} PoolTokensAreWords(headlines: seq<string>)
    ensures forall k :: 0 <= k < |Pool(headlines)| ==> IsWord(Pool(headlines)[k])
  {
    if headlines != [] {
      PoolTokensAreWords(headlines[..|headlines| - 1]);
    }
  }

  /** Tokenizing two batches of headlines one after the other gives the
      pool of the first batch followed by the pool of the second. */
  lemma {:induction false} PoolAppend(a: seq<string>, b: seq<string>)
    ensures Pool(a + b) == Pool(a) + Pool(b)
    decreases |b|
  {
    if b == [] {
      assert a + b == a;
    } else {
      var b', last := b[..|b| - 1], b[|b| - 1];
      assert (a + b)[..|a + b| - 1] == a + b';
      assert (a + b)[|a + b| - 1] == last;
      PoolAppend(a, b');
      var ts := HeadlineTokens(last);
      calc {
        Pool(a + b);
        Pool(a + b') + ts;
        (Pool(a) + Pool(b')) + ts;
        Pool(a) + (Pool(b') + ts);
        Pool(a) + Pool(b);
      }
    }
  }

  /** Each headline contributes at least one token, so the pool is at least
      as long as the corpus; an empty corpus yields an empty pool. */
  lemma {:induction false} PoolLength(headlines: seq<string>)
    ensures |Pool(headlines)| >= |headlines|
    ensures headlines == [] <==> Pool(headlines) == []
  {
    if headlines != [] {
      PoolLength(headlines[..|headlines| - 1]);
    }
  }

  /** The pool of a non-empty corpus ends with a token ending in ".", and
      so does the part of the pool that each prefix of the corpus produces. */
  lemma PoolEndsWithTerminator(headlines: seq<string>, n: nat)
    requires 0 < n <= |headlines|
    ensures Pool(headlines[..n]) != []
    ensures EndsWith(Pool(headlines[..n])[|Pool(headlines[..n])| - 1], '.')
    ensures Pool(headlines[..n]) <= Pool(headlines)
  {
    assert headlines == headlines[..n] + headlines[n..];
    PoolAppend(headlines[..n], headlines[n..]);
  }

  /** The characters of the pool are the non-whitespace characters of the
      headlines, each headline followed by the "." appended to it. */
  lemma {:induction false} PoolCharacters(headlines: seq<string>)
    ensures Concat(Pool(headlines)) == Dotted(headlines)
  {
    if headlines != [] {
      var init := headlines[..|headlines| - 1];
      var h := headlines[|headlines| - 1];
      PoolCharacters(init);
      ConcatAppend(Pool(init), HeadlineTokens(h));
      SplitKeepsCharacters(h + ".");
      NonSpaceAppend(h, ".");
    }
  }

  /** The non-whitespace characters of each headline followed by ".". */
  function Dotted(headlines: seq<string>): string {
    if headlines == [] then []
    else Dotted(headlines[..|headlines| - 1]) + NonSpace(headlines[|headlines| - 1]) + "."
  }

  lemma {:induction false} ConcatAppend(a: seq<string>, b: seq<string>)
    ensures Concat(a + b) == Concat(a) + Concat(b)
  {
    if a == [] {
      assert a + b == b;
    } else {
      assert (a + b)[1..] == a[1..] + b;
      ConcatAppend(a[1..], b);
    }
  }
}
