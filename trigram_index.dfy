/**
 The trigram index (`generate_dictionary`): a window of three tokens slides
 over the word pool; the first two tokens form a key and the third is
 appended to that key's list of followers, the list being created on the
 key's first use. Python's dict keeps its keys in insertion order, which
 decides later what a random pick over the keys returns, so the table keeps
 that order next to the map.
 */
module TrigramIndex {
  import opened Seqs

  /** A transition key: two adjacent tokens of the pool. */
  type Key = (string, string)

  /** The dictionary: its keys in insertion order and each key's followers. */
  datatype Table = Table(keys: seq<Key>, next: map<Key, seq<string>>)

  /** What every dictionary built by appending satisfies: the key order lists
      exactly the keys of the map, once each, and no follower list is empty. */
  predicate Valid(t: Table) {
    && Distinct(t.keys)
    && (forall k :: k in t.next ==> k in t.keys)
    && (forall i :: 0 <= i < |t.keys| ==> t.keys[i] in t.next)
    && (forall k :: k in t.next ==> t.next[k] != [])
  }

  const Empty := Table([], map[])

  /** `word_dict.setdefault(k, []).append(w)`: append `w` to the followers
      of `k`, creating the entry first when `k` is new. */
  function Insert(t: Table, k: Key, w: string): (r: Table)
    ensures Valid(t) ==> Valid(r)
  {
    if k in t.next then Table(t.keys, t.next[k := t.next[k] + [w]])
    else Table(t.keys + [k], t.next[k := [w]])
  }

  /** The number of full windows of three tokens in `words`. */
  function WindowCount(words: seq<string>): nat {
    if |words| < 3 then 0 else |words| - 2
  }

  /** The key of the window starting at position `i`. */
  function KeyAt(words: seq<string>, i: nat): Key
    requires i + 1 < |words|
  {
    (words[i], words[i + 1])
  }

  /** The dictionary after the first `n` windows have been recorded. */
  function DictionaryUpTo(words: seq<string>, n: nat): Table
    requires n <= WindowCount(words)
  {
    if n == 0 then Empty
    else Insert(DictionaryUpTo(words, n - 1), KeyAt(words, n - 1), words[n + 1])
  }

  /** The dictionary `generate_dictionary(words)` returns. */
  function Dictionary(words: seq<string>): Table {
    DictionaryUpTo(words, WindowCount(words))
  }

  /** `generate_dictionary`: the loop over `enumerate(words)` that stops
      (the `IndexError` branch) once fewer than three tokens remain. */
  method GenerateDictionary(words: seq<string>) returns (t: Table)
    ensures t == Dictionary(words)
    ensures |words| < 3 ==> t.keys == [] && t.next == map[]
  {
    t := Empty;
    var i := 0;
    while i < |words|
      invariant i <= WindowCount(words)
      invariant t == DictionaryUpTo(words, i)
    {
      if i + 2 >= |words| {
        break;
      }
      var key := (words[i], words[i + 1]);
      ghost var inserted := Insert(t, key, words[i + 2]);
      if key !in t.next {
        t := Table(t.keys + [key], t.next[key := []]);
        assert t.next[key] + [words[i + 2]] == [words[i + 2]];
      }
      t := t.(next := t.next[key := t.next[key] + [words[i + 2]]]);
      assert t == inserted;
      i := i + 1;
    }
  }

  // ----- A reference definition of the followers of one key -----

  /** The tokens that follow `k` in the first `n` windows, in pool order and
      with repetitions. */
  function FollowersUpTo(words: seq<string>, n: nat, k: Key): seq<string>
    requires n <= WindowCount(words)
  {
    if n == 0 then []
    else FollowersUpTo(words, n - 1, k) + (if KeyAt(words, n - 1) == k then [words[n + 1]] else [])
  }

  /** Every token that follows `k` anywhere in the pool, in pool order. */
  function Followers(words: seq<string>, k: Key): seq<string> {
    FollowersUpTo(words, WindowCount(words), k)
  }

  lemma {:induction false} DictionaryUpToValid(words: seq<string>, n: nat)
    requires n <= WindowCount(words)
    ensures Valid(DictionaryUpTo(words, n))
  {
    if n > 0 {
      DictionaryUpToValid(words, n - 1);
    }
  }

  lemma {:induction false} DictionaryUpToFollowers(words: seq<string>, n: nat, k: Key)
    requires n <= WindowCount(words)
    ensures k in DictionaryUpTo(words, n).next <==> FollowersUpTo(words, n, k) != []
    ensures k in DictionaryUpTo(words, n).next ==>
              DictionaryUpTo(words, n).next[k] == FollowersUpTo(words, n, k)
  {
    if n > 0 {
      DictionaryUpToFollowers(words, n - 1, k);
    }
  }

  /** The dictionary is well formed, holds a key exactly when the key has a
      follower in the pool, and lists for it every follower in pool order,
      repetitions included. */
  lemma DictionaryFollowers(words: seq<string>)
    ensures Valid(Dictionary(words))
    ensures forall k :: k in Dictionary(words).next <==> Followers(words, k) != []
    ensures forall k :: k in Dictionary(words).next ==>
              Dictionary(words).next[k] == Followers(words, k)
  {
    DictionaryUpToValid(words, WindowCount(words));
    forall k {
      DictionaryUpToFollowers(words, WindowCount(words), k);
    }
  }

  lemma {:induction false} FollowersUpToHas(words: seq<string>, n: nat, i: nat)
    requires n <= WindowCount(words)
    requires i < n
    ensures words[i + 2] in FollowersUpTo(words, n, KeyAt(words, i))
  {
    if i < n - 1 {
      FollowersUpToHas(words, n - 1, i);
    }
  }

  /** Every window of the pool is recorded: its third token is among the
      followers of the key formed by its first two. */
  lemma DictionaryHasTrigram(words: seq<string>, i: nat)
    requires i + 2 < |words|
    ensures KeyAt(words, i) in Dictionary(words).next
    ensures words[i + 2] in Dictionary(words).next[KeyAt(words, i)]
  {
    FollowersUpToHas(words, WindowCount(words), i);
    DictionaryFollowers(words);
  }

  lemma {:induction false} FollowersUpToFrom(words: seq<string>, n: nat, k: Key)
    requires n <= WindowCount(words)
    requires FollowersUpTo(words, n, k) != []
    ensures exists i :: 0 <= i < n && KeyAt(words, i) == k
  {
    if KeyAt(words, n - 1) != k {
      FollowersUpToFrom(words, n - 1, k);
    }
  }

  /** Every follower recorded for a key is a token of the pool. */
  lemma {:induction false} FollowersUpToFromPool(words: seq<string>, n: nat, k: Key)
    requires n <= WindowCount(words)
    ensures forall w :: w in FollowersUpTo(words, n, k) ==> w in words
  {
    if n > 0 {
      FollowersUpToFromPool(words, n - 1, k);
    }
  }

  /** Every key of the dictionary is a pair of adjacent pool tokens that
      starts a full window. */
  lemma DictionaryKeysAdjacent(words: seq<string>, k: Key)
    requires k in Dictionary(words).next
    ensures exists i :: 0 <= i < WindowCount(words) && i + 2 < |words| && KeyAt(words, i) == k
  {
    DictionaryFollowers(words);
    FollowersUpToFrom(words, WindowCount(words), k);
  }

  // ----- Counting the stored followers -----

  /** The number of followers stored under the keys `ks`. */
  function Stored(ks: seq<Key>, next: map<Key, seq<string>>): nat
    requires forall k :: k in ks ==> k in next
  {
    if ks == [] then 0
    else Stored(ks[..|ks| - 1], next) + |next[ks[|ks| - 1]]|
  }

  /** The number of followers stored in the whole table. */
  function TotalStored(t: Table): nat
    requires Valid(t)
  {
    Stored(t.keys, t.next)
  }

  lemma {:induction false} StoredUnchanged(ks: seq<Key>, m: map<Key, seq<string>>, m': map<Key, seq<string>>)
    requires forall k :: k in ks ==> k in m && k in m' && m[k] == m'[k]
    ensures Stored(ks, m) == Stored(ks, m')
  {
    if ks != [] {
      StoredUnchanged(ks[..|ks| - 1], m, m');
    }
  }

  lemma {:induction false} StoredGrowOne(ks: seq<Key>, m: map<Key, seq<string>>, k: Key, w: string)
    requires Distinct(ks) && k in ks
    requires forall k' :: k' in ks ==> k' in m
    ensures Stored(ks, m[k := m[k] + [w]]) == Stored(ks, m) + 1
  {
    var init := ks[..|ks| - 1];
    var m' := m[k := m[k] + [w]];
    if ks[|ks| - 1] == k {
      assert k !in init;
      StoredUnchanged(init, m, m');
    } else {
      assert k in init;
      StoredGrowOne(init, m, k, w);
    }
  }

  /** Each insertion stores exactly one more follower. */
  lemma InsertStoresOne(t: Table, k: Key, w: string)
    requires Valid(t)
    ensures TotalStored(Insert(t, k, w)) == TotalStored(t) + 1
  {
    if k in t.next {
      StoredGrowOne(t.keys, t.next, k, w);
    } else {
      var r := Insert(t, k, w);
      assert r.keys[..|r.keys| - 1] == t.keys;
      StoredUnchanged(t.keys, t.next, r.next);
    }
  }

  lemma {:induction false} DictionaryUpToTotal(words: seq<string>, n: nat)
    requires n <= WindowCount(words)
    ensures Valid(DictionaryUpTo(words, n))
    ensures TotalStored(DictionaryUpTo(words, n)) == n
  {
    DictionaryUpToValid(words, n);
    if n > 0 {
      DictionaryUpToTotal(words, n - 1);
      InsertStoresOne(DictionaryUpTo(words, n - 1), KeyAt(words, n - 1), words[n + 1]);
    }
  }

  /** Exactly one follower is stored per window: `max(0, |words| - 2)` in all. */
  lemma DictionaryTotal(words: seq<string>)
    ensures Valid(Dictionary(words))
    ensures TotalStored(Dictionary(words)) == if |words| < 3 then 0 else |words| - 2
  {
    DictionaryUpToTotal(words, WindowCount(words));
  }
}
