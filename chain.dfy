/** Generating text from the prefix -> suffixes table (writer_bot_ht.py:123-148):
    start from the first words of a seed line, then repeatedly look up the
    last words written and append one of the words filed under them. */
module ChainGenerator {
  import opened Slots
  import opened HashTable
  import opened CorpusIndexer

  function Min(a: nat, b: nat): nat
  {
    if a <= b then a else b
  }

  /** `ws[-n:]`: the last n words, or all of them when there are fewer. As in
      Python, `ws[-0:]` is the whole list. */
  function LastWords(ws: seq<string>, n: nat): (r: seq<string>)
    ensures n == 0 || |ws| <= n ==> r == ws
    ensures 0 < n <= |ws| ==> |r| == n && ws == ws[..|ws| - n] + r
  {
    if n == 0 || |ws| <= n then ws else ws[|ws| - n..]
  }

  /** The key the walk looks up after writing `chain` (writer_bot_ht.py:144);
      `NextKeyShift` says how it moves as words are appended. */
  function NextKey(chain: seq<string>, n: nat): string
  {
    Join(LastWords(chain, n))
  }

  /** Once the chain holds n words, each new word slides the key's window
      one word to the right. */
  lemma NextKeyShift(chain: seq<string>, n: nat, word: string)
    requires 0 < n <= |chain|
    ensures NextKey(chain + [word], n) == Join(chain[|chain| - n + 1..] + [word])
  {
    assert (chain + [word])[|chain| + 1 - n..] == chain[|chain| - n + 1..] + [word];
  }

  /** Word j of `chain` was taken from the list filed under the key formed by
      the words before it. */
  predicate Follows(s: seq<Slot>, chain: seq<string>, n: nat, j: nat)
    requires j < |chain|
  {
    chain[j] in ValuesOf(s, NextKey(chain[..j], n))
  }

  /** Every word after the first m of `chain` follows the words before it. */
  ghost predicate Walked(s: seq<Slot>, chain: seq<string>, n: nat, m: nat)
    requires m <= |chain|
  {
    forall j :: m <= j < |chain| ==> Follows(s, chain, n, j)
  }

  /** Appending a word filed under the current key keeps the walk a walk and
      leaves its first m words alone. */
  lemma WalkStep(s: seq<Slot>, chain: seq<string>, n: nat, m: nat, word: string)
    requires m <= |chain| && Walked(s, chain, n, m)
    requires word in ValuesOf(s, NextKey(chain, n))
    ensures Walked(s, chain + [word], n, m) && (chain + [word])[..m] == chain[..m]
  {
    var next := chain + [word];
    forall j | m <= j < |next|
      ensures Follows(s, next, n, j)
    {
      if j < |chain| {
        assert next[..j] == chain[..j];
        assert Follows(s, chain, n, j);
      } else {
        assert next[..j] == chain;
      }
    }
  }

  /** `create_chain(dict, file, prefix_len, num_words)` with the seed line's
      words given as `seed`. `random.randint(0, length - 1)` becomes
      `pick(draws, length) % length`, where `draws` counts the calls made so
      far (the source draws only when the list has more than one word).
      The table must have an empty slot: the source's lookups stop only at an
      empty slot or at the key. */
  method CreateChain(table: Hashtable, seed: seq<string>, prefixLen: nat, numWords: nat, pick: (nat, nat) -> nat)
    returns (chain: seq<string>)
    requires table.Valid() && HasEmpty(table.pairs[..])
    ensures var m := Min(|seed|, prefixLen);
      && |chain| >= m && chain[..m] == seed[..m]
      && (|chain| > m ==> |chain| <= numWords)
      && Walked(table.pairs[..], chain, prefixLen, m)
      && (|chain| < numWords ==> !Stored(table.pairs[..], NextKey(chain, prefixLen)))
  {
    ghost var s := table.pairs[..];
    var m := Min(|seed|, prefixLen);
    chain := [];
    chain := chain + seed[..m];
    assert chain == seed[..m];
    var prefix := Join(seed[..m]);
    EmptyGivesStop(s, prefix);
    var present := table.Contains(prefix);
    var draws := 0;
    while present && |chain| < numWords
      invariant table.pairs[..] == s
      invariant |chain| >= m && chain[..m] == seed[..m]
      invariant |chain| > m ==> |chain| <= numWords
      invariant Walked(s, chain, prefixLen, m)
      invariant prefix == NextKey(chain, prefixLen)
      invariant present <==> Stored(s, prefix)
      decreases numWords - |chain|
    {
      EmptyGivesStop(s, prefix);
      var found := table.Get(prefix);
      var length := |found.value|;
      var word;
      if length > 1 {
        var again := table.Get(prefix);
        word := again.value[pick(draws, length) % length];
        draws := draws + 1;
      } else {
        var again := table.Get(prefix);
        word := again.value[0];
      }
      WalkStep(s, chain, prefixLen, m, word);
      chain := chain + [word];
      prefix := Join(LastWords(chain, prefixLen));
      EmptyGivesStop(s, prefix);
      present := table.Contains(prefix);
    }
  }

  /** `" ".join([a, b])`. */
  lemma JoinTwo(a: string, b: string)
    ensures Join([a, b]) == a + " " + b
  {
    assert [a, b][1..] == [b];
  }

  /** On a table where "the cat" holds ["sat"] and "cat sat" holds nothing,
      the only result `create_chain` can give for the seed "the cat", prefix
      length 2 and at most 5 words is "the cat sat". */
  lemma ExampleWalk(t: seq<Slot>, chain: seq<string>)
    requires Stored(t, Join(["the", "cat"])) && ValuesOf(t, Join(["the", "cat"])) == ["sat"]
    requires ValuesOf(t, Join(["cat", "sat"])) == []
    requires |chain| >= 2 && chain[..2] == ["the", "cat"] && (|chain| > 2 ==> |chain| <= 5)
    requires Walked(t, chain, 2, 2) && (|chain| < 5 ==> !Stored(t, NextKey(chain, 2)))
    ensures chain == ["the", "cat", "sat"]
  {
    assert |chain| == 2 ==> chain == ["the", "cat"];
    assert Follows(t, chain, 2, 2);
    assert chain[2] == "sat";
    NextKeyShift(["the", "cat"], 2, "sat");
    assert |chain| > 3 ==> chain[..3] == ["the", "cat", "sat"] && Follows(t, chain, 2, 3);
  }

  /** Putting "the cat" -> "sat" into two empty slots succeeds, files ["sat"]
      under "the cat", nothing under "cat sat", and leaves a slot empty. */
  lemma ExampleTable()
    ensures Put(EmptySlots(2), Join(["the", "cat"]), "sat").Ok?
    ensures var t := Put(EmptySlots(2), Join(["the", "cat"]), "sat").value;
      && HasEmpty(t)
      && Stored(t, Join(["the", "cat"])) && ValuesOf(t, Join(["the", "cat"])) == ["sat"]
      && ValuesOf(t, Join(["cat", "sat"])) == []
  {
    var key, next := Join(["the", "cat"]), Join(["cat", "sat"]);
    JoinTwo("the", "cat");
    JoinTwo("cat", "sat");
    assert key[0] == 't' && next[0] == 'c';
    var s := EmptySlots(2);
    EmptySlotsValid(2);
    assert !Stored(s, key) && s[0].Empty?;
    PutAbsent(s, key, "sat");
    PutContents(s, key, "sat");
    ValuesAbsent(s, key);
    ValuesAbsent(s, next);
    var t := Put(s, key, "sat").value;
    var j :| 0 <= j < 2 && s[j].Empty? && t == s[j := Pair(key, ["sat"])];
    assert t[1 - j].Empty?;
  }

  /** The walk of `ExampleWalk`, run on a two-slot table that `put` filled:
      whatever the random draws, it writes "the cat sat" and stops. */
  method ChainExample(pick: (nat, nat) -> nat) returns (chain: seq<string>)
    ensures chain == ["the", "cat", "sat"]
  {
    var table := new Hashtable(2);
    var ok := table.Put(Join(["the", "cat"]), "sat");
    ExampleTable();
    chain := CreateChain(table, ["the", "cat"], 2, 5, pick);
    ExampleWalk(table.pairs[..], chain);
  }
}
