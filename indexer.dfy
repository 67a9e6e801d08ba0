/** Building the prefix -> suffixes table from a corpus (writer_bot_ht.py:76-121):
    `add_nonwords` seeds the keys that start with the boundary marker, then
    `create_dict` files every word under the words that precede it. */
module CorpusIndexer {
  import opened Slots
  import opened HashTable

  /** `NONWORD`, the boundary marker that pads the window at the start of the text. */
  const NonWord: string := "@"

  /** The number of characters in `ws`, separators not counted. */
  function Letters(ws: seq<string>): nat
  {
    if ws == [] then 0 else |ws[0]| + Letters(ws[1..])
  }

  /** `" ".join(ws)`: the words in order, one space between neighbours. */
  function Join(ws: seq<string>): (r: string)
    ensures ws != [] ==> |r| == Letters(ws) + |ws| - 1
    ensures ws != [] ==> |ws[0]| <= |r| && r[..|ws[0]|] == ws[0]
  {
    if ws == [] then "" else if |ws| == 1 then ws[0] else ws[0] + " " + Join(ws[1..])
  }

  /** Joining one more word appends a space and that word: the words appear
      in order, one `" "` between neighbours. */
  lemma {:induction false} JoinSnoc(ws: seq<string>, w: string)
    requires ws != []
    ensures Join(ws + [w]) == Join(ws) + " " + w
    decreases |ws|
  {
    if |ws| == 1 {
      assert (ws + [w])[1..] == [w];
    } else {
      assert (ws + [w])[1..] == ws[1..] + [w];
      JoinSnoc(ws[1..], w);
    }
  }

  /** `[w] * k`. */
  function Repeat(w: string, k: nat): (r: seq<string>)
    ensures |r| == k && forall j :: 0 <= j < k ==> r[j] == w
  {
    seq(k, _ => w)
  }

  /** The puts of `add_nonwords`, in order: the k-th files `words[k]` under
      n - k markers followed by the first k words. */
  function BootstrapPairs(words: seq<string>, n: nat): (e: seq<(string, string)>)
    requires n <= |words|
    ensures |e| == n
    ensures forall k :: 0 <= k < n ==> e[k].1 == words[k] && |e[k].0| > 0 && e[k].0[0] == '@'
  {
    seq(n, k requires 0 <= k < n => (Join(Repeat(NonWord, n - k) + words[..k]), words[k]))
  }

  /** The puts of the main loop of `create_dict`: each run of n consecutive
      words, joined, maps to the word after it. */
  function IndexPairs(words: seq<string>, n: nat): (e: seq<(string, string)>)
    requires n <= |words|
    ensures |e| == |words| - n
    ensures forall i :: 0 <= i < |e| ==> e[i].1 == words[n + i]
  {
    seq(|words| - n, i requires 0 <= i < |words| - n => (Join(words[i..i + n]), words[i + n]))
  }

  /** Every put `create_dict` performs, bootstrap first. */
  function DictEntries(words: seq<string>, n: nat): seq<(string, string)>
    requires n <= |words|
  {
    BootstrapPairs(words, n) + IndexPairs(words, n)
  }

  /** `create_dict` puts every corpus word exactly once, as a value, in order. */
  lemma DictValues(words: seq<string>, n: nat)
    requires n <= |words|
    ensures var e := DictEntries(words, n);
      |e| == |words| && forall i :: 0 <= i < |words| ==> e[i].1 == words[i]
  {
    var boot, index := BootstrapPairs(words, n), IndexPairs(words, n);
    var e := boot + index;
    forall i | 0 <= i < |words|
      ensures e[i].1 == words[i]
    {
      if i >= n {
        assert e[i] == index[i - n];
      }
    }
  }

  /** The window of `add_nonwords` holds a marker exactly while fewer than n
      words have been shifted in. */
  lemma WindowHasMarker(words: seq<string>, n: nat, i: nat)
    requires i <= n < |words| && NonWord !in words[..n + 1]
    ensures NonWord in Repeat(NonWord, n - i) + words[..i + 1] <==> i < n
  {
    if i < n {
      assert (Repeat(NonWord, n - i) + words[..i + 1])[0] == NonWord;
    } else {
      assert Repeat(NonWord, 0) + words[..i + 1] == words[..n + 1];
    }
  }

  /** Shifting the window of `add_nonwords` by one word. */
  lemma WindowShift(words: seq<string>, n: nat, i: nat)
    requires i < n < |words|
    ensures var w := Repeat(NonWord, n - i) + words[..i + 1];
      && w[..n] == Repeat(NonWord, n - i) + words[..i]
      && w[|w| - 1] == words[i]
      && w[1..] + [words[i + 1]] == Repeat(NonWord, n - (i + 1)) + words[..i + 2]
  {
    var w := Repeat(NonWord, n - i) + words[..i + 1];
    assert w[1..] == Repeat(NonWord, n - (i + 1)) + words[..i + 1];
    assert words[..i + 1] + [words[i + 1]] == words[..i + 2];
  }

  /** Put k of `add_nonwords`. */
  lemma BootstrapPairAt(words: seq<string>, n: nat, k: nat)
    requires k < n <= |words|
    ensures BootstrapPairs(words, n)[k] == (Join(Repeat(NonWord, n - k) + words[..k]), words[k])
  {
  }

  /** `add_nonwords(words, prefix_len, table_len)`: a window of `prefix_len`
      markers and `words[0]` is shifted left one word at a time; while it
      still holds a marker, its first `prefix_len` words (joined) map to its
      last word. `ok` is false when the table fills up (the source exits). */
  method AddNonwords(words: seq<string>, prefixLen: nat, tableLen: nat) returns (table: Hashtable, ok: bool)
    requires tableLen > 0
    requires |words| > prefixLen && NonWord !in words[..prefixLen + 1]
    ensures fresh(table.pairs) && table.Valid() && table.size == tableLen
    ensures ok == PutAll(EmptySlots(tableLen), BootstrapPairs(words, prefixLen)).Ok?
    ensures ok ==> table.pairs[..] == PutAll(EmptySlots(tableLen), BootstrapPairs(words, prefixLen)).value
  {
    ghost var empty := EmptySlots(tableLen);
    ghost var puts := BootstrapPairs(words, prefixLen);
    var i := 0;
    table := new Hashtable(tableLen);
    var prefix := Repeat(NonWord, prefixLen) + [words[i]];
    assert words[..1] == [words[0]];
    WindowHasMarker(words, prefixLen, 0);
    assert puts[..0] == [];
    while NonWord in prefix
      invariant 0 <= i <= prefixLen
      invariant prefix == Repeat(NonWord, prefixLen - i) + words[..i + 1]
      invariant NonWord in prefix <==> i < prefixLen
      invariant fresh(table.pairs) && table.Valid() && table.size == tableLen
      invariant PutAll(empty, puts[..i]) == Ok(table.pairs[..])
      decreases prefixLen - i
    {
      WindowShift(words, prefixLen, i);
      BootstrapPairAt(words, prefixLen, i);
      PutAllStep(empty, puts, i);
      i := i + 1;
      var prefixStr := Join(prefix[..prefixLen]);
      ok := table.Put(prefixStr, prefix[|prefix| - 1]);
      if !ok {
        PutAllFullStays(empty, puts, i);
        return;
      }
      prefix := prefix[1..] + [words[i]];
      WindowHasMarker(words, prefixLen, i);
    }
    ok := true;
    assert puts[..i] == puts;
  }

  /** `add_nonwords` only reads the first n + 1 words. */
  lemma BootstrapOfFirst(words: seq<string>, n: nat)
    requires n < |words|
    ensures BootstrapPairs(words[..n + 1], n) == BootstrapPairs(words, n)
  {
    var first := words[..n + 1];
    forall k | 0 <= k < n
      ensures first[..k] == words[..k] && first[k] == words[k]
    {
    }
  }

  /** Put i of the main pass of `create_dict`. */
  lemma IndexPairAt(words: seq<string>, n: nat, i: nat)
    requires i < |words| - n
    ensures IndexPairs(words, n)[i] == (Join(words[i..i + n]), words[i + n])
  {
  }

  method CreateDict(words: seq<string>, prefixLen: nat, tableLen: nat) returns (table: Hashtable, ok: bool)
    requires tableLen > 0
    requires |words| > prefixLen && NonWord !in words[..prefixLen + 1]
    ensures fresh(table.pairs) && table.Valid() && table.size == tableLen
    ensures ok == PutAll(EmptySlots(tableLen), DictEntries(words, prefixLen)).Ok?
    ensures ok ==> table.pairs[..] == PutAll(EmptySlots(tableLen), DictEntries(words, prefixLen)).value
  {
    ghost var index := IndexPairs(words, prefixLen);
    PutAllAppend(EmptySlots(tableLen), BootstrapPairs(words, prefixLen), index);
    BootstrapOfFirst(words, prefixLen);
    table, ok := AddNonwords(words[..prefixLen + 1], prefixLen, tableLen);
    if !ok {
      return;
    }
    ghost var booted := table.pairs[..];
    for i := 0 to |words| - prefixLen
      invariant fresh(table.pairs) && table.Valid() && table.size == tableLen
      invariant PutAll(booted, index[..i]) == Ok(table.pairs[..])
    {
      var prefix := Join(words[i..i + prefixLen]);
      var suffix := words[i + prefixLen];
      IndexPairAt(words, prefixLen, i);
      PutAllStep(booted, index, i);
      ok := table.Put(prefix, suffix);
      if !ok {
        PutAllFullStays(booted, index, i + 1);
        return;
      }
    }
    assert index[..|index|] == index;
  }

  /** The finished table is valid and files under `key` its bootstrap values,
      then its main-pass values. */
  lemma DictKey(words: seq<string>, n: nat, tableLen: nat, key: string)
    requires tableLen > 0 && n <= |words|
    requires PutAll(EmptySlots(tableLen), DictEntries(words, n)).Ok?
    ensures Valid(PutAll(EmptySlots(tableLen), DictEntries(words, n)).value)
    ensures ValuesOf(PutAll(EmptySlots(tableLen), DictEntries(words, n)).value, key) ==
      Suffixes(BootstrapPairs(words, n), key) + Suffixes(IndexPairs(words, n), key)
  {
    var empty := EmptySlots(tableLen);
    var boot, index := BootstrapPairs(words, n), IndexPairs(words, n);
    EmptySlotsValid(tableLen);
    PutAllContents(empty, boot + index);
    ValuesAbsent(empty, key);
    SuffixesAppend(boot, index, key);
  }

  /** What the finished table holds: under each key, the bootstrap values and
      then the main-pass suffixes in increasing order of position; every word
      after the first `prefix_len` is filed under the words before it. */
  lemma DictContents(words: seq<string>, n: nat, tableLen: nat)
    requires tableLen > 0 && n <= |words|
    requires PutAll(EmptySlots(tableLen), DictEntries(words, n)).Ok?
    ensures Valid(PutAll(EmptySlots(tableLen), DictEntries(words, n)).value)
    ensures forall key ::
      ValuesOf(PutAll(EmptySlots(tableLen), DictEntries(words, n)).value, key) ==
        Suffixes(BootstrapPairs(words, n), key) + Suffixes(IndexPairs(words, n), key)
    ensures forall i :: n <= i < |words| ==>
      words[i] in ValuesOf(PutAll(EmptySlots(tableLen), DictEntries(words, n)).value, Join(words[i - n..i]))
  {
    DictKey(words, n, tableLen, "");
    forall key
      ensures ValuesOf(PutAll(EmptySlots(tableLen), DictEntries(words, n)).value, key) ==
        Suffixes(BootstrapPairs(words, n), key) + Suffixes(IndexPairs(words, n), key)
    {
      DictKey(words, n, tableLen, key);
    }
    forall i | n <= i < |words|
      ensures words[i] in ValuesOf(PutAll(EmptySlots(tableLen), DictEntries(words, n)).value, Join(words[i - n..i]))
    {
      WordFiled(words, n, tableLen, i);
    }
  }

  /** Word i, past the first n, is filed under the n words before it. */
  lemma WordFiled(words: seq<string>, n: nat, tableLen: nat, i: nat)
    requires tableLen > 0 && n <= i < |words|
    requires PutAll(EmptySlots(tableLen), DictEntries(words, n)).Ok?
    ensures words[i] in ValuesOf(PutAll(EmptySlots(tableLen), DictEntries(words, n)).value, Join(words[i - n..i]))
  {
    var key := Join(words[i - n..i]);
    var boot, index := BootstrapPairs(words, n), IndexPairs(words, n);
    IndexPairAt(words, n, i - n);
    assert index[i - n] == (key, words[i]);
    SuffixesContain(index, i - n);
    assert words[i] in Suffixes(boot, key) + Suffixes(index, key);
    DictKey(words, n, tableLen, key);
  }

  /** Bootstrap for prefix length 2 on "the cat sat": "@ @" -> "the" and "@ the" -> "cat". */
  lemma BootstrapExample()
    ensures BootstrapPairs(["the", "cat", "sat"], 2) == [("@ @", "the"), ("@ the", "cat")]
  {
    var w := ["the", "cat", "sat"];
    assert Repeat(NonWord, 2) + w[..0] == ["@", "@"];
    assert Repeat(NonWord, 1) + w[..1] == ["@", "the"];
    assert Join(["@", "@"]) == "@ @";
    assert Join(["@", "the"]) == "@ the";
  }
}
