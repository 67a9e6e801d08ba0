# writer_bot_ht in Dafny

A model of `writer_bot_ht.py`, a word-level Markov-chain text generator. The
program builds a table that maps each run of `prefix_len` consecutive words
(joined by single spaces) to the list of words that followed that run in a
corpus. It then walks the table from a seed line to write new text.

The table is a hand-written, fixed-size hashtable:

- the hash is a base-31 polynomial of the key's code points, taken modulo the size;
- collisions are resolved by probing **backward** one slot at a time;
- an insertion that finds neither the key nor an empty slot ends the run.

The model has four modules, one per part of the program:

- `Slots` (slots.dfy) is the table as a value, a `seq<Slot>`. It defines the hash
  fold and the probe order. `FindSlot` is the place where the probe loops stop.
  `Put`, `PutAll` and `Lookup` specify insertion and lookup. `Valid` is the
  invariant the class keeps. The lemmas prove what insertion and lookup mean.
- `HashTable` (hashtable.dfy) holds the class `Hashtable`: its slots live in an
  `array<Slot>`, which `Put` updates in place. The methods `Hash`, `Put`,
  `Get` and `Contains` run the source's loops and are proved against `Slots`.
- `CorpusIndexer` (indexer.dfy) holds `AddNonwords` and `CreateDict`. Both
  fill a `Hashtable`. Each is proved to perform exactly the puts listed by a
  specification function (`BootstrapPairs`, `IndexPairs`). `DictContents`
  then states what the finished table holds.
- `ChainGenerator` (chain.dfy) holds `CreateChain`, the bounded walk, and a
  worked example of it.

Names follow the source: `NonWord` is `NONWORD`, `Join(ws)` is `" ".join(ws)`,
`LastWords(ws, n)` is `ws[-n:]`.

The bound on `put`'s probe loop is taken from the code. `put` checks
`count > size` only after finding another key, so it examines up to `size + 2`
slots (probe counts `0 .. size + 1`) before it exits. `FindSlot` models that
bound. The probe path repeats every `size` steps, so this is the same outcome
as giving up after one full cycle (`Slots.PutFull`).

## Model

| member | source | states |
|---|---|---|
| `Slots.Hash` | writer_bot_ht.py:68-73 | `_hash` gives a home slot index in `[0, size)` |
| `Slots.HashFold` | writer_bot_ht.py:70-72 | the accumulator of `_hash` after the whole key; its closed form is stated by `HashFoldIsPolynomial` |
| `Slots.HashFoldIsPolynomial` | writer_bot_ht.py:68-73 | the accumulator of `_hash`'s loop is the polynomial sum of `ord(key[i]) * 31^(len-1-i)`, on unbounded integers |
| `Slots.ProbeStep` | writer_bot_ht.py:33 | `(index - 1) % size` with a non-negative result is exactly one more backward step along the probe path from the home slot |
| `Slots.FindSlot` | writer_bot_ht.py:26-34 | a slot where the probe loop of `put` stops is a real slot that is empty or holds the key |
| `Slots.FindSlotFirst` | writer_bot_ht.py:29-34 | the put loop finds a slot exactly when some slot is empty or holds the key, and it is the first such slot on the backward path |
| `Slots.StoredIsFirstStop` | writer_bot_ht.py:48-51 | in a valid table, every slot on a stored key's path before its own slot holds a different key, so lookups reach it in fewer than `size` steps |
| `Slots.FindSlotStored` | writer_bot_ht.py:29-37 | in a valid table, the put loop stops at the slot that already holds the key |
| `Slots.EmptyGivesStop` | writer_bot_ht.py:48 | once a slot is empty, the probe loops of `get` and `__contains__` end for every key |
| `Slots.EmptySlotsValid` | writer_bot_ht.py:16 | the fresh table of `size` empty slots satisfies the table invariant |
| `Slots.Put` | writer_bot_ht.py:19-39 | a successful `put` keeps the number of slots; what it changes is stated by `PutFull`, `PutExisting`, `PutAbsent` and `PutContents` |
| `Slots.PutFull` | writer_bot_ht.py:29-32 | `put` ends the run (TableFull) exactly when every slot holds a key other than the one being put |
| `Slots.PutExisting` | writer_bot_ht.py:36-37 | `put` on a stored key appends the value to that key's list in its own slot and changes nothing else |
| `Slots.PutAbsent` | writer_bot_ht.py:38-39 | `put` on an absent key, with a slot to spare, succeeds and writes `[key, [value]]` into an empty slot reached from the home slot through occupied slots only; nothing else changes |
| `Slots.PutValid` | writer_bot_ht.py:19-39 | `put` keeps the keys unique, the lists non-empty, and every key reachable from its home slot through occupied slots |
| `Slots.PutContents` | writer_bot_ht.py:19-39 | after `put(key, value)` the key is stored and its list is the old list plus `value`; every other key keeps its list and its presence |
| `Slots.Lookup` | writer_bot_ht.py:41-61 | a list returned by `get` is the list of a slot that holds the key; `get` returns None only when the table has an empty slot |
| `Slots.LookupMeaning` | writer_bot_ht.py:41-61 | in a valid table, `get` finds the key exactly when it is stored, and then returns its whole, non-empty list; otherwise it returns None |
| `Slots.PutThenLookup` | writer_bot_ht.py:19-52 | after a successful `put(key, value)`, `get(key)` terminates and returns the old list with `value` at the end |
| `Slots.PutAll` | writer_bot_ht.py:117-120 | a run of successful puts keeps the number of slots |
| `Slots.PutAllStep` | writer_bot_ht.py:118-120 | proof helper: one more put extends a successful run of puts, as each turn of the loop does |
| `Slots.PutAllAppend` | writer_bot_ht.py:115-120 | putting two runs of entries is putting the first, then the second on the result, with TableFull carried through |
| `Slots.PutAllFullStays` | writer_bot_ht.py:30-32 | once a put in a run ends the run, the whole run ends in TableFull |
| `Slots.PutAllContents` | writer_bot_ht.py:19-39 | after a successful run of puts the table is valid, each key's list is its old list followed by the values put under it in order, and a key is stored exactly when it was before or was put |
| `Slots.SuffixesAppend` | writer_bot_ht.py:115-120 | the values filed under a key by two runs of puts are those of the first run followed by those of the second |
| `Slots.SuffixesContain` | writer_bot_ht.py:118-120 | every put's value is among the values filed under its key |
| `HashTable.Hashtable.constructor` | writer_bot_ht.py:11-17 | a new table has `size` slots, all empty, and satisfies the invariant |
| `HashTable.Hashtable.Hash` | writer_bot_ht.py:68-73 | `_hash` returns the fold `p = 31*p + ord(c)` reduced modulo the size, a slot index in `[0, size)` |
| `HashTable.Hashtable.Put` | writer_bot_ht.py:19-39 | the array ends up as `Slots.Put` of the old slots, or unchanged with `ok` false when the source would exit; the invariant is kept |
| `HashTable.Hashtable.Get` | writer_bot_ht.py:41-52 | `get` returns the key's whole non-empty list when the key is stored and None otherwise |
| `HashTable.Hashtable.Contains` | writer_bot_ht.py:54-61 | `key in table` is true exactly when the key is stored, and agrees with `get` |
| `CorpusIndexer.Join` | writer_bot_ht.py:99 | `" ".join(ws)` of a non-empty list starts with the first word and is as long as all the words plus one separator per neighbouring pair |
| `CorpusIndexer.JoinSnoc` | writer_bot_ht.py:99 | joining one more word appends `" "` and that word, so the words appear in order with one space between neighbours |
| `CorpusIndexer.BootstrapPairs` | writer_bot_ht.py:97-102 | `add_nonwords` makes exactly `prefix_len` puts; put k files `words[k]` under a key that starts with the `"@"` marker |
| `CorpusIndexer.IndexPairs` | writer_bot_ht.py:117-120 | the main pass of `create_dict` makes one put per word after the first `prefix_len`, in order, with that word as the value |
| `CorpusIndexer.DictEntries` | writer_bot_ht.py:115-120 | every put of `create_dict`, bootstrap first; `DictValues` states which values it puts, and `DictKey` and `WordFiled` state what the table then holds |
| `CorpusIndexer.DictValues` | writer_bot_ht.py:115-120 | `create_dict` makes one put per corpus word, and the values put are the corpus words in order |
| `CorpusIndexer.WindowHasMarker` | writer_bot_ht.py:97 | the window keeps a `"@"` marker for exactly the first `prefix_len` turns, so the loop puts exactly `prefix_len` times |
| `CorpusIndexer.WindowShift` | writer_bot_ht.py:98-102 | proof helper: after k turns the window is `n - k` markers followed by `words[0..k]`; its first n words and its last word give put k |
| `CorpusIndexer.AddNonwords` | writer_bot_ht.py:76-104 | the shifting-window loop makes exactly the puts `BootstrapPairs` lists: put k files `words[k]` under `n - k` markers followed by `words[0..k)`, joined; the result is the table those puts build, or failure when one of them ends the run |
| `CorpusIndexer.BootstrapOfFirst` | writer_bot_ht.py:115 | passing only `words[:prefix_len + 1]` to `add_nonwords` changes nothing |
| `CorpusIndexer.BootstrapExample` | writer_bot_ht.py:85-89 | for prefix length 2 on "the cat sat", the bootstrap puts are "@ @" -> "the" then "@ the" -> "cat" |
| `CorpusIndexer.CreateDict` | writer_bot_ht.py:106-121 | the table is the one built by the bootstrap puts followed by one put per position i, of `words[i:i+n]` joined -> `words[i+n]`, or failure when a put ends the run |
| `CorpusIndexer.DictKey` | writer_bot_ht.py:115-120 | for one key: the finished table is valid and files under the key its bootstrap values, then its main-pass values |
| `CorpusIndexer.WordFiled` | writer_bot_ht.py:117-120 | for one position i past the first `prefix_len`: `words[i]` is in the finished table's list under the `prefix_len` words before it |
| `CorpusIndexer.DictContents` | writer_bot_ht.py:115-120 | in the finished table each key's list is its bootstrap values followed by its main-pass values in increasing position; every word after the first `prefix_len` is in the list of the words before it |
| `ChainGenerator.LastWords` | writer_bot_ht.py:144 | `tlist[-n:]` is the last n words, or the whole list when it is shorter or when n is 0 |
| `ChainGenerator.NextKey` | writer_bot_ht.py:136-144 | the key the walk looks up: the last `prefix_len` words, joined; how it moves is stated by `NextKeyShift` |
| `ChainGenerator.NextKeyShift` | writer_bot_ht.py:143-144 | once the chain holds `prefix_len` words, appending a word drops the key's first word and adds the new one at the end |
| `ChainGenerator.WalkStep` | writer_bot_ht.py:143-144 | appending a word taken from the current key's list keeps every earlier word's link to the key before it |
| `ChainGenerator.CreateChain` | writer_bot_ht.py:123-148 | the output starts with the seed's first `prefix_len` words; each later word is in the list of the at most `prefix_len` words before it; no word is added once the length reaches `num_words`; the walk stops early only when the current key is absent |
| `ChainGenerator.ExampleWalk` | writer_bot_ht.py:136-144 | with "the cat" -> ["sat"] and no "cat sat" key, the only walk from seed "the cat" (length 2, at most 5 words) is "the cat sat" |
| `ChainGenerator.ExampleTable` | writer_bot_ht.py:36-39 | putting "the cat" -> "sat" into two empty slots succeeds and files ["sat"] under "the cat", nothing under "cat sat", and leaves a slot empty |
| `ChainGenerator.ChainExample` | writer_bot_ht.py:123-148 | a two-slot table filled by `put` and walked by `create_chain` yields exactly "the cat sat", whatever the random draws |

## Left out

- `main` (writer_bot_ht.py:161-179) is console and file I/O and the prompts' validation. It is not modelled; the words of the corpus and of the seed line are parameters.
- Reading and splitting files (writer_bot_ht.py:114, :133) is not modelled. `CreateDict` takes the corpus words and `CreateChain` the seed line's words.
- `random.seed` and `random.randint` (writer_bot_ht.py:1-3, :140) become an oracle `pick`. The k-th draw is `pick(k, length) % length`, and a draw is made only when the list has more than one word, as in the source.
- `print_chain` (writer_bot_ht.py:150-158) and `__str__` (writer_bot_ht.py:63-65) are console output. They are not modelled.
- `sys.exit(0)` in `put` (writer_bot_ht.py:30-32) becomes a failure result: `Slots.Put` returns TableFull and `Hashtable.Put` returns `ok == false` with the slots unchanged. `AddNonwords` and `CreateDict` stop and report failure. The message "Hash table is full." is not modelled.
- Python list aliasing is not modelled. `get` returns the list object stored in the slot, and `put` extends that object in place with `+=`. The model stores value lists as values. No caller of `get` in the program mutates the returned list, so nothing observable is lost.
- Dafny's `char` is a Unicode scalar value. Python strings may also hold lone surrogate code points, which the model cannot represent.
- `HashTable.Hashtable.constructor` requires `size > 0`, and its `size` is a `nat`, so a negative size is not modelled either. With size 0 the source's `_hash` divides by zero on the first `put` or lookup. `main` does not check `table_len` (writer_bot_ht.py:163). With a negative size, `_pairs` is empty and `put` raises IndexError at writer_bot_ht.py:29.
- `HashTable.Hashtable.Get` and `HashTable.Hashtable.Contains` require some slot to be empty or to hold the key. Their loops have no probe counter, so on a full table without the key the source never returns.
- `ChainGenerator.CreateChain` requires the table to have an empty slot, so that each lookup of the walk ends. It is stronger than each lookup needs. The contract says every added word is in the current key's list; it does not say which one the oracle picked.
- `CorpusIndexer.AddNonwords` and `CorpusIndexer.CreateDict` require more than `prefix_len` words and no `"@"` among the first `prefix_len + 1` words. On the list `words[:prefix_len + 1]` that `create_dict` passes (writer_bot_ht.py:115), the source otherwise raises IndexError at writer_bot_ht.py:95 or :102, unless an earlier put fills the table and exits at writer_bot_ht.py:30-32.
- `CorpusIndexer.AddNonwords` does not model a direct call on a longer list with an `"@"` among its first `prefix_len + 1` words. There the source's loop goes on past `prefix_len` turns and makes extra puts. It stops when the window holds no marker, when an extra put fills the table and exits at writer_bot_ht.py:30-32, or when :102 runs past the end of the list and raises IndexError. `create_dict`, the only caller, never passes such a list.
- A `prefix_len` of 0, which `main` rejects, is modelled as Python behaves: the key is `""`, and `tlist[-0:]` is the whole list.
