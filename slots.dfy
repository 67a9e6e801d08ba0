/** The hashtable of writer_bot_ht.py seen as a value: the sequence of its slots.
    Everything here is a function or a lemma over `seq<Slot>`; the class in
    module HashTable keeps its slots in an array and is proved against these
    definitions. */
module Slots {

  datatype Option<T> = None | Some(value: T)

  /** One cell of the table: empty (`None` in the source) or a key together
      with the list of values put under it, oldest first. */
  datatype Slot = Empty | Pair(key: string, values: seq<string>)

  /** The result of an insertion: the new slots, or the "table is full" exit
      that ends the run. */
  datatype Outcome<T> = Ok(value: T) | TableFull

  function EmptySlots(size: nat): (s: seq<Slot>)
    ensures |s| == size && forall i :: 0 <= i < size ==> s[i].Empty?
  {
    seq(size, _ => Empty)
  }

  // ---------------------------------------------------------------------
  // Arithmetic on probe positions
  // ---------------------------------------------------------------------

  lemma MulAtLeast(k: int, n: int)
    requires k >= 1 && n > 0
    ensures k * n >= n
  {
    if k > 1 {
      MulAtLeast(k - 1, n);
      assert k * n == (k - 1) * n + n;
    }
  }

  /** Dafny's `%` (like Python's for a positive modulus) is determined by the
      quotient-remainder decomposition. */
  lemma ModOfMultiple(a: int, q: int, r: int, n: int)
    requires n > 0 && 0 <= r < n && a == q * n + r
    ensures a % n == r
  {
    var d, m := a / n, a % n;
    assert a == d * n + m;
    assert (q - d) * n == m - r;
    assert (d - q) * n == r - m;
    if q - d >= 1 {
      MulAtLeast(q - d, n);
    } else if d - q >= 1 {
      MulAtLeast(d - q, n);
    }
  }

  /** The slot examined after `count` backward steps from `home`. */
  function ProbeIndex(home: int, count: int, n: nat): (i: nat)
    requires n > 0
    ensures i < n
  {
    (home - count) % n
  }

  /** How many backward steps lead from `home` to slot `i`. Stepping backward
      is its own inverse: that count is the slot `i` steps back from `home`
      (`ProbeAtDistance`). */
  function Distance(home: int, i: int, n: nat): (d: nat)
    requires n > 0
    ensures d < n
  {
    ProbeIndex(home, i, n)
  }

  /** The first probe is the home slot itself. */
  lemma ProbeStart(home: int, n: nat)
    requires 0 <= home < n
    ensures ProbeIndex(home, 0, n) == home
  {
    ModOfMultiple(home, 0, home, n);
  }

  /** One step of the source's `index = (index - 1) % size` advances the probe count by one. */
  lemma {:induction false} ProbeStep(home: int, count: int, n: nat)
    requires n > 0
    ensures (ProbeIndex(home, count, n) - 1) % n == ProbeIndex(home, count + 1, n)
  {
    var x := home - count;
    var q, r := x / n, x % n;
    if r >= 1 {
      ModOfMultiple(r - 1, 0, r - 1, n);
      ModOfMultiple(x - 1, q, r - 1, n);
    } else {
      ModOfMultiple(-1, -1, n - 1, n);
      ModOfMultiple(x - 1, q - 1, n - 1, n);
    }
  }

  /** After a full cycle of `n` steps the probe is back where it was. */
  lemma {:induction false} ProbePeriodic(home: int, count: int, n: nat)
    requires n > 0
    ensures ProbeIndex(home, count + n, n) == ProbeIndex(home, count, n)
  {
    var x := home - count - n;
    ModOfMultiple(x + n, x / n + 1, x % n, n);
  }

  /** Every slot lies on every probe path, at its distance from the start;
      so, read the other way, the first `n` probes visit pairwise different
      slots. */
  lemma {:induction false} ProbeAtDistance(home: int, i: int, n: nat)
    requires n > 0 && 0 <= i < n
    ensures ProbeIndex(home, Distance(home, i, n), n) == i
  {
    var d := Distance(home, i, n);
    var q := (home - i) / n;
    assert home - i == q * n + d;
    ModOfMultiple(home - d, q, i, n);
  }

  // ---------------------------------------------------------------------
  // The hash function (writer_bot_ht.py:68-73)
  // ---------------------------------------------------------------------

  /** The accumulator of `_hash` after reading the whole key: the left fold of
      `p := 31 * p + ord(c)` from `p = 0`, on unbounded integers like Python's. */
  function HashFold(key: string): nat
    decreases |key|
  {
    if key == [] then 0 else 31 * HashFold(key[..|key| - 1]) + key[|key| - 1] as int
  }

  function Pow(b: nat, e: nat): nat
  {
    if e == 0 then 1 else b * Pow(b, e - 1)
  }

  /** Independent reference for the fold: the polynomial
      sum of ord(key[i]) * 31^(|key| - 1 - i). */
  function Polynomial(key: string): nat
    decreases |key|
  {
    if key == [] then 0 else (key[0] as int) * Pow(31, |key| - 1) + Polynomial(key[1..])
  }

  lemma {:induction false} PolynomialSnoc(key: string, c: char)
    ensures Polynomial(key + [c]) == 31 * Polynomial(key) + c as int
    decreases |key|
  {
    if key != [] {
      var k := key + [c];
      assert k[0] == key[0] && k[1..] == key[1..] + [c];
      PolynomialSnoc(key[1..], c);
      var x, y := key[0] as int, Pow(31, |key| - 1);
      assert Pow(31, |key|) == 31 * y;
      assert x * (31 * y) == 31 * (x * y);
    } else {
      assert [c][1..] == [];
    }
  }

  /** The loop of `_hash` computes the base-31 polynomial of the key's code points. */
  lemma {:induction false} HashFoldIsPolynomial(key: string)
    ensures HashFold(key) == Polynomial(key)
    decreases |key|
  {
    if key != [] {
      var init, last := key[..|key| - 1], key[|key| - 1];
      HashFoldIsPolynomial(init);
      assert init + [last] == key;
      PolynomialSnoc(init, last);
    }
  }

  /** `_hash(key)` for a table of `n` slots: the home slot of `key`. */
  function Hash(key: string, n: nat): (h: nat)
    requires n > 0
    ensures h < n
  {
    HashFold(key) % n
  }

  // ---------------------------------------------------------------------
  // Where the probe loops of put, get and __contains__ stop
  // ---------------------------------------------------------------------

  /** A probe loop stops at slot `i` when it is empty or holds `key`. */
  predicate Stops(s: seq<Slot>, i: int, key: string)
    requires 0 <= i < |s|
  {
    s[i].Empty? || s[i].key == key
  }

  predicate HasStop(s: seq<Slot>, key: string)
  {
    exists i :: 0 <= i < |s| && Stops(s, i, key)
  }

  predicate HasEmpty(s: seq<Slot>)
  {
    exists i :: 0 <= i < |s| && s[i].Empty?
  }

  /** An empty slot stops every probe loop, whatever the key. */
  lemma EmptyGivesStop(s: seq<Slot>, key: string)
    requires HasEmpty(s)
    ensures HasStop(s, key)
  {
    var i :| 0 <= i < |s| && s[i].Empty?;
    assert Stops(s, i, key);
  }

  /** `key in table`, read off the slots directly. */
  predicate Stored(s: seq<Slot>, key: string)
  {
    exists i :: 0 <= i < |s| && s[i].Pair? && s[i].key == key
  }

  /** Slot `i` is the first stopping slot on the probe path of `key`. */
  ghost predicate FirstStop(s: seq<Slot>, key: string, i: int)
    requires |s| > 0
  {
    var h := Hash(key, |s|);
    && 0 <= i < |s|
    && Stops(s, i, key)
    && forall c :: 0 <= c < Distance(h, i, |s|) ==> !Stops(s, ProbeIndex(h, c, |s|), key)
  }

  /** The loop of `put` from probe `count` on: the slot where it stops, or
      None when it gives up, which it does once `count` exceeds the size. */
  function FindSlot(s: seq<Slot>, key: string, count: nat): (r: Option<nat>)
    requires |s| > 0 && count <= |s| + 1
    ensures r.Some? ==> r.value < |s| && Stops(s, r.value, key)
    decreases |s| + 1 - count
  {
    var i := ProbeIndex(Hash(key, |s|), count, |s|);
    if Stops(s, i, key) then Some(i)
    else if count > |s| then None
    else FindSlot(s, key, count + 1)
  }

  /** Started after `count` probes that did not stop, the put loop finds a slot
      exactly when some slot stops it, and that slot is the first on the path. */
  lemma {:induction false} FindSlotFirst(s: seq<Slot>, key: string, count: nat)
    requires |s| > 0 && count <= |s| + 1
    requires forall c :: 0 <= c < count ==> !Stops(s, ProbeIndex(Hash(key, |s|), c, |s|), key)
    ensures FindSlot(s, key, count).Some? <==> HasStop(s, key)
    ensures FindSlot(s, key, count).Some? ==> FirstStop(s, key, FindSlot(s, key, count).value)
    decreases |s| + 1 - count
  {
    var n, h := |s|, Hash(key, |s|);
    var i := ProbeIndex(h, count, n);
    if Stops(s, i, key) {
      if count >= n {
        ProbePeriodic(h, count - n, n);
        assert false;
      }
      ProbeAtDistance(h, count, n);
    } else if count > n {
      if HasStop(s, key) {
        var j :| 0 <= j < n && Stops(s, j, key);
        ProbeAtDistance(h, j, n);
        assert false;
      }
    } else {
      FindSlotFirst(s, key, count + 1);
    }
  }

  lemma {:induction false} FirstStopUnique(s: seq<Slot>, key: string, i: int, j: int)
    requires |s| > 0 && FirstStop(s, key, i) && FirstStop(s, key, j)
    ensures i == j
  {
    var n, h := |s|, Hash(key, |s|);
    ProbeAtDistance(h, i, n);
    ProbeAtDistance(h, j, n);
  }

  // ---------------------------------------------------------------------
  // The table invariant
  // ---------------------------------------------------------------------

  ghost predicate UniqueKeys(s: seq<Slot>)
  {
    forall i, j :: 0 <= i < |s| && 0 <= j < |s| && s[i].Pair? && s[j].Pair? && s[i].key == s[j].key ==> i == j
  }

  ghost predicate NonEmptyLists(s: seq<Slot>)
  {
    forall i :: 0 <= i < |s| && s[i].Pair? ==> s[i].values != []
  }

  /** Every stored key is reached from its home slot by stepping backward
      through occupied slots only. */
  ghost predicate Reachable(s: seq<Slot>)
    requires |s| > 0
  {
    forall i, c ::
      0 <= i < |s| && s[i].Pair? && 0 <= c < Distance(Hash(s[i].key, |s|), i, |s|) ==>
        s[ProbeIndex(Hash(s[i].key, |s|), c, |s|)].Pair?
  }

  ghost predicate Valid(s: seq<Slot>)
  {
    |s| > 0 && UniqueKeys(s) && NonEmptyLists(s) && Reachable(s)
  }

  lemma EmptySlotsValid(size: nat)
    requires size > 0
    ensures Valid(EmptySlots(size))
  {
  }

  /** In a valid table, the probe path of a stored key stops at that key's slot. */
  lemma {:induction false} StoredIsFirstStop(s: seq<Slot>, key: string, i: int)
    requires Valid(s) && 0 <= i < |s| && s[i].Pair? && s[i].key == key
    ensures FirstStop(s, key, i)
  {
    var n, h := |s|, Hash(key, |s|);
    forall c | 0 <= c < Distance(h, i, n)
      ensures !Stops(s, ProbeIndex(h, c, n), key)
    {
      ProbeAtDistance(h, c, n);
    }
  }

  /** In a valid table, the put loop stops at the slot of a stored key. */
  lemma {:induction false} FindSlotStored(s: seq<Slot>, key: string, i: int)
    requires Valid(s) && 0 <= i < |s| && s[i].Pair? && s[i].key == key
    ensures FindSlot(s, key, 0) == Some(i)
  {
    FindSlotFirst(s, key, 0);
    StoredIsFirstStop(s, key, i);
    FirstStopUnique(s, key, i, FindSlot(s, key, 0).value);
  }

  // ---------------------------------------------------------------------
  // The abstract contents: the values stored under a key
  // ---------------------------------------------------------------------

  function ValuesFrom(s: seq<Slot>, key: string, from: nat): seq<string>
    requires from <= |s|
    decreases |s| - from
  {
    if from == |s| then []
    else if s[from].Pair? && s[from].key == key then s[from].values
    else ValuesFrom(s, key, from + 1)
  }

  /** The list the table holds for `key`, empty when the key is absent. */
  function ValuesOf(s: seq<Slot>, key: string): seq<string>
  {
    ValuesFrom(s, key, 0)
  }

  lemma {:induction false} ValuesFromAt(s: seq<Slot>, key: string, from: nat, i: int)
    requires from <= i < |s| && s[i].Pair? && s[i].key == key
    requires forall j :: from <= j < i ==> !(s[j].Pair? && s[j].key == key)
    ensures ValuesFrom(s, key, from) == s[i].values
    decreases i - from
  {
    if from < i {
      ValuesFromAt(s, key, from + 1, i);
    }
  }

  lemma {:induction false} ValuesFromAbsent(s: seq<Slot>, key: string, from: nat)
    requires from <= |s|
    requires forall j :: from <= j < |s| ==> !(s[j].Pair? && s[j].key == key)
    ensures ValuesFrom(s, key, from) == []
    decreases |s| - from
  {
    if from < |s| {
      ValuesFromAbsent(s, key, from + 1);
    }
  }

  /** With unique keys, the abstract list of a key is the list in its slot. */
  lemma ValuesAt(s: seq<Slot>, key: string, i: int)
    requires UniqueKeys(s) && 0 <= i < |s| && s[i].Pair? && s[i].key == key
    ensures ValuesOf(s, key) == s[i].values
  {
    ValuesFromAt(s, key, 0, i);
  }

  lemma ValuesAbsent(s: seq<Slot>, key: string)
    requires !Stored(s, key)
    ensures ValuesOf(s, key) == []
  {
    ValuesFromAbsent(s, key, 0);
  }

  // ---------------------------------------------------------------------
  // put (writer_bot_ht.py:19-39)
  // ---------------------------------------------------------------------

  /** `put(key, value)`: append to the list of the slot where the probe loop
      stops if it holds the key, fill it with a fresh pair if it is empty, or
      end with TableFull when the loop gives up. */
  function Put(s: seq<Slot>, key: string, value: string): (r: Outcome<seq<Slot>>)
    requires |s| > 0
    ensures r.Ok? ==> |r.value| == |s|
  {
    match FindSlot(s, key, 0)
    case None => TableFull
    case Some(i) =>
      if s[i].Pair? then Ok(s[i := s[i].(values := s[i].values + [value])])
      else Ok(s[i := Pair(key, [value])])
  }

  /** `put` ends the run exactly when every slot holds a key other than `key`. */
  lemma PutFull(s: seq<Slot>, key: string, value: string)
    requires |s| > 0
    ensures Put(s, key, value) == TableFull <==>
            forall i :: 0 <= i < |s| ==> s[i].Pair? && s[i].key != key
  {
    FindSlotFirst(s, key, 0);
    if forall i :: 0 <= i < |s| ==> s[i].Pair? && s[i].key != key {
      forall i | 0 <= i < |s|
        ensures !Stops(s, i, key)
      {
      }
      assert FindSlot(s, key, 0) == None;
    } else {
      var i :| 0 <= i < |s| && !(s[i].Pair? && s[i].key != key);
      assert Stops(s, i, key);
      assert FindSlot(s, key, 0).Some?;
    }
  }

  /** `put` on a stored key appends the value to that key's list and changes
      no other slot. */
  lemma PutExisting(s: seq<Slot>, key: string, value: string, i: int)
    requires Valid(s) && 0 <= i < |s| && s[i].Pair? && s[i].key == key
    ensures Put(s, key, value) == Ok(s[i := Pair(key, s[i].values + [value])])
  {
    FindSlotStored(s, key, i);
  }

  /** `put` on an absent key fills the first empty slot on the key's backward
      probe path with a one-element list and changes no other slot. */
  lemma PutAbsent(s: seq<Slot>, key: string, value: string)
    requires Valid(s) && !Stored(s, key) && HasEmpty(s)
    ensures Put(s, key, value).Ok?
    ensures exists j ::
      && 0 <= j < |s| && s[j].Empty?
      && (forall c :: 0 <= c < Distance(Hash(key, |s|), j, |s|) ==>
            s[ProbeIndex(Hash(key, |s|), c, |s|)].Pair?)
      && Put(s, key, value).value == s[j := Pair(key, [value])]
  {
    var e :| 0 <= e < |s| && s[e].Empty?;
    assert Stops(s, e, key);
    FindSlotFirst(s, key, 0);
    var j := FindSlot(s, key, 0).value;
    assert s[j].Empty?;
  }

  /** `put` keeps keys unique, lists non-empty and every key reachable. */
  lemma PutValid(s: seq<Slot>, key: string, value: string)
    requires Valid(s) && Put(s, key, value).Ok?
    ensures Valid(Put(s, key, value).value)
  {
    var n, h := |s|, Hash(key, |s|);
    FindSlotFirst(s, key, 0);
    var j := FindSlot(s, key, 0).value;
    var t := Put(s, key, value).value;
    assert t[j].Pair? && t[j].key == key;
    assert forall x :: 0 <= x < n && x != j ==> t[x] == s[x];
    if s[j].Empty? {
      forall i | 0 <= i < n && s[i].Pair? && s[i].key == key
        ensures false
      {
        StoredIsFirstStop(s, key, i);
        FirstStopUnique(s, key, i, j);
      }
    }
    forall i, c | 0 <= i < n && t[i].Pair? && 0 <= c < Distance(Hash(t[i].key, n), i, n)
      ensures t[ProbeIndex(Hash(t[i].key, n), c, n)].Pair?
    {
      var x := ProbeIndex(Hash(t[i].key, n), c, n);
      if i == j && s[j].Empty? {
        assert !Stops(s, x, key);
      } else {
        assert s[i].Pair? && s[i].key == t[i].key;
        assert s[x].Pair?;
      }
    }
  }

  /** The abstract effect of `put`: the key is stored afterwards, its list
      gains `value` at the end, and every other key keeps its list. */
  lemma PutContents(s: seq<Slot>, key: string, value: string)
    requires Valid(s) && Put(s, key, value).Ok?
    ensures Valid(Put(s, key, value).value)
    ensures Stored(Put(s, key, value).value, key)
    ensures ValuesOf(Put(s, key, value).value, key) == ValuesOf(s, key) + [value]
    ensures forall k :: k != key ==>
      (Stored(Put(s, key, value).value, k) <==> Stored(s, k)) &&
      ValuesOf(Put(s, key, value).value, k) == ValuesOf(s, k)
  {
    PutValid(s, key, value);
    FindSlotFirst(s, key, 0);
    var j := FindSlot(s, key, 0).value;
    var t := Put(s, key, value).value;
    ValuesAt(t, key, j);
    if s[j].Pair? {
      ValuesAt(s, key, j);
    } else {
      if Stored(s, key) {
        var i :| 0 <= i < |s| && s[i].Pair? && s[i].key == key;
        StoredIsFirstStop(s, key, i);
        FirstStopUnique(s, key, i, j);
      }
      ValuesAbsent(s, key);
    }
    forall k | k != key
      ensures (Stored(t, k) <==> Stored(s, k)) && ValuesOf(t, k) == ValuesOf(s, k)
    {
      if Stored(s, k) {
        var i :| 0 <= i < |s| && s[i].Pair? && s[i].key == k;
        assert t[i] == s[i];
        ValuesAt(s, k, i);
        ValuesAt(t, k, i);
      } else {
        assert !Stored(t, k);
        ValuesAbsent(s, k);
        ValuesAbsent(t, k);
      }
    }
  }

  // ---------------------------------------------------------------------
  // get and __contains__ (writer_bot_ht.py:41-61)
  // ---------------------------------------------------------------------

  /** `get(key)`: the list of the slot where the probe loop stops, or None if
      that slot is empty. Defined only when the loop stops at all: with no
      empty slot and `key` absent, the source's loop never ends. */
  function Lookup(s: seq<Slot>, key: string): (r: Option<seq<string>>)
    requires |s| > 0 && HasStop(s, key)
    ensures r.Some? ==> exists i :: 0 <= i < |s| && s[i] == Pair(key, r.value)
    ensures r.None? ==> HasEmpty(s)
  {
    FindSlotFirst(s, key, 0);
    var i := FindSlot(s, key, 0).value;
    if s[i].Empty? then None else Some(s[i].values)
  }

  /** In a valid table a lookup finds a key exactly when it is stored, and then
      returns its whole, non-empty list. */
  lemma LookupMeaning(s: seq<Slot>, key: string)
    requires Valid(s) && HasStop(s, key)
    ensures Lookup(s, key).Some? <==> Stored(s, key)
    ensures Lookup(s, key).Some? ==> Lookup(s, key).value == ValuesOf(s, key) != []
  {
    if Stored(s, key) {
      var i :| 0 <= i < |s| && s[i].Pair? && s[i].key == key;
      FindSlotStored(s, key, i);
      ValuesAt(s, key, i);
    } else {
      FindSlotFirst(s, key, 0);
    }
  }

  /** After `put(key, value)`, `get(key)` terminates and returns the old list
      with `value` appended. */
  lemma PutThenLookup(s: seq<Slot>, key: string, value: string)
    requires Valid(s) && Put(s, key, value).Ok?
    ensures HasStop(Put(s, key, value).value, key)
    ensures Lookup(Put(s, key, value).value, key) == Some(ValuesOf(s, key) + [value])
  {
    var t := Put(s, key, value).value;
    PutContents(s, key, value);
    var i :| 0 <= i < |t| && t[i].Pair? && t[i].key == key;
    assert Stops(t, i, key);
    LookupMeaning(t, key);
  }

  // ---------------------------------------------------------------------
  // Sequences of puts
  // ---------------------------------------------------------------------

  /** The puts of `entries` (key, value), in order, stopping at TableFull. */
  function PutAll(s: seq<Slot>, entries: seq<(string, string)>): (r: Outcome<seq<Slot>>)
    requires |s| > 0
    ensures r.Ok? ==> |r.value| == |s|
    decreases |entries|
  {
    if entries == [] then Ok(s)
    else
      var last := entries[|entries| - 1];
      match PutAll(s, entries[..|entries| - 1])
      case TableFull => TableFull
      case Ok(t) => Put(t, last.0, last.1)
  }

  /** The values of `entries` filed under `key`, in order. */
  function Suffixes(entries: seq<(string, string)>, key: string): seq<string>
    decreases |entries|
  {
    if entries == [] then []
    else
      var last := entries[|entries| - 1];
      Suffixes(entries[..|entries| - 1], key) + (if last.0 == key then [last.1] else [])
  }

  lemma {:induction false} SuffixesAppend(a: seq<(string, string)>, b: seq<(string, string)>, key: string)
    ensures Suffixes(a + b, key) == Suffixes(a, key) + Suffixes(b, key)
    decreases |b|
  {
    if b != [] {
      var init := b[..|b| - 1];
      assert (a + b)[..|a + b| - 1] == a + init;
      SuffixesAppend(a, init, key);
    } else {
      assert a + b == a;
    }
  }

  /** Every entry's value is filed under its key. */
  lemma {:induction false} SuffixesContain(entries: seq<(string, string)>, k: int)
    requires 0 <= k < |entries|
    ensures entries[k].1 in Suffixes(entries, entries[k].0)
    decreases |entries|
  {
    if k < |entries| - 1 {
      SuffixesContain(entries[..|entries| - 1], k);
    }
  }

  /** One more put extends a successful prefix of the puts. */
  lemma PutAllStep(s: seq<Slot>, entries: seq<(string, string)>, m: nat)
    requires |s| > 0 && m < |entries| && PutAll(s, entries[..m]).Ok?
    ensures PutAll(s, entries[..m + 1]) ==
            Put(PutAll(s, entries[..m]).value, entries[m].0, entries[m].1)
  {
    assert entries[..m + 1][..m] == entries[..m];
  }

  /** Putting `a + b` is putting `a`, then `b` on the result. */
  lemma {:induction false} PutAllAppend(s: seq<Slot>, a: seq<(string, string)>, b: seq<(string, string)>)
    requires |s| > 0
    ensures PutAll(s, a + b) == match PutAll(s, a) case TableFull => TableFull case Ok(t) => PutAll(t, b)
    decreases |b|
  {
    if b == [] {
      assert a + b == a;
    } else {
      var init := b[..|b| - 1];
      assert (a + b)[..|a + b| - 1] == a + init;
      PutAllAppend(s, a, init);
    }
  }

  /** Once a prefix of the puts runs out of room, so do all of them. */
  lemma {:induction false} PutAllFullStays(s: seq<Slot>, entries: seq<(string, string)>, m: nat)
    requires |s| > 0 && m <= |entries| && PutAll(s, entries[..m]) == TableFull
    ensures PutAll(s, entries) == TableFull
    decreases |entries| - m
  {
    if m < |entries| {
      assert entries[..m + 1][..m] == entries[..m];
      PutAllFullStays(s, entries, m + 1);
    } else {
      assert entries[..m] == entries;
    }
  }

  /** A successful sequence of puts keeps the table valid; afterwards each key
      holds its old list followed by the values put under it, in order, and it
      is stored exactly when it was before or was put. */
  lemma {:induction false} PutAllContents(s: seq<Slot>, entries: seq<(string, string)>)
    requires Valid(s) && PutAll(s, entries).Ok?
    ensures Valid(PutAll(s, entries).value)
    ensures forall k ::
      ValuesOf(PutAll(s, entries).value, k) == ValuesOf(s, k) + Suffixes(entries, k) &&
      (Stored(PutAll(s, entries).value, k) <==> Stored(s, k) || Suffixes(entries, k) != [])
    decreases |entries|
  {
    if entries != [] {
      var init, last := entries[..|entries| - 1], entries[|entries| - 1];
      PutAllContents(s, init);
      var t := PutAll(s, init).value;
      PutContents(t, last.0, last.1);
    }
  }
}
