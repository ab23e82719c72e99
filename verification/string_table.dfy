/**
 * The string table of the PBF writer: a content-keyed index over a string
 * store that hands out dense ids. Slot 0 is the empty string, put into the
 * store at construction but never indexed; every other string gets the next
 * id the first time it is added.
 */
module StringTable {
  import opened Results
  import StringStore

  /** The table's store is created with chunks of one mebibyte. */
  const TableChunkSize: nat := 1024 * 1024

  /** The counter and the ids are 32-bit unsigned integers. */
  const Uint32Range: nat := 0x1_0000_0000

  /** The error `add` throws once the table holds more than its limit of entries. */
  datatype TableError = TooManyEntries

  /**
   * The table: its entry limit (a 32-bit constant of the library), the store
   * holding the strings, the index from contents to id, and the count of ids issued.
   */
  datatype Table = Table(maxEntries: nat, strings: StringStore.Store, index: map<string, nat>, counter: nat)

  /** What `add` returns: the table as it is afterwards, and the id or the error thrown. */
  datatype Added = Added(table: Table, id: Result<nat, TableError>)

  /** The shape every table has: a valid store of one-mebibyte chunks and 32-bit counter, limit and ids. */
  predicate Wellformed(t: Table) {
    && StringStore.Valid(t.strings)
    && t.strings.chunkSize == TableChunkSize
    && t.counter < Uint32Range
    && t.maxEntries < Uint32Range
    && (forall s | s in t.index :: t.index[s] < Uint32Range)
  }

  /** A string `add` accepts: a C string whose copy fits one chunk. */
  predicate Addable(s: string) {
    StringStore.NulFree(s) && |s| + 1 <= TableChunkSize
  }

  /**
   * Ids agree with positions: `items` holds the empty string and then one
   * string per id 1..n, and `index` maps exactly those strings to their positions.
   */
  predicate IdsMatch(items: seq<string>, index: map<string, nat>, n: nat) {
    && |items| == n + 1
    && items[0] == ""
    && (forall i | 1 <= i < |items| :: items[i] in index && index[items[i]] == i)
    && (forall s | s in index :: 1 <= index[s] <= n && items[index[s]] == s)
  }

  /**
   * The invariant of a table that has not overflowed: read oldest first, the
   * store holds the empty string and then one string per id, in id order, and
   * the index maps each of those to its position. The limit lies below the
   * largest counter value, so the limit check fires before the counter could wrap.
   */
  predicate Healthy(t: Table) {
    && Wellformed(t)
    && t.maxEntries + 1 < Uint32Range
    && t.counter <= t.maxEntries
    && IdsMatch(StringStore.ItemsOldestFirst(t.strings), t.index, t.counter)
  }

  /** When ids agree with positions, a string is indexed exactly when it is stored after the seed. */
  lemma IndexedIffStored(items: seq<string>, index: map<string, nat>, n: nat, s: string)
    requires IdsMatch(items, index, n)
    ensures s in index <==> s in items[1..]
  {
    if s in items[1..] {
      var j :| 0 <= j < |items[1..]| && items[1..][j] == s;
      assert items[j + 1] == s;
    }
    if s in index {
      assert items[1..][index[s] - 1] == s;
    }
  }

  /** When ids agree with positions, the id of an indexed string is its first position after the seed. */
  lemma IdIsFirstPosition(items: seq<string>, index: map<string, nat>, n: nat, s: string)
    requires IdsMatch(items, index, n) && s in index
    ensures 1 <= index[s] < |items| && items[index[s]] == s
    ensures forall j | 1 <= j < index[s] :: items[j] != s
  {
    forall j | 1 <= j < index[s]
      ensures items[j] != s
    {
      assert index[items[j]] == j;
    }
  }

  /** Storing a new string at the end under the next id keeps ids in agreement with positions. */
  lemma IdsMatchAppend(items: seq<string>, index: map<string, nat>, n: nat, s: string)
    requires IdsMatch(items, index, n) && s !in index
    ensures IdsMatch(items + [s], index[s := n + 1], n + 1)
  {
    var items', index' := items + [s], index[s := n + 1];
    forall i | 1 <= i < |items'|
      ensures items'[i] in index' && index'[items'[i]] == i
    {
      if i < |items| {
        assert items'[i] == items[i];
        assert items[i] != s;
      }
    }
  }

  /** The constructor: a store of one-mebibyte chunks holding the empty string, an empty index. */
  function New(maxEntries: nat): (t: Table)
    requires maxEntries + 1 < Uint32Range
    ensures Healthy(t) && t.maxEntries == maxEntries
    ensures Size(t) == 1 && t.index == map[]
  {
    var a := StringStore.Add(StringStore.New(TableChunkSize), "");
    StringStore.AddAppendsEntry(StringStore.New(TableChunkSize), "");
    Table(maxEntries, a.store, map[], 0)
  }

  /** A new table iterates exactly the seed, the empty string. */
  lemma NewIteratesSeed(maxEntries: nat)
    requires maxEntries + 1 < Uint32Range
    ensures Items(New(maxEntries)) == [""]
  {
    var t := New(maxEntries);
    SeedChunk(t.strings);
    StringStore.ItemsFollowChunks(t.strings);
  }

  /** After the empty string is seeded into a new store, the store holds one chunk: a lone NUL. */
  lemma SeedChunk(st: StringStore.Store)
    requires st == StringStore.Add(StringStore.New(TableChunkSize), "").store
    ensures st.chunks == [[StringStore.NUL]]
    ensures StringStore.EntriesOf(st.chunks) == [""]
  {
    var c := [StringStore.NUL];
    assert StringStore.Terminated("") == c;
    StringStore.SplitOne("");
    assert st.chunks[1..] == [];
    assert StringStore.EntriesOf(st.chunks) == StringStore.Split(c) + StringStore.EntriesOf([]);
  }

  /** `clear`: the store is cleared and seeded with the empty string again, the index emptied, the counter reset. */
  function Clear(t: Table): (r: Table)
    requires Wellformed(t) && t.maxEntries + 1 < Uint32Range
    ensures r == New(t.maxEntries)
    ensures Healthy(r) && Size(r) == 1 && r.index == map[]
  {
    var st := StringStore.Clear(t.strings);
    Table(t.maxEntries, StringStore.Add(st, "").store, map[], 0)
  }

  /** `size()`: one more than the counter, as a 32-bit value. */
  function Size(t: Table): nat {
    (t.counter + 1) % Uint32Range
  }

  /** `begin()` to `end()`: the table iterates its store. */
  function Items(t: Table): seq<string>
    requires |t.strings.chunks| >= 1
  {
    StringStore.Items(t.strings)
  }

  /**
   * `add`: a string already indexed gives back its id and changes nothing.
   * Otherwise it is copied into the store and indexed under the incremented
   * counter; when the counter then exceeds the limit the error is thrown, and
   * the string, the index entry and the counter stay as they are.
   */
  function Add(t: Table, s: string): (r: Added)
    requires Wellformed(t) && Addable(s)
    ensures Wellformed(r.table) && r.table.maxEntries == t.maxEntries
    ensures s in t.index ==> r == Added(t, Ok(t.index[s]))
    ensures r.table.index.Keys == t.index.Keys + {s}
    ensures forall x | x in t.index :: r.table.index[x] == t.index[x]
    ensures r.id.Ok? ==> r.id.value == r.table.index[s]
    ensures r.id.Err? ==> s !in t.index && r.table.index[s] > t.maxEntries
    // a new string is copied into the store and indexed under the 32-bit incremented counter
    ensures s !in t.index ==>
              && r.table.strings == StringStore.Add(t.strings, s).store
              && r.table.counter == (t.counter + 1) % Uint32Range
              && r.table.index[s] == r.table.counter
              && (r.id.Ok? <==> r.table.counter <= t.maxEntries)
  {
    if s in t.index then
      Added(t, Ok(t.index[s]))
    else
      var a := StringStore.Add(t.strings, s);
      var n := (t.counter + 1) % Uint32Range;
      var t' := Table(t.maxEntries, a.store, t.index[s := n], n);
      if n > t.maxEntries then Added(t', Err(TooManyEntries)) else Added(t', Ok(n))
  }

  /** The parts of the table `add` changes for a string not yet indexed. */
  lemma AddNew(t: Table, s: string)
    requires Wellformed(t) && Addable(s) && s !in t.index
    ensures var r := Add(t, s);
      && r.table.strings == StringStore.Add(t.strings, s).store
      && r.table.counter == (t.counter + 1) % Uint32Range
      && r.table.index == t.index[s := r.table.counter]
      && (r.id.Ok? <==> r.table.counter <= t.maxEntries)
  {
  }

  /**
   * Adding to a healthy table with room keeps it healthy. A known string
   * changes nothing; a new one is appended to the oldest-first order and the
   * size grows by one. The id returned is the first position of the string
   * after the seed in the oldest-first order.
   */
  lemma AddKeepsHealthy(t: Table, s: string)
    requires Healthy(t) && Addable(s)
    requires s in t.index || t.counter < t.maxEntries
    ensures var r := Add(t, s);
      && Healthy(r.table)
      && StringStore.ItemsOldestFirst(r.table.strings)
         == StringStore.ItemsOldestFirst(t.strings) + (if s in t.index then [] else [s])
      && Size(r.table) == Size(t) + (if s in t.index then 0 else 1)
      && r.id.Ok?
      && 1 <= r.id.value < |StringStore.ItemsOldestFirst(r.table.strings)|
      && StringStore.ItemsOldestFirst(r.table.strings)[r.id.value] == s
      && (forall j | 1 <= j < r.id.value :: StringStore.ItemsOldestFirst(r.table.strings)[j] != s)
  {
    var r := Add(t, s);
    if s !in t.index {
      AddFreshKeepsHealthy(t, s);
    }
    IdIsFirstPosition(StringStore.ItemsOldestFirst(r.table.strings), r.table.index, r.table.counter, s);
  }

  /** A new string added to a healthy table with room is appended under the next id, and the table stays healthy. */
  lemma AddFreshKeepsHealthy(t: Table, s: string)
    requires Healthy(t) && Addable(s)
    requires s !in t.index && t.counter < t.maxEntries
    ensures var r := Add(t, s);
      && Healthy(r.table)
      && StringStore.ItemsOldestFirst(r.table.strings) == StringStore.ItemsOldestFirst(t.strings) + [s]
      && Size(r.table) == Size(t) + 1
      && r.id == Ok(t.counter + 1)
  {
    var r := Add(t, s);
    var items := StringStore.ItemsOldestFirst(t.strings);
    assert r.table.counter == t.counter + 1 && r.table.index == t.index[s := t.counter + 1]
      && r.id == Ok(t.counter + 1) by {
      assert (t.counter + 1) % Uint32Range == t.counter + 1;
      AddNew(t, s);
    }
    assert StringStore.ItemsOldestFirst(r.table.strings) == items + [s] by {
      AddNew(t, s);
      StringStore.AddAppendsEntry(t.strings, s);
    }
    IdsMatchAppend(items, t.index, t.counter, s);
    assert (t.counter + 2) % Uint32Range == t.counter + 2;
  }

  /** Adding the same string twice: the second call returns the same id and leaves the table as the first left it. */
  lemma AddIsIdempotent(t: Table, s: string)
    requires Wellformed(t) && Addable(s)
    ensures var r := Add(t, s);
      r.id.Ok? ==> Add(r.table, s) == Added(r.table, r.id)
  {
  }

  /**
   * The limit is not rolled back: adding a new string to a full table throws,
   * yet the string stays stored and indexed under an id past the limit, the
   * counter has moved on, and adding the string again returns that id without error.
   */
  lemma AddOverflowKeepsString(t: Table, s: string)
    requires Healthy(t) && Addable(s)
    requires s !in t.index && t.counter == t.maxEntries
    ensures var r := Add(t, s);
      && r.id == Err(TooManyEntries)
      && s in r.table.index && r.table.index[s] == t.maxEntries + 1
      && StringStore.ItemsOldestFirst(r.table.strings) == StringStore.ItemsOldestFirst(t.strings) + [s]
      && Size(r.table) == (Size(t) + 1) % Uint32Range
      && Add(r.table, s).id == Ok(t.maxEntries + 1)
  {
    assert (t.counter + 1) % Uint32Range == t.counter + 1;
    AddNew(t, s);
    StringStore.AddAppendsEntry(t.strings, s);
  }

  /** The seeded empty string is not indexed: adding "" to a new table issues the fresh id 1 and stores "" again. */
  lemma EmptyStringGetsFreshId(maxEntries: nat)
    requires 1 <= maxEntries && maxEntries + 1 < Uint32Range
    ensures var r := Add(New(maxEntries), "");
      && r.id == Ok(1)
      && Size(r.table) == 2
      && StringStore.ItemsOldestFirst(r.table.strings) == ["", ""]
  {
    var t := New(maxEntries);
    assert Addable("");
    AddKeepsHealthy(t, "");
  }

  /**
   * With a limit of 2^32 - 1 the limit check can never fire, and the counter
   * wraps: the next new string is issued id 0, the id of the seed.
   */
  lemma CounterWrapsWithoutLimit(st: StringStore.Store, s: string)
    requires StringStore.Valid(st) && st.chunkSize == TableChunkSize && Addable(s)
    ensures var t := Table(Uint32Range - 1, st, map[], Uint32Range - 1);
      Wellformed(t) && Add(t, s).id == Ok(0)
  {
  }

  // ---------------------------------------------------------------------------
  // A run of additions
  // ---------------------------------------------------------------------------

  /** The strings of `ss` without repeats, each where it first occurs. */
  function Dedup(ss: seq<string>): seq<string>
  {
    if |ss| == 0 then []
    else
      var d := Dedup(ss[..|ss| - 1]);
      if ss[|ss| - 1] in d then d else d + [ss[|ss| - 1]]
  }

  /** The distinct strings of `ss`: every string of `ss` once, and nothing else. */
  lemma {:induction false} DedupContents(ss: seq<string>)
    ensures forall x :: x in Dedup(ss) <==> x in ss
    ensures forall i, j | 0 <= i < j < |Dedup(ss)| :: Dedup(ss)[i] != Dedup(ss)[j]
  {
    if |ss| > 0 {
      var p := ss[..|ss| - 1];
      DedupContents(p);
      assert ss == p + [ss[|ss| - 1]];
    }
  }

  /** Adding the strings of `ss` one after the other, stopping at the first error thrown. */
  function AddAll(t: Table, ss: seq<string>): (r: Result<Table, TableError>)
    requires Wellformed(t) && forall i | 0 <= i < |ss| :: Addable(ss[i])
    ensures r.Ok? ==> Wellformed(r.value) && r.value.maxEntries == t.maxEntries
  {
    if |ss| == 0 then Ok(t)
    else
      match AddAll(t, ss[..|ss| - 1])
      case Err(e) => Err(e)
      case Ok(t') =>
        var a := Add(t', ss[|ss| - 1]);
        if a.id.Err? then Err(a.id.error) else Ok(a.table)
  }

  /** One more string for `AddAll`: when the prefix went through, the last string is added to its table. */
  lemma AddAllStep(t: Table, ss: seq<string>)
    requires Wellformed(t) && forall i | 0 <= i < |ss| :: Addable(ss[i])
    requires |ss| > 0 && AddAll(t, ss[..|ss| - 1]).Ok?
    ensures var a := Add(AddAll(t, ss[..|ss| - 1]).value, ss[|ss| - 1]);
      a.id.Ok? ==> AddAll(t, ss) == Ok(a.table)
  {
  }

  /**
   * Ids are dense and issued in first-insertion order: filling a healthy
   * table that has issued no id yet with `ss`, within the limit, stores the
   * seed and then the distinct strings of `ss` in the order they first occur,
   * and the size is their number plus one.
   */
  lemma {:induction false} AddAllFromEmpty(t0: Table, ss: seq<string>)
    requires Healthy(t0) && t0.counter == 0
    requires forall i | 0 <= i < |ss| :: Addable(ss[i])
    requires |Dedup(ss)| <= t0.maxEntries
    ensures AddAll(t0, ss).Ok?
    ensures var t := AddAll(t0, ss).value;
      && Healthy(t)
      && StringStore.ItemsOldestFirst(t.strings) == [""] + Dedup(ss)
      && Size(t) == |Dedup(ss)| + 1
  {
    if |ss| == 0 {
      assert StringStore.ItemsOldestFirst(t0.strings) == [""];
    } else {
      var p := ss[..|ss| - 1];
      assert |Dedup(p)| <= |Dedup(ss)|;
      AddAllFromEmpty(t0, p);
      var t' := AddAll(t0, p).value;
      DedupStep(t', ss);
      AddAllStep(t0, ss);
    }
  }

  /**
   * One step of `AddAllFromEmpty`: a healthy table holding the seed and the
   * distinct strings of all but the last string of `ss` takes the last one
   * and then holds the seed and the distinct strings of `ss`.
   */
  lemma DedupStep(t: Table, ss: seq<string>)
    requires |ss| > 0 && Healthy(t) && Addable(ss[|ss| - 1])
    requires StringStore.ItemsOldestFirst(t.strings) == [""] + Dedup(ss[..|ss| - 1])
    requires |Dedup(ss)| <= t.maxEntries
    ensures var r := Add(t, ss[|ss| - 1]);
      && r.id.Ok? && Healthy(r.table)
      && StringStore.ItemsOldestFirst(r.table.strings) == [""] + Dedup(ss)
      && Size(r.table) == |Dedup(ss)| + 1
  {
    var p, x := ss[..|ss| - 1], ss[|ss| - 1];
    var items := StringStore.ItemsOldestFirst(t.strings);
    assert items[1..] == Dedup(p);
    IndexedIffStored(items, t.index, t.counter, x);
    Truncate32Small(t.counter + 1);
    if x in t.index {
      assert Dedup(ss) == Dedup(p);
    } else {
      assert Dedup(ss) == Dedup(p) + [x];
      Truncate32Small(t.counter + 2);
      AddFreshKeepsHealthy(t, x);
      SeedThenAppend(items, Dedup(p), x);
    }
  }

  /** A value below 2^32 is its own 32-bit truncation. */
  lemma Truncate32Small(x: nat)
    requires x < Uint32Range
    ensures x % Uint32Range == x
  {
  }

  /** Appending to the seed followed by `d` is the seed followed by `d` with the string appended. */
  lemma SeedThenAppend(items: seq<string>, d: seq<string>, x: string)
    requires items == [""] + d
    ensures items + [x] == [""] + (d + [x])
  {
  }

  /** After filling a table that has issued no id with `ss`, the i-th distinct string of `ss` has id i + 1. */
  lemma IdsFollowFirstInsertion(t0: Table, ss: seq<string>)
    requires Healthy(t0) && t0.counter == 0
    requires forall i | 0 <= i < |ss| :: Addable(ss[i])
    requires |Dedup(ss)| <= t0.maxEntries
    ensures AddAll(t0, ss).Ok?
    ensures var t := AddAll(t0, ss).value;
      && Size(t) == |Dedup(ss)| + 1
      && forall i | 0 <= i < |Dedup(ss)| :: Dedup(ss)[i] in t.index && t.index[Dedup(ss)[i]] == i + 1
  {
    AddAllFromEmpty(t0, ss);
    var t := AddAll(t0, ss).value;
    SeededIds(StringStore.ItemsOldestFirst(t.strings), t.index, t.counter, Dedup(ss));
  }

  /** When ids agree with positions and the seed is followed by `d`, the string at position i of `d` has id i + 1. */
  lemma SeededIds(items: seq<string>, index: map<string, nat>, n: nat, d: seq<string>)
    requires IdsMatch(items, index, n) && items == [""] + d
    ensures forall i | 0 <= i < |d| :: d[i] in index && index[d[i]] == i + 1
  {
    forall i | 0 <= i < |d|
      ensures d[i] in index && index[d[i]] == i + 1
    {
      assert items[i + 1] == d[i];
    }
  }

  /** Filling a new table with `ss`, within the limit, gives the i-th distinct string of `ss` the id i + 1. */
  lemma IdsAreFirstInsertionOrder(maxEntries: nat, ss: seq<string>)
    requires maxEntries + 1 < Uint32Range
    requires forall i | 0 <= i < |ss| :: Addable(ss[i])
    requires |Dedup(ss)| <= maxEntries
    ensures AddAll(New(maxEntries), ss).Ok?
    ensures var t := AddAll(New(maxEntries), ss).value;
      && Size(t) == |Dedup(ss)| + 1
      && forall i | 0 <= i < |Dedup(ss)| :: Dedup(ss)[i] in t.index && t.index[Dedup(ss)[i]] == i + 1
  {
    IdsFollowFirstInsertion(New(maxEntries), ss);
  }

  // ---------------------------------------------------------------------------
  // Iteration order against id order
  // ---------------------------------------------------------------------------

  /**
   * Read oldest chunk first, the store lists the strings in id order: the
   * seed, then the string with id i at position i. This is the order the
   * table's users need when they write the strings out and refer to them by id.
   */
  lemma CorrectedIterationFollowsIds(t: Table)
    requires Healthy(t)
    ensures var items := StringStore.ItemsOldestFirst(t.strings);
      && |items| == Size(t) && items[0] == ""
      && (forall i | 1 <= i < |items| :: t.index[items[i]] == i)
      && (forall s | s in t.index :: items[t.index[s]] == s)
  {
  }

  /** While the store has a single chunk, the table's own iteration is in id order. */
  lemma SingleChunkIterationFollowsIds(t: Table)
    requires Healthy(t) && StringStore.ChunkCount(t.strings) == 1
    ensures |Items(t)| == Size(t) && Items(t)[0] == ""
    ensures forall i | 1 <= i < |Items(t)| :: Items(t)[i] in t.index && t.index[Items(t)[i]] == i
  {
    StringStore.SingleChunkIteratesInOrder(t.strings);
  }

  /** A string of 600000 copies of `c`. */
  function Long(c: char): (s: string)
    ensures |s| == 600000
  {
    seq(600000, _ => c)
  }

  /** The first string added to a table holding only the seed lands in the seed's chunk under id 1. */
  lemma FirstAddSharesSeedChunk(t0: Table, a: string)
    requires Healthy(t0) && t0.counter == 0 && 1 <= t0.maxEntries
    requires t0.strings.chunks == [[StringStore.NUL]] && Addable(a) && |a| + 2 <= TableChunkSize
    ensures var r := Add(t0, a);
      && r.id == Ok(1) && Healthy(r.table)
      && r.table.counter == 1 && r.table.index == map[a := 1]
      && |r.table.strings.chunks| == 1
      && |r.table.strings.chunks[0]| == |a| + 2
      && Items(r.table) == ["", a]
      && StringStore.ItemsOldestFirst(r.table.strings) == ["", a]
  {
    var items := StringStore.ItemsOldestFirst(t0.strings);
    assert items == [""];
    assert t0.index == map[] by {
      assert forall x :: x !in t0.index;
    }
    var r := Add(t0, a);
    assert r.id == Ok(1) && Healthy(r.table) && StringStore.ItemsOldestFirst(r.table.strings) == ["", a] by {
      AddFreshKeepsHealthy(t0, a);
    }
    AddNew(t0, a);
    var st' := r.table.strings;
    assert |st'.chunks| == 1 && |st'.chunks[0]| == |a| + 2 by {
      var added := StringStore.Add(t0.strings, a);
      assert st' == added.store;
      assert |t0.strings.chunks[0]| + |a| + 1 <= TableChunkSize;
      assert added.store.chunks[0][..added.at.offset] == [StringStore.NUL];
    }
    StringStore.SingleChunkIteratesInOrder(st');
  }

  /** A string that does not fit the front chunk starts a new chunk, which iteration visits first. */
  lemma SecondAddStartsChunk(t1: Table, b: string)
    requires Wellformed(t1) && t1.counter == 1 && 2 <= t1.maxEntries && Addable(b)
    requires b !in t1.index && |t1.strings.chunks[0]| + |b| + 1 > TableChunkSize
    ensures var r := Add(t1, b);
      && r.id == Ok(2)
      && Items(r.table) == [b] + Items(t1)
      && StringStore.ItemsOldestFirst(r.table.strings) == StringStore.ItemsOldestFirst(t1.strings) + [b]
  {
    assert (2) % Uint32Range == 2;
    AddNew(t1, b);
    StringStore.AddAppendsEntry(t1.strings, b);
    StringStore.AddToNewChunkComesFirst(t1.strings, b);
  }

  /**
   * Two strings too long to share a chunk, added to a table holding only the
   * seed: the second begins a new chunk, so iteration yields it first, then
   * the seed, then the first string, while their ids are 2 and 1.
   */
  lemma TwoChunksBreakIdOrder(t0: Table, a: string, b: string)
    requires Healthy(t0) && t0.counter == 0 && 2 <= t0.maxEntries
    requires t0.strings.chunks == [[StringStore.NUL]]
    requires Addable(a) && Addable(b) && a != b
    requires |a| + 2 <= TableChunkSize < |a| + 2 + |b| + 1
    ensures var r1 := Add(t0, a);
      var r2 := Add(r1.table, b);
      && r1.id == Ok(1) && r2.id == Ok(2)
      && Items(r2.table) == [b, "", a]
      && StringStore.ItemsOldestFirst(r2.table.strings) == ["", a, b]
  {
    var t1 := Add(t0, a).table;
    FirstAddSharesSeedChunk(t0, a);
    SecondAddStartsChunk(t1, b);
  }

  /**
   * The table's iteration leaves id order once a second chunk is begun: after
   * adding two strings of 600000 characters to a new table, iteration yields
   * the second, then the seed, then the first, while their ids are 2 and 1.
   */
  lemma IterationOrderCounterexample(maxEntries: nat)
    requires 2 <= maxEntries && maxEntries + 1 < Uint32Range
    ensures var a, b := Long('a'), Long('b');
      var r1 := Add(New(maxEntries), a);
      var r2 := Add(r1.table, b);
      && r1.id == Ok(1) && r2.id == Ok(2)
      && Items(r2.table) == [b, "", a]
      && StringStore.ItemsOldestFirst(r2.table.strings) == ["", a, b]
  {
    var a, b := Long('a'), Long('b');
    var t0 := New(maxEntries);
    SeedChunk(t0.strings);
    assert Addable(a) && Addable(b);
    assert a != b by {
      assert a[0] != b[0];
    }
    TwoChunksBreakIdOrder(t0, a, b);
  }
}
