/**
 * The chunked string arena behind the string table: an append-only store of
 * NUL-terminated strings held in chunks of a fixed capacity. New chunks are
 * put at the front of the chunk list, so index 0 is always the newest chunk,
 * the one `add` writes into. A chunk is modelled by its bytes.
 */
module StringStore {
  import opened Results

  /** The string terminator. */
  const NUL: char := '\0'

  /** The characters of a C string before its terminator: none of them is NUL. */
  predicate NulFree(s: string) {
    forall i | 0 <= i < |s| :: s[i] != NUL
  }

  /** A string as it is laid out in a chunk: its characters, then one NUL. */
  function Terminated(s: string): string {
    s + [NUL]
  }

  /** The bytes of a chunk that holds `es`, in order. */
  function Join(es: seq<string>): string
  {
    if |es| == 0 then [] else Terminated(es[0]) + Join(es[1..])
  }

  /** Every string in a well-formed chunk is terminated: the chunk is empty or ends in NUL. */
  predicate WellFormed(c: string) {
    |c| == 0 || c[|c| - 1] == NUL
  }

  /** The first position at or after `p` holding NUL, or |c| when there is none (a scan like strlen). */
  function NextNul(c: string, p: nat): (q: nat)
    requires p <= |c|
    ensures p <= q <= |c|
    ensures q == |c| || c[q] == NUL
    decreases |c| - p
  {
    if p == |c| || c[p] == NUL then p else NextNul(c, p + 1)
  }

  /** The scan stops at the first NUL: no byte it skips is NUL. */
  lemma {:induction false} NextNulIsFirst(c: string, p: nat)
    requires p <= |c|
    ensures forall i | p <= i < NextNul(c, p) :: c[i] != NUL
    decreases |c| - p
  {
    if p < |c| && c[p] != NUL {
      NextNulIsFirst(c, p + 1);
    }
  }

  /** The scan result is determined by its three defining properties. */
  lemma NextNulUnique(c: string, p: nat, q: nat)
    requires p <= q <= |c|
    requires q == |c| || c[q] == NUL
    requires forall i | p <= i < q :: c[i] != NUL
    ensures NextNul(c, p) == q
  {
    NextNulIsFirst(c, p);
  }

  /** The strings stored in a chunk, found by scanning its bytes for terminators from the start. */
  function Split(c: string): seq<string>
  {
    EntriesFrom(c, 0)
  }

  /** The strings of chunk `c` from position `p` on, scanned position by position as the iterator does. */
  function EntriesFrom(c: string, p: nat): seq<string>
    requires p <= |c|
    decreases |c| - p
  {
    if p == |c| then []
    else if NextNul(c, p) == |c| then [c[p..NextNul(c, p)]]
    else [c[p..NextNul(c, p)]] + EntriesFrom(c, NextNul(c, p) + 1)
  }

  /** Scanning from `p` when the next NUL is at `q` yields the string up to it, then the scan from after it. */
  lemma EntriesFromCons(c: string, p: nat, q: nat)
    requires p < |c| && q == NextNul(c, p) && q < |c|
    ensures EntriesFrom(c, p) == [c[p..q]] + EntriesFrom(c, q + 1)
  {
  }

  /** Scanning the bytes of a chunk recovers exactly the strings written into it. */
  lemma SplitJoin(es: seq<string>)
    requires forall k | 0 <= k < |es| :: NulFree(es[k])
    ensures Split(Join(es)) == es
  {
    var c := Join(es);
    assert c[0..] == c;
    EntriesFromJoin(c, 0, es);
  }

  /** Scanning from `p`, where the layout of `es` begins and runs to the end, yields `es`. */
  lemma {:induction false} EntriesFromJoin(c: string, p: nat, es: seq<string>)
    requires p <= |c| && c[p..] == Join(es)
    requires forall k | 0 <= k < |es| :: NulFree(es[k])
    ensures EntriesFrom(c, p) == es
    decreases |es|, 1
  {
    if |es| == 0 {
      assert |c[p..]| == 0;
    } else {
      EntriesFromJoinStep(c, p, es);
    }
  }

  /** One step of `EntriesFromJoin`: the first string, then the scan of the layout of the rest. */
  lemma {:induction false} EntriesFromJoinStep(c: string, p: nat, es: seq<string>)
    requires p <= |c| && c[p..] == Join(es) && |es| > 0
    requires forall k | 0 <= k < |es| :: NulFree(es[k])
    ensures EntriesFrom(c, p) == es
    decreases |es|, 0
  {
    var q := p + |es[0]|;
    JoinHead(c, p, es);
    EntriesFromJoin(c, q + 1, es[1..]);
    EntriesFromCons(c, p, q);
    assert es == [es[0]] + es[1..];
  }

  /** Where the layout of `es` begins, the scan finds its first string and then the layout of the rest. */
  lemma JoinHead(c: string, p: nat, es: seq<string>)
    requires p <= |c| && c[p..] == Join(es) && |es| > 0 && NulFree(es[0])
    ensures p + |es[0]| < |c| && NextNul(c, p) == p + |es[0]|
    ensures c[p..p + |es[0]|] == es[0] && c[p + |es[0]| + 1..] == Join(es[1..])
  {
    var e, n := es[0], |es[0]|;
    assert c[p..] == e + [NUL] + Join(es[1..]);
    assert forall i | p <= i < p + n :: c[i] == c[p..][i - p] == e[i - p];
    assert c[p + n] == c[p..][n] == NUL;
    NextNulUnique(c, p, p + n);
    assert c[p..p + n] == c[p..][..n] == e;
    assert c[p + n + 1..] == c[p..][n + 1..] == Join(es[1..]);
  }

  /** A well-formed chunk is the layout of the strings scanned out of it. */
  lemma JoinSplit(c: string)
    requires WellFormed(c)
    ensures Join(Split(c)) == c
  {
    JoinEntriesFrom(c, 0);
    assert c[0..] == c;
  }

  /** From any position of a well-formed chunk, the layout of the strings scanned from there is the rest of the chunk. */
  lemma {:induction false} JoinEntriesFrom(c: string, p: nat)
    requires WellFormed(c) && p <= |c|
    ensures Join(EntriesFrom(c, p)) == c[p..]
    decreases |c| - p, 1
  {
    if p == |c| {
      assert c[p..] == [];
    } else {
      JoinEntriesFromStep(c, p);
    }
  }

  /** One step of `JoinEntriesFrom`: the first string, its NUL, and the layout of the rest. */
  lemma {:induction false} JoinEntriesFromStep(c: string, p: nat)
    requires WellFormed(c) && p < |c|
    ensures Join(EntriesFrom(c, p)) == c[p..]
    decreases |c| - p, 0
  {
    NextNulBeforeEnd(c, p);
    var q := NextNul(c, p);
    JoinEntriesFrom(c, q + 1);
    JoinEntriesFromAt(c, p, q);
  }

  /** The layout of the strings scanned from `p` is the rest of the chunk, given that it is so after the NUL at `q`. */
  lemma JoinEntriesFromAt(c: string, p: nat, q: nat)
    requires p < |c| && q == NextNul(c, p) && q < |c|
    requires Join(EntriesFrom(c, q + 1)) == c[q + 1..]
    ensures Join(EntriesFrom(c, p)) == c[p..]
  {
    EntriesFromCons(c, p, q);
    CutAt(c, p, q);
    JoinCons(c[p..q], EntriesFrom(c, q + 1));
  }

  /** The layout of a string followed by more strings. */
  lemma JoinCons(x: string, xs: seq<string>)
    ensures Join([x] + xs) == Terminated(x) + Join(xs)
  {
    assert ([x] + xs)[1..] == xs;
  }

  /** The bytes from `p` are the string up to a NUL at `q`, terminated, then the bytes after it. */
  lemma CutAt(c: string, p: nat, q: nat)
    requires p <= q < |c| && c[q] == NUL
    ensures c[p..] == Terminated(c[p..q]) + c[q + 1..]
  {
  }

  /** No string scanned out of a chunk contains NUL. */
  lemma SplitNulFree(c: string)
    ensures forall k | 0 <= k < |Split(c)| :: NulFree(Split(c)[k])
  {
    EntriesFromNulFree(c, 0);
  }

  /** No string scanned from any position contains NUL. */
  lemma {:induction false} EntriesFromNulFree(c: string, p: nat)
    requires p <= |c|
    ensures forall k | 0 <= k < |EntriesFrom(c, p)| :: NulFree(EntriesFrom(c, p)[k])
    decreases |c| - p
  {
    if p < |c| {
      var q := NextNul(c, p);
      NextNulIsFirst(c, p);
      assert NulFree(c[p..q]);
      if q < |c| {
        EntriesFromNulFree(c, q + 1);
        EntriesFromCons(c, p, q);
      }
    }
  }

  /** Laying out one more string appends its terminated bytes. */
  lemma {:induction false} JoinAppend(es: seq<string>, s: string)
    ensures Join(es + [s]) == Join(es) + Terminated(s)
  {
    if |es| == 0 {
      assert es + [s] == [s];
    } else {
      assert (es + [s])[1..] == es[1..] + [s];
      JoinAppend(es[1..], s);
    }
  }

  /** Appending a terminated string to a well-formed chunk adds exactly that string to its scan. */
  lemma SplitAppend(c: string, s: string)
    requires WellFormed(c) && NulFree(s)
    ensures WellFormed(c + Terminated(s))
    ensures Split(c + Terminated(s)) == Split(c) + [s]
  {
    JoinSplit(c);
    SplitNulFree(c);
    JoinAppend(Split(c), s);
    SplitJoin(Split(c) + [s]);
  }

  /** The store: the capacity of each chunk, and the chunks, newest (front) first. */
  datatype Store = Store(chunkSize: nat, chunks: seq<string>)

  /** The address `add` hands out: a chunk counted from the oldest one, and a byte offset in it. */
  datatype Ptr = Ptr(chunk: nat, offset: nat)

  /** What `add` returns: the updated store and where the copy of the string lives. */
  datatype Added = Added(store: Store, at: Ptr)

  /**
   * The store's invariant: at least one chunk; every chunk is well formed and
   * within capacity; only the front chunk may be empty, and then it is the only one.
   */
  predicate Valid(st: Store) {
    && |st.chunks| >= 1
    && (forall k | 0 <= k < |st.chunks| :: WellFormed(st.chunks[k]) && |st.chunks[k]| <= st.chunkSize)
    && (forall k | 1 <= k < |st.chunks| :: st.chunks[k] != [])
    && (st.chunks[0] == [] ==> |st.chunks| == 1)
  }

  function ChunkSize(st: Store): nat {
    st.chunkSize
  }

  function ChunkCount(st: Store): nat {
    |st.chunks|
  }

  /** Bytes used in the front chunk, the one currently written to. */
  function UsedBytesInLastChunk(st: Store): nat
    requires |st.chunks| >= 1
  {
    |st.chunks[0]|
  }

  /** Bytes used over all chunks. */
  function TotalBytes(cs: seq<string>): nat
  {
    if |cs| == 0 then 0 else |cs[0]| + TotalBytes(cs[1..])
  }

  /** A new store: one chunk, and it is empty. */
  function New(chunkSize: nat): (st: Store)
    ensures Valid(st) && ChunkSize(st) == chunkSize
    ensures ChunkCount(st) == 1 && UsedBytesInLastChunk(st) == 0
    ensures Items(st) == [] && ItemsOldestFirst(st) == []
  {
    Store(chunkSize, [[]])
  }

  /** `clear`: every chunk but the front one is dropped, and the front one is emptied. */
  function Clear(st: Store): (r: Store)
    requires Valid(st)
    ensures Valid(r) && ChunkSize(r) == ChunkSize(st)
    ensures ChunkCount(r) == 1 && UsedBytesInLastChunk(r) == 0
    ensures Items(r) == [] && ItemsOldestFirst(r) == []
    ensures r == New(st.chunkSize)
  {
    var r := Store(st.chunkSize, [st.chunks[0][..0]]);
    assert r.chunks == [[]];
    assert r == New(st.chunkSize);
    r
  }

  /**
   * `add`: copy `s` and its terminator into the front chunk when it fits, otherwise
   * into a new chunk put in front. The caller must pass a string that fits one chunk.
   */
  function Add(st: Store, s: string): (a: Added)
    requires Valid(st) && NulFree(s) && |s| + 1 <= st.chunkSize
    ensures Valid(a.store) && ChunkSize(a.store) == ChunkSize(st)
    // the copy lands in the front chunk and ends it
    ensures a.at.chunk == |a.store.chunks| - 1
    ensures a.at.offset + |s| + 1 == |a.store.chunks[0]|
    ensures a.store.chunks[0][a.at.offset..] == Terminated(s)
    ensures StrAt(a.store, a.at) == Some(s)
    // a new chunk is started exactly when the front one has no room, and the copy then sits at its start
    ensures |st.chunks[0]| + |s| + 1 > st.chunkSize ==>
              |a.store.chunks| == |st.chunks| + 1 && a.store.chunks[1..] == st.chunks && a.at.offset == 0
    ensures |st.chunks[0]| + |s| + 1 <= st.chunkSize ==>
              |a.store.chunks| == |st.chunks| && a.store.chunks[1..] == st.chunks[1..]
              && a.store.chunks[0][..a.at.offset] == st.chunks[0]
    ensures TotalBytes(a.store.chunks) == TotalBytes(st.chunks) + |s| + 1
  {
    var front := st.chunks[0];
    if |front| + |s| + 1 > st.chunkSize then
      var r := Added(Store(st.chunkSize, [Terminated(s)] + st.chunks), Ptr(|st.chunks|, 0));
      assert r.store.chunks[1..] == st.chunks;
      assert ChunkByAge(r.store, r.at.chunk) == Terminated(s);
      NextNulUnique(Terminated(s), 0, |s|);
      assert Terminated(s)[0..|s|] == s;
      assert StrAt(r.store, r.at) == Some(Terminated(s)[0..|s|]);
      r
    else
      var c := front + Terminated(s);
      var r := Added(Store(st.chunkSize, [c] + st.chunks[1..]), Ptr(|st.chunks| - 1, |front|));
      assert r.store.chunks[1..] == st.chunks[1..];
      assert c[|front|..] == Terminated(s);
      NextNulUnique(c, |front|, |front| + |s|);
      assert ChunkByAge(r.store, r.at.chunk) == c;
      assert c[|front|..|front| + |s|] == s;
      r
  }

  /** The chunk `age` steps from the oldest one. */
  function ChunkByAge(st: Store, age: nat): string
    requires age < |st.chunks|
  {
    st.chunks[|st.chunks| - 1 - age]
  }

  /** The string a pointer designates: the bytes from it up to the next terminator. */
  function StrAt(st: Store, p: Ptr): Option<string>
  {
    if p.chunk < |st.chunks| && p.offset < |ChunkByAge(st, p.chunk)| then
      var c := ChunkByAge(st, p.chunk);
      Some(c[p.offset..NextNul(c, p.offset)])
    else
      None
  }

  /** Adding a string never moves or alters a string added before. */
  lemma AddKeepsEarlierStrings(st: Store, s: string, p: Ptr)
    requires Valid(st) && NulFree(s) && |s| + 1 <= st.chunkSize
    requires StrAt(st, p).Some?
    ensures StrAt(Add(st, s).store, p) == StrAt(st, p)
  {
    var st' := Add(st, s).store;
    var idx := |st.chunks| - 1 - p.chunk;
    var front := st.chunks[0];
    if |front| + |s| + 1 <= st.chunkSize && idx == 0 {
      var c := front;
      var c' := st'.chunks[0];
      assert ChunkByAge(st, p.chunk) == c;
      assert ChunkByAge(st', p.chunk) == c';
      var q := NextNul(c, p.offset);
      NextNulBeforeEnd(c, p.offset);
      NextNulIsFirst(c, p.offset);
      assert c'[..|c|] == c;
      NextNulUnique(c', p.offset, q);
      assert c'[p.offset..q] == c[p.offset..q];
    } else {
      assert ChunkByAge(st', p.chunk) == ChunkByAge(st, p.chunk);
    }
  }

  // ---------------------------------------------------------------------------
  // Iteration
  // ---------------------------------------------------------------------------

  /** The iterator: a chunk (by list index, front = 0) and a position in it, or past the end. */
  datatype Cursor = At(chunk: nat, pos: nat) | End

  predicate ValidCursor(st: Store, c: Cursor) {
    c.At? ==> c.chunk < |st.chunks| && c.pos <= |st.chunks[c.chunk]|
  }

  /** `begin()`: past the end when the front chunk is empty, else the start of the front chunk. */
  function Begin(st: Store): (c: Cursor)
    requires |st.chunks| >= 1
    ensures ValidCursor(st, c)
  {
    if st.chunks[0] == [] then End else At(0, 0)
  }

  /** The start of the chunk after chunk `k`, or past the end. */
  function NextChunk(st: Store, k: nat): (c: Cursor)
    ensures ValidCursor(st, c)
  {
    if k + 1 < |st.chunks| then At(k + 1, 0) else End
  }

  /** `operator++`: skip the current string and its terminator; at a chunk's end move to the next chunk. */
  function Advance(st: Store, c: Cursor): (c': Cursor)
    requires c.At? && ValidCursor(st, c)
    ensures ValidCursor(st, c')
    ensures c'.End? || (c'.chunk == c.chunk + 1 && c'.pos == 0) || (c'.chunk == c.chunk && c'.pos > c.pos)
  {
    var ch := st.chunks[c.chunk];
    var q := NextNul(ch, c.pos);
    var q' := if q < |ch| then q + 1 else q;
    if q' == |ch| then NextChunk(st, c.chunk) else At(c.chunk, q')
  }

  /** `operator*`: the string starting at the cursor. */
  function Deref(st: Store, c: Cursor): (r: string)
    requires c.At? && ValidCursor(st, c)
    ensures var ch := st.chunks[c.chunk]; var end := c.pos + |r|;
      && end <= |ch| && ch[c.pos..end] == r && NulFree(r)
      && (end == |ch| || ch[end] == NUL)
  {
    NextNulIsFirst(st.chunks[c.chunk], c.pos);
    var ch := st.chunks[c.chunk];
    ch[c.pos..NextNul(ch, c.pos)]
  }

  /** Everything an iteration from `c` to `end()` yields. */
  function ItemsFrom(st: Store, c: Cursor): seq<string>
    requires ValidCursor(st, c)
    decreases if c.End? then 0 else |st.chunks| - c.chunk, if c.End? then 0 else |st.chunks[c.chunk]| - c.pos
  {
    if c.End? then [] else [Deref(st, c)] + ItemsFrom(st, Advance(st, c))
  }

  /** What iterating the store from `begin()` to `end()` yields. */
  function Items(st: Store): seq<string>
    requires |st.chunks| >= 1
  {
    ItemsFrom(st, Begin(st))
  }

  /** The strings of the chunks, taken chunk by chunk from the front (newest) chunk. */
  function EntriesOf(cs: seq<string>): seq<string>
  {
    if |cs| == 0 then [] else Split(cs[0]) + EntriesOf(cs[1..])
  }

  /** The strings of the chunks, taken chunk by chunk from the oldest chunk. */
  function EntriesOldestFirst(cs: seq<string>): seq<string>
  {
    if |cs| == 0 then [] else EntriesOldestFirst(cs[1..]) + Split(cs[0])
  }

  /** Iteration that visits the chunks oldest first: the order the strings were added in. */
  function ItemsOldestFirst(st: Store): seq<string>
  {
    EntriesOldestFirst(st.chunks)
  }

  /** Within a chunk ending in NUL, the iterator yields the rest of the chunk's strings, then moves on. */
  lemma {:induction false} ItemsFromChunk(st: Store, k: nat, p: nat)
    requires k < |st.chunks| && p < |st.chunks[k]|
    requires st.chunks[k][|st.chunks[k]| - 1] == NUL
    ensures ItemsFrom(st, At(k, p)) == EntriesFrom(st.chunks[k], p) + ItemsFrom(st, NextChunk(st, k))
    decreases |st.chunks[k]| - p
  {
    NextNulBeforeEnd(st.chunks[k], p);
    if NextNul(st.chunks[k], p) + 1 < |st.chunks[k]| {
      ItemsFromChunk(st, k, NextNul(st.chunks[k], p) + 1);
      ItemsFromChunkStep(st, k, p);
    } else {
      StepToNextChunk(st, k, p);
    }
  }

  /** One step of `ItemsFromChunk`: the claim for the next string of the chunk gives it for this one. */
  lemma ItemsFromChunkStep(st: Store, k: nat, p: nat)
    requires k < |st.chunks| && p < |st.chunks[k]|
    requires NextNul(st.chunks[k], p) + 1 < |st.chunks[k]|
    requires var q := NextNul(st.chunks[k], p);
      ItemsFrom(st, At(k, q + 1)) == EntriesFrom(st.chunks[k], q + 1) + ItemsFrom(st, NextChunk(st, k))
    ensures ItemsFrom(st, At(k, p)) == EntriesFrom(st.chunks[k], p) + ItemsFrom(st, NextChunk(st, k))
  {
    var ch := st.chunks[k];
    var q := NextNul(ch, p);
    StepWithinChunk(st, k, p);
    Reassociate(ItemsFrom(st, At(k, p)), [ch[p..q]], ItemsFrom(st, At(k, q + 1)),
                EntriesFrom(ch, q + 1), ItemsFrom(st, NextChunk(st, k)), EntriesFrom(ch, p));
  }

  /** Regrouping `a + (m + r)` as `(a + m) + r`, stated for sequences of strings. */
  lemma Reassociate(x: seq<string>, a: seq<string>, y: seq<string>, m: seq<string>, r: seq<string>, e: seq<string>)
    requires x == a + y && y == m + r && e == a + m
    ensures x == e + r
  {
  }

  /** In a chunk ending in NUL the scan from inside the chunk finds a NUL. */
  lemma NextNulBeforeEnd(c: string, p: nat)
    requires p < |c| && c[|c| - 1] == NUL
    ensures NextNul(c, p) < |c|
    decreases |c| - p
  {
    if c[p] != NUL {
      NextNulBeforeEnd(c, p + 1);
    }
  }

  /** One iterator step that stays in the chunk. */
  lemma StepWithinChunk(st: Store, k: nat, p: nat)
    requires k < |st.chunks| && p < |st.chunks[k]|
    requires NextNul(st.chunks[k], p) + 1 < |st.chunks[k]|
    ensures var ch := st.chunks[k]; var q := NextNul(ch, p);
      && ItemsFrom(st, At(k, p)) == [ch[p..q]] + ItemsFrom(st, At(k, q + 1))
      && EntriesFrom(ch, p) == [ch[p..q]] + EntriesFrom(ch, q + 1)
  {
  }

  /** The iterator step past the last string of a chunk. */
  lemma StepToNextChunk(st: Store, k: nat, p: nat)
    requires k < |st.chunks| && p < |st.chunks[k]|
    requires NextNul(st.chunks[k], p) + 1 == |st.chunks[k]|
    ensures ItemsFrom(st, At(k, p)) == EntriesFrom(st.chunks[k], p) + ItemsFrom(st, NextChunk(st, k))
  {
  }

  /** From the start of chunk `k` the iterator yields the strings of chunks k, k+1, ... in turn. */
  lemma {:induction false} ItemsFromChunks(st: Store, k: nat)
    requires Valid(st) && k < |st.chunks|
    requires st.chunks[k] != []
    ensures ItemsFrom(st, At(k, 0)) == EntriesOf(st.chunks[k..])
    decreases |st.chunks| - k
  {
    var ch := st.chunks[k];
    ItemsFromChunk(st, k, 0);
    assert st.chunks[k..][1..] == st.chunks[k + 1..];
    if k + 1 < |st.chunks| {
      ItemsFromChunks(st, k + 1);
    } else {
      assert st.chunks[k + 1..] == [];
    }
  }

  /** Iteration walks the chunks front (newest) first and each chunk's strings in the order they were added. */
  lemma ItemsFollowChunks(st: Store)
    requires Valid(st)
    ensures Items(st) == EntriesOf(st.chunks)
  {
    if st.chunks[0] == [] {
      assert st.chunks == [[]];
      assert EntriesOf(st.chunks) == Split([]) + EntriesOf([]);
    } else {
      ItemsFromChunks(st, 0);
      assert st.chunks[0..] == st.chunks;
    }
  }

  /** `begin() == end()` exactly when the front chunk is empty, which is exactly when nothing is stored. */
  lemma BeginIsEndIffEmpty(st: Store)
    requires Valid(st)
    ensures Begin(st) == End <==> UsedBytesInLastChunk(st) == 0
    ensures Begin(st) == End <==> Items(st) == []
  {
    ItemsFollowChunks(st);
    if st.chunks[0] != [] {
      JoinSplit(st.chunks[0]);
      assert Split(st.chunks[0]) != [];
    }
  }

  /** After `add(s)` the oldest-first order gains `s` at its end, whichever chunk the copy went to. */
  lemma AddAppendsEntry(st: Store, s: string)
    requires Valid(st) && NulFree(s) && |s| + 1 <= st.chunkSize
    ensures ItemsOldestFirst(Add(st, s).store) == ItemsOldestFirst(st) + [s]
  {
    var st' := Add(st, s).store;
    var front := st.chunks[0];
    if |front| + |s| + 1 > st.chunkSize {
      SplitOne(s);
      assert st'.chunks == [Terminated(s)] + st.chunks;
      assert EntriesOldestFirst(st'.chunks) == EntriesOldestFirst(st.chunks) + Split(Terminated(s));
    } else {
      SplitAppend(front, s);
      assert st'.chunks == [front + Terminated(s)] + st.chunks[1..];
      assert EntriesOldestFirst(st.chunks) == EntriesOldestFirst(st.chunks[1..]) + Split(front);
    }
  }

  /** A chunk holding one terminated string scans to that string. */
  lemma SplitOne(s: string)
    requires NulFree(s)
    ensures Split(Terminated(s)) == [s]
  {
    SplitJoin([s]);
    assert Join([s]) == Terminated(s);
  }

  /** When the front chunk has no room, `add(s)` begins a new front chunk, so iteration yields `s` first. */
  lemma AddToNewChunkComesFirst(st: Store, s: string)
    requires Valid(st) && NulFree(s) && |s| + 1 <= st.chunkSize
    requires |st.chunks[0]| + |s| + 1 > st.chunkSize
    ensures Items(Add(st, s).store) == [s] + Items(st)
  {
    var st' := Add(st, s).store;
    ItemsFollowChunks(st);
    ItemsFollowChunks(st');
    SplitOne(s);
    assert st'.chunks == [Terminated(s)] + st.chunks;
  }

  /** When the front chunk has room, iteration yields `s` right after the strings already in the front chunk. */
  lemma AddToFrontChunkFollowsIt(st: Store, s: string)
    requires Valid(st) && NulFree(s) && |s| + 1 <= st.chunkSize
    requires |st.chunks[0]| + |s| + 1 <= st.chunkSize
    ensures Items(Add(st, s).store) == Split(st.chunks[0]) + [s] + EntriesOf(st.chunks[1..])
  {
    var st' := Add(st, s).store;
    ItemsFollowChunks(st');
    SplitAppend(st.chunks[0], s);
    assert st'.chunks == [st.chunks[0] + Terminated(s)] + st.chunks[1..];
  }

  /** A store whose front chunk is its only chunk is iterated in the order strings were added. */
  lemma SingleChunkIteratesInOrder(st: Store)
    requires Valid(st) && ChunkCount(st) == 1
    ensures Items(st) == ItemsOldestFirst(st)
  {
    ItemsFollowChunks(st);
    assert st.chunks[1..] == [];
    assert EntriesOf(st.chunks) == Split(st.chunks[0]) + EntriesOf([]);
    assert EntriesOldestFirst(st.chunks) == EntriesOldestFirst([]) + Split(st.chunks[0]);
  }
}
