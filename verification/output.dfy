/**
 * The registry of output formats and the rule by which the output thread
 * drains its queue. Encodings are compared by identity, modelled as values
 * of an equality type `E`; the constructor registered for an encoding is a
 * function from the file to the output object it builds.
 */
module Output {
  import opened Results
  import Seqs

  /** The error `create_output` throws when no format is registered for the file's encoding. */
  datatype FactoryError = EncodingNotSupported

  /** The part of a file description the registry looks at: its name and its encoding. */
  datatype File<E> = File(name: string, encoding: E)

  /** The registry: one output constructor per registered encoding. */
  datatype Factory<!E, O> = Factory(callbacks: map<E, File<E> -> O>)

  /** What a registration returns: the registry afterwards and whether every insertion succeeded. */
  datatype Registration<!E, O> = Registration(factory: Factory<E, O>, ok: bool)

  /** The registry as the program starts: nothing registered. */
  function Empty<E, O>(): (f: Factory<E, O>)
    ensures f.callbacks.Keys == {}
  {
    Factory(map[])
  }

  /**
   * `register_output_format`: insert each encoding in turn with the
   * constructor, stopping with `false` at the first one already present.
   * Insertions made before that stay.
   */
  function Register<E, O>(f: Factory<E, O>, es: seq<E>, ctor: File<E> -> O): (r: Registration<E, O>)
    ensures var k := FirstClash(f.callbacks.Keys, es, 0);
      && (r.ok <==> k == |es|)
      && r.factory.callbacks.Keys == f.callbacks.Keys + Elems(es[..k])
      && (forall e | e in f.callbacks :: r.factory.callbacks[e] == f.callbacks[e])
      && (forall e | e in es[..k] :: r.factory.callbacks[e] == ctor)
  {
    assert es[..0] == [];
    RegisterFromMeetsClash(f.callbacks, f.callbacks, es, 0, ctor);
    RegisterFrom(f.callbacks, es, 0, ctor)
  }

  /** The registration loop from the `i`-th encoding on, with the callbacks inserted so far. */
  function RegisterFrom<E, O>(cb: map<E, File<E> -> O>, es: seq<E>, i: nat, ctor: File<E> -> O): Registration<E, O>
    requires i <= |es|
    decreases |es| - i
  {
    if i == |es| then Registration(Factory(cb), true)
    else if es[i] in cb then Registration(Factory(cb), false)
    else RegisterFrom(cb[es[i] := ctor], es, i + 1, ctor)
  }

  /**
   * The position of the first encoding that cannot be inserted, scanning
   * from `i`: one already among `keys` or repeated earlier in the list; |es| when there is none.
   */
  function FirstClash<E>(keys: set<E>, es: seq<E>, i: nat): (k: nat)
    requires i <= |es|
    ensures i <= k <= |es|
    ensures forall j | i <= j < k :: es[j] !in keys && es[j] !in es[..j]
    ensures k < |es| ==> es[k] in keys || es[k] in es[..k]
    decreases |es| - i
  {
    if i == |es| then i
    else if es[i] in keys || es[i] in es[..i] then i
    else FirstClash(keys, es, i + 1)
  }

  /** The encodings listed in `es`. */
  function Elems<E>(es: seq<E>): (r: set<E>)
    ensures forall x | x in r :: x in es
    ensures forall i | 0 <= i < |es| :: es[i] in r
  {
    set e | e in es
  }

  /** `cb` is `cb0` with each encoding of `added` inserted with `ctor` and nothing else changed. */
  ghost predicate Inserted<E, O>(cb0: map<E, File<E> -> O>, cb: map<E, File<E> -> O>, added: seq<E>, ctor: File<E> -> O) {
    && cb.Keys == cb0.Keys + Elems(added)
    && (forall e | e in cb0 :: cb[e] == cb0[e])
    && (forall e | e in added :: cb[e] == ctor)
  }

  /**
   * The registration loop run from `i`, with the first `i` encodings already
   * inserted, inserts up to the first clash and reports whether there was none.
   */
  lemma {:induction false} RegisterFromMeetsClash<E, O>(
    cb0: map<E, File<E> -> O>, cb: map<E, File<E> -> O>, es: seq<E>, i: nat, ctor: File<E> -> O)
    requires i <= FirstClash(cb0.Keys, es, 0)
    requires Inserted(cb0, cb, es[..i], ctor)
    ensures var r := RegisterFrom(cb, es, i, ctor);
      var k := FirstClash(cb0.Keys, es, 0);
      (r.ok <==> k == |es|) && Inserted(cb0, r.factory.callbacks, es[..k], ctor)
    decreases |es| - i
  {
    var k := FirstClash(cb0.Keys, es, 0);
    if i < k {
      InsertStep(cb0, cb, es, i, ctor);
      RegisterFromMeetsClash(cb0, cb[es[i] := ctor], es, i + 1, ctor);
    } else if i < |es| {
      ClashFound(cb0, cb, es, i, ctor);
    }
  }

  /** Before the first clash the next encoding is absent, and inserting it extends the inserted prefix. */
  lemma InsertStep<E, O>(cb0: map<E, File<E> -> O>, cb: map<E, File<E> -> O>, es: seq<E>, i: nat, ctor: File<E> -> O)
    requires i < FirstClash(cb0.Keys, es, 0)
    requires Inserted(cb0, cb, es[..i], ctor)
    ensures es[i] !in cb
    ensures Inserted(cb0, cb[es[i] := ctor], es[..i + 1], ctor)
  {
    NextIsFresh(cb0.Keys, es, i);
    InsertKeysStep(cb0, cb, es, i, ctor);
    InsertValuesStep(cb0, cb, es, i, es[..i + 1], ctor);
  }

  /** Inserting the next encoding extends the keys by it. */
  lemma InsertKeysStep<E, O>(cb0: map<E, File<E> -> O>, cb: map<E, File<E> -> O>, es: seq<E>, i: nat, ctor: File<E> -> O)
    requires i < |es| && cb.Keys == cb0.Keys + Elems(es[..i])
    ensures cb[es[i] := ctor].Keys == cb0.Keys + Elems(es[..i + 1])
  {
    PrefixElemsStep(es, i);
    assert cb[es[i] := ctor].Keys == cb.Keys + {es[i]};
    assert cb.Keys + {es[i]} == cb0.Keys + (Elems(es[..i]) + {es[i]});
  }

  /** Inserting a fresh encoding keeps the old constructors and gives it the new one. */
  lemma InsertValuesStep<E, O>(
    cb0: map<E, File<E> -> O>, cb: map<E, File<E> -> O>, es: seq<E>, i: nat, next: seq<E>, ctor: File<E> -> O)
    requires i < |es| && es[i] !in cb0 && Inserted(cb0, cb, es[..i], ctor)
    requires next == es[..i + 1]
    ensures forall e | e in cb0 :: cb[es[i] := ctor][e] == cb0[e]
    ensures forall e | e in next :: cb[es[i] := ctor][e] == ctor
  {
    assert next == es[..i] + [es[i]];
  }

  /** Before the first clash the next encoding is neither an old key nor an earlier encoding. */
  lemma NextIsFresh<E>(keys: set<E>, es: seq<E>, i: nat)
    requires i < FirstClash(keys, es, 0)
    ensures es[i] !in keys && es[i] !in Elems(es[..i])
  {
  }

  /** The encodings of a prefix one longer are those of the prefix plus the next one. */
  lemma PrefixElemsStep<E>(es: seq<E>, i: nat)
    requires i < |es|
    ensures Elems(es[..i + 1]) == Elems(es[..i]) + {es[i]}
  {
    assert es[..i + 1] == es[..i] + [es[i]];
  }

  /** At the first clash the encoding is already present, so the loop stops there. */
  lemma ClashFound<E, O>(cb0: map<E, File<E> -> O>, cb: map<E, File<E> -> O>, es: seq<E>, i: nat, ctor: File<E> -> O)
    requires i == FirstClash(cb0.Keys, es, 0) && i < |es|
    requires Inserted(cb0, cb, es[..i], ctor)
    ensures es[i] in cb
  {
    assert es[i] in cb0.Keys || es[i] in es[..i];
    if es[i] !in cb0.Keys {
      assert es[i] in Elems(es[..i]);
    }
  }

  /** What an unregistration returns: the registry afterwards and whether an entry was removed. */
  datatype Unregistration<!E, O> = Unregistration(factory: Factory<E, O>, ok: bool)

  /** `unregister_output_format`: remove the encoding; `true` exactly when it was registered. */
  function Unregister<E, O>(f: Factory<E, O>, e: E): (r: Unregistration<E, O>)
    ensures r.ok <==> e in f.callbacks
    ensures r.factory.callbacks.Keys == f.callbacks.Keys - {e}
    ensures forall x | x in r.factory.callbacks :: r.factory.callbacks[x] == f.callbacks[x]
  {
    Unregistration(Factory(f.callbacks - {e}), e in f.callbacks)
  }

  /** `create_output`: build the output with the constructor registered for the file's encoding, or throw. */
  function CreateOutput<E, O>(f: Factory<E, O>, file: File<E>): (r: Result<O, FactoryError>)
    ensures r.Err? <==> file.encoding !in f.callbacks
    ensures r.Ok? ==> r.value == f.callbacks[file.encoding](file)
  {
    if file.encoding in f.callbacks then Ok(f.callbacks[file.encoding](file)) else Err(EncodingNotSupported)
  }

  /** After a registration that succeeded, every listed encoding creates its output with the new constructor. */
  lemma RegisterThenCreate<E, O>(f: Factory<E, O>, es: seq<E>, ctor: File<E> -> O, file: File<E>)
    requires Register(f, es, ctor).ok && file.encoding in es
    ensures CreateOutput(Register(f, es, ctor).factory, file) == Ok(ctor(file))
  {
    assert FirstClash(f.callbacks.Keys, es, 0) == |es|;
    assert es[..|es|] == es;
  }

  /**
   * A failed registration keeps what it did: the encodings before the clash
   * stay registered with the new constructor, and the clashing one keeps its old constructor.
   */
  lemma RegisterFailureKeepsEarlier<E, O>(f: Factory<E, O>, a: E, b: E, ctor: File<E> -> O)
    requires a !in f.callbacks && b in f.callbacks && a != b
    ensures var r := Register(f, [a, b], ctor);
      && !r.ok
      && r.factory.callbacks.Keys == f.callbacks.Keys + {a}
      && r.factory.callbacks[a] == ctor
      && r.factory.callbacks[b] == f.callbacks[b]
  {
    var es := [a, b];
    assert es[..0] == [] && es[..1] == [a];
    assert FirstClash(f.callbacks.Keys, es, 0) == 1;
    assert Elems(es[..1]) == {a};
  }

  /** Listing an unregistered encoding twice fails on the repeat, yet leaves it registered. */
  lemma RegisterRepeatFails<E, O>(f: Factory<E, O>, e: E, ctor: File<E> -> O)
    requires e !in f.callbacks
    ensures var r := Register(f, [e, e], ctor);
      !r.ok && e in r.factory.callbacks && r.factory.callbacks[e] == ctor
  {
    var es := [e, e];
    assert es[..0] == [] && es[..1] == [e];
    assert FirstClash(f.callbacks.Keys, es, 0) == 1;
  }

  /** Unregistering an encoding makes creating an output for it fail. */
  lemma UnregisterThenCreate<E, O>(f: Factory<E, O>, file: File<E>)
    ensures CreateOutput(Unregister(f, file.encoding).factory, file) == Err(EncodingNotSupported)
  {
  }

  /** Registering a new encoding alone and unregistering it again restores the registry. */
  lemma RegisterUnregisterRoundTrip<E, O>(f: Factory<E, O>, e: E, ctor: File<E> -> O)
    requires e !in f.callbacks
    ensures Register(f, [e], ctor).ok
    ensures Unregister(Register(f, [e], ctor).factory, e) == Unregistration(f, true)
  {
    var es := [e];
    assert es[..0] == [] && es[..1] == es;
    assert FirstClash(f.callbacks.Keys, es, 0) == 1;
    assert Elems(es) == {e};
    var g := Register(f, es, ctor).factory;
    assert (g.callbacks - {e}).Keys == f.callbacks.Keys;
    assert g.callbacks - {e} == f.callbacks;
  }

  // ---------------------------------------------------------------------------
  // The output thread's drain rule
  // ---------------------------------------------------------------------------

  /**
   * What the output thread has done with a queue: the bytes it wrote, the
   * number of payloads it took, and whether it stopped (it saw the empty payload).
   * When it has not stopped it is still waiting for the next payload.
   */
  datatype Drained = Drained(written: string, consumed: nat, stopped: bool)

  /** The thread's loop from the `i`-th payload: take it, write it, stop after writing an empty one. */
  function DrainFrom(q: seq<string>, i: nat): Drained
    requires i <= |q|
    decreases |q| - i
  {
    if i == |q| then Drained([], i, false)
    else if q[i] == [] then Drained([], i + 1, true)
    else
      var rest := DrainFrom(q, i + 1);
      Drained(q[i] + rest.written, rest.consumed, rest.stopped)
  }

  /** The position of the first empty payload, or |q| when there is none. */
  function FirstEmpty(q: seq<string>): (k: nat)
    ensures k <= |q|
    ensures forall j | 0 <= j < k :: q[j] != []
    ensures k < |q| ==> q[k] == []
  {
    if |q| == 0 then 0 else if q[0] == [] then 0 else 1 + FirstEmpty(q[1..])
  }

  /**
   * The drain rule: the thread writes, in queue order, every payload up to and
   * including the first empty one, takes nothing after it, and stops exactly
   * when there is an empty payload.
   */
  function Drain(q: seq<string>): (d: Drained)
    ensures var k := FirstEmpty(q);
      && d.stopped == (k < |q|)
      && d.consumed == (if k < |q| then k + 1 else |q|)
      && d.written == Seqs.Flatten(q[..d.consumed])
  {
    DrainFromWrites(q, 0);
    assert q[0..] == q;
    DrainFrom(q, 0)
  }

  /** From position `i`, the loop writes the payloads from `i` up to the first empty one. */
  lemma {:induction false} DrainFromWrites(q: seq<string>, i: nat)
    requires i <= |q|
    ensures var d := DrainFrom(q, i);
      var k := i + FirstEmpty(q[i..]);
      && d.stopped == (k < |q|)
      && d.consumed == (if k < |q| then k + 1 else |q|)
      && i <= d.consumed
      && d.written == Seqs.Flatten(q[i..d.consumed])
    decreases |q| - i
  {
    if i == |q| {
      assert q[i..i] == [];
    } else if q[i] == [] {
      assert q[i..i + 1] == [q[i]];
      assert Seqs.Flatten(q[i + 1..i + 1]) == [];
    } else {
      DrainFromWrites(q, i + 1);
      assert q[i..][1..] == q[i + 1..];
      var d := DrainFrom(q, i + 1);
      assert q[i..d.consumed][1..] == q[i + 1..d.consumed];
    }
  }

  /**
   * A closed stream: non-empty payloads, then the empty end-of-stream payload,
   * then anything. The thread writes exactly the payloads before the end marker and stops.
   */
  lemma ClosedQueueWritesAll(ps: seq<string>, later: seq<string>)
    requires forall j | 0 <= j < |ps| :: ps[j] != []
    ensures Drain(ps + [[]] + later) == Drained(Seqs.Flatten(ps), |ps| + 1, true)
  {
    var q := ps + [[]] + later;
    FirstEmptyAfter(ps, later);
    assert q[..|ps| + 1] == ps + [[]];
    var end: seq<string> := [[]];
    Seqs.FlattenAppend(ps, end);
    assert Seqs.Flatten(end) == [] by {
      assert end[1..] == [];
    }
  }

  /** The first empty payload of non-empty payloads followed by an empty one is the empty one. */
  lemma {:induction false} FirstEmptyAfter(ps: seq<string>, later: seq<string>)
    requires forall j | 0 <= j < |ps| :: ps[j] != []
    ensures FirstEmpty(ps + [[]] + later) == |ps|
  {
    if |ps| > 0 {
      assert (ps + [[]] + later)[1..] == ps[1..] + [[]] + later;
      FirstEmptyAfter(ps[1..], later);
    }
  }

  /** Without the empty end marker the thread takes every payload and keeps waiting. */
  lemma OpenQueueKeepsWaiting(q: seq<string>)
    requires forall j | 0 <= j < |q| :: q[j] != []
    ensures Drain(q).stopped == false && Drain(q).consumed == |q|
    ensures Drain(q).written == Seqs.Flatten(q)
  {
    assert q[..|q|] == q;
  }
}
