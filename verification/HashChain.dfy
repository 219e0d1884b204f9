/**
 A chain of hashed records, for any kind of record and any hash function: what an equal head says about
 two chains.
 */
module HashChain {
  import opened Utf8

  /** A SHA-256 digest. */
  type Hash = s: seq<Byte> | |s| == 32 witness seq(32, _ => 0)

  /** How records are encoded and hashed, and where they store the digest of their predecessor. */
  datatype Scheme<!T> = Scheme(sha: seq<Byte> -> Hash, encode: T -> seq<Byte>, prev: T -> Hash)

  ghost predicate Injective<T(!new)>(encode: T -> seq<Byte>)
  {
    forall r, t :: encode(r) == encode(t) ==> r == t
  }

  /** The head after `records` were appended to a chain whose head was `start`. */
  function Head<T>(s: Scheme<T>, start: Hash, records: seq<T>): Hash
  {
    if records == [] then start else s.sha(s.encode(records[|records| - 1]))
  }

  /** Every record stores the digest of its predecessor, the first one `start`. */
  predicate Linked<T>(s: Scheme<T>, start: Hash, records: seq<T>)
  {
    records == [] ||
    var n := |records| - 1;
    s.prev(records[n]) == Head(s, start, records[..n]) && Linked(s, start, records[..n])
  }

  /** What two chains with one head can be. */
  datatype Verdict<T> =
    | Identical
    | Collision(x: T, y: T)
    | HitsStart(r: T)

  ghost predicate Justified<T>(s: Scheme<T>, start: Hash, a: seq<T>, b: seq<T>, v: Verdict<T>)
  {
    match v
    case Identical => a == b
    case Collision(x, y) => x in a && y in b && s.encode(x) != s.encode(y) && s.sha(s.encode(x)) == s.sha(s.encode(y))
    case HitsStart(r) => (r in a || r in b) && s.sha(s.encode(r)) == start
  }

  /**
   Tamper evidence. Walking both chains back from a common head, either they never part, or the place where
   they part shows two different byte strings with one digest, or a record that hashes to the start.
   */
  lemma {:induction false} Compare<T(!new)>(s: Scheme<T>, start: Hash, a: seq<T>, b: seq<T>) returns (v: Verdict<T>)
    requires Injective(s.encode)
    requires Linked(s, start, a) && Linked(s, start, b)
    requires Head(s, start, a) == Head(s, start, b)
    ensures Justified(s, start, a, b, v)
    decreases |a|
  {
    if a == [] && b == [] {
      return Identical;
    }
    if a == [] {
      return HitsStart(b[|b| - 1]);
    }
    if b == [] {
      return HitsStart(a[|a| - 1]);
    }
    var m, n := |a| - 1, |b| - 1;
    if s.encode(a[m]) != s.encode(b[n]) {
      return Collision(a[m], b[n]);
    }
    v := Compare(s, start, a[..m], b[..n]);
    assert a == a[..m] + [a[m]] && b == b[..n] + [b[n]];
  }

  lemma LinkedAppend<T>(s: Scheme<T>, start: Hash, a: seq<T>, r: T)
    requires Linked(s, start, a) && s.prev(r) == Head(s, start, a)
    ensures Linked(s, start, a + [r]) && Head(s, start, a + [r]) == s.sha(s.encode(r))
  {
    assert (a + [r])[..|a|] == a;
  }

  /** One record per input, each made from the head its predecessors left. */
  function Produce<T, C>(s: Scheme<T>, step: (Hash, C) -> T, start: Hash, inputs: seq<C>): (records: seq<T>)
    ensures |records| == |inputs|
  {
    if inputs == [] then []
    else
      var n := |inputs| - 1;
      var before := Produce(s, step, start, inputs[..n]);
      before + [step(Head(s, start, before), inputs[n])]
  }

  /** If every record stores the head it was made from, the records form a chain. */
  lemma {:induction false} ProducedIsLinked<T, C(!new)>(s: Scheme<T>, step: (Hash, C) -> T, start: Hash, inputs: seq<C>)
    requires forall h, c :: s.prev(step(h, c)) == h
    ensures Linked(s, start, Produce(s, step, start, inputs))
  {
    if inputs != [] {
      var n := |inputs| - 1;
      ProducedIsLinked(s, step, start, inputs[..n]);
      var before := Produce(s, step, start, inputs[..n]);
      LinkedAppend(s, start, before, step(Head(s, start, before), inputs[n]));
    }
  }

  lemma {:induction false} ProducedAt<T, C>(s: Scheme<T>, step: (Hash, C) -> T, start: Hash, inputs: seq<C>, i: nat)
    requires i < |inputs|
    ensures var records := Produce(s, step, start, inputs);
            records[i] == step(Head(s, start, records[..i]), inputs[i])
  {
    var n := |inputs| - 1;
    var before := Produce(s, step, start, inputs[..n]);
    var records := Produce(s, step, start, inputs);
    assert records[..n] == before;
    if i < n {
      ProducedAt(s, step, start, inputs[..n], i);
      assert records[..i] == before[..i];
    }
  }
}
