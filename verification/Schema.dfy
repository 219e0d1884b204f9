/**
 Objects with fixed and optional fields, as serde derives them: which fields two equal objects share.
 */
module Schema {
  import opened Wrappers
  import opened Utf8
  import opened Json

  /** `skip_serializing_if`: the member is there exactly when the value is. */
  function Optional(k: string, o: Option<Value>): seq<Member>
  {
    if o.None? then [] else [Member(k, o.value)]
  }

  function Bytes(s: seq<Byte>): Value
  {
    Arr(seq(|s|, i requires 0 <= i < |s| => Num(Integer(s[i]))))
  }

  /** `serde_json::Map::insert`: replace the value or add the member. */
  function Put(ms: seq<Member>, k: string, v: Value): seq<Member>
  {
    if ms == [] then [Member(k, v)]
    else if ms[0].key == k then [Member(k, v)] + ms[1..]
    else [ms[0]] + Put(ms[1..], k, v)
  }

  /** A member list whose values are all scalars or already known to be good. */
  predicate GoodValue(v: Value) { WellFormed(v) && FloatFree(v) }

  predicate Good(ms: seq<Member>)
  {
    DistinctKeys(ms) && forall i :: 0 <= i < |ms| ==> GoodValue(ms[i].value)
  }

  lemma GoodObject(ms: seq<Member>)
    requires Good(ms)
    ensures GoodValue(Obj(ms))
  {
  }

  lemma GoodOptional(ms: seq<Member>, k: string, o: Option<Value>)
    requires Good(ms) && !HasKey(ms, k) && (o.Some? ==> GoodValue(o.value))
    ensures Good(ms + Optional(k, o))
  {
  }

  lemma OptionalKeys(ms: seq<Member>, k: string, o: Option<Value>)
    ensures forall x :: HasKey(ms + Optional(k, o), x) <==> HasKey(ms, x) || (x == k && o.Some?)
  {
    var ns := ms + Optional(k, o);
    forall x ensures HasKey(ns, x) <==> HasKey(ms, x) || (x == k && o.Some?) {
      if HasKey(ms, x) {
        var i :| 0 <= i < |ms| && ms[i].key == x;
        assert ns[i].key == x;
      }
      if x == k && o.Some? {
        assert ns[|ms|].key == x;
      }
    }
  }

  /** Two equal objects agree on their last optional field and on what is left without it. */
  lemma Peel(ms: seq<Member>, ns: seq<Member>, k: string, o: Option<Value>, q: Option<Value>)
    requires !HasKey(ms, k) && !HasKey(ns, k)
    requires Same(Obj(ms + Optional(k, o)), Obj(ns + Optional(k, q)))
    ensures Same(Obj(ms), Obj(ns))
    ensures o.Some? <==> q.Some?
    ensures o.Some? ==> Same(o.value, q.value)
  {
    OptionalKeys(ms, k, o);
    OptionalKeys(ns, k, q);
    var a, b := ms + Optional(k, o), ns + Optional(k, q);
    assert HasKey(a, k) <==> HasKey(b, k);
    forall x ensures HasKey(ms, x) <==> HasKey(ns, x) {
      assert HasKey(a, x) <==> HasKey(b, x);
    }
    forall i, j | 0 <= i < |ms| && 0 <= j < |ns| && ms[i].key == ns[j].key ensures Same(ms[i].value, ns[j].value) {
      assert a[i] == ms[i] && b[j] == ns[j];
    }
    if o.Some? {
      assert a[|ms|].key == b[|ns|].key;
    }
  }

  /** The converse: equal fields make equal objects. */
  lemma Extend(ms: seq<Member>, ns: seq<Member>, k: string, o: Option<Value>, q: Option<Value>)
    requires !HasKey(ms, k) && !HasKey(ns, k)
    requires Same(Obj(ms), Obj(ns))
    requires o.Some? <==> q.Some?
    requires o.Some? ==> Same(o.value, q.value)
    ensures Same(Obj(ms + Optional(k, o)), Obj(ns + Optional(k, q)))
  {
    OptionalKeys(ms, k, o);
    OptionalKeys(ns, k, q);
    var a, b := ms + Optional(k, o), ns + Optional(k, q);
    forall i, j | 0 <= i < |a| && 0 <= j < |b| && a[i].key == b[j].key ensures Same(a[i].value, b[j].value) {
      if i < |ms| {
        assert HasKey(ms, a[i].key);
        assert HasKey(ns, a[i].key);
      }
      if j < |ns| {
        assert HasKey(ns, b[j].key);
        assert HasKey(ms, b[j].key);
      }
    }
  }

  // ---- Three optional fields after the fixed ones ----

  function WithThree(ms: seq<Member>, k: string, a: Option<Value>, l: string, b: Option<Value>, m: string,
                     c: Option<Value>): seq<Member>
  {
    ms + Optional(k, a) + Optional(l, b) + Optional(m, c)
  }

  predicate NewKeys(ms: seq<Member>, k: string, l: string, m: string)
  {
    !HasKey(ms, k) && !HasKey(ms, l) && !HasKey(ms, m) && k != l && k != m && l != m
  }

  predicate GoodOption(o: Option<Value>) { o.Some? ==> GoodValue(o.value) }

  ghost predicate SameOption(o: Option<Value>, q: Option<Value>)
  {
    (o.Some? <==> q.Some?) && (o.Some? ==> Same(o.value, q.value))
  }

  lemma ThreeGood(ms: seq<Member>, k: string, a: Option<Value>, l: string, b: Option<Value>, m: string,
                  c: Option<Value>)
    requires Good(ms) && NewKeys(ms, k, l, m) && GoodOption(a) && GoodOption(b) && GoodOption(c)
    ensures Good(WithThree(ms, k, a, l, b, m, c))
  {
    var one := ms + Optional(k, a);
    var two := one + Optional(l, b);
    OptionalKeys(ms, k, a);
    OptionalKeys(one, l, b);
    GoodOptional(ms, k, a);
    GoodOptional(one, l, b);
    GoodOptional(two, m, c);
  }

  lemma ThreePeel(ms: seq<Member>, ns: seq<Member>, k: string, a: Option<Value>, d: Option<Value>,
                                     l: string, b: Option<Value>, e: Option<Value>, m: string, c: Option<Value>,
                                     f: Option<Value>)
    requires NewKeys(ms, k, l, m) && NewKeys(ns, k, l, m)
    requires Same(Obj(WithThree(ms, k, a, l, b, m, c)), Obj(WithThree(ns, k, d, l, e, m, f)))
    ensures Same(Obj(ms), Obj(ns)) && SameOption(a, d) && SameOption(b, e) && SameOption(c, f)
  {
    var one, two := ms + Optional(k, a), ms + Optional(k, a) + Optional(l, b);
    var uno, due := ns + Optional(k, d), ns + Optional(k, d) + Optional(l, e);
    OptionalKeys(ms, k, a);
    OptionalKeys(one, l, b);
    OptionalKeys(ns, k, d);
    OptionalKeys(uno, l, e);
    Peel(two, due, m, c, f);
    Peel(one, uno, l, b, e);
    Peel(ms, ns, k, a, d);
  }

  /** Fixed fields stand at the same places in both lists. */
  predicate SameKeysInOrder(ms: seq<Member>, ns: seq<Member>)
  {
    |ms| == |ns| && forall i :: 0 <= i < |ms| ==> ms[i].key == ns[i].key
  }

  lemma FixedFields(ms: seq<Member>, ns: seq<Member>)
    requires SameKeysInOrder(ms, ns) && DistinctKeys(ms)
    ensures Same(Obj(ms), Obj(ns)) <==> forall i :: 0 <= i < |ms| ==> Same(ms[i].value, ns[i].value)
  {
    forall k ensures HasKey(ms, k) <==> HasKey(ns, k) {
      if HasKey(ms, k) {
        var i :| 0 <= i < |ms| && ms[i].key == k;
        assert ns[i].key == k;
      }
      if HasKey(ns, k) {
        var i :| 0 <= i < |ns| && ns[i].key == k;
        assert ms[i].key == k;
      }
    }
    forall i, j | 0 <= i < |ms| && 0 <= j < |ns| && ms[i].key == ns[j].key ensures i == j {
      assert ms[j].key == ns[j].key;
    }
  }

  lemma BytesSame(s: seq<Byte>, t: seq<Byte>)
    ensures Same(Bytes(s), Bytes(t)) <==> s == t
    ensures GoodValue(Bytes(s))
  {
    if Same(Bytes(s), Bytes(t)) {
      forall i | 0 <= i < |s| ensures s[i] == t[i] {
        assert Same(Bytes(s).items[i], Bytes(t).items[i]);
      }
    }
  }

  // ---- Inserting into a member list ----

  lemma {:induction false} PutAt(ms: seq<Member>, i: nat, k: string, v: Value)
    requires i < |ms| && ms[i].key == k && forall j :: 0 <= j < i ==> ms[j].key != k
    ensures Put(ms, k, v) == ms[i := Member(k, v)]
  {
    if i > 0 {
      PutAt(ms[1..], i - 1, k, v);
      assert ms == [ms[0]] + ms[1..];
    }
  }

  lemma {:induction false} PutNew(ms: seq<Member>, k: string, v: Value)
    requires !HasKey(ms, k)
    ensures Put(ms, k, v) == ms + [Member(k, v)]
  {
    if ms != [] {
      assert ms[0].key != k;
      assert !HasKey(ms[1..], k) by {
        assert forall i :: 0 <= i < |ms[1..]| ==> ms[1..][i] == ms[i + 1];
      }
      PutNew(ms[1..], k, v);
      assert ms == [ms[0]] + ms[1..];
    }
  }

  // ---- Reading a member ----

  /** The object has one value under this name, and it is this one. */
  ghost predicate Holds(v: Value, k: string, w: Value)
  {
    && v.Obj? && HasKey(v.members, k)
    && forall i :: 0 <= i < |v.members| && v.members[i].key == k ==> Same(w, v.members[i].value)
  }

  ghost predicate HoldsOption(v: Value, k: string, o: Option<Value>)
  {
    if o.Some? then Holds(v, k, o.value) else v.Obj? && !HasKey(v.members, k)
  }

  lemma SameHolds(ms: seq<Member>, v: Value, i: nat, k: string, w: Value)
    requires Same(Obj(ms), v) && i < |ms| && ms[i] == Member(k, w)
    ensures Holds(v, k, w)
  {
    assert HasKey(ms, k);
  }

  lemma SameLacks(ms: seq<Member>, v: Value, k: string)
    requires Same(Obj(ms), v) && !HasKey(ms, k)
    ensures v.Obj? && !HasKey(v.members, k)
  {
  }

  /** A field added at the end reads back, and what stood before it still does. */
  lemma OptionRead(ms: seq<Member>, k: string, o: Option<Value>, all: seq<Member>, v: Value)
    requires ms + Optional(k, o) <= all && Same(Obj(all), v) && (o.None? ==> !HasKey(all, k))
    ensures HoldsOption(v, k, o)
  {
    if o.Some? {
      assert all[|ms|] == (ms + Optional(k, o))[|ms|];
      SameHolds(all, v, |ms|, k, o.value);
    } else {
      SameLacks(all, v, k);
    }
  }

  lemma ThreeRead(ms: seq<Member>, k: string, a: Option<Value>, l: string, b: Option<Value>, m: string,
                  c: Option<Value>, v: Value)
    requires NewKeys(ms, k, l, m) && Same(Obj(WithThree(ms, k, a, l, b, m, c)), v)
    ensures HoldsOption(v, k, a) && HoldsOption(v, l, b) && HoldsOption(v, m, c)
  {
    var all := WithThree(ms, k, a, l, b, m, c);
    OptionalKeys(ms, k, a);
    OptionalKeys(ms + Optional(k, a), l, b);
    OptionalKeys(ms + Optional(k, a) + Optional(l, b), m, c);
    OptionRead(ms, k, a, all, v);
    OptionRead(ms + Optional(k, a), l, b, all, v);
    OptionRead(ms + Optional(k, a) + Optional(l, b), m, c, all, v);
  }
}
