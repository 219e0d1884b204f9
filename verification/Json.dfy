/**
 JSON values and their canonical encoding, after
 crates/sda-device-control/src/canonicalize.rs and RFC 8785.

 An object is the sequence of its members in whatever order the map yields them. The canonical
 encoding is a plain printer (`Print`) applied to the value with every object sorted (`Sorted`).
 */
module Json {
  import opened Utf8

  /** `serde_json::Number`: an integer of the `i64` or `u64` range, or a float kept as its printed text. */
  datatype Number = Integer(n: int) | Float(finite: bool, text: string)

  datatype Value =
    | Null
    | Bool(b: bool)
    | Num(num: Number)
    | Str(s: string)
    | Arr(items: seq<Value>)
    | Obj(members: seq<Member>)

  datatype Member = Member(key: string, value: Value)

  predicate IsI64(n: int) { -0x8000_0000_0000_0000 <= n < 0x8000_0000_0000_0000 }

  predicate IsU64(n: int) { 0 <= n < 0x1_0000_0000_0000_0000 }

  predicate HasKey(ms: seq<Member>, k: string)
  {
    exists i :: 0 <= i < |ms| && ms[i].key == k
  }

  predicate DistinctKeys(ms: seq<Member>)
  {
    forall i, j :: 0 <= i < j < |ms| ==> ms[i].key != ms[j].key
  }

  /** What `serde_json::Value` guarantees: machine integers and one member for each key. */
  predicate WellFormed(v: Value)
  {
    match v
    case Num(Integer(n)) => IsI64(n) || IsU64(n)
    case Arr(items) => forall i :: 0 <= i < |items| ==> WellFormed(items[i])
    case Obj(ms) => DistinctKeys(ms) && forall i :: 0 <= i < |ms| ==> WellFormed(ms[i].value)
    case _ => true
  }

  predicate FloatFree(v: Value)
  {
    match v
    case Num(num) => num.Integer?
    case Arr(items) => forall i :: 0 <= i < |items| ==> FloatFree(items[i])
    case Obj(ms) => forall i :: 0 <= i < |ms| ==> FloatFree(ms[i].value)
    case _ => true
  }

  /** Equality of the values themselves: objects are maps, so the order of members does not matter. */
  ghost predicate Same(v: Value, w: Value)
  {
    match v
    case Arr(items) =>
      && w.Arr? && |items| == |w.items|
      && forall i :: 0 <= i < |items| ==> Same(items[i], w.items[i])
    case Obj(ms) =>
      && w.Obj?
      && (forall k :: HasKey(ms, k) <==> HasKey(w.members, k))
      && forall i, j :: 0 <= i < |ms| && 0 <= j < |w.members| && ms[i].key == w.members[j].key ==>
                          Same(ms[i].value, w.members[j].value)
    case _ => v == w
  }

  // ---- Sorting members ----

  predicate InOrder(ms: seq<Member>)
  {
    forall i, j :: 0 <= i < j < |ms| ==> KeyBefore(ms[i].key, ms[j].key)
  }

  function Insert(m: Member, ms: seq<Member>): (r: seq<Member>)
    ensures |r| == |ms| + 1
  {
    if ms == [] then [m]
    else if KeyBefore(m.key, ms[0].key) then [m] + ms
    else [ms[0]] + Insert(m, ms[1..])
  }

  function SortMembers(ms: seq<Member>): (r: seq<Member>)
    ensures |r| == |ms|
  {
    if ms == [] then [] else Insert(ms[0], SortMembers(ms[1..]))
  }

  lemma {:induction false} InsertContents(m: Member, ms: seq<Member>)
    ensures multiset(Insert(m, ms)) == multiset{m} + multiset(ms)
  {
    if ms != [] && !KeyBefore(m.key, ms[0].key) {
      InsertContents(m, ms[1..]);
      assert ms == [ms[0]] + ms[1..];
    }
  }

  lemma {:induction false} SortContents(ms: seq<Member>)
    ensures multiset(SortMembers(ms)) == multiset(ms)
  {
    if ms != [] {
      InsertContents(ms[0], SortMembers(ms[1..]));
      SortContents(ms[1..]);
      assert ms == [ms[0]] + ms[1..];
    }
  }

  lemma {:induction false} InsertInOrder(m: Member, ms: seq<Member>)
    requires InOrder(ms) && !HasKey(ms, m.key)
    ensures InOrder(Insert(m, ms))
  {
    if ms == [] {
    } else if KeyBefore(m.key, ms[0].key) {
      forall j | 1 <= j < |ms| ensures KeyBefore(m.key, ms[j].key) {
        KeyOrderTransitive(m.key, ms[0].key, ms[j].key);
      }
    } else {
      KeyOrderTotal(m.key, ms[0].key);
      assert KeyBefore(ms[0].key, m.key) by { assert HasKey(ms, ms[0].key); }
      assert !HasKey(ms[1..], m.key) by {
        assert forall i :: 0 <= i < |ms[1..]| ==> ms[1..][i] == ms[i + 1];
      }
      InsertInOrder(m, ms[1..]);
      InsertContents(m, ms[1..]);
      var r := Insert(m, ms[1..]);
      forall j | 0 <= j < |r| ensures KeyBefore(ms[0].key, r[j].key) {
        assert r[j] in multiset(r);
        assert r[j] == m || r[j] in ms[1..];
      }
    }
  }

  lemma SameElements(ms: seq<Member>, ns: seq<Member>)
    requires multiset(ms) == multiset(ns)
    ensures forall m :: m in ms <==> m in ns
    ensures forall k :: HasKey(ms, k) <==> HasKey(ns, k)
  {
    assert forall m :: m in ms <==> m in multiset(ms);
    assert forall m :: m in ns <==> m in multiset(ns);
    forall k ensures HasKey(ms, k) <==> HasKey(ns, k) {
      if HasKey(ms, k) {
        var i :| 0 <= i < |ms| && ms[i].key == k;
        assert ms[i] in ns;
      }
      if HasKey(ns, k) {
        var i :| 0 <= i < |ns| && ns[i].key == k;
        assert ns[i] in ms;
      }
    }
  }

  lemma {:induction false} SortInOrder(ms: seq<Member>)
    requires DistinctKeys(ms)
    ensures InOrder(SortMembers(ms))
  {
    if ms != [] {
      SortInOrder(ms[1..]);
      SortContents(ms[1..]);
      SameElements(SortMembers(ms[1..]), ms[1..]);
      InsertInOrder(ms[0], SortMembers(ms[1..]));
    }
  }

  lemma InOrderDistinct(ms: seq<Member>)
    requires InOrder(ms)
    ensures DistinctKeys(ms)
  {
    forall i, j | 0 <= i < j < |ms| ensures ms[i].key != ms[j].key {
      KeyOrderTotal(ms[i].key, ms[j].key);
    }
  }

  lemma EmptyOrNot(ms: seq<Member>)
    ensures ms == [] || exists m :: m in ms
  {
    assert ms == [] || ms[0] in ms;
  }

  /** The sorted arrangement of a set of members is unique. */
  lemma {:induction false} SortedUnique(ms: seq<Member>, ns: seq<Member>)
    requires InOrder(ms) && InOrder(ns)
    requires forall m :: m in ms <==> m in ns
    ensures ms == ns
    decreases |ms|
  {
    if ms == [] {
      EmptyOrNot(ns);
    } else {
      assert ms[0] in ns;
      assert ns[0] in ms;
      HeadIsFirst(ms, ns[0]);
      HeadIsFirst(ns, ms[0]);
      KeyOrderTotal(ms[0].key, ns[0].key);
      assert ms[0] == ns[0];
      InOrderDistinct(ms);
      InOrderDistinct(ns);
      forall m ensures m in ms[1..] <==> m in ns[1..] {
        assert m in ms <==> m == ms[0] || m in ms[1..];
        assert m in ns <==> m == ns[0] || m in ns[1..];
        assert ms[0] !in ms[1..] && ns[0] !in ns[1..];
      }
      SortedUnique(ms[1..], ns[1..]);
      assert ms == [ms[0]] + ms[1..] && ns == [ns[0]] + ns[1..];
    }
  }

  lemma HeadIsFirst(ms: seq<Member>, m: Member)
    requires InOrder(ms) && m in ms
    ensures m == ms[0] || KeyBefore(ms[0].key, m.key)
  {
    var i :| 0 <= i < |ms| && ms[i] == m;
  }

  // ---- Sorting a value at every depth ----

  function Sorted(v: Value): (r: Value)
    decreases v, 1
  {
    match v
    case Arr(items) => Arr(SortedItems(items))
    case Obj(ms) => Obj(SortMembers(SortedValues(ms)))
    case _ => v
  }

  function SortedItems(items: seq<Value>): (r: seq<Value>)
    ensures |r| == |items|
    decreases items, 0
  {
    if items == [] then [] else [Sorted(items[0])] + SortedItems(items[1..])
  }

  function SortedValues(ms: seq<Member>): (r: seq<Member>)
    ensures |r| == |ms|
    decreases ms, 0
  {
    if ms == [] then [] else [Member(ms[0].key, Sorted(ms[0].value))] + SortedValues(ms[1..])
  }

  lemma {:induction false} ItemsShape(items: seq<Value>)
    ensures forall i :: 0 <= i < |items| ==> SortedItems(items)[i] == Sorted(items[i])
  {
    if items != [] {
      ItemsShape(items[1..]);
    }
  }

  lemma {:induction false} ValuesShape(ms: seq<Member>)
    ensures forall i :: 0 <= i < |ms| ==> SortedValues(ms)[i] == Member(ms[i].key, Sorted(ms[i].value))
  {
    if ms != [] {
      ValuesShape(ms[1..]);
    }
  }

  lemma ValuesDistinct(ms: seq<Member>)
    ensures DistinctKeys(SortedValues(ms)) <==> DistinctKeys(ms)
    ensures forall k :: HasKey(SortedValues(ms), k) <==> HasKey(ms, k)
  {
    ValuesShape(ms);
    var ns := SortedValues(ms);
    forall k ensures HasKey(ns, k) <==> HasKey(ms, k) {
      if HasKey(ms, k) {
        var i :| 0 <= i < |ms| && ms[i].key == k;
        assert ns[i].key == k;
      }
      if HasKey(ns, k) {
        var i :| 0 <= i < |ns| && ns[i].key == k;
        assert ms[i].key == k;
      }
    }
  }

  lemma SortedObject(ms: seq<Member>)
    requires DistinctKeys(ms)
    ensures var ns := Sorted(Obj(ms)).members;
            && InOrder(ns) && |ns| == |ms|
            && (forall m :: m in ns <==> m in SortedValues(ms))
            && (forall k :: HasKey(ns, k) <==> HasKey(ms, k))
  {
    ValuesDistinct(ms);
    SortInOrder(SortedValues(ms));
    SortContents(SortedValues(ms));
    SameElements(SortMembers(SortedValues(ms)), SortedValues(ms));
  }

  lemma IncludedByKey(ms: seq<Member>, ns: seq<Member>, a: seq<Member>, b: seq<Member>, m: Member)
    requires |a| == |ms| && |b| == |ns| && m in a
    requires forall k :: HasKey(ms, k) ==> HasKey(ns, k)
    requires forall i, j :: 0 <= i < |ms| && 0 <= j < |ns| && ms[i].key == ns[j].key ==> a[i] == b[j]
    ensures m in b
  {
    var i :| 0 <= i < |a| && a[i] == m;
    assert HasKey(ms, ms[i].key);
    var j :| 0 <= j < |ns| && ns[j].key == ms[i].key;
    assert b[j] == a[i];
  }

  /** Lists that agree wherever two others have a key in common hold the same elements. */
  lemma SameByKey(ms: seq<Member>, ns: seq<Member>, a: seq<Member>, b: seq<Member>)
    requires |a| == |ms| && |b| == |ns|
    requires forall k :: HasKey(ms, k) <==> HasKey(ns, k)
    requires forall i, j :: 0 <= i < |ms| && 0 <= j < |ns| && ms[i].key == ns[j].key ==> a[i] == b[j]
    ensures forall m :: m in a <==> m in b
  {
    forall m ensures m in a <==> m in b {
      if m in a {
        IncludedByKey(ms, ns, a, b, m);
      }
      if m in b {
        IncludedByKey(ns, ms, b, a, m);
      }
    }
  }

  /** Equal values sort to the same value. */
  lemma {:induction false} SameSorts(v: Value, w: Value)
    requires WellFormed(v) && WellFormed(w) && Same(v, w)
    ensures Sorted(v) == Sorted(w)
  {
    match v
    case Arr(items) =>
      forall i | 0 <= i < |items| ensures Sorted(items[i]) == Sorted(w.items[i]) {
        SameSorts(items[i], w.items[i]);
      }
      ItemsShape(items);
      ItemsShape(w.items);
      assert SortedItems(items) == SortedItems(w.items);
    case Obj(ms) =>
      var ns := w.members;
      SortedObject(ms);
      SortedObject(ns);
      ValuesShape(ms);
      ValuesShape(ns);
      var a, b := SortedValues(ms), SortedValues(ns);
      forall i, j | 0 <= i < |ms| && 0 <= j < |ns| && ms[i].key == ns[j].key ensures a[i] == b[j] {
        SameSorts(ms[i].value, ns[j].value);
      }
      SameByKey(ms, ns, a, b);
      SortedUnique(Sorted(v).members, Sorted(w).members);
    case _ =>
  }

  /** Values that sort to the same value are equal. */
  lemma {:induction false} SortsSame(v: Value, w: Value)
    requires WellFormed(v) && WellFormed(w) && Sorted(v) == Sorted(w)
    ensures Same(v, w)
  {
    match v
    case Arr(items) =>
      assert SortedItems(items) == SortedItems(w.items);
      ItemsShape(items);
      ItemsShape(w.items);
      forall i | 0 <= i < |items| ensures Same(items[i], w.items[i]) {
        assert SortedItems(items)[i] == SortedItems(w.items)[i];
        SortsSame(items[i], w.items[i]);
      }
    case Obj(ms) =>
      var ns := w.members;
      SortedObject(ms);
      SortedObject(ns);
      ValuesShape(ms);
      ValuesShape(ns);
      var a, b, r := SortedValues(ms), SortedValues(ns), Sorted(v).members;
      InOrderDistinct(r);
      forall i, j | 0 <= i < |ms| && 0 <= j < |ns| && ms[i].key == ns[j].key ensures Same(ms[i].value, ns[j].value) {
        assert a[i] in a && b[j] in b;
        assert a[i] in r && b[j] in r;
        assert a[i] == b[j];
        SortsSame(ms[i].value, ns[j].value);
      }
    case _ =>
  }

  /** Any rearrangement of an object's members leaves the value the same. */
  lemma RearrangedIsSame(ms: seq<Member>, ns: seq<Member>)
    requires WellFormed(Obj(ms)) && multiset(ms) == multiset(ns)
    ensures WellFormed(Obj(ns)) && Same(Obj(ms), Obj(ns))
  {
    SameElements(ms, ns);
    forall i, j | 0 <= i < |ms| && 0 <= j < |ns| && ms[i].key == ns[j].key ensures ms[i] == ns[j] {
      assert ns[j] in ms;
    }
    forall i | 0 <= i < |ms| ensures Same(ms[i].value, ms[i].value) {
      SameReflexive(ms[i].value);
    }
    forall i, j | 0 <= i < j < |ns| ensures ns[i].key != ns[j].key {
      RearrangedDistinct(ms, ns, i, j);
    }
    forall j | 0 <= j < |ns| ensures WellFormed(ns[j].value) {
      assert ns[j] in ms;
    }
  }

  lemma RearrangedDistinct(ms: seq<Member>, ns: seq<Member>, i: nat, j: nat)
    requires DistinctKeys(ms) && multiset(ms) == multiset(ns) && i < j < |ns|
    ensures ns[i].key != ns[j].key
  {
    SameElements(ms, ns);
    if ns[i].key == ns[j].key {
      assert ns[i] in ms && ns[j] in ms;
      assert ns[i] == ns[j];
      var m := ns[i];
      assert ns == ns[..j] + ns[j..];
      assert m == ns[..j][i] && m == ns[j..][0];
      assert multiset(ns)[m] >= 2;
      OnceOnly(ms, m);
    }
  }

  lemma {:induction false} OnceOnly(ms: seq<Member>, m: Member)
    requires DistinctKeys(ms)
    ensures multiset(ms)[m] <= 1
  {
    if ms != [] {
      OnceOnly(ms[1..], m);
      assert ms == [ms[0]] + ms[1..];
      if ms[0] == m {
        assert m !in ms[1..];
      }
    }
  }

  lemma SameReflexive(v: Value)
    requires WellFormed(v)
    ensures Same(v, v)
  {
    SortsSame(v, v);
  }
}
