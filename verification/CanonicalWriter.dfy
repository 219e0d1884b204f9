/**
 The writer itself: it appends to one shared buffer and sorts a vector of keys
 (crates/sda-device-control/src/canonicalize.rs:47-144).
 */
module CanonicalWriter {
  import opened Wrappers
  import opened Utf8
  import opened Json
  import opened JsonText
  import opened Canonical

  /** The output `Vec<u8>`. */
  class Buffer {
    var data: seq<Byte>

    constructor ()
      ensures data == []
    {
      data := [];
    }
  }

  // ---- Sorting the keys ----

  predicate DistinctStrings(keys: seq<string>)
  {
    forall i, j :: 0 <= i < j < |keys| ==> keys[i] != keys[j]
  }

  predicate KeysInOrder(keys: seq<string>)
  {
    forall i, j :: 0 <= i < j < |keys| ==> KeyBefore(keys[i], keys[j])
  }

  /** Sort by UTF-16 code units. */
  method SortKeys(keys: seq<string>) returns (sorted: seq<string>)
    requires DistinctStrings(keys)
    ensures KeysInOrder(sorted)
    ensures |sorted| == |keys| && forall k :: k in sorted <==> k in keys
  {
    sorted := [];
    for n := 0 to |keys|
      invariant |sorted| == n && KeysInOrder(sorted)
      invariant forall k :: k in sorted <==> k in keys[..n]
    {
      var k := keys[n];
      var i := |sorted|;
      while i > 0 && KeyBefore(k, sorted[i - 1])
        invariant 0 <= i <= |sorted|
        invariant forall j :: i <= j < |sorted| ==> KeyBefore(k, sorted[j])
      {
        i := i - 1;
      }
      PlaceKey(sorted, k, i);
      sorted := sorted[..i] + [k] + sorted[i..];
      assert keys[..n + 1] == keys[..n] + [k];
    }
    assert keys[..|keys|] == keys;
  }

  lemma PlaceKey(sorted: seq<string>, k: string, i: nat)
    requires KeysInOrder(sorted) && k !in sorted && i <= |sorted|
    requires i > 0 ==> !KeyBefore(k, sorted[i - 1])
    requires forall j :: i <= j < |sorted| ==> KeyBefore(k, sorted[j])
    ensures KeysInOrder(sorted[..i] + [k] + sorted[i..])
  {
    forall j | 0 <= j < i ensures KeyBefore(sorted[j], k) {
      KeyOrderTotal(k, sorted[i - 1]);
      if j < i - 1 {
        KeyOrderTransitive(sorted[j], sorted[i - 1], k);
      }
    }
  }

  /** Where `map.get` finds a key. */
  method Find(ms: seq<Member>, k: string) returns (i: nat)
    requires HasKey(ms, k)
    ensures i < |ms| && ms[i].key == k
  {
    i := 0;
    while ms[i].key != k
      invariant i < |ms|
      invariant forall j :: 0 <= j < i ==> ms[j].key != k
      decreases |ms| - i
    {
      i := i + 1;
    }
  }

  function Bare(keys: seq<string>): (ms: seq<Member>)
    ensures |ms| == |keys|
  {
    seq(|keys|, i requires 0 <= i < |keys| => Member(keys[i], Null))
  }

  lemma InBare(keys: seq<string>, m: Member)
    ensures m in Bare(keys) <==> m.key in keys && m.value == Null
  {
    if m.key in keys {
      var i :| 0 <= i < |keys| && keys[i] == m.key;
      assert Bare(keys)[i] == Member(m.key, Null);
    }
  }

  lemma SameKeysInOrder(a: seq<string>, b: seq<string>)
    requires KeysInOrder(a) && KeysInOrder(b) && forall k :: k in a <==> k in b
    ensures a == b
  {
    forall m ensures m in Bare(a) <==> m in Bare(b) {
      InBare(a, m);
      InBare(b, m);
    }
    SortedUnique(Bare(a), Bare(b));
    forall i | 0 <= i < |a| ensures a[i] == b[i] {
      assert Bare(a)[i] == Bare(b)[i];
    }
  }

  /** Walking the sorted keys visits the sorted members. */
  lemma KeysOfSorted(ms: seq<Member>, keys: seq<string>)
    requires DistinctKeys(ms) && KeysInOrder(keys) && |keys| == |ms|
    requires forall k :: k in keys <==> HasKey(ms, k)
    ensures var ns := Sorted(Obj(ms)).members;
            |ns| == |keys| && forall i :: 0 <= i < |keys| ==> ns[i].key == keys[i]
  {
    SortedObject(ms);
    var ns := Sorted(Obj(ms)).members;
    var names := seq(|ns|, i requires 0 <= i < |ns| => ns[i].key);
    forall k ensures k in keys <==> k in names {
      if HasKey(ns, k) {
        var j :| 0 <= j < |ns| && ns[j].key == k;
        assert names[j] == k;
      }
    }
    SameKeysInOrder(keys, names);
  }

  lemma SortedMembersOf(ms: seq<Member>)
    requires DistinctKeys(ms)
    ensures var sorted := Sorted(Obj(ms)).members;
            |sorted| == |ms| &&
            forall i, j :: 0 <= i < |ms| && 0 <= j < |ms| && sorted[i].key == ms[j].key ==>
              sorted[i].value == Sorted(ms[j].value)
  {
    SortedObject(ms);
    ValuesShape(ms);
    var a, b := SortedValues(ms), Sorted(Obj(ms)).members;
    InOrderDistinct(b);
    forall i, j | 0 <= i < |ms| && 0 <= j < |ms| && b[i].key == ms[j].key ensures b[i].value == Sorted(ms[j].value) {
      assert a[j] in a && a[j] in b;
    }
  }

  // ---- Appending one more item ----

  lemma RegroupAppend(a: seq<Byte>, b: seq<Byte>, c: seq<Byte>)
    ensures a + [COMMA] + (b + [COMMA] + c) == a + [COMMA] + b + [COMMA] + c
  {
  }

  lemma TailOfAppend<T>(s: seq<T>, x: T)
    requires s != []
    ensures (s + [x])[0] == s[0] && (s + [x])[1..] == s[1..] + [x] && |s + [x]| > 1
    ensures |s| == 1 ==> s[1..] + [x] == [x]
  {
  }

  lemma {:induction false} PrintItemsAppend(items: seq<Value>, v: Value)
    ensures PrintItems(items + [v]) == if items == [] then Print(v) else PrintItems(items) + [COMMA] + Print(v)
  {
    if items == [] {
      assert items + [v] == [v];
    } else {
      TailOfAppend(items, v);
      if |items| > 1 {
        PrintItemsAppend(items[1..], v);
        RegroupAppend(Print(items[0]), PrintItems(items[1..]), Print(v));
      }
    }
  }

  lemma {:induction false} PrintMembersAppend(ms: seq<Member>, m: Member)
    ensures PrintMembers(ms + [m]) == if ms == [] then PrintMember(m) else PrintMembers(ms) + [COMMA] + PrintMember(m)
  {
    if ms == [] {
      assert ms + [m] == [m];
    } else {
      TailOfAppend(ms, m);
      if |ms| > 1 {
        PrintMembersAppend(ms[1..], m);
        RegroupAppend(PrintMember(ms[0]), PrintMembers(ms[1..]), PrintMember(m));
      }
    }
  }

  lemma RegroupPieces(a: seq<Byte>, b: seq<Byte>, c: seq<Byte>)
    ensures a + b + [COMMA] + c == a + (b + [COMMA] + c)
    ensures a + [] == a
  {
  }

  lemma TakeNext<T>(s: seq<T>, i: nat)
    requires 0 < i <= |s|
    ensures s[..i] == s[..i - 1] + [s[i - 1]] && (s[..i - 1] == [] <==> i == 1)
  {
  }

  // ---- The writer ----

  lemma {:induction false} EscapeAppend(s: string, c: char)
    ensures Escape(s + [c]) == Escape(s) + EscapeChar(c)
  {
    if s == [] {
      assert s + [c] == [c];
      assert Escape([c]) == EscapeChar(c) + Escape([c][1..]);
    } else {
      assert (s + [c])[1..] == s[1..] + [c];
      EscapeAppend(s[1..], c);
    }
  }

  lemma EscapeStep(before: seq<Byte>, s: string, i: nat)
    requires i < |s|
    ensures before + Escape(s[..i + 1]) == before + Escape(s[..i]) + EscapeChar(s[i])
  {
    EscapeAppend(s[..i], s[i]);
    assert s[..i + 1] == s[..i] + [s[i]];
  }

  method WriteString(s: string, out: Buffer)
    modifies out
    ensures out.data == old(out.data) + PrintString(s)
  {
    out.data := out.data + [QUOTE];
    ghost var before := out.data;
    for i := 0 to |s|
      invariant out.data == before + Escape(s[..i])
    {
      EscapeStep(before, s, i);
      out.data := out.data + EscapeChar(s[i]);
    }
    assert s[..|s|] == s;
    out.data := out.data + [QUOTE];
    Regroup3(old(out.data), [QUOTE], Escape(s));
    Regroup3(old(out.data), [QUOTE] + Escape(s), [QUOTE]);
  }

  method WriteNumber(num: Number, out: Buffer) returns (r: Result<(), CanonicalizeError>)
    requires WellFormed(Num(num))
    modifies out
    ensures num.Integer? ==> r.Ok? && out.data == old(out.data) + PrintInteger(num.n)
    ensures num.Float? ==>
              r == Err(if num.finite then FloatNotAllowed(num) else NonFinite(num)) && out.data == old(out.data)
  {
    if num.Integer? && IsI64(num.n) {
      out.data := out.data + PrintInteger(num.n);
      return Ok(());
    }
    if num.Integer? && IsU64(num.n) {
      out.data := out.data + PrintInteger(num.n);
      return Ok(());
    }
    if !num.finite {
      return Err(NonFinite(num));
    }
    return Err(FloatNotAllowed(num));
  }

  /** The error is that of the first float in `sorted`. */
  ghost predicate Failed(sorted: Value, r: Result<(), CanonicalizeError>)
  {
    r.Err? && FirstFloat(sorted).Some? && r.error == NumberError(FirstFloat(sorted).value)
  }

  /** What appending a value must achieve: the canonical bytes after what was there, or the first float's error. */
  ghost predicate Wrote(v: Value, before: seq<Byte>, after: seq<Byte>, r: Result<(), CanonicalizeError>)
  {
    if r.Ok? then FloatFree(Sorted(v)) && after == before + Print(Sorted(v)) else Failed(Sorted(v), r)
  }

  method WriteValue(v: Value, out: Buffer) returns (r: Result<(), CanonicalizeError>)
    requires WellFormed(v)
    modifies out
    ensures Wrote(v, old(out.data), out.data, r)
    decreases v, 4
  {
    match v
    case Null =>
      out.data := out.data + NULL;
      r := Ok(());
    case Bool(b) =>
      if b {
        out.data := out.data + TRUE;
      } else {
        out.data := out.data + FALSE;
      }
      r := Ok(());
    case Num(num) =>
      r := WriteNumber(num, out);
    case Str(s) =>
      WriteString(s, out);
      r := Ok(());
    case Arr(items) =>
      r := WriteArray(items, v, out);
    case Obj(ms) =>
      r := WriteObject(ms, v, out);
  }

  /** The buffer once the first `i` items of a sorted array are written, piece by piece. */
  ghost function ItemsDone(before: seq<Byte>, sorted: seq<Value>, i: nat): seq<Byte>
    requires i <= |sorted|
  {
    if i == 0 then before + [OPEN_BRACKET]
    else if i == 1 then ItemsDone(before, sorted, 0) + Print(sorted[0])
    else ItemsDone(before, sorted, i - 1) + [COMMA] + Print(sorted[i - 1])
  }

  lemma {:induction false} ItemsPieces(before: seq<Byte>, sorted: seq<Value>, i: nat)
    requires i <= |sorted|
    ensures ItemsDone(before, sorted, i) == before + [OPEN_BRACKET] + PrintItems(sorted[..i])
  {
    if i > 0 {
      ItemsPieces(before, sorted, i - 1);
      PrintItemsAppend(sorted[..i - 1], sorted[i - 1]);
      TakeNext(sorted, i);
      RegroupPieces(before + [OPEN_BRACKET], PrintItems(sorted[..i - 1]), Print(sorted[i - 1]));
    }
  }

  lemma ArrayText(before: seq<Byte>, sorted: seq<Value>)
    ensures ItemsDone(before, sorted, |sorted|) + [CLOSE_BRACKET] == before + Print(Arr(sorted))
  {
    assert sorted[..|sorted|] == sorted;
    ItemsPieces(before, sorted, |sorted|);
    Regroup4(before, [OPEN_BRACKET], PrintItems(sorted), [CLOSE_BRACKET]);
  }

  lemma ArrayDone(items: seq<Value>, before: seq<Byte>)
    requires FirstFloatOfItems(SortedItems(items)).None?
    ensures FloatFree(Sorted(Arr(items)))
    ensures ItemsDone(before, SortedItems(items), |items|) + [CLOSE_BRACKET] == before + Print(Sorted(Arr(items)))
  {
    var sorted := SortedItems(items);
    FirstFloatInItems(sorted);
    ArrayText(before, sorted);
  }

  ghost predicate SortOf(items: seq<Value>, sorted: seq<Value>)
  {
    |sorted| == |items| && forall i :: 0 <= i < |items| ==> sorted[i] == Sorted(items[i])
  }

  method WriteItems(items: seq<Value>, ghost v: Value, ghost sorted: seq<Value>, ghost before: seq<Byte>, out: Buffer)
    returns (r: Result<(), CanonicalizeError>)
    requires v == Arr(items) && WellFormed(v) && SortOf(items, sorted)
    requires out.data == ItemsDone(before, sorted, 0)
    modifies out
    ensures r.Ok? ==> out.data == ItemsDone(before, sorted, |items|)
    ensures if r.Ok? then FirstFloatOfItems(sorted).None?
            else FirstFloatOfItems(sorted).Some? && r.error == NumberError(FirstFloatOfItems(sorted).value)
    decreases v, 1
  {
    for i := 0 to |items|
      invariant FirstFloatOfItems(sorted) == FirstFloatOfItems(sorted[i..])
      invariant out.data == ItemsDone(before, sorted, i)
    {
      if i > 0 {
        out.data := out.data + [COMMA];
      }
      FirstFloatExactly(sorted[i]);
      r := WriteValue(items[i], out);
      if r.Err? {
        return;
      }
      assert sorted[i..][1..] == sorted[i + 1..];
    }
    r := Ok(());
  }

  method WriteArray(items: seq<Value>, ghost v: Value, out: Buffer) returns (r: Result<(), CanonicalizeError>)
    requires v == Arr(items) && WellFormed(v)
    modifies out
    ensures Wrote(v, old(out.data), out.data, r)
    decreases v, 2
  {
    ghost var before := out.data;
    out.data := out.data + [OPEN_BRACKET];
    ItemsShape(items);
    r := WriteItems(items, v, SortedItems(items), before, out);
    if r.Ok? {
      out.data := out.data + [CLOSE_BRACKET];
      ArrayDone(items, before);
    }
  }

  /** The buffer once the first `i` members of a sorted object are written, piece by piece. */
  ghost function MembersDone(before: seq<Byte>, sorted: seq<Member>, i: nat): seq<Byte>
    requires i <= |sorted|
  {
    if i == 0 then before + [OPEN_BRACE]
    else if i == 1 then MembersDone(before, sorted, 0) + PrintMember(sorted[0])
    else MembersDone(before, sorted, i - 1) + [COMMA] + PrintMember(sorted[i - 1])
  }

  lemma {:induction false} MembersPieces(before: seq<Byte>, sorted: seq<Member>, i: nat)
    requires i <= |sorted|
    ensures MembersDone(before, sorted, i) == before + [OPEN_BRACE] + PrintMembers(sorted[..i])
  {
    if i > 0 {
      MembersPieces(before, sorted, i - 1);
      PrintMembersAppend(sorted[..i - 1], sorted[i - 1]);
      TakeNext(sorted, i);
      RegroupPieces(before + [OPEN_BRACE], PrintMembers(sorted[..i - 1]), PrintMember(sorted[i - 1]));
    }
  }

  lemma ObjectText(before: seq<Byte>, sorted: seq<Member>)
    ensures MembersDone(before, sorted, |sorted|) + [CLOSE_BRACE] == before + Print(Obj(sorted))
  {
    assert sorted[..|sorted|] == sorted;
    MembersPieces(before, sorted, |sorted|);
    Regroup4(before, [OPEN_BRACE], PrintMembers(sorted), [CLOSE_BRACE]);
  }

  lemma ObjectDone(ms: seq<Member>, before: seq<Byte>)
    requires FirstFloatOfMembers(Sorted(Obj(ms)).members).None?
    ensures FloatFree(Sorted(Obj(ms)))
    ensures MembersDone(before, Sorted(Obj(ms)).members, |ms|) + [CLOSE_BRACE] == before + Print(Sorted(Obj(ms)))
  {
    var sorted := Sorted(Obj(ms)).members;
    FirstFloatInMembers(sorted);
    ObjectText(before, sorted);
  }

  /** `m` is the member of `ms` with this key, its value sorted. */
  ghost predicate SortOfMember(ms: seq<Member>, key: string, m: Member)
  {
    m.key == key && HasKey(ms, key) && forall j :: 0 <= j < |ms| && ms[j].key == key ==> m.value == Sorted(ms[j].value)
  }

  /** The first `n` members of `sorted` are those of `ms` under the first `n` keys. */
  ghost predicate SortOfMembers(ms: seq<Member>, keys: seq<string>, sorted: seq<Member>, n: nat)
    requires n <= |keys| == |sorted|
  {
    n == 0 || (SortOfMember(ms, keys[n - 1], sorted[n - 1]) && SortOfMembers(ms, keys, sorted, n - 1))
  }

  lemma {:induction false} SortOfMembersAt(ms: seq<Member>, keys: seq<string>, sorted: seq<Member>, n: nat, i: nat)
    requires i < n <= |keys| == |sorted| && SortOfMembers(ms, keys, sorted, n)
    ensures SortOfMember(ms, keys[i], sorted[i])
    decreases n
  {
    if i < n - 1 {
      SortOfMembersAt(ms, keys, sorted, n - 1, i);
    }
  }

  lemma {:induction false} SortOfMembersFrom(ms: seq<Member>, keys: seq<string>, sorted: seq<Member>, n: nat)
    requires n <= |keys| == |sorted| && forall i :: 0 <= i < n ==> SortOfMember(ms, keys[i], sorted[i])
    ensures SortOfMembers(ms, keys, sorted, n)
  {
    if n > 0 {
      SortOfMembersFrom(ms, keys, sorted, n - 1);
    }
  }

  method SortedKeysOf(ms: seq<Member>) returns (keys: seq<string>)
    requires DistinctKeys(ms)
    ensures |keys| == |ms| == |Sorted(Obj(ms)).members|
    ensures SortOfMembers(ms, keys, Sorted(Obj(ms)).members, |ms|)
  {
    var unsorted := seq(|ms|, i requires 0 <= i < |ms| => ms[i].key);
    keys := SortKeys(unsorted);
    SameKeys(ms, unsorted, keys);
    KeysOfSorted(ms, keys);
    assert forall i :: 0 <= i < |ms| ==> keys[i] in keys;
    SortedMembersOf(ms);
    SortOfMembersFrom(ms, keys, Sorted(Obj(ms)).members, |ms|);
  }

  /** The `i`-th member of the sorted object, found by its key. */
  method WriteMember(ms: seq<Member>, keys: seq<string>, i: nat, ghost v: Value, ghost sorted: seq<Member>, out: Buffer)
    returns (r: Result<(), CanonicalizeError>)
    requires v == Obj(ms) && WellFormed(v) && i < |keys| == |sorted| && SortOfMembers(ms, keys, sorted, |keys|)
    modifies out
    ensures r.Ok? ==> FirstFloat(sorted[i].value).None? && out.data == old(out.data) + PrintMember(sorted[i])
    ensures r.Err? ==> Failed(sorted[i].value, r)
    decreases v, 0
  {
    SortOfMembersAt(ms, keys, sorted, |keys|, i);
    FirstFloatExactly(sorted[i].value);
    WriteString(keys[i], out);
    out.data := out.data + [COLON];
    var j := Find(ms, keys[i]);
    r := WriteValue(ms[j].value, out);
    Regroup3(old(out.data), PrintString(keys[i]), [COLON]);
    Regroup3(old(out.data), PrintString(keys[i]) + [COLON], Print(sorted[i].value));
  }

  lemma FirstFloatNext(sorted: seq<Member>, i: nat)
    requires i < |sorted|
    ensures FirstFloatOfMembers(sorted[i..]) ==
              if FirstFloat(sorted[i].value).Some? then FirstFloat(sorted[i].value)
              else FirstFloatOfMembers(sorted[i + 1..])
  {
    assert sorted[i..][1..] == sorted[i + 1..];
  }

  method WriteNextMember(ms: seq<Member>, keys: seq<string>, i: nat, ghost v: Value, ghost sorted: seq<Member>,
                         ghost before: seq<Byte>, out: Buffer)
    returns (r: Result<(), CanonicalizeError>)
    requires v == Obj(ms) && WellFormed(v) && i < |keys| == |sorted| && SortOfMembers(ms, keys, sorted, |keys|)
    requires out.data == MembersDone(before, sorted, i)
    modifies out
    ensures r.Ok? ==> FirstFloat(sorted[i].value).None? && out.data == MembersDone(before, sorted, i + 1)
    ensures r.Err? ==> Failed(sorted[i].value, r)
    decreases v, 1
  {
    if i > 0 {
      out.data := out.data + [COMMA];
    }
    r := WriteMember(ms, keys, i, v, sorted, out);
  }

  method WriteMembers(ms: seq<Member>, keys: seq<string>, ghost v: Value, ghost sorted: seq<Member>,
                      ghost before: seq<Byte>, out: Buffer)
    returns (r: Result<(), CanonicalizeError>)
    requires v == Obj(ms) && WellFormed(v) && |keys| == |sorted| && SortOfMembers(ms, keys, sorted, |keys|)
    requires out.data == MembersDone(before, sorted, 0)
    modifies out
    ensures r.Ok? ==> out.data == MembersDone(before, sorted, |sorted|)
    ensures if r.Ok? then FirstFloatOfMembers(sorted).None?
            else FirstFloatOfMembers(sorted).Some? && r.error == NumberError(FirstFloatOfMembers(sorted).value)
    decreases v, 2
  {
    for i := 0 to |keys|
      invariant FirstFloatOfMembers(sorted) == FirstFloatOfMembers(sorted[i..])
      invariant out.data == MembersDone(before, sorted, i)
    {
      FirstFloatNext(sorted, i);
      r := WriteNextMember(ms, keys, i, v, sorted, before, out);
      if r.Err? {
        return;
      }
    }
    r := Ok(());
  }

  method WriteObject(ms: seq<Member>, ghost v: Value, out: Buffer) returns (r: Result<(), CanonicalizeError>)
    requires v == Obj(ms) && WellFormed(v)
    modifies out
    ensures Wrote(v, old(out.data), out.data, r)
    decreases v, 3
  {
    var keys := SortedKeysOf(ms);
    ghost var before := out.data;
    out.data := out.data + [OPEN_BRACE];
    r := WriteMembers(ms, keys, v, Sorted(v).members, before, out);
    if r.Ok? {
      out.data := out.data + [CLOSE_BRACE];
      ObjectDone(ms, before);
    }
  }

  lemma SameKeys(ms: seq<Member>, keys: seq<string>, sorted: seq<string>)
    requires |keys| == |ms| && forall i :: 0 <= i < |ms| ==> keys[i] == ms[i].key
    requires forall k :: k in sorted <==> k in keys
    ensures forall k :: k in sorted <==> HasKey(ms, k)
  {
    forall k ensures k in keys <==> HasKey(ms, k) {
      if HasKey(ms, k) {
        var i :| 0 <= i < |ms| && ms[i].key == k;
        assert keys[i] == k;
      }
    }
  }

  /** The entry point: a fresh buffer, dropped on error. */
  method CanonicalizeValue(v: Value) returns (r: Result<seq<Byte>, CanonicalizeError>)
    requires WellFormed(v)
    ensures r == Canonicalize(v)
  {
    var out := new Buffer();
    var w := WriteValue(v, out);
    if w.Err? {
      return Err(w.error);
    }
    FirstFloatExactly(Sorted(v));
    assert [] + Print(Sorted(v)) == Print(Sorted(v));
    return Ok(out.data);
  }
}
