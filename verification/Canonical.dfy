/**
 `canonicalize`: the canonical bytes of a JSON value, the writer that produces them, and what makes
 them fit to be signed and hashed (crates/sda-device-control/src/canonicalize.rs:47-150).
 */
module Canonical {
  import opened Wrappers
  import opened Utf8
  import opened Json
  import opened JsonText

  datatype CanonicalizeError = FloatNotAllowed(num: Number) | NonFinite(num: Number)

  function NumberError(num: Number): CanonicalizeError
    requires num.Float?
  {
    if num.finite then FloatNotAllowed(num) else NonFinite(num)
  }

  /** The first float the printer meets. */
  function FirstFloat(v: Value): (r: Option<Number>)
    ensures r.Some? ==> r.value.Float?
    decreases v, 1
  {
    match v
    case Num(num) => if num.Float? then Some(num) else None
    case Arr(items) => FirstFloatOfItems(items)
    case Obj(ms) => FirstFloatOfMembers(ms)
    case _ => None
  }

  function FirstFloatOfItems(items: seq<Value>): (r: Option<Number>)
    ensures r.Some? ==> r.value.Float?
    decreases items, 0
  {
    if items == [] then None
    else
      var first := FirstFloat(items[0]);
      if first.Some? then first else FirstFloatOfItems(items[1..])
  }

  function FirstFloatOfMembers(ms: seq<Member>): (r: Option<Number>)
    ensures r.Some? ==> r.value.Float?
    decreases ms, 0
  {
    if ms == [] then None
    else
      var first := FirstFloat(ms[0].value);
      if first.Some? then first else FirstFloatOfMembers(ms[1..])
  }

  /** There is a first float exactly when the value is not float-free. */
  lemma {:induction false} FirstFloatExactly(v: Value)
    ensures FirstFloat(v).None? <==> FloatFree(v)
    decreases v, 1
  {
    match v
    case Arr(items) => FirstFloatInItems(items);
    case Obj(ms) => FirstFloatInMembers(ms);
    case _ =>
  }

  // ---- The first float is the first one printed ----

  /** The scalars of a value in the order the printer writes them. */
  function Leaves(v: Value): seq<Value>
    decreases v, 1
  {
    match v
    case Arr(items) => LeavesOfItems(items)
    case Obj(ms) => LeavesOfMembers(ms)
    case _ => [v]
  }

  function LeavesOfItems(items: seq<Value>): seq<Value>
    decreases items, 0
  {
    if items == [] then [] else Leaves(items[0]) + LeavesOfItems(items[1..])
  }

  function LeavesOfMembers(ms: seq<Member>): seq<Value>
    decreases ms, 0
  {
    if ms == [] then [] else Leaves(ms[0].value) + LeavesOfMembers(ms[1..])
  }

  predicate IsFloat(v: Value) { v.Num? && v.num.Float? }

  /** `r` is the first float among these scalars, or there is none. */
  ghost predicate IsFirst(leaves: seq<Value>, r: Option<Number>)
  {
    match r
    case None => forall i :: 0 <= i < |leaves| ==> !IsFloat(leaves[i])
    case Some(n) => exists i :: 0 <= i < |leaves| && leaves[i] == Num(n) && IsFloat(leaves[i])
                             && forall k :: 0 <= k < i ==> !IsFloat(leaves[k])
  }

  lemma FirstOfBoth(a: seq<Value>, b: seq<Value>, x: Option<Number>, y: Option<Number>)
    requires IsFirst(a, x) && IsFirst(b, y)
    ensures IsFirst(a + b, if x.Some? then x else y)
  {
    if x.Some? {
      var i :| 0 <= i < |a| && a[i] == Num(x.value) && IsFloat(a[i]) && forall k :: 0 <= k < i ==> !IsFloat(a[k]);
      assert (a + b)[i] == a[i];
    } else if y.Some? {
      var i :| 0 <= i < |b| && b[i] == Num(y.value) && IsFloat(b[i]) && forall k :: 0 <= k < i ==> !IsFloat(b[k]);
      assert (a + b)[|a| + i] == b[i];
      assert forall k :: |a| <= k < |a| + i ==> (a + b)[k] == b[k - |a|];
    }
  }

  /** The float the writer reports is the first one it would print: no scalar before it is a float. */
  lemma {:induction false} FirstFloatIsFirst(v: Value)
    ensures IsFirst(Leaves(v), FirstFloat(v))
    decreases v, 1
  {
    match v
    case Arr(items) => FirstFloatOfItemsIsFirst(items);
    case Obj(ms) => FirstFloatOfMembersIsFirst(ms);
    case _ => assert Leaves(v)[0] == v;
  }

  lemma {:induction false} FirstFloatOfItemsIsFirst(items: seq<Value>)
    ensures IsFirst(LeavesOfItems(items), FirstFloatOfItems(items))
    decreases items, 0
  {
    if items != [] {
      FirstFloatIsFirst(items[0]);
      FirstFloatOfItemsIsFirst(items[1..]);
      FirstOfBoth(Leaves(items[0]), LeavesOfItems(items[1..]), FirstFloat(items[0]), FirstFloatOfItems(items[1..]));
    }
  }

  lemma {:induction false} FirstFloatOfMembersIsFirst(ms: seq<Member>)
    ensures IsFirst(LeavesOfMembers(ms), FirstFloatOfMembers(ms))
    decreases ms, 0
  {
    if ms != [] {
      FirstFloatIsFirst(ms[0].value);
      FirstFloatOfMembersIsFirst(ms[1..]);
      FirstOfBoth(Leaves(ms[0].value), LeavesOfMembers(ms[1..]), FirstFloat(ms[0].value), FirstFloatOfMembers(ms[1..]));
    }
  }

  // ---- A first float exists exactly when there is a float ----

  lemma {:induction false} FirstFloatInItems(items: seq<Value>)
    ensures FirstFloatOfItems(items).None? <==> forall i :: 0 <= i < |items| ==> FloatFree(items[i])
    decreases items, 0
  {
    if items != [] {
      FirstFloatExactly(items[0]);
      FirstFloatInItems(items[1..]);
    }
  }

  lemma {:induction false} FirstFloatInMembers(ms: seq<Member>)
    ensures FirstFloatOfMembers(ms).None? <==> forall i :: 0 <= i < |ms| ==> FloatFree(ms[i].value)
    decreases ms, 0
  {
    if ms != [] {
      FirstFloatExactly(ms[0].value);
      FirstFloatInMembers(ms[1..]);
    }
  }

  /** What `canonicalize` returns: the sorted value printed, or the first float in that order. */
  function Canonicalize(v: Value): Result<seq<Byte>, CanonicalizeError>
  {
    var first := FirstFloat(Sorted(v));
    if first.Some? then Err(NumberError(first.value)) else Ok(Print(Sorted(v)))
  }

  lemma {:induction false} SortedFloatFree(v: Value)
    ensures FloatFree(Sorted(v)) <==> FloatFree(v)
  {
    match v
    case Arr(items) =>
      ItemsShape(items);
      forall i | 0 <= i < |items| ensures FloatFree(SortedItems(items)[i]) <==> FloatFree(items[i]) {
        SortedFloatFree(items[i]);
      }
    case Obj(ms) =>
      ValuesShape(ms);
      var a := SortedValues(ms);
      var b := SortMembers(a);
      SortContents(a);
      SameElements(b, a);
      forall i | 0 <= i < |ms| ensures FloatFree(a[i].value) <==> FloatFree(ms[i].value) {
        SortedFloatFree(ms[i].value);
      }
      if FloatFree(v) {
        forall i | 0 <= i < |b| ensures FloatFree(b[i].value) {
          assert b[i] in a;
        }
      }
      if FloatFree(Sorted(v)) {
        forall i | 0 <= i < |ms| ensures FloatFree(ms[i].value) {
          assert a[i] in b;
        }
      }
    case _ =>
  }

  // ---- Main results ----

  /** Canonical bytes exist exactly for float-free values. */
  lemma CanonicalExactly(v: Value)
    ensures Canonicalize(v).Ok? <==> FloatFree(v)
    ensures FloatFree(v) ==> FloatFree(Sorted(v)) && Canonicalize(v) == Ok(Print(Sorted(v)))
  {
    SortedFloatFree(v);
    FirstFloatExactly(Sorted(v));
  }

  /**
   The canonical bytes are those of the abstract value and of no other: two float-free values have equal
   bytes exactly when they are equal up to the order of object members at every depth.
   */
  lemma CanonicalIffSame(v: Value, w: Value)
    requires WellFormed(v) && WellFormed(w) && FloatFree(v) && FloatFree(w)
    ensures Canonicalize(v) == Canonicalize(w) <==> Same(v, w)
  {
    CanonicalExactly(v);
    CanonicalExactly(w);
    if Canonicalize(v) == Canonicalize(w) {
      ValueRoundTrip(Sorted(v), []);
      ValueRoundTrip(Sorted(w), []);
      assert Print(Sorted(v)) + [] == Print(Sorted(w)) + [];
      SortsSame(v, w);
    }
    if Same(v, w) {
      SameSorts(v, w);
    }
  }

  /**
   Canonical bytes are self-delimiting: followed by bytes that cannot continue a number, they decode to the
   sorted value.
   */
  lemma CanonicalDecodes(v: Value, rest: seq<Byte>)
    requires WellFormed(v) && FloatFree(v) && EndsNumber(rest)
    ensures Canonicalize(v).Ok? && ParseValue(Canonicalize(v).value + rest) == Some((Sorted(v), rest))
    ensures WellFormed(Sorted(v)) && Same(v, Sorted(v))
  {
    CanonicalExactly(v);
    ValueRoundTrip(Sorted(v), rest);
    SortedIsSame(v);
  }

  /** The whole of the canonical bytes is read, and as the same value. */
  lemma CanonicalReads(v: Value)
    requires WellFormed(v) && FloatFree(v)
    ensures Canonicalize(v).Ok? && ParseValue(Canonicalize(v).value) == Some((Sorted(v), []))
    ensures Same(v, Sorted(v))
  {
    CanonicalDecodes(v, []);
    assert Canonicalize(v).value + [] == Canonicalize(v).value;
  }

  /** Sorting changes nothing but the order of members, and sorting again changes nothing. */
  lemma {:induction false} SortedIsSame(v: Value)
    requires WellFormed(v)
    ensures WellFormed(Sorted(v)) && Same(v, Sorted(v)) && Sorted(Sorted(v)) == Sorted(v)
  {
    match v
    case Arr(items) =>
      forall i | 0 <= i < |items|
        ensures WellFormed(Sorted(items[i])) && Same(items[i], Sorted(items[i])) &&
                Sorted(Sorted(items[i])) == Sorted(items[i])
      {
        SortedIsSame(items[i]);
      }
      ItemsShape(items);
      ItemsShape(SortedItems(items));
      assert SortedItems(SortedItems(items)) == SortedItems(items);
    case Obj(ms) =>
      SortedObject(ms);
      ValuesShape(ms);
      var a, b := SortedValues(ms), Sorted(v).members;
      InOrderDistinct(b);
      forall i | 0 <= i < |ms|
        ensures WellFormed(a[i].value) && Same(ms[i].value, a[i].value) && Sorted(a[i].value) == a[i].value
      {
        SortedIsSame(ms[i].value);
      }
      forall j | 0 <= j < |b| ensures WellFormed(b[j].value) && Sorted(b[j].value) == b[j].value {
        assert b[j] in a;
      }
      forall i, j | 0 <= i < |ms| && 0 <= j < |b| && ms[i].key == b[j].key ensures b[j] == a[i] {
        assert a[i] in a;
        assert a[i] in b;
      }
      ValuesShape(b);
      assert SortedValues(b) == b;
      SortedObject(b);
      SortedUnique(Sorted(Obj(b)).members, b);
    case _ =>
  }

  // ---- Canonical bytes are UTF-8 ----

  lemma Utf8Concat(s: seq<Byte>, t: seq<Byte>)
    requires IsUtf8(s) && IsUtf8(t)
    ensures IsUtf8(s + t)
  {
    EncodeOfDecode(s);
    EncodeOfDecode(t);
    EncodeConcat(Decode(s).value, Decode(t).value);
    DecodeOfEncode(Decode(s).value + Decode(t).value);
  }

  lemma {:induction false} Utf8Ascii(s: seq<Byte>)
    requires forall i :: 0 <= i < |s| ==> s[i] < 0x80
    ensures IsUtf8(s)
  {
    if s != [] {
      Utf8Ascii(s[1..]);
      DecodeOfEncode([s[0] as char]);
      assert Encode([s[0] as char]) == [s[0]];
      Utf8Concat([s[0]], s[1..]);
      assert s == [s[0]] + s[1..];
    }
  }

  lemma Utf8Encoded(s: string, bytes: seq<Byte>)
    requires bytes == Encode(s)
    ensures IsUtf8(bytes)
  {
    DecodeOfEncode(s);
  }

  lemma Utf8Char(c: char)
    ensures IsUtf8(EncodeChar(c))
  {
    assert Encode([c]) == EncodeChar(c) + Encode([c][1..]);
    Utf8Encoded([c], EncodeChar(c));
  }

  lemma EscapedIsAscii(c: char)
    ensures EscapeChar(c) == EncodeChar(c) || forall b :: b in EscapeChar(c) ==> b < 0x80
  {
  }

  lemma Utf8EscapeChar(c: char)
    ensures IsUtf8(EscapeChar(c))
  {
    EscapedIsAscii(c);
    if EscapeChar(c) == EncodeChar(c) {
      Utf8Char(c);
    } else {
      Utf8Ascii(EscapeChar(c));
    }
  }

  lemma {:induction false} Utf8Escape(s: string)
    ensures IsUtf8(Escape(s))
  {
    if s != [] {
      Utf8Escape(s[1..]);
      Utf8EscapeChar(s[0]);
      Utf8Concat(EscapeChar(s[0]), Escape(s[1..]));
    }
  }

  lemma Utf8String(s: string)
    ensures IsUtf8(PrintString(s))
  {
    Utf8Ascii([QUOTE]);
    Utf8Escape(s);
    Utf8Concat([QUOTE], Escape(s));
    Utf8Concat([QUOTE] + Escape(s), [QUOTE]);
  }

  lemma Utf8Wrapped(open: Byte, s: seq<Byte>, close: Byte)
    requires open < 0x80 && close < 0x80 && IsUtf8(s)
    ensures IsUtf8([open] + s + [close])
  {
    Utf8Ascii([open]);
    Utf8Ascii([close]);
    Utf8Concat([open], s);
    Utf8Concat([open] + s, [close]);
  }

  lemma Utf8Joined(s: seq<Byte>, sep: Byte, t: seq<Byte>)
    requires IsUtf8(s) && sep < 0x80 && IsUtf8(t)
    ensures IsUtf8(s + [sep] + t)
  {
    Utf8Ascii([sep]);
    Utf8Concat(s, [sep]);
    Utf8Concat(s + [sep], t);
  }

  /** Printed JSON is always UTF-8. */
  lemma {:induction false} PrintIsUtf8(v: Value)
    ensures IsUtf8(Print(v))
    decreases v, 1
  {
    match v
    case Str(s) => Utf8String(s);
    case Num(Float(_, text)) => DecodeOfEncode(text);
    case Arr(items) =>
      ItemsAreUtf8(items);
      Utf8Wrapped(OPEN_BRACKET, PrintItems(items), CLOSE_BRACKET);
    case Obj(ms) =>
      MembersAreUtf8(ms);
      Utf8Wrapped(OPEN_BRACE, PrintMembers(ms), CLOSE_BRACE);
    case _ => Utf8Ascii(Print(v));
  }

  lemma {:induction false} ItemsAreUtf8(items: seq<Value>)
    ensures IsUtf8(PrintItems(items))
    decreases items, 0
  {
    if items != [] {
      PrintIsUtf8(items[0]);
      if |items| > 1 {
        ItemsAreUtf8(items[1..]);
        Utf8Joined(Print(items[0]), COMMA, PrintItems(items[1..]));
      }
    }
  }

  lemma {:induction false} MembersAreUtf8(ms: seq<Member>)
    ensures IsUtf8(PrintMembers(ms))
    decreases ms, 0
  {
    if ms != [] {
      Utf8String(ms[0].key);
      PrintIsUtf8(ms[0].value);
      Utf8Joined(PrintString(ms[0].key), COLON, Print(ms[0].value));
      if |ms| > 1 {
        MembersAreUtf8(ms[1..]);
        Utf8Joined(PrintMember(ms[0]), COMMA, PrintMembers(ms[1..]));
      }
    }
  }

  /** `String::from_utf8` never fails on canonical bytes. */
  lemma CanonicalIsUtf8(v: Value)
    requires FloatFree(v)
    ensures Canonicalize(v).Ok? && IsUtf8(Canonicalize(v).value)
  {
    CanonicalExactly(v);
    PrintIsUtf8(Sorted(v));
  }

  // ---- Sorting keeps the length ----

  lemma MembersLength(m: Member, ms: seq<Member>)
    ensures |PrintMembers([m] + ms)| == |PrintMember(m)| + |PrintMembers(ms)| + if ms == [] then 0 else 1
  {
    assert ([m] + ms)[1..] == ms;
  }

  lemma {:induction false} InsertLength(m: Member, ms: seq<Member>)
    ensures |PrintMembers(Insert(m, ms))| == |PrintMembers([m] + ms)|
  {
    if ms != [] && !KeyBefore(m.key, ms[0].key) {
      InsertLength(m, ms[1..]);
      MembersLength(ms[0], Insert(m, ms[1..]));
      MembersLength(m, ms[1..]);
      MembersLength(m, ms);
      MembersLength(ms[0], ms[1..]);
      assert ms == [ms[0]] + ms[1..];
    }
  }

  lemma {:induction false} SortLength(ms: seq<Member>)
    ensures |PrintMembers(SortMembers(ms))| == |PrintMembers(ms)|
  {
    if ms != [] {
      SortLength(ms[1..]);
      InsertLength(ms[0], SortMembers(ms[1..]));
      MembersLength(ms[0], SortMembers(ms[1..]));
      MembersLength(ms[0], ms[1..]);
      assert ms == [ms[0]] + ms[1..];
    }
  }

  /** The canonical form of a value is exactly as long as its compact form. */
  lemma {:induction false} SortedLength(v: Value)
    ensures |Print(Sorted(v))| == |Print(v)|
    decreases v, 1
  {
    match v
    case Arr(items) => ItemsSortedLength(items);
    case Obj(ms) =>
      MembersSortedLength(ms);
      SortLength(SortedValues(ms));
    case _ =>
  }

  lemma {:induction false} ItemsSortedLength(items: seq<Value>)
    ensures |PrintItems(SortedItems(items))| == |PrintItems(items)|
    decreases items, 0
  {
    if items != [] {
      SortedLength(items[0]);
      ItemsSortedLength(items[1..]);
      assert SortedItems(items)[1..] == SortedItems(items[1..]);
    }
  }

  lemma {:induction false} MembersSortedLength(ms: seq<Member>)
    ensures |PrintMembers(SortedValues(ms))| == |PrintMembers(ms)|
    decreases ms, 0
  {
    if ms != [] {
      SortedLength(ms[0].value);
      MembersSortedLength(ms[1..]);
      assert SortedValues(ms)[1..] == SortedValues(ms[1..]);
    }
  }
}
