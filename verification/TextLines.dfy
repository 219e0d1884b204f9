/** Text cut at a separator, text put together from pieces that do not contain it, and trimming. */
module TextLines {
  predicate Free(s: string, c: char) { c !in s }

  /** Pieces, each followed by the separator. */
  function Joined(pieces: seq<string>, sep: char): string
  {
    if pieces == [] then "" else pieces[0] + [sep] + Joined(pieces[1..], sep)
  }

  /** Pieces with the separator between them. */
  function Separated(pieces: seq<string>, sep: char): string
    requires pieces != []
  {
    if |pieces| == 1 then pieces[0] else pieces[0] + [sep] + Separated(pieces[1..], sep)
  }

  /** Everything before the first separator; all of it if there is none. */
  function Head(s: string, sep: char): (h: string)
    ensures h <= s && Free(h, sep) && (|h| < |s| ==> s[|h|] == sep)
  {
    if s == [] || s[0] == sep then "" else [s[0]] + Head(s[1..], sep)
  }

  /** The pieces of a text, cut at every separator. */
  function Cut(s: string, sep: char): (pieces: seq<string>)
    ensures |pieces| >= 1
    decreases |s|
  {
    var h := Head(s, sep);
    if |h| == |s| then [h] else [h] + Cut(s[|h| + 1..], sep)
  }

  function Occurrences(s: string, c: char): nat
  {
    if s == [] then 0 else (if s[0] == c then 1 else 0) + Occurrences(s[1..], c)
  }

  lemma {:induction false} HeadOf(p: string, rest: string, sep: char)
    requires Free(p, sep)
    ensures Head(p + [sep] + rest, sep) == p
  {
    var s := p + [sep] + rest;
    if p != [] {
      assert s[1..] == p[1..] + [sep] + rest;
      HeadOf(p[1..], rest, sep);
    }
  }

  lemma {:induction false} HeadWhole(p: string, sep: char)
    requires Free(p, sep)
    ensures Head(p, sep) == p
  {
    if p != [] {
      HeadWhole(p[1..], sep);
    }
  }

  lemma CutFirst(p: string, rest: string, sep: char)
    requires Free(p, sep)
    ensures Cut(p + [sep] + rest, sep) == [p] + Cut(rest, sep)
  {
    var s := p + [sep] + rest;
    HeadOf(p, rest, sep);
    assert s[|p| + 1..] == rest;
  }

  /** Cutting joined pieces gives the pieces back, and an empty one after the last separator. */
  lemma {:induction false} CutJoined(pieces: seq<string>, sep: char)
    requires forall p :: p in pieces ==> Free(p, sep)
    ensures Cut(Joined(pieces, sep), sep) == pieces + [""]
  {
    if pieces != [] {
      CutJoined(pieces[1..], sep);
      CutFirst(pieces[0], Joined(pieces[1..], sep), sep);
    }
  }

  lemma {:induction false} CutSeparated(pieces: seq<string>, sep: char)
    requires pieces != [] && forall p :: p in pieces ==> Free(p, sep)
    ensures Cut(Separated(pieces, sep), sep) == pieces
  {
    if |pieces| == 1 {
      HeadWhole(pieces[0], sep);
    } else {
      CutSeparated(pieces[1..], sep);
      CutFirst(pieces[0], Separated(pieces[1..], sep), sep);
    }
  }

  lemma {:induction false} SeparatedFree(pieces: seq<string>, sep: char, c: char)
    requires pieces != [] && c != sep && forall p :: p in pieces ==> Free(p, c)
    ensures Free(Separated(pieces, sep), c)
  {
    assert Free(pieces[0], c);
    if |pieces| > 1 {
      SeparatedFree(pieces[1..], sep, c);
    }
  }

  lemma {:induction false} JoinedConcat(a: seq<string>, b: seq<string>, sep: char)
    ensures Joined(a + b, sep) == Joined(a, sep) + Joined(b, sep)
  {
    if a == [] {
      assert a + b == b;
    } else {
      assert (a + b)[1..] == a[1..] + b;
      JoinedConcat(a[1..], b, sep);
    }
  }

  lemma {:induction false} OccurrencesOfFree(s: string, c: char)
    requires Free(s, c)
    ensures Occurrences(s, c) == 0
  {
    if s != [] {
      OccurrencesOfFree(s[1..], c);
    }
  }

  lemma {:induction false} OccurrencesConcat(s: string, t: string, c: char)
    ensures Occurrences(s + t, c) == Occurrences(s, c) + Occurrences(t, c)
  {
    if s == [] {
      assert s + t == t;
    } else {
      assert (s + t)[1..] == s[1..] + t;
      OccurrencesConcat(s[1..], t, c);
    }
  }

  /** There is one piece more than there are separators. */
  lemma {:induction false} PiecesAndSeparators(s: string, sep: char)
    ensures |Cut(s, sep)| == Occurrences(s, sep) + 1
    decreases |s|
  {
    var h := Head(s, sep);
    OccurrencesOfFree(h, sep);
    if |h| < |s| {
      var rest := s[|h| + 1..];
      assert s == h + ([sep] + rest);
      OccurrencesConcat(h, [sep] + rest, sep);
      assert ([sep] + rest)[1..] == rest;
      PiecesAndSeparators(rest, sep);
    } else {
      assert s == h;
    }
  }

  // ---- White space ----

  /** Unicode white space, as `str::trim` removes it. */
  predicate IsSpace(c: char)
  {
    var n := c as int;
    || 0x9 <= n <= 0xd || n == 0x20 || n == 0x85 || n == 0xa0 || n == 0x1680 || 0x2000 <= n <= 0x200a
    || n == 0x2028 || n == 0x2029 || n == 0x202f || n == 0x205f || n == 0x3000
  }

  function TrimStart(s: string): string
  {
    if s != [] && IsSpace(s[0]) then TrimStart(s[1..]) else s
  }

  function TrimEnd(s: string): string
  {
    if s != [] && IsSpace(s[|s| - 1]) then TrimEnd(s[..|s| - 1]) else s
  }

  function Trim(s: string): string { TrimEnd(TrimStart(s)) }

  predicate Blank(s: string) { forall i :: 0 <= i < |s| ==> IsSpace(s[i]) }

  lemma {:induction false} TrimStartParts(s: string) returns (pre: string)
    ensures s == pre + TrimStart(s) && Blank(pre)
  {
    if s != [] && IsSpace(s[0]) {
      var rest := TrimStartParts(s[1..]);
      pre := [s[0]] + rest;
    } else {
      pre := [];
    }
  }

  lemma {:induction false} TrimEndParts(s: string) returns (post: string)
    ensures s == TrimEnd(s) + post && Blank(post)
  {
    if s != [] && IsSpace(s[|s| - 1]) {
      var rest := TrimEndParts(s[..|s| - 1]);
      post := rest + [s[|s| - 1]];
    } else {
      post := [];
    }
  }

  lemma {:induction false} TrimStartOf(pre: string, rest: string)
    requires Blank(pre)
    ensures TrimStart(pre + rest) == TrimStart(rest)
  {
    if pre == [] {
      assert pre + rest == rest;
    } else {
      assert (pre + rest)[1..] == pre[1..] + rest;
      TrimStartOf(pre[1..], rest);
    }
  }

  lemma {:induction false} TrimEndOf(rest: string, post: string)
    requires Blank(post)
    ensures TrimEnd(rest + post) == TrimEnd(rest)
  {
    if post == [] {
      assert rest + post == rest;
    } else {
      var n := |post| - 1;
      assert (rest + post)[..|rest + post| - 1] == rest + post[..n];
      TrimEndOf(rest, post[..n]);
    }
  }

  /** Trimming takes white space off both ends. */
  lemma TrimParts(s: string) returns (pre: string, post: string)
    ensures s == pre + Trim(s) + post && Blank(pre) && Blank(post)
  {
    pre := TrimStartParts(s);
    post := TrimEndParts(TrimStart(s));
  }

  /** And all of it. */
  lemma TrimOf(pre: string, w: string, post: string)
    requires Blank(pre) && Blank(post) && w != [] && !IsSpace(w[0]) && !IsSpace(w[|w| - 1])
    ensures Trim(pre + w + post) == w
  {
    assert pre + w + post == pre + (w + post);
    TrimStartOf(pre, w + post);
    assert (w + post)[0] == w[0];
    TrimEndOf(w, post);
  }
}
