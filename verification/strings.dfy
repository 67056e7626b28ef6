/** The JavaScript string primitives the scraper relies on, over `seq<char>`:
    `trim`, `toLowerCase`, `indexOf` of one character, `substring`,
    `replace` of the first occurrence of one character, and `split` on one
    character. `Join` is not used by the service; it is here so that
    `Split` can be paired with it by a round trip in both directions. */
module Strings {

  /** The characters `String.prototype.trim` removes: white space and line
      terminators as ECMAScript defines them. */
  predicate IsWhitespace(c: char) {
    || c == ' ' || c == '\t' || c == '\n' || c == '\r'
    || c == '\U{000B}' || c == '\U{000C}' || c == '\U{00A0}' || c == '\U{1680}'
    || ('\U{2000}' <= c <= '\U{200A}')
    || c == '\U{2028}' || c == '\U{2029}' || c == '\U{202F}' || c == '\U{205F}'
    || c == '\U{3000}' || c == '\U{FEFF}'
  }

  predicate AllWhitespace(s: string) {
    forall i :: 0 <= i < |s| ==> IsWhitespace(s[i])
  }

  /** A character that is not white space does not occur in white space. */
  lemma WhitespaceWithout(w: string, c: char)
    requires AllWhitespace(w) && !IsWhitespace(c)
    ensures c !in w
  {
  }

  /** Neither end of `s` is white space: what `trim` guarantees of its result. */
  predicate Trimmed(s: string) {
    s == [] || (!IsWhitespace(s[0]) && !IsWhitespace(s[|s| - 1]))
  }

  function TrimStart(s: string): (r: string)
    ensures |r| <= |s| && r == s[|s| - |r|..]
    ensures AllWhitespace(s[..|s| - |r|])
    ensures r == [] || !IsWhitespace(r[0])
  {
    if |s| > 0 && IsWhitespace(s[0]) then
      var r := TrimStart(s[1..]);
      var w := s[1..][..|s| - 1 - |r|];
      assert s[..|s| - |r|] == [s[0]] + w;
      WhitespaceCons(s[0], w);
      r
    else s
  }

  function TrimEnd(s: string): (r: string)
    ensures |r| <= |s| && r == s[..|r|]
    ensures AllWhitespace(s[|r|..])
    ensures r == [] || !IsWhitespace(r[|r| - 1])
  {
    if |s| > 0 && IsWhitespace(s[|s| - 1]) then
      var r := TrimEnd(s[..|s| - 1]);
      var w := s[..|s| - 1][|r|..];
      assert s[|r|..] == w + [s[|s| - 1]];
      WhitespaceSnoc(w, s[|s| - 1]);
      r
    else s
  }

  lemma WhitespaceCons(c: char, w: string)
    requires IsWhitespace(c) && AllWhitespace(w)
    ensures AllWhitespace([c] + w)
  {
  }

  lemma WhitespaceSnoc(w: string, c: char)
    requires IsWhitespace(c) && AllWhitespace(w)
    ensures AllWhitespace(w + [c])
  {
  }

  /** `s.trim()`: the infix of `s` left once every leading and trailing
      white-space character is removed. */
  function Trim(s: string): (r: string)
    ensures Trimmed(r)
    ensures |r| <= |s|
  {
    TrimEnd(TrimStart(s))
  }

  /** `s` is `r` placed at offset `i` with white space on both sides. */
  predicate PaddedAt(s: string, r: string, i: int) {
    && 0 <= i <= |s| - |r|
    && s[i..i + |r|] == r
    && AllWhitespace(s[..i])
    && AllWhitespace(s[i + |r|..])
  }

  /** `Trim` removes white space only: `s` is its trim with white space
      around it, and `i` is where the trim starts. */
  lemma TrimIsInfix(s: string) returns (i: int)
    ensures PaddedAt(s, Trim(s), i)
  {
    var a := TrimStart(s);
    i := |s| - |a|;
    var r := TrimEnd(a);
    assert r == Trim(s);
    assert AllWhitespace(s[..i]);
    SliceOfSuffix(s, i, a, |r|);
    assert AllWhitespace(a[|r|..]);
  }

  lemma SliceOfSuffix(s: string, i: nat, a: string, n: nat)
    requires i <= |s| && a == s[i..] && n <= |a|
    ensures s[i..i + n] == a[..n] && s[i + n..] == a[n..]
  {
  }

  /** A string with no white space at either end is its own trim. */
  lemma TrimFixpoint(s: string)
    requires Trimmed(s)
    ensures Trim(s) == s
  {
  }

  /** White space around a string does not change its trim. */
  lemma TrimPadding(w1: string, s: string, w2: string)
    requires AllWhitespace(w1) && AllWhitespace(w2)
    ensures Trim(w1 + s + w2) == Trim(s)
  {
    calc {
      Trim(w1 + s + w2);
      TrimEnd(TrimStart(w1 + s + w2));
      { assert w1 + s + w2 == w1 + (s + w2);
        TrimStartPadding(w1, s + w2); }
      TrimEnd(TrimStart(s + w2));
      { TrimStartAppend(s, w2); }
      TrimEnd(TrimStart(s) + w2);
      { TrimEndPadding(TrimStart(s), w2); }
      TrimEnd(TrimStart(s));
    }
  }

  lemma {:induction false} TrimStartPadding(w: string, s: string)
    requires AllWhitespace(w)
    ensures TrimStart(w + s) == TrimStart(s)
    decreases |w|
  {
    if |w| > 0 {
      assert (w + s)[1..] == w[1..] + s;
      TrimStartPadding(w[1..], s);
    } else {
      assert w + s == s;
    }
  }

  lemma {:induction false} TrimEndPadding(s: string, w: string)
    requires AllWhitespace(w)
    ensures TrimEnd(s + w) == TrimEnd(s)
    decreases |w|
  {
    if |w| > 0 {
      assert (s + w)[..|s + w| - 1] == s + w[..|w| - 1];
      TrimEndPadding(s, w[..|w| - 1]);
    } else {
      assert s + w == s;
    }
  }

  /** Trimming the start of `s + w` either stops inside `s` or swallows it. */
  lemma {:induction false} TrimStartAppend(s: string, w: string)
    requires AllWhitespace(w)
    ensures TrimEnd(TrimStart(s + w)) == TrimEnd(TrimStart(s) + w)
    decreases |s|
  {
    if |s| > 0 && IsWhitespace(s[0]) {
      assert (s + w)[1..] == s[1..] + w;
      TrimStartAppend(s[1..], w);
    } else if |s| == 0 {
      assert s + w == w;
      TrimStartPadding(w, []);
      assert w + [] == w;
      TrimEndPadding([], w);
      assert [] + w == w;
    }
  }

  /** ASCII upper-case letters to lower case, everything else unchanged. */
  function LowerChar(c: char): char {
    if 'A' <= c <= 'Z' then (c as int + 32) as char else c
  }

  /** `s.toLowerCase()` on the ASCII range. */
  function ToLower(s: string): (r: string)
    ensures |r| == |s|
    ensures forall i :: 0 <= i < |s| ==> r[i] == LowerChar(s[i])
  {
    seq(|s|, i requires 0 <= i < |s| => LowerChar(s[i]))
  }

  /** Lowering yields no upper-case letter. */
  lemma LowerCharNotUpper(c: char)
    ensures !('A' <= LowerChar(c) <= 'Z')
  {
  }

  /** Lowering changes letters only, never white space. */
  lemma LowerCharWhitespace(c: char)
    ensures IsWhitespace(LowerChar(c)) <==> IsWhitespace(c)
  {
  }

  /** Lowering keeps white space white space, so it preserves trimmed-ness. */
  lemma ToLowerTrimmed(s: string)
    requires Trimmed(s)
    ensures Trimmed(ToLower(s))
  {
    if |s| > 0 {
      LowerCharWhitespace(s[0]);
      LowerCharWhitespace(s[|s| - 1]);
    }
  }

  lemma ToLowerIdempotent(s: string)
    ensures ToLower(ToLower(s)) == ToLower(s)
  {
  }

  /** No string occurs twice. */
  predicate Distinct(s: seq<string>) {
    forall i, j :: 0 <= i < j < |s| ==> s[i] != s[j]
  }

  /** `s.indexOf(c)`: the position of the first `c`, or -1 when there is none. */
  function IndexOf<T(==)>(s: seq<T>, c: T): (i: int)
    ensures -1 <= i < |s|
    ensures i == -1 <==> c !in s
    ensures 0 <= i ==> s[i] == c && c !in s[..i]
  {
    if |s| == 0 then -1
    else if s[0] == c then 0
    else
      var j := IndexOf(s[1..], c);
      if j < 0 then -1
      else
        assert s[..j + 1] == [s[0]] + s[1..][..j];
        j + 1
  }

  /** The first `c` in `a + [c] + b` is the separator when `a` has none. */
  lemma IndexOfAfter(a: string, c: char, b: string)
    requires c !in a
    ensures IndexOf(a + [c] + b, c) == |a|
  {
    var s := a + [c] + b;
    assert s[|a|] == c;
    assert s[..|a|] == a;
  }

  /** Clamps a `substring` argument into `[0, len]`. */
  function Clamp(k: int, len: nat): (r: nat)
    ensures r <= len
    ensures 0 <= k <= len ==> r == k
  {
    if k < 0 then 0 else if k > len then len else k
  }

  /** `s.substring(start, end)`: both bounds are clamped into `[0, |s|]` and
      swapped when the first exceeds the second. */
  function Substring(s: string, start: int, end: int): (r: string)
    ensures |r| <= |s|
    ensures 0 <= start <= end <= |s| ==> r == s[start..end]
  {
    var a := Clamp(start, |s|);
    var b := Clamp(end, |s|);
    if a <= b then s[a..b] else s[b..a]
  }

  /** The order of `substring`'s arguments does not matter. */
  lemma SubstringSymmetric(s: string, start: int, end: int)
    ensures Substring(s, start, end) == Substring(s, end, start)
  {
  }

  /** `s.replace(c, "")` with a one-character string pattern. */
  function RemoveFirst(s: string, c: char): (r: string)
    ensures c !in s ==> r == s
    ensures c in s ==> |r| == |s| - 1
  {
    var i := IndexOf(s, c);
    if i < 0 then s else s[..i] + s[i + 1..]
  }

  /** Deleting the first `c` of `a + [c] + b`, where `a` has none, leaves
      `a + b`: later occurrences in `b` stay. */
  lemma RemoveFirstAt(a: string, c: char, b: string)
    requires c !in a
    ensures RemoveFirst(a + [c] + b, c) == a + b
  {
    var s := a + [c] + b;
    IndexOfAfter(a, c, b);
    assert s[..|a|] == a;
    assert s[|a| + 1..] == b;
  }

  /** Number of occurrences of `c` in `s`. */
  function Count(s: string, c: char): nat {
    if |s| == 0 then 0 else (if s[0] == c then 1 else 0) + Count(s[1..], c)
  }

  lemma {:induction false} CountAppend(a: string, b: string, c: char)
    ensures Count(a + b, c) == Count(a, c) + Count(b, c)
    decreases |a|
  {
    if |a| == 0 {
      assert a + b == b;
    } else {
      assert (a + b)[1..] == a[1..] + b;
      CountAppend(a[1..], b, c);
    }
  }

  lemma {:induction false} CountAbsent(s: string, c: char)
    requires c !in s
    ensures Count(s, c) == 0
    decreases |s|
  {
    if |s| > 0 {
      CountAbsent(s[1..], c);
    }
  }

  lemma CutAt(s: string, i: nat)
    requires i < |s|
    ensures s == s[..i] + [s[i]] + s[i + 1..]
  {
  }

  /** One more `c` between two strings counts once more. */
  lemma CountAround(a: string, c: char, b: string)
    ensures Count(a + [c] + b, c) == Count(a + b, c) + 1
  {
    CountAppend(a + [c], b, c);
    CountAppend(a, [c], c);
    assert Count([c], c) == 1;
    CountAppend(a, b, c);
  }

  /** A character occurs exactly when it is counted. */
  lemma CountPresence(s: string, c: char)
    ensures c in s <==> Count(s, c) > 0
  {
    var i := IndexOf(s, c);
    if i >= 0 {
      CutAt(s, i);
      CountAround(s[..i], c, s[i + 1..]);
    } else {
      CountAbsent(s, c);
    }
  }

  /** Removing the first `c` removes exactly one `c` when there is one, and
      nothing otherwise. */
  lemma RemoveFirstCount(s: string, c: char)
    ensures c in s ==> Count(RemoveFirst(s, c), c) + 1 == Count(s, c)
    ensures c !in s ==> RemoveFirst(s, c) == s
  {
    var i := IndexOf(s, c);
    if i >= 0 {
      var a, b := s[..i], s[i + 1..];
      CutAt(s, i);
      CountAround(a, c, b);
    }
  }

  /** `s.split(sep)` for a one-character separator: the pieces between the
      separators, left to right; never empty (`"".split(",")` is `[""]`). */
  function Split(s: string, sep: char): (parts: seq<string>)
    ensures |parts| >= 1
    decreases |s|
  {
    var i := IndexOf(s, sep);
    if i < 0 then [s] else [s[..i]] + Split(s[i + 1..], sep)
  }

  /** No piece contains `sep`. */
  predicate FreeOf(parts: seq<string>, sep: char) {
    forall k :: 0 <= k < |parts| ==> sep !in parts[k]
  }

  /** The pieces of a split never contain the separator. */
  lemma {:induction false} SplitPieces(s: string, sep: char)
    ensures FreeOf(Split(s, sep), sep)
    decreases |s|
  {
    var i := IndexOf(s, sep);
    if i >= 0 {
      var head, rest := s[..i], Split(s[i + 1..], sep);
      SplitPieces(s[i + 1..], sep);
      assert Split(s, sep) == [head] + rest;
      FreeOfCons(head, rest, sep);
    }
  }

  lemma FreeOfCons(head: string, rest: seq<string>, sep: char)
    requires sep !in head && FreeOf(rest, sep)
    ensures FreeOf([head] + rest, sep)
  {
    var parts := [head] + rest;
    forall k | 0 <= k < |parts|
      ensures sep !in parts[k]
    {
      if k > 0 {
        assert parts[k] == rest[k - 1];
      }
    }
  }

  /** `parts.join(sep)`. */
  function Join(parts: seq<string>, sep: char): string
    requires |parts| >= 1
  {
    if |parts| == 1 then parts[0] else parts[0] + [sep] + Join(parts[1..], sep)
  }

  lemma JoinCons(head: string, rest: seq<string>, sep: char)
    requires |rest| >= 1
    ensures Join([head] + rest, sep) == head + [sep] + Join(rest, sep)
  {
    assert ([head] + rest)[1..] == rest;
  }

  /** Joining the pieces of a split gives back the string. */
  lemma {:induction false} SplitJoin(s: string, sep: char)
    ensures Join(Split(s, sep), sep) == s
    decreases |s|
  {
    var i := IndexOf(s, sep);
    if i >= 0 {
      var tail := s[i + 1..];
      var rest := Split(tail, sep);
      SplitJoin(tail, sep);
      JoinCons(s[..i], rest, sep);
      assert s == s[..i] + [sep] + tail;
    }
  }

  /** A split cuts at the first separator. */
  lemma SplitAt(head: string, sep: char, rest: string)
    requires sep !in head
    ensures Split(head + [sep] + rest, sep) == [head] + Split(rest, sep)
  {
    var s := head + [sep] + rest;
    IndexOfAfter(head, sep, rest);
    assert s[..|head|] == head;
    assert s[|head| + 1..] == rest;
  }

  /** Splitting a join of separator-free pieces gives back the pieces. */
  lemma {:induction false} JoinSplit(parts: seq<string>, sep: char)
    requires |parts| >= 1
    requires FreeOf(parts, sep)
    ensures Split(Join(parts, sep), sep) == parts
    decreases |parts|
  {
    var head := parts[0];
    assert sep !in head;
    if |parts| > 1 {
      var tail := parts[1..];
      forall k | 0 <= k < |tail|
        ensures sep !in tail[k]
      {
        assert tail[k] == parts[k + 1];
      }
      JoinSplit(tail, sep);
      assert Join(parts, sep) == head + [sep] + Join(tail, sep);
      SplitAt(head, sep, Join(tail, sep));
      assert parts == [head] + tail;
    } else {
      assert IndexOf(head, sep) == -1;
    }
  }

  /** A string splits into one more piece than it has separators. */
  lemma {:induction false} SplitLength(s: string, sep: char)
    ensures |Split(s, sep)| == Count(s, sep) + 1
    decreases |s|
  {
    var i := IndexOf(s, sep);
    if i < 0 {
      CountAbsent(s, sep);
    } else {
      var a, b := s[..i], s[i + 1..];
      SplitLength(b, sep);
      CutAt(s, i);
      CountAround(a, sep, b);
      CountAbsent(a, sep);
      CountAppend(a, b, sep);
    }
  }
}
