/** Kotlin's String operations as the source uses them: `split` on a literal
    delimiter (empty and trailing fields kept), `replace`, `removePrefix`,
    `removeSuffix`, `removeSurrounding`, `contains` and `isBlank`. */
module Text {
  import opened Results

  /** `d` occurs in `s` starting at position `j`. */
  predicate OccursAt(s: string, d: string, j: int) {
    0 <= j && j + |d| <= |s| && s[j..j + |d|] == d
  }

  /** `s` holds no occurrence of `d`. */
  predicate Free(s: string, d: string) {
    forall j :: 0 <= j <= |s| ==> !OccursAt(s, d, j)
  }

  /** A field `p` is separable by `d` when no occurrence of `d` starts inside `p`
      even once `d` is written after it: then the first `d` after `p` is the delimiter. */
  predicate Separable(p: string, d: string)
    requires |d| > 0
  {
    Free(p + d[..|d| - 1], d)
  }

  /** The first occurrence of `d` in `s` at or after `i` (String.indexOf). */
  function IndexFrom(s: string, d: string, i: nat): (r: Option<nat>)
    requires |d| > 0 && i <= |s|
    ensures r.Some? ==> i <= r.value && OccursAt(s, d, r.value)
    ensures r.Some? ==> forall j :: i <= j < r.value ==> !OccursAt(s, d, j)
    ensures r.None? ==> forall j :: i <= j ==> !OccursAt(s, d, j)
    decreases |s| - i
  {
    if i + |d| > |s| then None
    else if s[i..i + |d|] == d then Some(i)
    else IndexFrom(s, d, i + 1)
  }

  /** CharSequence.contains for a non-empty needle. */
  predicate Contains(s: string, d: string)
    requires |d| > 0
  {
    IndexFrom(s, d, 0).Some?
  }

  lemma ContainsIffOccurs(s: string, d: string)
    requires |d| > 0
    ensures Contains(s, d) <==> !Free(s, d)
  {
  }

  /** The inverse of Split: the parts written with `d` between them. */
  function Join(parts: seq<string>, d: string): string
  {
    if |parts| == 0 then ""
    else if |parts| == 1 then parts[0]
    else parts[0] + d + Join(parts[1..], d)
  }

  /** Regrouping a concatenation of four texts. */
  lemma Regroup(a: string, b: string, c: string, d: string)
    ensures (a + b) + (c + d) == a + ((b + c) + d)
  {
  }

  /** An occurrence inside a prefix of `s` is an occurrence in `s`, and back. */
  lemma OccursInPrefix(s: string, t: string, d: string, j: int)
    requires |t| <= |s| && s[..|t|] == t
    requires j + |d| <= |t|
    ensures OccursAt(s, d, j) <==> OccursAt(t, d, j)
  {
    if 0 <= j {
      assert s[..|t|][j..j + |d|] == s[j..j + |d|];
    }
  }

  lemma FreeOfPrefix(s: string, t: string, d: string)
    requires |t| <= |s| && s[..|t|] == t
    requires Free(s, d)
    ensures Free(t, d)
  {
    forall j | 0 <= j <= |t|
      ensures !OccursAt(t, d, j)
    {
      if j + |d| <= |t| {
        OccursInPrefix(s, t, d, j);
      }
    }
  }

  /** String.split(d): the pieces between successive first occurrences of `d`,
      scanning left to right; empty pieces, leading and trailing, are kept. */
  function Split(s: string, d: string): (r: seq<string>)
    requires |d| > 0
    ensures |r| >= 1
    ensures Join(r, d) == s
    ensures forall k :: 0 <= k < |r| ==> Free(r[k], d)
    decreases |s|
  {
    match IndexFrom(s, d, 0)
    case None => [s]
    case Some(i) =>
      var rest := Split(s[i + |d|..], d);
      var head := s[..i];
      assert Free(head, d) by {
        forall j | 0 <= j <= |head|
          ensures !OccursAt(head, d, j)
        {
          if j + |d| <= |head| {
            OccursInPrefix(s, head, d, j);
          }
        }
      }
      assert head + d + s[i + |d|..] == s by {
        assert s == s[..i] + s[i..i + |d|] + s[i + |d|..];
      }
      [head] + rest
  }

  /** Splitting what Join wrote gives back the parts, when every part is separable. */
  lemma {:induction false} SplitJoin(parts: seq<string>, d: string)
    requires |d| > 0 && |parts| >= 1
    requires forall k :: 0 <= k < |parts| ==> Separable(parts[k], d)
    ensures Split(Join(parts, d), d) == parts
    decreases |parts|
  {
    var p := parts[0];
    assert Separable(p, d);
    FreeOfPrefix(p + d[..|d| - 1], p, d);
    if |parts| == 1 {
      assert Join(parts, d) == p;
      assert IndexFrom(p, d, 0).None?;
    } else {
      var rest := Join(parts[1..], d);
      var s := Join(parts, d);
      assert s == p + d + rest;
      var t := p + d[..|d| - 1];
      assert s[..|t|] == t;
      assert OccursAt(s, d, |p|) by {
        assert s[|p|..|p| + |d|] == d;
      }
      forall j | 0 <= j < |p|
        ensures !OccursAt(s, d, j)
      {
        OccursInPrefix(s, t, d, j);
      }
      var r := IndexFrom(s, d, 0);
      assert r == Some(|p|);
      assert s[|p| + |d|..] == rest;
      SplitJoin(parts[1..], d);
      assert Split(s, d) == [p] + Split(rest, d);
    }
  }

  /** A part that avoids the delimiter's first character is separable. */
  lemma SeparableWithoutLead(p: string, d: string)
    requires |d| > 0 && d[0] !in p
    ensures Separable(p, d)
  {
    var t := p + d[..|d| - 1];
    forall j | 0 <= j <= |t|
      ensures !OccursAt(t, d, j)
    {
      if j < |p| {
        assert t[j] == p[j];
      }
    }
  }

  /** Free of a one-character string is the absence of that character. */
  lemma FreeOfChar(s: string, c: char)
    ensures Free(s, [c]) <==> c !in s
  {
    if c in s {
      var j :| 0 <= j < |s| && s[j] == c;
      assert OccursAt(s, [c], j);
    } else {
      forall j | 0 <= j <= |s|
        ensures !OccursAt(s, [c], j)
      {
        if j < |s| {
          assert s[j] != c;
        }
      }
    }
  }

  /** Every character of a joined string comes from a part or from the delimiter. */
  lemma {:induction false} JoinChars(parts: seq<string>, d: string, c: char)
    requires c in Join(parts, d)
    ensures c in d || exists k :: 0 <= k < |parts| && c in parts[k]
    decreases |parts|
  {
    if |parts| > 1 {
      var rest := Join(parts[1..], d);
      assert Join(parts, d) == parts[0] + d + rest;
      if c !in parts[0] && c !in d {
        JoinChars(parts[1..], d, c);
        var k :| 0 <= k < |parts[1..]| && c in parts[1..][k];
        assert c in parts[k + 1];
      }
    }
  }

  /** Every character of a part appears in the joined string. */
  lemma {:induction false} PartChars(parts: seq<string>, d: string, k: nat, c: char)
    requires k < |parts| && c in parts[k]
    ensures c in Join(parts, d)
    decreases |parts|
  {
    if |parts| > 1 {
      assert Join(parts, d) == parts[0] + d + Join(parts[1..], d);
      if k > 0 {
        PartChars(parts[1..], d, k - 1, c);
      }
    }
  }

  /** A string without the delimiter splits into itself alone. */
  lemma SplitOfFree(s: string, d: string)
    requires |d| > 0 && Free(s, d)
    ensures Split(s, d) == [s]
  {
    assert IndexFrom(s, d, 0).None?;
  }

  /** The number of positions at which `d` occurs in `s`, overlapping ones included. */
  function Count(s: string, d: string): nat
    requires |d| > 0
    decreases |s|
  {
    if |s| < |d| then 0 else (if s[..|d|] == d then 1 else 0) + Count(s[1..], d)
  }

  /** A two-character `d` occurs across the seam of x + y. */
  predicate Straddles(x: string, y: string, d: string)
    requires |d| == 2
  {
    |x| > 0 && |y| > 0 && x[|x| - 1] == d[0] && y[0] == d[1]
  }

  /** The occurrences of a two-character text in x + y: those in x, those in y, and one across the seam. */
  lemma {:induction false} CountConcat(x: string, y: string, d: string)
    requires |d| == 2
    ensures Count(x + y, d) == Count(x, d) + Count(y, d) + (if Straddles(x, y, d) then 1 else 0)
    decreases |x|
  {
    if |x| > 0 {
      assert (x + y)[1..] == x[1..] + y;
      CountConcat(x[1..], y, d);
      if |x| == 1 {
        assert x[1..] + y == y;
      } else {
        assert (x + y)[..2] == x[..2];
        assert x[1..][|x| - 2] == x[|x| - 1];
      }
    } else {
      assert x + y == y;
    }
  }

  /** No occurrence is counted exactly when there is none. */
  lemma {:induction false} CountFree(s: string, d: string)
    requires |d| > 0
    ensures Count(s, d) == 0 <==> Free(s, d)
    decreases |s|
  {
    if |s| >= |d| {
      CountFree(s[1..], d);
      forall j | 0 <= j
        ensures OccursAt(s, d, j + 1) <==> OccursAt(s[1..], d, j)
      {
        if j + 1 + |d| <= |s| {
          assert s[j + 1..j + 1 + |d|] == s[1..][j..j + |d|];
        }
      }
      if Free(s, d) {
        assert !OccursAt(s, d, 0);
        assert Free(s[1..], d) by {
          forall j | 0 <= j <= |s[1..]|
            ensures !OccursAt(s[1..], d, j)
          {
            assert !OccursAt(s, d, j + 1);
          }
        }
      }
      if Count(s, d) == 0 {
        forall j | 0 <= j <= |s|
          ensures !OccursAt(s, d, j)
        {
          if j > 0 {
            assert !OccursAt(s[1..], d, j - 1);
          }
        }
      }
    }
  }

  /** A text without the second character of a two-character `d` holds no `d`. */
  lemma {:induction false} CountWithoutSecond(s: string, d: string)
    requires |d| == 2 && d[1] !in s
    ensures Count(s, d) == 0
    decreases |s|
  {
    if |s| >= 2 {
      assert s[1] != d[1];
      CountWithoutSecond(s[1..], d);
    }
  }

  /** A two-character delimiter whose characters differ cannot overlap itself,
      so `split` cuts at every occurrence: one piece more than occurrences. */
  lemma {:induction false} SplitCount(s: string, d: string)
    requires |d| == 2 && d[0] != d[1]
    ensures |Split(s, d)| == Count(s, d) + 1
    decreases |s|
  {
    match IndexFrom(s, d, 0)
    case None =>
      assert Free(s, d);
      CountFree(s, d);
    case Some(i) =>
      var head, rest := s[..i], s[i + 2..];
      assert s == head + d + rest by {
        assert s == s[..i] + s[i..i + 2] + s[i + 2..];
      }
      SplitStep(s, d, i);
      assert Free(head, d) by {
        assert Split(s, d)[0] == head;
      }
      CountFree(head, d);
      CountConcat(head, d, d);
      assert Count(d, d) == 1 by {
        assert d[..2] == d;
        assert Count(d[1..], d) == 0;
      }
      CountConcat(head + d, rest, d);
      assert (head + d)[|head + d| - 1] == d[1];
      SplitCount(rest, d);
  }

  /** `s` with every occurrence of `c` dropped. */
  function Without(s: string, c: char): (r: string)
    ensures c !in r
    decreases |s|
  {
    if |s| == 0 then "" else (if s[0] == c then "" else [s[0]]) + Without(s[1..], c)
  }

  lemma {:induction false} WithoutConcat(a: string, b: string, c: char)
    ensures Without(a + b, c) == Without(a, c) + Without(b, c)
    decreases |a|
  {
    if |a| == 0 {
      assert a + b == b;
    } else {
      assert (a + b)[1..] == a[1..] + b;
      WithoutConcat(a[1..], b, c);
    }
  }

  lemma {:induction false} WithoutAbsent(s: string, c: char)
    requires c !in s
    ensures Without(s, c) == s
    decreases |s|
  {
    if |s| > 0 {
      WithoutAbsent(s[1..], c);
      assert s == [s[0]] + s[1..];
    }
  }

  /** `replace(c, "")` for one character drops every occurrence of it. */
  lemma {:induction false} ReplaceByNothing(s: string, c: char)
    ensures Replace(s, [c], "") == Without(s, c)
  {
    JoinedPiecesWithout(s, c);
  }

  lemma {:induction false} JoinedPiecesWithout(s: string, c: char)
    ensures Join(Split(s, [c]), "") == Without(s, c)
    decreases |s|
  {
    match IndexFrom(s, [c], 0)
    case None =>
      assert Free(s, [c]);
      FreeOfChar(s, c);
      WithoutAbsent(s, c);
    case Some(i) =>
      JoinedPiecesStep(s, c, i);
      JoinedPiecesWithout(s[i + 1..], c);
      HeadWithout(s, c, i);
  }

  lemma JoinedPiecesStep(s: string, c: char, i: nat)
    requires IndexFrom(s, [c], 0) == Some(i)
    ensures Join(Split(s, [c]), "") == s[..i] + Join(Split(s[i + 1..], [c]), "")
  {
    SplitStep(s, [c], i);
    JoinCons(s[..i], Split(s[i + 1..], [c]), "");
  }

  /** Split cuts at the first occurrence and goes on after it. */
  lemma SplitStep(s: string, d: string, i: nat)
    requires |d| > 0 && IndexFrom(s, d, 0) == Some(i)
    ensures Split(s, d) == [s[..i]] + Split(s[i + |d|..], d)
  {
  }

  lemma JoinCons(p: string, rest: seq<string>, d: string)
    requires |rest| >= 1
    ensures Join([p] + rest, d) == p + d + Join(rest, d)
  {
    assert ([p] + rest)[1..] == rest;
  }

  lemma HeadWithout(s: string, c: char, i: nat)
    requires IndexFrom(s, [c], 0) == Some(i)
    ensures Without(s, c) == s[..i] + Without(s[i + 1..], c)
  {
    assert s == s[..i] + [c] + s[i + 1..] by {
      assert s == s[..i] + s[i..i + 1] + s[i + 1..];
    }
    NothingBefore(s, c, i);
    WithoutAround(s[..i], s[i + 1..], c);
  }

  lemma {:induction false} WithoutAround(head: string, rest: string, c: char)
    requires c !in head
    ensures Without(head + [c] + rest, c) == head + Without(rest, c)
    decreases |head|
  {
    var s := head + [c] + rest;
    if |head| == 0 {
      assert s[0] == c && s[1..] == rest;
    } else {
      assert s[0] == head[0] && s[1..] == head[1..] + [c] + rest;
      WithoutAround(head[1..], rest, c);
      assert head == [head[0]] + head[1..];
    }
  }

  /** Dropping `c` leaves a prefix without `c` in place. */
  lemma {:induction false} WithoutKeeps(head: string, rest: string, c: char)
    requires c !in head
    ensures Without(head + rest, c) == head + Without(rest, c)
    decreases |head|
  {
    var s := head + rest;
    if |head| > 0 {
      assert s[0] == head[0] && s[1..] == head[1..] + rest;
      WithoutKeeps(head[1..], rest, c);
      assert head == [head[0]] + head[1..];
    } else {
      assert s == rest;
    }
  }

  /** Before the first occurrence of `c` there is no `c`. */
  lemma NothingBefore(s: string, c: char, i: nat)
    requires IndexFrom(s, [c], 0) == Some(i)
    ensures c !in s[..i]
  {
    forall j | 0 <= j < i
      ensures s[j] != c
    {
      assert !OccursAt(s, [c], j);
      assert s[j..j + 1] == [s[j]];
    }
  }

  /** String.replace(a, b): every occurrence of `a`, scanning left to right, replaced by `b`. */
  function Replace(s: string, a: string, b: string): (r: string)
    requires |a| > 0
    ensures Free(s, a) ==> r == s
    ensures forall c :: c in r ==> c in s || c in b
    ensures |a| == 1 && |b| == 0 ==> a[0] !in r
  {
    var parts := Split(s, a);
    var r := Join(parts, b);
    assert Free(s, a) ==> parts == [s] by {
      if Free(s, a) {
        SplitOfFree(s, a);
      }
    }
    assert forall c :: c in r ==> c in s || c in b by {
      forall c | c in r
        ensures c in s || c in b
      {
        JoinChars(parts, b, c);
        if c !in b {
          var k :| 0 <= k < |parts| && c in parts[k];
          PartChars(parts, a, k, c);
        }
      }
    }
    assert |a| == 1 && |b| == 0 ==> a[0] !in r by {
      if |a| == 1 && |b| == 0 && a[0] in r {
        JoinChars(parts, b, a[0]);
        var k :| 0 <= k < |parts| && a[0] in parts[k];
        assert a == [a[0]];
        FreeOfChar(parts[k], a[0]);
      }
    }
    r
  }

  /** CharSequence.startsWith / endsWith. */
  predicate StartsWith(s: string, p: string) {
    |p| <= |s| && s[..|p|] == p
  }

  predicate EndsWith(s: string, p: string) {
    |p| <= |s| && s[|s| - |p|..] == p
  }

  /** String.removePrefix: drops `p` once, if `s` starts with it. */
  function RemovePrefix(s: string, p: string): (r: string)
    ensures StartsWith(s, p) ==> p + r == s
    ensures !StartsWith(s, p) ==> r == s
  {
    if StartsWith(s, p) then s[|p|..] else s
  }

  /** String.removeSuffix: drops `p` once, if `s` ends with it. */
  function RemoveSuffix(s: string, p: string): (r: string)
    ensures EndsWith(s, p) ==> r + p == s
    ensures !EndsWith(s, p) ==> r == s
  {
    if EndsWith(s, p) then s[..|s| - |p|] else s
  }

  /** String.removeSurrounding: drops both ends only when both are present and do not overlap. */
  function RemoveSurrounding(s: string, pre: string, suf: string): (r: string)
    ensures |pre| + |suf| <= |s| && StartsWith(s, pre) && EndsWith(s, suf) ==> pre + r + suf == s
    ensures !(|pre| + |suf| <= |s| && StartsWith(s, pre) && EndsWith(s, suf)) ==> r == s
  {
    if |pre| + |suf| <= |s| && StartsWith(s, pre) && EndsWith(s, suf) then
      var r := s[|pre|..|s| - |suf|];
      assert pre + r + suf == s by {
        assert s == s[..|pre|] + s[|pre|..|s| - |suf|] + s[|s| - |suf|..];
      }
      r
    else s
  }

  /** Char.isWhitespace: Java's whitespace or space characters. */
  predicate IsWhitespace(c: char) {
    var n := c as int;
    (9 <= n <= 13) || (28 <= n <= 32) || n == 0xA0 || n == 0x1680 || (0x2000 <= n <= 0x200A)
    || n == 0x2028 || n == 0x2029 || n == 0x202F || n == 0x205F || n == 0x3000
  }

  /** CharSequence.isBlank: empty, or whitespace only. */
  predicate IsBlank(s: string) {
    forall i :: 0 <= i < |s| ==> IsWhitespace(s[i])
  }
}
