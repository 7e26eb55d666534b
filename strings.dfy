/** The .NET string operations the modelled code relies on (String.Trim,
    TrimStart, TrimEnd, Split, Replace, Contains, IndexOf, ToLower, ToUpper
    and long.Parse), with the properties the rest of the model needs. */
module Strings {
  import opened Outcomes

  /** The characters `char.IsWhiteSpace` accepts: the Unicode White_Space property. */
  const WHITE_SPACE: set<char> := {
    '\t', '\n', '\U{000B}', '\U{000C}', '\r', ' ', '\U{0085}', '\U{00A0}', '\U{1680}',
    '\U{2000}', '\U{2001}', '\U{2002}', '\U{2003}', '\U{2004}', '\U{2005}', '\U{2006}',
    '\U{2007}', '\U{2008}', '\U{2009}', '\U{200A}', '\U{2028}', '\U{2029}', '\U{202F}',
    '\U{205F}', '\U{3000}'
  }

  // ------------------------------------------------------------------ trimming

  /** `s.TrimStart(cs)`: drop the longest prefix made of characters of `cs`. */
  function TrimStart(s: string, cs: set<char>): (r: string)
    ensures |r| <= |s| && r == s[|s| - |r|..]
    ensures forall k :: 0 <= k < |s| - |r| ==> s[k] in cs
    ensures r == [] || r[0] !in cs
    decreases |s|
  {
    if |s| > 0 && s[0] in cs then TrimStart(s[1..], cs) else s
  }

  /** `s.TrimEnd(cs)`: drop the longest suffix made of characters of `cs`. */
  function TrimEnd(s: string, cs: set<char>): (r: string)
    ensures |r| <= |s| && r == s[..|r|]
    ensures forall k :: |r| <= k < |s| ==> s[k] in cs
    ensures r == [] || r[|r| - 1] !in cs
    decreases |s|
  {
    if |s| > 0 && s[|s| - 1] in cs then TrimEnd(s[..|s| - 1], cs) else s
  }

  /** `r` is the piece of `s` starting at `i`, and everything cut away on either side is in `cs`. */
  ghost predicate CutAt(r: string, s: string, cs: set<char>, i: int)
  {
    && 0 <= i <= i + |r| <= |s|
    && r == s[i..i + |r|]
    && (forall k :: 0 <= k < i ==> s[k] in cs)
    && (forall k :: i + |r| <= k < |s| ==> s[k] in cs)
  }

  /** `r` is a contiguous piece of `s`, and everything cut away on either side is in `cs`. */
  ghost predicate TrimmedFrom(r: string, s: string, cs: set<char>)
  {
    exists i :: CutAt(r, s, cs, i)
  }

  /** `s.Trim(cs)`: trim both ends. */
  function Trim(s: string, cs: set<char>): string
  {
    TrimEnd(TrimStart(s, cs), cs)
  }

  /** Trim cuts away only characters of `cs` and leaves none at either end. */
  lemma TrimShape(s: string, cs: set<char>)
    ensures TrimmedFrom(Trim(s, cs), s, cs)
    ensures var r := Trim(s, cs); r == [] || (r[0] !in cs && r[|r| - 1] !in cs)
  {
    var m := TrimStart(s, cs);
    CutOfParts(s, cs, m, TrimEnd(m, cs));
  }

  /** Two trims in a row keep a contiguous piece, cut only characters of
      either set, and leave no character of the second set at either end. */
  lemma TrimTwiceShape(s: string, cs1: set<char>, cs2: set<char>)
    ensures TrimmedFrom(Trim(Trim(s, cs1), cs2), s, cs1 + cs2)
    ensures var r := Trim(Trim(s, cs1), cs2); r == [] || (r[0] !in cs2 && r[|r| - 1] !in cs2)
  {
    var m := Trim(s, cs1);
    TrimShape(s, cs1);
    TrimShape(m, cs2);
    TrimmedFromTwice(Trim(m, cs2), m, s, cs1, cs2);
  }

  /** A prefix trimmed from the front and a suffix trimmed from the back leave a cut. */
  lemma CutOfParts(s: string, cs: set<char>, m: string, r: string)
    requires |m| <= |s| && m == s[|s| - |m|..]
    requires forall k :: 0 <= k < |s| - |m| ==> s[k] in cs
    requires m == [] || m[0] !in cs
    requires |r| <= |m| && r == m[..|r|]
    requires forall k :: |r| <= k < |m| ==> m[k] in cs
    requires r == [] || r[|r| - 1] !in cs
    ensures TrimmedFrom(r, s, cs)
    ensures r == [] || (r[0] !in cs && r[|r| - 1] !in cs)
  {
    var i := |s| - |m|;
    assert r == s[i..i + |r|];
    forall k | i + |r| <= k < |s| ensures s[k] in cs {
      assert s[k] == m[k - i];
    }
    assert CutAt(r, s, cs, i);
    if r != [] {
      assert r[0] == m[0];
    }
  }

  /** Trimming twice cuts away only characters of either set. */
  lemma TrimmedFromTwice(r: string, m: string, s: string, cs1: set<char>, cs2: set<char>)
    requires TrimmedFrom(m, s, cs1) && TrimmedFrom(r, m, cs2)
    ensures TrimmedFrom(r, s, cs1 + cs2)
  {
    var i :| CutAt(m, s, cs1, i);
    var i' :| CutAt(r, m, cs2, i');
    CutCompose(r, m, s, cs1, cs2, i, i');
  }

  lemma CutCompose(r: string, m: string, s: string, cs1: set<char>, cs2: set<char>, i: int, i': int)
    requires CutAt(m, s, cs1, i) && CutAt(r, m, cs2, i')
    ensures CutAt(r, s, cs1 + cs2, i + i')
  {
    forall k | 0 <= k < |r| ensures r[k] == s[i + i' + k] {
      assert r[k] == m[i' + k];
    }
    assert r == s[i + i'..i + i' + |r|];
    forall k | 0 <= k < i + i' ensures s[k] in cs1 + cs2 {
      if k >= i {
        assert s[k] == m[k - i];
      }
    }
    forall k | i + i' + |r| <= k < |s| ensures s[k] in cs1 + cs2 {
      if k < i + |m| {
        assert s[k] == m[k - i];
      }
    }
  }

  /** TrimStart keeps exactly the suffix that starts at the first character outside `cs`. */
  lemma {:induction false} TrimStartUnique(s: string, cs: set<char>, n: int)
    requires 0 <= n <= |s|
    requires forall k :: 0 <= k < n ==> s[k] in cs
    requires n == |s| || s[n] !in cs
    ensures TrimStart(s, cs) == s[n..]
    decreases n
  {
    if n > 0 {
      TrimStartUnique(s[1..], cs, n - 1);
      assert s[1..][n - 1..] == s[n..];
    }
  }

  /** TrimEnd keeps exactly the prefix that ends at the last character outside `cs`. */
  lemma {:induction false} TrimEndUnique(s: string, cs: set<char>, n: int)
    requires 0 <= n <= |s|
    requires forall k :: n <= k < |s| ==> s[k] in cs
    requires n == 0 || s[n - 1] !in cs
    ensures TrimEnd(s, cs) == s[..n]
    decreases |s| - n
  {
    if n < |s| {
      var shorter := s[..|s| - 1];
      TrimEndUnique(shorter, cs, n);
      assert shorter[..n] == s[..n];
    } else {
      assert s[..n] == s;
    }
  }

  /** Trim keeps exactly the slice between the first and the last character outside `cs`. */
  lemma TrimAt(s: string, cs: set<char>, i: int, j: int)
    requires 0 <= i <= j <= |s|
    requires forall k :: 0 <= k < i ==> s[k] in cs
    requires forall k :: j <= k < |s| ==> s[k] in cs
    requires i == |s| || s[i] !in cs
    requires j == i || s[j - 1] !in cs
    ensures Trim(s, cs) == s[i..j]
  {
    TrimStartUnique(s, cs, i);
    TrimEndOfSlice(s, cs, i, j);
  }

  lemma TrimEndOfSlice(s: string, cs: set<char>, i: int, j: int)
    requires 0 <= i <= j <= |s|
    requires forall k :: j <= k < |s| ==> s[k] in cs
    requires j == i || s[j - 1] !in cs
    ensures TrimEnd(s[i..], cs) == s[i..j]
  {
    var m := s[i..];
    SliceSuffix(s, m, cs, i, j);
    TrimEndUnique(m, cs, j - i);
  }

  lemma SliceSuffix(s: string, m: string, cs: set<char>, i: int, j: int)
    requires 0 <= i <= j <= |s| && m == s[i..]
    requires forall k :: j <= k < |s| ==> s[k] in cs
    requires j == i || s[j - 1] !in cs
    ensures forall k :: j - i <= k < |m| ==> m[k] in cs
    ensures j - i == 0 || m[j - i - 1] !in cs
    ensures m[..j - i] == s[i..j]
  {
  }

  /** Appending characters of `cs` does not change what TrimEnd keeps. */
  lemma {:induction false} TrimEndAppend(s: string, extra: string, cs: set<char>)
    requires forall k :: 0 <= k < |extra| ==> extra[k] in cs
    ensures TrimEnd(s + extra, cs) == TrimEnd(s, cs)
    decreases |extra|
  {
    if extra != [] {
      var shorter := extra[..|extra| - 1];
      assert (s + extra)[..|s + extra| - 1] == s + shorter;
      TrimEndAppend(s, shorter, cs);
    } else {
      assert s + extra == s;
    }
  }

  /** Prepending characters of `cs` does not change what TrimStart keeps. */
  lemma {:induction false} TrimStartPrepend(extra: string, s: string, cs: set<char>)
    requires forall k :: 0 <= k < |extra| ==> extra[k] in cs
    ensures TrimStart(extra + s, cs) == TrimStart(s, cs)
    decreases |extra|
  {
    if extra != [] {
      assert (extra + s)[1..] == extra[1..] + s;
      TrimStartPrepend(extra[1..], s, cs);
    } else {
      assert extra + s == s;
    }
  }

  // ----------------------------------------------------------------- splitting

  /** `s.Split(d)` with no options: cut `s` at every occurrence of `d`, scanning
      left to right and resuming after each occurrence; empty pieces are kept. */
  function Split(s: string, d: string): (parts: seq<string>)
    requires |d| > 0
    ensures |parts| > 0
    decreases |s|
  {
    if |s| < |d| then [s]
    else if s[..|d|] == d then [""] + Split(s[|d|..], d)
    else
      var rest := Split(s[1..], d);
      [[s[0]] + rest[0]] + rest[1..]
  }

  /** `String.Join(d, parts)`. */
  function Join(parts: seq<string>, d: string): string
  {
    if |parts| == 0 then ""
    else if |parts| == 1 then parts[0]
    else parts[0] + d + Join(parts[1..], d)
  }

  lemma JoinConsFirst(x: string, y: string, tail: seq<string>, d: string)
    ensures Join([x + y] + tail, d) == x + Join([y] + tail, d)
  {
    if |tail| > 0 {
      assert ([x + y] + tail)[1..] == tail;
      assert ([y] + tail)[1..] == tail;
    }
  }

  /** Splitting loses nothing: joining the pieces with the delimiter gives the input back. */
  lemma {:induction false} JoinSplit(s: string, d: string)
    requires |d| > 0
    ensures Join(Split(s, d), d) == s
    decreases |s|
  {
    if |s| < |d| {
      assert Split(s, d) == [s];
    } else if s[..|d|] == d {
      var rest := Split(s[|d|..], d);
      assert Split(s, d) == [""] + rest;
      JoinSplit(s[|d|..], d);
      assert ([""] + rest)[1..] == rest;
      assert Join([""] + rest, d) == "" + d + Join(rest, d);
      assert s == d + s[|d|..];
    } else {
      var rest := Split(s[1..], d);
      assert Split(s, d) == [[s[0]] + rest[0]] + rest[1..];
      JoinSplit(s[1..], d);
      JoinConsFirst([s[0]], rest[0], rest[1..], d);
      assert [rest[0]] + rest[1..] == rest;
      assert s == [s[0]] + s[1..];
    }
  }

  /** Number of occurrences of `c` in `s`. */
  function Count(s: string, c: char): nat
  {
    if s == [] then 0 else (if s[0] == c then 1 else 0) + Count(s[1..], c)
  }

  /** Splitting on one character yields one more piece than there are occurrences of it. */
  lemma {:induction false} SplitCount(s: string, c: char)
    ensures |Split(s, [c])| == Count(s, c) + 1
    decreases |s|
  {
    if s != [] {
      SplitCount(s[1..], c);
      assert s[..1] == [s[0]];
    }
  }

  /** A string without the delimiter character is a single piece. */
  lemma {:induction false} SplitWithout(s: string, c: char)
    requires c !in s
    ensures Split(s, [c]) == [s]
    decreases |s|
  {
    if s != [] {
      assert s[..1] == [s[0]];
      SplitWithout(s[1..], c);
      assert [s[0]] + s[1..] == s;
    }
  }

  /** Splitting on one character distributes over a concatenation at that character. */
  lemma {:induction false} SplitAppend(a: string, c: char, b: string)
    ensures Split(a + [c] + b, [c]) == Split(a, [c]) + Split(b, [c])
    decreases |a|
  {
    var s := a + [c] + b;
    if a == [] {
      assert s[..1] == [c] && s[1..] == b;
    } else {
      assert s[..1] == [a[0]] && s[1..] == a[1..] + [c] + b;
      assert a[..1] == [a[0]];
      SplitAppend(a[1..], c, b);
    }
  }

  /** No occurrence of `d` starts inside `x`, not even one that runs on into a
      `d` following `x`. */
  ghost predicate NoneBefore(x: string, d: string)
  {
    forall i :: 0 <= i < |x| ==> !OccursAt(x + d, d, i)
  }

  /** `d` occurs nowhere in `s`. */
  ghost predicate NoneIn(s: string, d: string)
  {
    forall i :: !OccursAt(s, d, i)
  }

  /** A string in which the delimiter occurs nowhere is one piece. */
  lemma {:induction false} SplitNone(s: string, d: string)
    requires |d| > 0 && NoneIn(s, d)
    ensures Split(s, d) == [s]
    decreases |s|
  {
    if |s| >= |d| {
      assert !OccursAt(s, d, 0);
      forall i ensures !OccursAt(s[1..], d, i) {
        assert !OccursAt(s, d, i + 1);
        if 0 <= i && i + |d| <= |s| - 1 {
          assert s[1..][i..i + |d|] == s[i + 1..i + 1 + |d|];
        }
      }
      SplitNone(s[1..], d);
      assert [s[0]] + s[1..] == s;
    }
  }

  /** The scan cuts at a delimiter that follows a piece in which no occurrence starts. */
  lemma {:induction false} SplitAt(a: string, d: string, b: string)
    requires |d| > 0 && NoneBefore(a, d)
    ensures Split(a + d + b, d) == [a] + Split(b, d)
    decreases |a|
  {
    var s := a + d + b;
    if a == [] {
      assert s[..|d|] == d && s[|d|..] == b;
    } else {
      assert !OccursAt(a + d, d, 0);
      assert s[..|d|] == (a + d)[0..|d|];
      assert s[1..] == a[1..] + d + b;
      forall i | 0 <= i < |a[1..]| ensures !OccursAt(a[1..] + d, d, i) {
        assert !OccursAt(a + d, d, i + 1);
        assert (a[1..] + d)[i..i + |d|] == (a + d)[i + 1..i + 1 + |d|];
      }
      SplitAt(a[1..], d, b);
      assert [a[0]] + a[1..] == a;
    }
  }

  /** Joining pieces in which the delimiter cannot be found, then splitting,
      gives the pieces back. */
  lemma {:induction false} SplitJoin(parts: seq<string>, d: string)
    requires |d| > 0 && parts != []
    requires forall k :: 0 <= k < |parts| - 1 ==> NoneBefore(parts[k], d)
    requires NoneIn(parts[|parts| - 1], d)
    ensures Split(Join(parts, d), d) == parts
    decreases |parts|
  {
    if |parts| == 1 {
      SplitNone(parts[0], d);
    } else {
      var tail := parts[1..];
      assert forall k :: 0 <= k < |tail| - 1 ==> tail[k] == parts[k + 1];
      SplitJoin(tail, d);
      SplitAt(parts[0], d, Join(tail, d));
      assert [parts[0]] + tail == parts;
    }
  }

  /** Keep the non-empty pieces (StringSplitOptions.RemoveEmptyEntries). */
  function NonEmpty(parts: seq<string>): (r: seq<string>)
    ensures |r| <= |parts|
    ensures forall p :: p in r <==> p in parts && p != ""
  {
    if parts == [] then []
    else if parts[0] == "" then NonEmpty(parts[1..])
    else [parts[0]] + NonEmpty(parts[1..])
  }

  /** RemoveEmptyEntries keeps the order: it works piece by piece. */
  lemma {:induction false} NonEmptyAppend(a: seq<string>, b: seq<string>)
    ensures NonEmpty(a + b) == NonEmpty(a) + NonEmpty(b)
    decreases |a|
  {
    if a == [] {
      assert a + b == b;
    } else {
      assert (a + b)[0] == a[0] && (a + b)[1..] == a[1..] + b;
      NonEmptyAppend(a[1..], b);
    }
  }

  /** One piece is dropped exactly when it is empty. */
  lemma NonEmptyOne(p: string)
    ensures NonEmpty([p]) == if p == "" then [] else [p]
  {
    assert [p][1..] == [];
  }

  /** Pieces that are all non-empty are kept, in order. */
  lemma {:induction false} NonEmptyAllKept(parts: seq<string>)
    requires forall k :: 0 <= k < |parts| ==> parts[k] != ""
    ensures NonEmpty(parts) == parts
    decreases |parts|
  {
    if parts != [] {
      NonEmptyAllKept(parts[1..]);
      assert [parts[0]] + parts[1..] == parts;
    }
  }

  // --------------------------------------------------- replacing and searching

  /** `s.Replace(from, to)` for two characters. */
  function ReplaceChar(s: string, from: char, to: char): (r: string)
    ensures |r| == |s|
    ensures forall i :: 0 <= i < |s| && s[i] == from ==> r[i] == to
    ensures forall i :: 0 <= i < |s| && s[i] != from ==> r[i] == s[i]
  {
    if s == [] then [] else [if s[0] == from then to else s[0]] + ReplaceChar(s[1..], from, to)
  }

  /** Replacing a character that does not occur changes nothing. */
  lemma ReplaceCharAbsent(s: string, from: char, to: char)
    requires from !in s
    ensures ReplaceChar(s, from, to) == s
  {
  }

  /** Replacing the only occurrence of `from` changes that position and nothing else. */
  lemma ReplaceCharOnce(a: string, b: string, from: char, to: char)
    requires from !in a && from !in b
    ensures ReplaceChar(a + [from] + b, from, to) == a + [to] + b
  {
    var s := a + [from] + b;
    var r := ReplaceChar(s, from, to);
    var t := a + [to] + b;
    forall k | 0 <= k < |s| ensures r[k] == t[k] {
      if k < |a| {
        assert s[k] == a[k] == t[k] && a[k] in a;
      } else if k > |a| {
        assert s[k] == b[k - |a| - 1] == t[k] && b[k - |a| - 1] in b;
      }
    }
  }

  /** A common prefix keeps different strings different. */
  lemma PrefixKeepsDifference(p: string, x: string, y: string)
    requires x != y
    ensures p + x != p + y
  {
    if |x| == |y| {
      var i :| 0 <= i < |x| && x[i] != y[i];
      assert (p + x)[|p| + i] != (p + y)[|p| + i];
    }
  }

  /** `s.Replace(c.ToString(), "")`: delete every occurrence of `c`, keep the rest in order. */
  function RemoveChar(s: string, c: char): (r: string)
    ensures c !in r
    ensures forall x :: x in r <==> x in s && x != c
    ensures |r| == |s| - Count(s, c)
  {
    if s == [] then [] else (if s[0] == c then [] else [s[0]]) + RemoveChar(s[1..], c)
  }

  /** Deleting a character that does not occur changes nothing. */
  lemma {:induction false} RemoveCharAbsent(s: string, c: char)
    requires c !in s
    ensures RemoveChar(s, c) == s
    decreases |s|
  {
    if s != [] {
      RemoveCharAbsent(s[1..], c);
      assert [s[0]] + s[1..] == s;
    }
  }

  /** Deleting works character by character, keeping the order of the rest. */
  lemma {:induction false} RemoveCharAppend(a: string, b: string, c: char)
    ensures RemoveChar(a + b, c) == RemoveChar(a, c) + RemoveChar(b, c)
    decreases |a|
  {
    if a == [] {
      assert a + b == b;
    } else {
      assert (a + b)[0] == a[0] && (a + b)[1..] == a[1..] + b;
      RemoveCharAppend(a[1..], b, c);
    }
  }

  /** One character is deleted exactly when it is `c`. */
  lemma RemoveCharOne(x: char, c: char)
    ensures RemoveChar([x], c) == if x == c then [] else [x]
  {
    assert [x][1..] == [];
  }

  /** `s.Contains(sub)`: ordinal substring test. */
  function Contains(s: string, sub: string): bool
    decreases |s|
  {
    if |sub| <= |s| && s[..|sub|] == sub then true
    else if s == [] then false
    else Contains(s[1..], sub)
  }

  /** `sub` occurs in `s` at position `i`. */
  ghost predicate OccursAt(s: string, sub: string, i: int)
  {
    0 <= i && i + |sub| <= |s| && s[i..i + |sub|] == sub
  }

  /** Contains is true exactly when `sub` occurs at some position of `s`. */
  lemma {:induction false} ContainsIff(s: string, sub: string)
    ensures Contains(s, sub) <==> exists i :: OccursAt(s, sub, i)
    decreases |s|
  {
    if |sub| <= |s| && s[..|sub|] == sub {
      assert OccursAt(s, sub, 0);
    } else if s == [] {
    } else {
      ContainsIff(s[1..], sub);
      if exists i :: OccursAt(s, sub, i) {
        var i :| OccursAt(s, sub, i);
        assert i != 0;
        assert s[1..][i - 1..i - 1 + |sub|] == s[i..i + |sub|];
        assert OccursAt(s[1..], sub, i - 1);
      }
      if Contains(s[1..], sub) {
        var i :| OccursAt(s[1..], sub, i);
        assert s[i + 1..i + 1 + |sub|] == s[1..][i..i + |sub|];
        assert OccursAt(s, sub, i + 1);
      }
    }
  }

  /** `s.IndexOf(c)`: the first position of `c`, or -1. */
  function IndexOf(s: string, c: char): (i: int)
    ensures -1 <= i < |s|
    ensures i == -1 ==> c !in s
    ensures 0 <= i ==> s[i] == c && c !in s[..i]
    decreases |s|
  {
    if s == [] then -1
    else if s[0] == c then 0
    else
      var j := IndexOf(s[1..], c);
      if j == -1 then -1 else j + 1
  }

  /** `s.Length` in .NET: UTF-16 code units, two for each character outside
      the Basic Multilingual Plane. */
  function Utf16Length(s: string): (n: nat)
    ensures |s| <= n <= 2 * |s|
  {
    if s == [] then 0 else (if s[0] as int > 0xFFFF then 2 else 1) + Utf16Length(s[1..])
  }

  /** Text inside the Basic Multilingual Plane has one code unit per character. */
  lemma {:induction false} Utf16LengthOfBmp(s: string)
    requires forall i :: 0 <= i < |s| ==> s[i] as int <= 0xFFFF
    ensures Utf16Length(s) == |s|
    decreases |s|
  {
    if s != [] {
      Utf16LengthOfBmp(s[1..]);
    }
  }

  /** Code units add up over a concatenation; a character outside the Basic
      Multilingual Plane counts two. */
  lemma {:induction false} Utf16LengthAppend(a: string, b: string)
    ensures Utf16Length(a + b) == Utf16Length(a) + Utf16Length(b)
    decreases |a|
  {
    if a == [] {
      assert a + b == b;
    } else {
      assert (a + b)[0] == a[0] && (a + b)[1..] == a[1..] + b;
      Utf16LengthAppend(a[1..], b);
    }
  }

  /** IndexOf finds the first occurrence. */
  lemma {:induction false} IndexOfFirst(s: string, c: char, j: int)
    requires 0 <= j < |s| && s[j] == c
    requires forall k :: 0 <= k < j ==> s[k] != c
    ensures IndexOf(s, c) == j
    decreases j
  {
    if j > 0 {
      IndexOfFirst(s[1..], c, j - 1);
    }
  }

  // ------------------------------------------------------------------ letter case

  function LowerChar(c: char): char
  {
    if 'A' <= c <= 'Z' then (c as int + 32) as char else c
  }

  function UpperChar(c: char): char
  {
    if 'a' <= c <= 'z' then (c as int - 32) as char else c
  }

  /** `a` and `b` spell the same text up to the case of ASCII letters. */
  ghost predicate SameIgnoringCase(a: string, b: string)
  {
    |a| == |b| && forall i :: 0 <= i < |a| ==> LowerChar(a[i]) == LowerChar(b[i])
  }

  /** `s.ToLower()` restricted to ASCII letters. */
  function ToLower(s: string): (r: string)
    ensures SameIgnoringCase(r, s)
    ensures forall i :: 0 <= i < |r| ==> !('A' <= r[i] <= 'Z')
  {
    seq(|s|, i requires 0 <= i < |s| => LowerChar(s[i]))
  }

  /** `s.ToUpper()` restricted to ASCII letters. */
  function ToUpper(s: string): (r: string)
    ensures SameIgnoringCase(r, s)
    ensures forall i :: 0 <= i < |r| ==> !('a' <= r[i] <= 'z')
  {
    seq(|s|, i requires 0 <= i < |s| => UpperChar(s[i]))
  }

  /** Two strings have equal lower-case forms exactly when they agree up to case. */
  lemma ToLowerEqualIff(a: string, b: string)
    ensures ToLower(a) == ToLower(b) <==> SameIgnoringCase(a, b)
  {
    if SameIgnoringCase(a, b) {
      assert forall i :: 0 <= i < |a| ==> ToLower(a)[i] == ToLower(b)[i] by {
        forall i | 0 <= i < |a| ensures ToLower(a)[i] == ToLower(b)[i] {
          assert LowerChar(ToLower(a)[i]) == LowerChar(a[i]);
        }
      }
    }
    if ToLower(a) == ToLower(b) {
      forall i | 0 <= i < |a| ensures LowerChar(a[i]) == LowerChar(b[i]) {
        assert ToLower(a)[i] == ToLower(b)[i];
      }
    }
  }

  /** Upper-casing first does not change the lower-case form. */
  lemma ToLowerOfUpper(s: string)
    ensures ToLower(ToUpper(s)) == ToLower(s)
  {
    ToLowerEqualIff(ToUpper(s), s);
  }

  /** Strings that agree up to case have the same upper-case form. */
  lemma ToUpperOfSame(a: string, b: string)
    requires SameIgnoringCase(a, b)
    ensures ToUpper(a) == ToUpper(b)
  {
    forall i | 0 <= i < |a| ensures ToUpper(a)[i] == ToUpper(b)[i] {
      assert UpperChar(a[i]) == UpperChar(LowerChar(a[i]));
      assert UpperChar(b[i]) == UpperChar(LowerChar(b[i]));
    }
  }

  // ------------------------------------------------------------- long.Parse

  const MIN_LONG: int := -0x8000_0000_0000_0000
  const MAX_LONG: int := 0x7FFF_FFFF_FFFF_FFFF

  /** White space long.Parse skips at either end (NumberStyles.Integer). */
  const NUMBER_WHITE: set<char> := {'\t', '\n', '\U{000B}', '\U{000C}', '\r', ' '}

  predicate AllDigits(s: string)
  {
    forall i :: 0 <= i < |s| ==> '0' <= s[i] <= '9'
  }

  /** The value of a run of decimal digits, most significant first. */
  function DigitsValue(s: string): nat
    requires AllDigits(s)
  {
    if s == [] then 0 else DigitsValue(s[..|s| - 1]) * 10 + (s[|s| - 1] as int - '0' as int)
  }

  /** `long.Parse(s)`: optional white space, an optional sign, at least one
      decimal digit, optional white space; the value must fit in 64 bits. */
  function ParseLong(s: string): (r: Result<int>)
    ensures r.Ok? ==> MIN_LONG <= r.value <= MAX_LONG
  {
    ParseSigned(Trim(s, NUMBER_WHITE))
  }

  /** long.Parse after the white space is gone: an optional sign, then the digits. */
  function ParseSigned(t: string): (r: Result<int>)
    ensures r.Ok? ==> MIN_LONG <= r.value <= MAX_LONG
  {
    if |t| > 0 && t[0] == '-' then ParseMagnitude(t[1..], true)
    else if |t| > 0 && t[0] == '+' then ParseMagnitude(t[1..], false)
    else ParseMagnitude(t, false)
  }

  /** The unsigned part of long.Parse: digits only, then the range check. */
  function ParseMagnitude(digits: string, negative: bool): (r: Result<int>)
    ensures r.Ok? ==> MIN_LONG <= r.value <= MAX_LONG
    ensures r.Ok? <==> digits != [] && AllDigits(digits) && (if negative then -MIN_LONG else MAX_LONG) >= DigitsValue(digits)
  {
    if digits == [] || !AllDigits(digits) then Err(BadNumber)
    else
      var magnitude: int := DigitsValue(digits);
      var v := if negative then -magnitude else magnitude;
      if v < MIN_LONG || MAX_LONG < v then Err(NumberOverflow) else Ok(v)
  }

  /** The decimal text of `n`, without sign or leading zeros. */
  function DecimalString(n: nat): (s: string)
    ensures |s| > 0 && AllDigits(s)
    ensures |s| > 1 ==> s[0] != '0'
  {
    if n < 10 then [(n + '0' as int) as char]
    else DecimalString(n / 10) + [(n % 10 + '0' as int) as char]
  }

  /** The text of a 64-bit integer as .NET prints it: a minus sign for negatives. */
  function LongString(n: int): string
  {
    if n < 0 then "-" + DecimalString(-n) else DecimalString(n)
  }

  lemma {:induction false} DigitsValueOfDecimal(n: nat)
    ensures DigitsValue(DecimalString(n)) == n
  {
    if n >= 10 {
      var s := DecimalString(n);
      assert s[..|s| - 1] == DecimalString(n / 10);
      DigitsValueOfDecimal(n / 10);
    }
  }

  /** Trimming a string whose two ends are kept changes nothing. */
  lemma TrimKeeps(s: string, cs: set<char>)
    requires s != [] && s[0] !in cs && s[|s| - 1] !in cs
    ensures Trim(s, cs) == s
  {
    assert TrimStart(s, cs) == s;
  }

  lemma LongStringTrimmed(n: int)
    ensures Trim(LongString(n), NUMBER_WHITE) == LongString(n)
  {
    var ds := DecimalString(if n < 0 then -n else n);
    var s := LongString(n);
    assert s[|s| - 1] == ds[|ds| - 1];
    TrimKeeps(s, NUMBER_WHITE);
  }

  lemma MagnitudeOfDecimal(n: int, negative: bool)
    requires MIN_LONG <= n <= MAX_LONG && (n < 0 <==> negative)
    ensures ParseMagnitude(DecimalString(if negative then -n else n), negative) == Ok(n)
  {
    DigitsValueOfDecimal(if negative then -n else n);
  }

  lemma SignOfLongString(n: int)
    ensures n < 0 ==> LongString(n)[0] == '-' && LongString(n)[1..] == DecimalString(-n)
    ensures n >= 0 ==> LongString(n)[0] != '-' && LongString(n)[0] != '+'
  {
  }

  /** The printed form of an integer holds no comma. */
  lemma LongStringNoComma(n: int)
    ensures ',' !in LongString(n)
  {
    var ds := DecimalString(if n < 0 then -n else n);
    assert forall i :: 0 <= i < |ds| ==> ds[i] != ',';
    if n < 0 {
      assert LongString(n) == ['-'] + ds;
    }
  }

  /** Printing a 64-bit integer and parsing it back gives the integer. */
  lemma ParseLongString(n: int)
    requires MIN_LONG <= n <= MAX_LONG
    ensures ParseLong(LongString(n)) == Ok(n)
  {
    MagnitudeOfDecimal(n, n < 0);
    LongStringTrimmed(n);
    SignOfLongString(n);
  }
}
