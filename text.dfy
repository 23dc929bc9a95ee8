/**
  The handful of Python `str` operations the pipeline is built from, over Dafny
  strings (sequences of code points): `isspace`, `splitlines` boundaries,
  `endswith`, `in`, `split`, `join`, `strip`/`lstrip`, `replace` of one
  character, and the `<` ordering that `sorted` uses.
*/
module Text {

  /** `c.isspace()` */
  predicate IsSpace(c: char) {
    c == ' ' || '\t' <= c <= '\r' || '\U{1c}' <= c <= '\U{1f}' || c == '\U{85}' || c == '\U{a0}'
    || c == '\U{1680}' || '\U{2000}' <= c <= '\U{200a}' || c == '\U{2028}' || c == '\U{2029}'
    || c == '\U{202f}' || c == '\U{205f}' || c == '\U{3000}'
  }

  /** A character at which `str.splitlines` ends a line. */
  predicate IsLineBreak(c: char) {
    '\n' <= c <= '\r' || '\U{1c}' <= c <= '\U{1e}' || c == '\U{85}' || c == '\U{2028}' || c == '\U{2029}'
  }

  /** `sep` occurs in `s` starting at index `i`. */
  predicate OccursAt(s: string, sep: string, i: int) {
    0 <= i && i + |sep| <= |s| && s[i..i + |sep|] == sep
  }

  /** `sub in s` */
  predicate Contains(s: string, sub: string) {
    exists i :: 0 <= i <= |s| - |sub| && OccursAt(s, sub, i)
  }

  /** `s.endswith(suffix)` */
  predicate EndsWith(s: string, suffix: string) {
    |suffix| <= |s| && s[|s| - |suffix|..] == suffix
  }

  /** `s.startswith(prefix)` */
  predicate StartsWith(s: string, prefix: string) {
    |prefix| <= |s| && s[..|prefix|] == prefix
  }

  /** `c in s` for one character */
  predicate HasChar(s: string, c: char) {
    exists i :: 0 <= i < |s| && s[i] == c
  }

  /**
    `s.split(sep)` for a non-empty separator: the text between the leftmost,
    non-overlapping occurrences of `sep`.
  */
  function Split(s: string, sep: string): (parts: seq<string>)
    requires sep != ""
    ensures |parts| >= 1
    decreases |s|
  {
    if OccursAt(s, sep, 0) then [""] + Split(s[|sep|..], sep)
    else if s == "" then [""]
    else
      var rest := Split(s[1..], sep);
      [[s[0]] + rest[0]] + rest[1..]
  }

  /** `sep.join(parts)` */
  function Join(sep: string, parts: seq<string>): string
    decreases |parts|
  {
    if |parts| == 0 then ""
    else if |parts| == 1 then parts[0]
    else parts[0] + sep + Join(sep, parts[1..])
  }

  /** Joining the pieces of a split with the same separator gives the text back. */
  lemma {:induction false} JoinSplit(s: string, sep: string)
    requires sep != ""
    ensures Join(sep, Split(s, sep)) == s
    decreases |s|
  {
    if OccursAt(s, sep, 0) {
      JoinSplit(s[|sep|..], sep);
      JoinCons("", sep, Split(s[|sep|..], sep));
      assert s == sep + s[|sep|..];
    } else if s != "" {
      var rest := Split(s[1..], sep);
      JoinSplit(s[1..], sep);
      JoinGlue(s[0], sep, rest);
      assert s == [s[0]] + s[1..];
    }
  }

  lemma JoinCons(p: string, sep: string, rest: seq<string>)
    requires |rest| >= 1
    ensures Join(sep, [p] + rest) == p + sep + Join(sep, rest)
  {
    assert ([p] + rest)[1..] == rest;
  }

  lemma JoinGlue(c: char, sep: string, rest: seq<string>)
    requires |rest| >= 1
    ensures Join(sep, [[c] + rest[0]] + rest[1..]) == [c] + Join(sep, rest)
  {
    var parts := [[c] + rest[0]] + rest[1..];
    if |rest| > 1 {
      assert parts[1..] == rest[1..];
    }
  }

  /**
    No occurrence of `sep` starts inside `p`, not even one that would run on
    into a `sep` written right after it.
  */
  predicate SepFree(p: string, sep: string) {
    forall i :: 0 <= i < |p| ==> !OccursAt(p + sep, sep, i)
  }

  lemma SepFreeShift(a: string, sep: string, rest: string, i: int)
    requires 0 <= i < |a|
    ensures OccursAt(a + sep + rest, sep, i) <==> OccursAt(a + sep, sep, i)
  {
    if i + |sep| <= |a + sep| {
      assert (a + sep + rest)[i..i + |sep|] == (a + sep)[i..i + |sep|];
    }
  }

  /** Splitting `a + sep + b` cuts at the separator written after `a`. */
  lemma {:induction false} SplitAfter(a: string, sep: string, b: string)
    requires sep != "" && SepFree(a, sep)
    ensures Split(a + sep + b, sep) == [a] + Split(b, sep)
    decreases |a|
  {
    var s := a + sep + b;
    if a == "" {
      assert s == sep + b;
      assert OccursAt(s, sep, 0);
      assert s[|sep|..] == b;
    } else {
      SepFreeShift(a, sep, b, 0);
      assert !OccursAt(s, sep, 0);
      var a' := a[1..];
      assert s[1..] == a' + sep + b;
      forall i | 0 <= i < |a'|
        ensures !OccursAt(a' + sep, sep, i)
      {
        assert !OccursAt(a + sep, sep, i + 1);
        assert (a' + sep)[i..] == (a + sep)[i + 1..];
      }
      SplitAfter(a', sep, b);
      var rest := Split(s[1..], sep);
      assert rest == [a'] + Split(b, sep);
      assert [s[0]] + a' == a;
    }
  }

  /** A text without an occurrence of the separator splits into itself. */
  lemma {:induction false} SplitWhole(s: string, sep: string)
    requires sep != "" && SepFree(s, sep)
    ensures Split(s, sep) == [s]
    decreases |s|
  {
    if s != "" {
      assert !OccursAt(s, sep, 0) by {
        assert !OccursAt(s + sep, sep, 0);
        if |sep| <= |s| {
          assert (s + sep)[0..|sep|] == s[0..|sep|];
        }
      }
      var s' := s[1..];
      forall i | 0 <= i < |s'|
        ensures !OccursAt(s' + sep, sep, i)
      {
        assert !OccursAt(s + sep, sep, i + 1);
        assert (s' + sep)[i..] == (s + sep)[i + 1..];
      }
      SplitWhole(s', sep);
      assert [s[0]] + s' == s;
    }
  }

  /** Splitting a join of separator-free pieces gives the pieces back. */
  lemma {:induction false} SplitJoin(parts: seq<string>, sep: string)
    requires sep != "" && |parts| >= 1
    requires forall k :: 0 <= k < |parts| ==> SepFree(parts[k], sep)
    ensures Split(Join(sep, parts), sep) == parts
    decreases |parts|
  {
    if |parts| == 1 {
      SplitWhole(parts[0], sep);
    } else {
      SplitJoin(parts[1..], sep);
      SplitAfter(parts[0], sep, Join(sep, parts[1..]));
      assert [parts[0]] + parts[1..] == parts;
    }
  }

  /** For a one-character separator, being separator-free is not containing it. */
  lemma SepFreeChar(p: string, c: char)
    requires !HasChar(p, c)
    ensures SepFree(p, [c])
  {
    forall i | 0 <= i < |p|
      ensures !OccursAt(p + [c], [c], i)
    {
      assert (p + [c])[i] == p[i];
    }
  }

  /** A text with no two `c` in a row and not ending in `c` holds no `c` doubled, even before another `c`. */
  lemma SepFreePair(p: string, c: char)
    requires forall i :: 0 <= i < |p| - 1 ==> !(p[i] == c && p[i + 1] == c)
    requires p == [] || p[|p| - 1] != c
    ensures SepFree(p, [c, c])
  {
    forall i | 0 <= i < |p|
      ensures !OccursAt(p + [c, c], [c, c], i)
    {
      var q := p + [c, c];
      assert q[i] == p[i];
      if i + 1 < |p| {
        assert q[i + 1] == p[i + 1];
      }
    }
  }

  /** The middle of a concatenation occurs in it. */
  lemma ContainsMiddle(a: string, m: string, b: string)
    ensures Contains(a + m + b, m)
  {
    assert (a + m + b)[|a|..|a| + |m|] == m;
    assert OccursAt(a + m + b, m, |a|);
  }

  /** Every piece of a split on one character is free of that character. */
  lemma {:induction false} SplitPiecesFree(s: string, c: char)
    ensures forall k :: 0 <= k < |Split(s, [c])| ==> !HasChar(Split(s, [c])[k], c)
    decreases |s|
  {
    var parts := Split(s, [c]);
    if OccursAt(s, [c], 0) {
      SplitPiecesFree(s[1..], c);
      assert parts == [""] + Split(s[1..], [c]);
      assert forall k :: 1 <= k < |parts| ==> parts[k] == Split(s[1..], [c])[k - 1];
    } else if s != "" {
      SplitPiecesFree(s[1..], c);
      var rest := Split(s[1..], [c]);
      assert s[0] != c by { assert s[0..1] == [s[0]]; }
      assert parts[0] == [s[0]] + rest[0];
      assert forall k :: 1 <= k < |parts| ==> parts[k] == rest[k];
      assert !HasChar(rest[0], c);
      forall i | 0 <= i < |parts[0]|
        ensures parts[0][i] != c
      {
        if i > 0 { assert parts[0][i] == rest[0][i - 1]; }
      }
    }
  }

  /** No character of `s` is one of the `bad` ones. */
  predicate Avoids(s: string, bad: char -> bool) {
    forall i :: 0 <= i < |s| ==> !bad(s[i])
  }

  lemma AppendAvoids(a: string, b: string, bad: char -> bool)
    requires Avoids(a, bad) && Avoids(b, bad)
    ensures Avoids(a + b, bad)
  {
    forall i | 0 <= i < |a + b| ensures !bad((a + b)[i]) {
      if i < |a| { assert (a + b)[i] == a[i]; } else { assert (a + b)[i] == b[i - |a|]; }
    }
  }

  /** A text without line breaks holds no line feed. */
  lemma AvoidsNewline(s: string)
    requires Avoids(s, IsLineBreak)
    ensures !HasChar(s, '\n')
  {
  }

  /** A join keeps out whatever neither the pieces nor the separator hold. */
  lemma {:induction false} JoinAvoids(sep: string, parts: seq<string>, bad: char -> bool)
    requires Avoids(sep, bad)
    requires forall k :: 0 <= k < |parts| ==> Avoids(parts[k], bad)
    ensures Avoids(Join(sep, parts), bad)
    decreases |parts|
  {
    if |parts| > 1 {
      JoinAvoids(sep, parts[1..], bad);
      AppendAvoids(parts[0], sep, bad);
      AppendAvoids(parts[0] + sep, Join(sep, parts[1..]), bad);
    }
  }

  /** The pieces of a split hold nothing the text did not. */
  lemma {:induction false} SplitAvoids(s: string, sep: string, bad: char -> bool)
    requires sep != "" && Avoids(s, bad)
    ensures forall k :: 0 <= k < |Split(s, sep)| ==> Avoids(Split(s, sep)[k], bad)
    decreases |s|
  {
    var parts := Split(s, sep);
    if OccursAt(s, sep, 0) {
      var tail := s[|sep|..];
      assert Avoids(tail, bad) by {
        forall i | 0 <= i < |tail| ensures !bad(tail[i]) { assert tail[i] == s[i + |sep|]; }
      }
      SplitAvoids(tail, sep, bad);
      assert forall k :: 1 <= k < |parts| ==> parts[k] == Split(tail, sep)[k - 1];
    } else if s != "" {
      var tail := s[1..];
      assert Avoids(tail, bad) by {
        forall i | 0 <= i < |tail| ensures !bad(tail[i]) { assert tail[i] == s[i + 1]; }
      }
      SplitAvoids(tail, sep, bad);
      var rest := Split(tail, sep);
      assert forall k :: 1 <= k < |parts| ==> parts[k] == rest[k];
      assert parts[0] == [s[0]] + rest[0];
      AppendAvoids([s[0]], rest[0], bad);
    }
  }

  /** The join of several pieces starts with the first and ends with the last. */
  lemma {:induction false} JoinEnds(sep: string, parts: seq<string>)
    requires |parts| >= 1
    ensures StartsWith(Join(sep, parts), parts[0])
    ensures EndsWith(Join(sep, parts), parts[|parts| - 1])
    decreases |parts|
  {
    if |parts| > 1 {
      JoinEnds(sep, parts[1..]);
      var j := Join(sep, parts);
      var rest := Join(sep, parts[1..]);
      assert j == parts[0] + sep + rest;
      assert j[..|parts[0]|] == parts[0];
      assert j[|j| - |rest|..] == rest;
    }
  }

  /** `s.lstrip(chars)` with the stripped characters given as a predicate. */
  function TrimStart(s: string, drop: char -> bool): (r: string)
    ensures |r| <= |s| && r == s[|s| - |r|..]
    ensures r == [] || !drop(r[0])
    decreases |s|
  {
    if s != [] && drop(s[0]) then TrimStart(s[1..], drop) else s
  }

  /** Every character `TrimStart` removes is one it was told to drop. */
  lemma {:induction false} TrimStartDropped(s: string, drop: char -> bool)
    ensures forall i :: 0 <= i < |s| - |TrimStart(s, drop)| ==> drop(s[i])
    decreases |s|
  {
    if s != [] && drop(s[0]) {
      TrimStartDropped(s[1..], drop);
      forall i | 1 <= i < |s| - |TrimStart(s, drop)|
        ensures drop(s[i])
      {
        assert s[i] == s[1..][i - 1];
      }
    }
  }

  /** `s.rstrip(chars)` with the stripped characters given as a predicate. */
  function TrimEnd(s: string, drop: char -> bool): (r: string)
    ensures |r| <= |s| && r == s[..|r|]
    ensures r == [] || !drop(r[|r| - 1])
    decreases |s|
  {
    if s != [] && drop(s[|s| - 1]) then TrimEnd(s[..|s| - 1], drop) else s
  }

  /** Every character `TrimEnd` removes is one it was told to drop. */
  lemma {:induction false} TrimEndDropped(s: string, drop: char -> bool)
    ensures forall i :: |TrimEnd(s, drop)| <= i < |s| ==> drop(s[i])
    decreases |s|
  {
    if s != [] && drop(s[|s| - 1]) {
      TrimEndDropped(s[..|s| - 1], drop);
      forall i | |TrimEnd(s, drop)| <= i < |s| - 1
        ensures drop(s[i])
      {
        assert s[i] == s[..|s| - 1][i];
      }
    }
  }

  /** The text neither begins nor ends with whitespace. */
  predicate Stripped(s: string) {
    s == [] || (!IsSpace(s[0]) && !IsSpace(s[|s| - 1]))
  }

  /** `s.strip()` */
  function Strip(s: string): (r: string)
    ensures Stripped(r)
  {
    TrimEnd(TrimStart(s, IsSpace), IsSpace)
  }

  /** Joined pieces are stripped when the first begins and the last ends with a visible character. */
  lemma JoinStripped(sep: string, parts: seq<string>)
    requires |parts| >= 1 && parts[0] != [] && parts[|parts| - 1] != []
    requires Stripped(parts[0]) && Stripped(parts[|parts| - 1])
    ensures Join(sep, parts) != [] && Stripped(Join(sep, parts))
  {
    var j := Join(sep, parts);
    var first, last := parts[0], parts[|parts| - 1];
    JoinEnds(sep, parts);
    assert j[0] == first[0];
    assert j[|j| - 1] == last[|last| - 1];
  }

  /** A slice keeps out whatever the text kept out. */
  lemma SliceAvoids(s: string, lo: nat, hi: nat, bad: char -> bool)
    requires lo <= hi <= |s| && Avoids(s, bad)
    ensures Avoids(s[lo..hi], bad)
  {
    forall i | 0 <= i < hi - lo ensures !bad(s[lo..hi][i]) { assert s[lo..hi][i] == s[lo + i]; }
  }

  /** Trimming and stripping keep out whatever the text kept out. */
  lemma StripAvoids(s: string, drop: char -> bool, bad: char -> bool)
    requires Avoids(s, bad)
    ensures Avoids(TrimStart(s, drop), bad)
    ensures Avoids(Strip(s), bad)
  {
    var t := TrimStart(s, drop);
    SliceAvoids(s, |s| - |t|, |s|, bad);
    var u := TrimStart(s, IsSpace);
    SliceAvoids(s, |s| - |u|, |s|, bad);
    var r := TrimEnd(u, IsSpace);
    SliceAvoids(u, 0, |r|, bad);
  }

  /** Stripping leaves a text without surrounding whitespace unchanged. */
  lemma StripStripped(s: string)
    requires Stripped(s)
    ensures Strip(s) == s
  {
  }

  /** Stripping removes exactly a run of trailing whitespace after a stripped text. */
  lemma StripTrailing(a: string, w: string)
    requires a != [] && Stripped(a)
    requires forall i :: 0 <= i < |w| ==> IsSpace(w[i])
    ensures Strip(a + w) == a
  {
    var s := a + w;
    var t := TrimStart(s, IsSpace);
    assert s[0] == a[0];
    assert t == s;
    var r := TrimEnd(t, IsSpace);
    TrimEndDropped(t, IsSpace);
    assert s[|a| - 1] == a[|a| - 1];
    assert |r| >= |a|;
    assert r == s[..|a|] == a;
  }

  /** The text with one character replaced by another everywhere. */
  function ReplaceChar(s: string, from: char, to: char): (r: string)
    ensures |r| == |s|
    ensures forall i :: 0 <= i < |s| ==> r[i] == if s[i] == from then to else s[i]
  {
    seq(|s|, i requires 0 <= i < |s| => if s[i] == from then to else s[i])
  }

  /** Python's `a < b` on str: code point by code point, a proper prefix first. */
  predicate LexLess(a: string, b: string)
    decreases |a|
  {
    if a == [] then b != []
    else if b == [] then false
    else if a[0] != b[0] then a[0] < b[0]
    else LexLess(a[1..], b[1..])
  }

  /** On non-empty strings the heads decide, and only on a tie do the tails. */
  lemma LexCons(x: char, y: char, u: string, v: string)
    ensures LexLess([x] + u, [y] + v) <==> x < y || (x == y && LexLess(u, v))
  {
    assert ([x] + u)[1..] == u && ([y] + v)[1..] == v;
  }

  lemma {:induction false} LexIrreflexive(a: string)
    ensures !LexLess(a, a)
    decreases |a|
  {
    if a != [] { LexIrreflexive(a[1..]); }
  }

  lemma {:induction false} LexTransitive(a: string, b: string, c: string)
    requires LexLess(a, b) && LexLess(b, c)
    ensures LexLess(a, c)
    decreases |a|
  {
    if a != [] && b != [] && c != [] && a[0] == b[0] == c[0] {
      LexTransitive(a[1..], b[1..], c[1..]);
    }
  }

  lemma {:induction false} LexTotal(a: string, b: string)
    ensures a == b || LexLess(a, b) || LexLess(b, a)
    decreases |a|
  {
    if a != [] && b != [] && a[0] == b[0] {
      LexTotal(a[1..], b[1..]);
      if a[1..] == b[1..] {
        assert a == [a[0]] + a[1..] && b == [b[0]] + b[1..];
      }
    }
  }

  lemma {:induction false} LexAsymmetric(a: string, b: string)
    ensures !(LexLess(a, b) && LexLess(b, a))
    decreases |a|
  {
    if a != [] && b != [] && a[0] == b[0] {
      LexAsymmetric(a[1..], b[1..]);
    }
  }

  /** Comparing equal-length heads first decides, and only on a tie do the tails. */
  lemma {:induction false} LexAppend(u1: string, v1: string, u2: string, v2: string)
    requires |u1| == |u2|
    ensures LexLess(u1 + v1, u2 + v2) <==> LexLess(u1, u2) || (u1 == u2 && LexLess(v1, v2))
    decreases |u1|
  {
    if u1 == [] {
      assert u1 + v1 == v1 && u2 + v2 == v2;
    } else {
      assert (u1 + v1)[0] == u1[0] && (u2 + v2)[0] == u2[0];
      assert (u1 + v1)[1..] == u1[1..] + v1 && (u2 + v2)[1..] == u2[1..] + v2;
      LexAppend(u1[1..], v1, u2[1..], v2);
      if u1[0] == u2[0] {
        assert u1 == u2 <==> u1[1..] == u2[1..] by {
          assert u1 == [u1[0]] + u1[1..] && u2 == [u2[0]] + u2[1..];
        }
      } else {
        assert u1 != u2;
      }
    }
  }

  /** A non-empty sequence is its front followed by its last element. */
  lemma LastSplit<T>(s: seq<T>)
    requires s != []
    ensures s[..|s| - 1] + [s[|s| - 1]] == s
  {
  }

  /** Appending one element leaves the front as it was. */
  lemma FrontOfAppend<T>(s: seq<T>, x: T)
    ensures (s + [x])[..|s|] == s && (s + [x])[|s|] == x
  {
  }

  /** Taking one more element of a sequence appends that element. */
  lemma TakeOneMore<T>(s: seq<T>, i: nat)
    requires i < |s|
    ensures s[..i + 1] == s[..i] + [s[i]]
  {
  }

  /** Taking every element gives the whole sequence. */
  lemma TakeAll<T>(s: seq<T>)
    ensures s[..|s|] == s
  {
  }

  lemma AppendAssoc<T>(a: seq<T>, b: seq<T>, c: seq<T>)
    ensures (a + b) + c == a + (b + c)
  {
  }
}
