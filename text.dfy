/**
 * The pieces of Python's `str` and `re` behaviour that the backend relies on, written out
 * as scanners over `seq<char>`: whitespace and word-character classes, `strip`, `split`,
 * `find`, `in`, `lower`, `lstrip(chars)`, slicing with clamped bounds, `str(int)` and the
 * `{:.0f}` format.
 */
module Text {
  import opened Wrappers

  /** Python's `str.isspace()`, which is also what `\s` matches in a `str` pattern. */
  predicate IsSpace(c: char) {
    ('\t' <= c <= '\r') || ('\U{1C}' <= c <= ' ') || c == '\U{85}' || c == '\U{A0}'
    || c == '\U{1680}' || ('\U{2000}' <= c <= '\U{200A}') || c == '\U{2028}' || c == '\U{2029}'
    || c == '\U{202F}' || c == '\U{205F}' || c == '\U{3000}'
  }

  /** The `\w` class, restricted to ASCII letters, digits and the underscore. */
  predicate IsWordChar(c: char) {
    ('a' <= c <= 'z') || ('A' <= c <= 'Z') || ('0' <= c <= '9') || c == '_'
  }

  /** Python truthiness of an optional string: present and non-empty. */
  predicate Truthy(s: Option<string>) {
    s.Some? && s.value != ""
  }

  predicate AllSpace(s: string) {
    forall i :: 0 <= i < |s| ==> IsSpace(s[i])
  }

  predicate NoSpace(s: string) {
    forall i :: 0 <= i < |s| ==> !IsSpace(s[i])
  }

  /** Neither the first nor the last character is whitespace. */
  predicate NoSpaceEdges(s: string) {
    s == [] || (!IsSpace(s[0]) && !IsSpace(s[|s| - 1]))
  }

  /** `s.lstrip()`. */
  function TrimStart(s: string): (r: string)
    ensures |r| <= |s| && r == s[|s| - |r|..]
    ensures AllSpace(s[..|s| - |r|])
    ensures r == [] || !IsSpace(r[0])
    ensures r == [] <==> AllSpace(s)
    ensures s != [] && !IsSpace(s[0]) ==> r == s
  {
    if s != [] && IsSpace(s[0]) then
      var r := TrimStart(s[1..]);
      AllSpaceTail(s, |s| - |r|);
      r
    else s
  }

  /** Behind a whitespace character, the text is blank exactly when its tail is. */
  lemma AllSpaceTail(s: string, k: nat)
    requires s != [] && IsSpace(s[0]) && 1 <= k <= |s|
    ensures AllSpace(s) <==> AllSpace(s[1..])
    ensures AllSpace(s[..k]) <==> AllSpace(s[1..][..k - 1])
  {
    assert forall i :: 1 <= i < |s| ==> s[i] == s[1..][i - 1];
    assert forall i :: 1 <= i < k ==> s[..k][i] == s[1..][..k - 1][i - 1];
  }

  /** `s.rstrip()`. */
  function TrimEnd(s: string): (r: string)
    ensures |r| <= |s| && r == s[..|r|]
    ensures AllSpace(s[|r|..])
    ensures r == [] || !IsSpace(r[|r| - 1])
    ensures s != [] && !IsSpace(s[|s| - 1]) ==> r == s
  {
    if s != [] && IsSpace(s[|s| - 1]) then
      var r := TrimEnd(s[..|s| - 1]);
      AllSpaceInit(s, |r|);
      r
    else s
  }

  /** In front of a final whitespace character, a tail is blank exactly when it is blank in the text. */
  lemma AllSpaceInit(s: string, k: nat)
    requires s != [] && IsSpace(s[|s| - 1]) && k <= |s| - 1
    ensures AllSpace(s[..|s| - 1][k..]) ==> AllSpace(s[k..])
  {
    assert forall i :: k <= i < |s| - 1 ==> s[..|s| - 1][k..][i - k] == s[i];
    assert forall i :: 0 <= i < |s| - k ==> s[k..][i] == s[k + i];
  }

  /** Where the slice kept by `strip` starts: after the leading whitespace. */
  function StripStart(s: string): (d: nat)
    ensures d <= |s|
  {
    |s| - |TrimStart(s)|
  }

  /** `r` is the slice of `s` starting at `d`, with only whitespace before and after it. */
  predicate SliceBetweenSpaces(s: string, d: nat, r: string) {
    && d + |r| <= |s|
    && r == s[d..d + |r|]
    && AllSpace(s[..d]) && AllSpace(s[d + |r|..])
  }

  /** `s.strip()`: the slice of `s` left after dropping whitespace at both ends. */
  function Strip(s: string): (r: string)
    ensures NoSpaceEdges(r) && |r| <= |s|
    ensures r == [] <==> AllSpace(s)
    ensures NoSpaceEdges(s) ==> r == s
    ensures SliceBetweenSpaces(s, StripStart(s), r)
  {
    var t := TrimStart(s);
    var r := TrimEnd(t);
    StripSlices(s, StripStart(s), t, r);
    r
  }

  /**
   * The facts about `strip` from those about its two halves: `t` is `s` after its leading
   * whitespace, and `r` is `t` before its trailing whitespace.
   */
  lemma StripSlices(s: string, d: nat, t: string, r: string)
    requires |t| <= |s| && t == s[|s| - |t|..] && AllSpace(s[..|s| - |t|]) && (t == [] || !IsSpace(t[0]))
    requires |r| <= |t| && r == t[..|r|] && AllSpace(t[|r|..]) && (r == [] || !IsSpace(r[|r| - 1]))
    requires d == |s| - |t|
    ensures NoSpaceEdges(r) && |r| <= |s|
    ensures r == [] <==> AllSpace(s)
    ensures NoSpaceEdges(s) ==> r == s
    ensures SliceBetweenSpaces(s, d, r)
  {
    assert s[d..][..|r|] == s[d..d + |r|];
    assert t[|r|..] == s[d + |r|..];
    if r != [] {
      assert r[0] == t[0];
    }
    if r == [] {
      assert forall i :: 0 <= i < |s| ==> IsSpace(s[i]) by {
        forall i | 0 <= i < |s| ensures IsSpace(s[i]) {
          assert s[..d][i] == s[i];
        }
      }
    }
  }

  /** Every character `strip` keeps comes from the text. */
  lemma StripMembers(s: string)
    ensures forall c :: c in Strip(s) ==> c in s
  {
    SliceMembers(s, StripStart(s), StripStart(s) + |Strip(s)|);
  }

  /** Every element of a slice is an element of the whole. */
  lemma SliceMembers<T>(s: seq<T>, i: nat, j: nat)
    requires i <= j <= |s|
    ensures forall x :: x in s[i..j] ==> x in s
  {
    forall x | x in s[i..j] ensures x in s {
      var k :| 0 <= k < j - i && s[i..j][k] == x;
      assert s[i + k] == x;
    }
  }

  /** One leading space makes no difference to `strip`. */
  lemma StripLeadingSpace(s: string)
    ensures Strip([' '] + s) == Strip(s)
  {
    assert ([' '] + s)[1..] == s;
    assert TrimStart([' '] + s) == TrimStart(s);
  }

  /** The characters of `s` that are not whitespace, in order. */
  function NonSpaces(s: string): (r: string)
    ensures NoSpace(r) && |r| <= |s|
    ensures NoSpace(s) ==> r == s
  {
    if s == [] then []
    else
      assert NoSpace(s) ==> NoSpace(s[1..]) by {
        assert forall i :: 0 <= i < |s| - 1 ==> s[1..][i] == s[i + 1];
      }
      var rest := NonSpaces(s[1..]);
      if IsSpace(s[0]) then rest
      else
        assert forall i :: 1 <= i < |rest| + 1 ==> ([s[0]] + rest)[i] == rest[i - 1];
        [s[0]] + rest
  }

  /** Leading whitespace holds nothing that `NonSpaces` keeps. */
  lemma {:induction false} NonSpacesTrimStart(s: string)
    ensures NonSpaces(TrimStart(s)) == NonSpaces(s)
    decreases |s|
  {
    if s != [] && IsSpace(s[0]) {
      NonSpacesTrimStart(s[1..]);
    }
  }

  /** `re.sub(r'\s+', ' ', s)`: every maximal whitespace run becomes one space. */
  function CollapseSpaces(s: string): (r: string)
    ensures NonSpaces(r) == NonSpaces(s)
    ensures r == [] <==> s == []
    ensures s != [] ==> (IsSpace(r[0]) <==> IsSpace(s[0]))
    ensures forall i :: 0 <= i < |r| && IsSpace(r[i]) ==> r[i] == ' '
    ensures forall i :: 0 <= i < |r| - 1 && r[i] == ' ' ==> r[i + 1] != ' '
    ensures forall i :: 0 <= i < |r| && r[i] != ' ' ==> r[i] in s
    ensures forall c :: c in r ==> (IsSpace(c) ==> c == ' ') && (c != ' ' ==> c in s)
    ensures s != [] && !IsSpace(s[0]) ==> r[0] == s[0]
    decreases |s|
  {
    if s == [] then []
    else
      var t := if IsSpace(s[0]) then TrimStart(s) else s[1..];
      var h := if IsSpace(s[0]) then ' ' else s[0];
      var rest := CollapseSpaces(t);
      CollapseCons(h, rest, t, s);
      assert ([h] + rest)[1..] == rest;
      assert IsSpace(s[0]) ==> NonSpaces(t) == NonSpaces(s) by {
        if IsSpace(s[0]) { NonSpacesTrimStart(s); }
      }
      [h] + rest
  }

  /** A whitespace run in front of a non-whitespace start collapses to one space. */
  lemma CollapseRun(sp: string, x: string)
    requires sp != [] && AllSpace(sp) && (x == [] || !IsSpace(x[0]))
    ensures CollapseSpaces(sp + x) == [' '] + CollapseSpaces(x)
  {
    TrimStartSpacesThen(sp, x);
  }

  /** A non-whitespace character is kept, in front of the collapse of the rest. */
  lemma CollapseChar(c: char, x: string)
    requires !IsSpace(c)
    ensures CollapseSpaces([c] + x) == [c] + CollapseSpaces(x)
  {
    assert ([c] + x)[1..] == x;
  }

  /** One step of the collapse: the head character in front of the collapse of the rest. */
  lemma CollapseCons(h: char, rest: string, t: string, s: string)
    requires s != [] && h == (if IsSpace(s[0]) then ' ' else s[0])
    requires |t| < |s| && t == s[|s| - |t|..]
    requires IsSpace(s[0]) ==> t == [] || !IsSpace(t[0])
    requires rest == [] <==> t == []
    requires t != [] ==> (IsSpace(rest[0]) <==> IsSpace(t[0]))
    requires forall i :: 0 <= i < |rest| && IsSpace(rest[i]) ==> rest[i] == ' '
    requires forall i :: 0 <= i < |rest| - 1 && rest[i] == ' ' ==> rest[i + 1] != ' '
    requires forall i :: 0 <= i < |rest| && rest[i] != ' ' ==> rest[i] in t
    ensures var r := [h] + rest;
      && (IsSpace(r[0]) <==> IsSpace(s[0]))
      && (forall i :: 0 <= i < |r| && IsSpace(r[i]) ==> r[i] == ' ')
      && (forall i :: 0 <= i < |r| - 1 && r[i] == ' ' ==> r[i + 1] != ' ')
      && (forall i :: 0 <= i < |r| && r[i] != ' ' ==> r[i] in s)
      && (forall c :: c in r ==> (IsSpace(c) ==> c == ' ') && (c != ' ' ==> c in s))
      && (!IsSpace(s[0]) ==> r[0] == s[0])
  {
    var r := [h] + rest;
    assert forall i :: 0 < i < |r| ==> r[i] == rest[i - 1];
    assert forall c :: c in t ==> c in s;
    assert IsSpace(' ');
    forall c | c in r ensures (IsSpace(c) ==> c == ' ') && (c != ' ' ==> c in s) {
      var i :| 0 <= i < |r| && r[i] == c;
    }
  }

  /** Whitespace in front of a non-whitespace start is exactly what `lstrip` removes. */
  lemma {:induction false} TrimStartSpacesThen(sp: string, x: string)
    requires AllSpace(sp) && (x == [] || !IsSpace(x[0]))
    ensures TrimStart(sp + x) == x
    decreases |sp|
  {
    if sp != [] {
      assert (sp + x)[1..] == sp[1..] + x;
      TrimStartSpacesThen(sp[1..], x);
    } else {
      assert sp + x == x;
    }
  }

  /** A text without whitespace is left alone by the collapse. */
  lemma {:induction false} CollapseNoSpace(s: string)
    requires NoSpace(s)
    ensures CollapseSpaces(s) == s
    decreases |s|
  {
    if s != [] {
      assert !IsSpace(s[0]);
      assert CollapseSpaces(s) == [s[0]] + CollapseSpaces(s[1..]);
      assert NoSpace(s[1..]) by { assert forall i :: 0 <= i < |s| - 1 ==> s[1..][i] == s[i + 1]; }
      CollapseNoSpace(s[1..]);
      assert s == [s[0]] + s[1..];
    }
  }

  /** Length of the leading run of non-whitespace characters. */
  function NonSpaceRun(s: string): (n: nat)
    ensures n <= |s| && NoSpace(s[..n])
    ensures n < |s| ==> IsSpace(s[n])
    ensures s != [] && !IsSpace(s[0]) ==> n >= 1
  {
    if s == [] || IsSpace(s[0]) then 0 else 1 + NonSpaceRun(s[1..])
  }

  /** `s.split()` with no separator: the maximal non-whitespace runs, in order. */
  function Words(s: string): (ws: seq<string>)
    decreases |s|
  {
    var t := TrimStart(s);
    if t == [] then []
    else
      var n := NonSpaceRun(t);
      [t[..n]] + Words(t[n..])
  }

  /** The run of non-whitespace at the start of `w + y` is `w` when `y` starts with whitespace. */
  lemma {:induction false} NonSpaceRunWord(w: string, y: string)
    requires NoSpace(w) && (y == [] || IsSpace(y[0]))
    ensures NonSpaceRun(w + y) == |w|
    decreases |w|
  {
    if w == [] {
      assert w + y == y;
    } else {
      assert (w + y)[1..] == w[1..] + y;
      assert NoSpace(w[1..]) by { assert forall i :: 0 <= i < |w| - 1 ==> w[1..][i] == w[i + 1]; }
      NonSpaceRunWord(w[1..], y);
    }
  }

  /** Whitespace, a maximal word, then the rest: the word comes first, then the words of the rest. */
  lemma WordsStep(sp: string, w: string, y: string)
    requires AllSpace(sp) && w != [] && NoSpace(w) && (y == [] || IsSpace(y[0]))
    ensures Words(sp + w + y) == [w] + Words(y)
  {
    assert sp + w + y == sp + (w + y);
    TrimStartSpacesThen(sp, w + y);
    NonSpaceRunWord(w, y);
    assert (w + y)[..|w|] == w;
    assert (w + y)[|w|..] == y;
  }

  /** The words are non-empty runs without whitespace, and there are none exactly for a blank text. */
  lemma {:induction false} WordsShape(s: string)
    ensures forall w :: w in Words(s) ==> w != [] && NoSpace(w)
    ensures Words(s) == [] <==> AllSpace(s)
    decreases |s|
  {
    var t := TrimStart(s);
    if t != [] {
      var n := NonSpaceRun(t);
      var w := t[..n];
      var rest := Words(t[n..]);
      WordsShape(t[n..]);
      assert Words(s) == [w] + rest;
      forall x | x in Words(s) ensures x != [] && NoSpace(x) {
        if x != w {
          assert x in rest;
        }
      }
    }
  }

  /** The pattern `p` occurs in `s` at index `i`. */
  predicate StartsAt(s: string, p: string, i: int) {
    0 <= i && i + |p| <= |s| && s[i..i + |p|] == p
  }

  /** `s.find(p, from)`: the first index at or after `from` where `p` occurs, or -1. */
  function FindFrom(s: string, p: string, from: nat): (k: int)
    ensures k == -1 || (from <= k && StartsAt(s, p, k))
    ensures forall j :: from <= j && (k == -1 || j < k) ==> !StartsAt(s, p, j)
    decreases |s| - from
  {
    if from + |p| > |s| then -1
    else if StartsAt(s, p, from) then from
    else FindFrom(s, p, from + 1)
  }

  /** `find` returns the first occurrence at or after its start. */
  lemma {:induction false} FindFromIs(s: string, p: string, from: nat, k: nat)
    requires from <= k && StartsAt(s, p, k)
    requires forall j :: from <= j < k ==> !StartsAt(s, p, j)
    ensures FindFrom(s, p, from) == k
    decreases k - from
  {
    if from < k {
      FindFromIs(s, p, from + 1, k);
    }
  }

  /** Splitting on a one-character separator that `a` lacks: `a` is the first piece. */
  lemma SplitAtFirst(a: string, c: char, b: string)
    requires !Contains(a, [c])
    ensures Split(a + [c] + b, [c]) == [a] + Split(b, [c])
  {
    var s := a + [c] + b;
    assert StartsAt(s, [c], |a|) by {
      assert s[|a|..|a| + 1] == [c];
    }
    ContainsChar(a, c);
    forall j | 0 <= j < |a| ensures !StartsAt(s, [c], j) {
      assert s[j] == a[j] != c;
      assert s[j..j + 1][0] == s[j];
    }
    FindFromIs(s, [c], 0, |a|);
    assert s[..|a|] == a;
    assert s[|a| + 1..] == b;
  }

  /** Matching in the tail of `s` is matching in `s` one place further on. */
  lemma StartsAtTail(s: string, p: string, i: nat)
    requires s != []
    ensures StartsAt(s[1..], p, i) <==> StartsAt(s, p, i + 1)
  {
    if i + |p| <= |s| - 1 {
      assert s[1..][i..i + |p|] == s[i + 1..i + 1 + |p|];
    }
  }

  /** `p in s`. */
  predicate Contains(s: string, p: string) {
    FindFrom(s, p, 0) >= 0
  }

  lemma ContainsAt(s: string, p: string, i: int)
    requires StartsAt(s, p, i)
    ensures Contains(s, p)
  {
  }

  /** A one-character pattern occurs exactly when the character does. */
  lemma ContainsChar(s: string, c: char)
    ensures Contains(s, [c]) <==> c in s
  {
    if Contains(s, [c]) {
      var k := FindFrom(s, [c], 0);
      assert s[k..k + 1][0] == s[k];
    }
    if c in s {
      var j :| 0 <= j < |s| && s[j] == c;
      assert s[j..j + 1] == [c];
      ContainsAt(s, [c], j);
    }
  }

  /** `s.split(sep)` for a non-empty separator, scanning left to right. */
  function Split(s: string, sep: string): (parts: seq<string>)
    requires sep != []
    ensures |parts| >= 1
    decreases |s|
  {
    var k := FindFrom(s, sep, 0);
    if k < 0 then [s] else [s[..k]] + Split(s[k + |sep|..], sep)
  }

  /** `sep.join(parts)`. */
  function Join(parts: seq<string>, sep: string): string {
    if |parts| == 0 then ""
    else if |parts| == 1 then parts[0]
    else parts[0] + sep + Join(parts[1..], sep)
  }

  /** Joining the pieces of a split with the same separator gives back the input. */
  lemma {:induction false} JoinSplit(s: string, sep: string)
    requires sep != []
    ensures Join(Split(s, sep), sep) == s
    decreases |s|
  {
    var k := FindFrom(s, sep, 0);
    if k >= 0 {
      JoinSplit(s[k + |sep|..], sep);
      JoinSplitStep(s, sep, k);
    }
  }

  /** One step of the split: the part before the first separator, then the split of the rest. */
  lemma JoinSplitStep(s: string, sep: string, k: int)
    requires sep != [] && k == FindFrom(s, sep, 0) && k >= 0
    requires Join(Split(s[k + |sep|..], sep), sep) == s[k + |sep|..]
    ensures Join(Split(s, sep), sep) == s
  {
    assert Split(s, sep) == [s[..k]] + Split(s[k + |sep|..], sep);
    JoinAround(s, k, sep, Split(s[k + |sep|..], sep));
  }

  /** A text is its part before a separator occurrence, the separator, and the join of the rest. */
  lemma JoinAround(s: string, k: nat, sep: string, tail: seq<string>)
    requires k + |sep| <= |s| && s[k..k + |sep|] == sep
    requires |tail| >= 1 && Join(tail, sep) == s[k + |sep|..]
    ensures Join([s[..k]] + tail, sep) == s
  {
    JoinCons(s[..k], tail, sep);
    SliceThree(s, k, k + |sep|);
  }

  /** Putting the first element back in front of the rest, then appending. */
  lemma ConsAppend<T>(a: seq<T>, x: seq<T>)
    requires a != []
    ensures [a[0]] + (a[1..] + x) == a + x
  {
    assert a == [a[0]] + a[1..];
  }

  /** The three parts of a concatenation, read back by slicing. */
  lemma SlicesOfThree<T>(a: seq<T>, b: seq<T>, c: seq<T>)
    ensures (a + b + c)[..|a|] == a && (a + b + c)[|a|..|a| + |b|] == b && (a + b + c)[|a| + |b|..] == c
  {
  }

  /** A text is its three slices around two cut points. */
  lemma SliceThree(s: string, i: nat, j: nat)
    requires i <= j <= |s|
    ensures s == s[..i] + s[i..j] + s[j..]
  {
  }

  lemma JoinCons(a: string, tail: seq<string>, sep: string)
    requires |tail| >= 1
    ensures Join([a] + tail, sep) == a + sep + Join(tail, sep)
  {
    assert ([a] + tail)[1..] == tail;
  }

  /** A prefix of `s` that ends before its first occurrence of `p` does not contain `p`. */
  lemma PrefixBeforeFirst(s: string, p: string, k: int)
    requires p != [] && 0 <= k <= |s|
    requires forall j :: 0 <= j < k ==> !StartsAt(s, p, j)
    ensures !Contains(s[..k], p)
  {
    var t := s[..k];
    var f := FindFrom(t, p, 0);
    if f >= 0 {
      assert t[f..f + |p|] == s[f..f + |p|];
      assert StartsAt(s, p, f);
    }
  }

  /** No piece of `s.split(sep)` contains the separator. */
  lemma {:induction false} SplitPiecesFree(s: string, sep: string)
    requires sep != []
    ensures forall i :: 0 <= i < |Split(s, sep)| ==> !Contains(Split(s, sep)[i], sep)
    decreases |s|
  {
    var k := FindFrom(s, sep, 0);
    if k < 0 {
      PrefixBeforeFirst(s, sep, |s|);
      assert s[..|s|] == s;
    } else {
      var rest := s[k + |sep|..];
      SplitPiecesFree(rest, sep);
      PrefixBeforeFirst(s, sep, k);
      var parts := Split(s, sep);
      assert parts == [s[..k]] + Split(rest, sep);
      forall i | 0 <= i < |parts| ensures !Contains(parts[i], sep) {
        if i > 0 { assert parts[i] == Split(rest, sep)[i - 1]; }
      }
    }
  }

  /** ASCII case folding, the part of `str.lower()` this model covers. */
  function LowerChar(c: char): (d: char)
    ensures 'A' <= c <= 'Z' ==> 'a' <= d <= 'z'
    ensures !('A' <= c <= 'Z') ==> d == c
    ensures !('A' <= d <= 'Z')
  {
    if 'A' <= c <= 'Z' then (c as int - 'A' as int + 'a' as int) as char else c
  }

  /** `s.lower()`. */
  function Lower(s: string): (r: string)
    ensures |r| == |s|
    ensures forall i :: 0 <= i < |s| ==> r[i] == LowerChar(s[i])
  {
    seq(|s|, i requires 0 <= i < |s| => LowerChar(s[i]))
  }

  lemma LowerIdempotent(s: string)
    ensures Lower(Lower(s)) == Lower(s)
  {
  }

  /** `s.lstrip(chars)`. */
  function LStripChars(s: string, chars: string): (r: string)
    ensures |r| <= |s| && r == s[|s| - |r|..]
    ensures forall i :: 0 <= i < |s| - |r| ==> s[i] in chars
    ensures r == [] || r[0] !in chars
  {
    if s != [] && s[0] in chars then
      var r := LStripChars(s[1..], chars);
      assert forall i :: 1 <= i < |s| - |r| ==> s[i] == s[1..][i - 1];
      assert s[1..][|s| - 1 - |r|..] == s[|s| - |r|..];
      r
    else s
  }

  /** `s[:n]` for a non-negative `n`: Python clamps the bound to the length. */
  function Take<T>(s: seq<T>, n: nat): (r: seq<T>)
    ensures |r| == if n < |s| then n else |s|
    ensures r == s[..|r|]
  {
    if n < |s| then s[..n] else s
  }

  function DigitChar(d: nat): (c: char)
    requires d < 10
    ensures '0' <= c <= '9'
  {
    ('0' as int + d) as char
  }

  /** `str(n)` for a non-negative integer. */
  function NatToString(n: nat): (s: string)
    ensures s != []
    ensures forall i :: 0 <= i < |s| ==> '0' <= s[i] <= '9'
    ensures n == 0 <==> s == "0"
    ensures n >= 1 ==> s[0] != '0'
  {
    if n < 10 then [DigitChar(n)] else NatToString(n / 10) + [DigitChar(n % 10)]
  }

  /** `int(s)` for a non-empty string of ASCII digits. */
  function ParseDigits(s: string): nat
    requires forall i :: 0 <= i < |s| ==> '0' <= s[i] <= '9'
  {
    if s == [] then 0 else 10 * ParseDigits(s[..|s| - 1]) + (s[|s| - 1] as int - '0' as int)
  }

  /** Reading back a rendered number gives the number. */
  lemma {:induction false} NatToStringRoundTrip(n: nat)
    ensures ParseDigits(NatToString(n)) == n
  {
    if n >= 10 {
      NatToStringRoundTrip(n / 10);
      var s := NatToString(n);
      assert s[..|s| - 1] == NatToString(n / 10);
    }
  }

  /** Round to the nearest integer, ties to even, as Python's `round` and `{:.0f}` do. */
  function RoundHalfEven(r: real): (k: int)
    ensures -0.5 <= r - k as real <= 0.5
    ensures (r - k as real == 0.5 || r - k as real == -0.5) ==> k % 2 == 0
    ensures r >= 0.0 ==> k >= 0
  {
    var f := r.Floor;
    var d := r - f as real;
    if d < 0.5 then f
    else if d > 0.5 then f + 1
    else if f % 2 == 0 then f
    else f + 1
  }

  /** `f"{r:.0f}"` for a non-negative `r`. */
  function FormatFixed0(r: real): (s: string)
    requires r >= 0.0
    ensures s != [] && forall i :: 0 <= i < |s| ==> '0' <= s[i] <= '9'
    ensures ParseDigits(s) == RoundHalfEven(r)
    ensures s == "0" || s[0] != '0'
  {
    NatToStringRoundTrip(RoundHalfEven(r));
    NatToString(RoundHalfEven(r))
  }

  /** `int(x)` on a float: truncation toward zero. */
  function TruncToInt(x: real): (k: int)
    ensures x >= 0.0 ==> k as real <= x < k as real + 1.0
    ensures x < 0.0 ==> k as real - 1.0 < x <= k as real
  {
    if x >= 0.0 then x.Floor else -((-x).Floor)
  }
}
