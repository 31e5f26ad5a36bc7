/**
 * String helpers with the meaning Python gives them, restricted to ASCII:
 * whitespace and digit classes, case folding for re.IGNORECASE, str.strip,
 * str.split / str.join on a single character, and decimal conversion.
 */
module Strings {
  import opened Wrappers

  /** Python's whitespace (str.isspace, the \s of re) restricted to ASCII:
      space, the controls \t \n \v \f \r, and the separators 0x1C to 0x1F. */
  predicate IsSpace(c: char) {
    c == ' ' || '\t' <= c <= '\r' || '\U{1C}' <= c <= '\U{1F}'
  }

  predicate IsDigit(c: char) {
    '0' <= c <= '9'
  }

  predicate AllDigits(s: string) {
    forall k :: 0 <= k < |s| ==> IsDigit(s[k])
  }

  /** The character sets the source strips or skips: whitespace, digits, one given character,
      or every character except the given ones. */
  datatype CharClass = Whitespace | Digits | Only(c: char) | NoneOf(stops: string)

  predicate InClass(c: char, cls: CharClass) {
    match cls
    case Whitespace => IsSpace(c)
    case Digits => IsDigit(c)
    case Only(d) => c == d
    case NoneOf(stops) => c !in stops
  }

  /** ASCII case folding, the comparison re.IGNORECASE makes on ASCII text. */
  function Lower(c: char): char {
    if 'A' <= c <= 'Z' then (c as int - 'A' as int + 'a' as int) as char else c
  }

  /** s and t are the same text up to ASCII letter case. */
  predicate SameUpToCase(s: string, t: string) {
    |s| == |t| && forall k :: 0 <= k < |s| ==> Lower(s[k]) == Lower(t[k])
  }

  lemma LowerKeepsClasses(c: char)
    ensures Lower(Lower(c)) == Lower(c)
    ensures IsSpace(Lower(c)) == IsSpace(c) && IsDigit(Lower(c)) == IsDigit(c)
    ensures IsDigit(c) ==> Lower(c) == c
  {
  }

  /** s holds the lower-case literal lit at position i, ignoring ASCII case. */
  predicate HasAt(s: string, i: nat, lit: string)
    ensures HasAt(s, i, lit) ==> i + |lit| <= |s|
    decreases |lit|
  {
    if lit == [] then i <= |s|
    else i < |s| && Lower(s[i]) == lit[0] && HasAt(s, i + 1, lit[1..])
  }

  lemma {:induction false} HasAtMeans(s: string, i: nat, lit: string)
    ensures HasAt(s, i, lit) <==>
      (i + |lit| <= |s| && forall k :: 0 <= k < |lit| ==> Lower(s[i + k]) == lit[k])
    decreases |lit|
  {
    if lit != [] {
      HasAtMeans(s, i + 1, lit[1..]);
      if i + |lit| <= |s| && forall k :: 0 <= k < |lit| ==> Lower(s[i + k]) == lit[k] {
        forall k | 0 <= k < |lit| - 1 ensures Lower(s[i + 1 + k]) == lit[1..][k] {
          assert Lower(s[i + (k + 1)]) == lit[k + 1];
        }
      }
    }
  }

  /** One mismatching character rules lit out at i. */
  lemma MismatchAt(s: string, i: nat, lit: string, x: nat)
    requires x < |lit| && i + x < |s| && Lower(s[i + x]) != lit[x]
    ensures !HasAt(s, i, lit)
  {
    HasAtMeans(s, i, lit);
  }

  /** Case-insensitive presence depends only on the case-folded text. */
  lemma HasAtUpToCase(s: string, t: string, i: nat, lit: string)
    requires SameUpToCase(s, t)
    ensures HasAt(s, i, lit) == HasAt(t, i, lit)
  {
    HasAtMeans(s, i, lit);
    HasAtMeans(t, i, lit);
  }

  /** The leftmost position at or after i where lit occurs (ignoring case), as re.search finds it. */
  function FindFrom(s: string, lit: string, i: nat): (r: Option<nat>)
    requires i <= |s|
    ensures r.Some? ==> i <= r.value <= |s| && HasAt(s, r.value, lit)
    decreases |s| - i
  {
    if HasAt(s, i, lit) then Some(i)
    else if i == |s| then None
    else FindFrom(s, lit, i + 1)
  }

  /** FindFrom reports the leftmost occurrence, and None only when there is none. */
  lemma {:induction false} FindFromSpec(s: string, lit: string, i: nat)
    requires i <= |s|
    ensures var r := FindFrom(s, lit, i);
      && (r.Some? ==> forall j :: i <= j < r.value ==> !HasAt(s, j, lit))
      && (r.None? ==> forall j :: i <= j <= |s| ==> !HasAt(s, j, lit))
    decreases |s| - i
  {
    if !HasAt(s, i, lit) && i < |s| {
      FindFromSpec(s, lit, i + 1);
    }
  }

  /** An occurrence at k with none between i and k is what FindFrom reports. */
  lemma {:induction false} FindFromFirst(s: string, lit: string, i: nat, k: nat)
    requires i <= k && HasAt(s, k, lit)
    requires forall j :: i <= j < k ==> !HasAt(s, j, lit)
    ensures FindFrom(s, lit, i) == Some(k)
    decreases k - i
  {
    if i < k {
      FindFromFirst(s, lit, i + 1, k);
    }
  }

  /** The first index at or after i whose character is not in keep (|s| if none). */
  function SkipWhile(s: string, i: nat, keep: CharClass): (j: nat)
    requires i <= |s|
    ensures i <= j <= |s|
    decreases |s| - i
  {
    if i < |s| && InClass(s[i], keep) then SkipWhile(s, i + 1, keep) else i
  }

  /** SkipWhile passes over a maximal run of characters in keep. */
  lemma {:induction false} SkipWhileSpec(s: string, i: nat, keep: CharClass)
    requires i <= |s|
    ensures var j := SkipWhile(s, i, keep);
      && (forall k :: i <= k < j ==> InClass(s[k], keep))
      && (j == |s| || !InClass(s[j], keep))
    decreases |s| - i
  {
    if i < |s| && InClass(s[i], keep) {
      SkipWhileSpec(s, i + 1, keep);
    }
  }

  /** SkipWhile from a stops at b when everything in s[a..b] is in keep and s[b] is not. */
  lemma SkipWhileOverRun(s: string, a: nat, b: nat, keep: CharClass)
    requires a <= b <= |s|
    requires forall k :: a <= k < b ==> InClass(s[k], keep)
    requires b == |s| || !InClass(s[b], keep)
    ensures SkipWhile(s, a, keep) == b
  {
    SkipWhileSpec(s, a, keep);
  }

  function SkipSpace(s: string, i: nat): (j: nat)
    requires i <= |s|
  {
    SkipWhile(s, i, Whitespace)
  }

  function SkipDigits(s: string, i: nat): (j: nat)
    requires i <= |s|
  {
    SkipWhile(s, i, Digits)
  }

  /** SkipDigits from a stops at b when s[a..b] is all digits and none follows. */
  lemma {:induction false} SkipDigitsOverRun(s: string, a: nat, b: nat)
    requires a <= b <= |s| && AllDigits(s[a..b]) && (b == |s| || !IsDigit(s[b]))
    ensures SkipDigits(s, a) == b
    decreases b - a
  {
    if a < b {
      assert s[a] == s[a..b][0];
      assert s[a + 1..b] == s[a..b][1..];
      SkipDigitsOverRun(s, a + 1, b);
    }
  }

  /** The rightmost position at or before i where t occurs (case-sensitive). */
  function LastFrom(s: string, t: string, i: nat): (r: Option<nat>)
    ensures r.Some? ==> r.value <= i && OccursAt(s, t, r.value)
    decreases i
  {
    if OccursAt(s, t, i) then Some(i)
    else if i == 0 then None
    else LastFrom(s, t, i - 1)
  }

  /** LastFrom reports the rightmost occurrence, and None only when there is none. */
  lemma {:induction false} LastFromSpec(s: string, t: string, i: nat)
    ensures var r := LastFrom(s, t, i);
      && (r.Some? ==> forall j :: r.value < j <= i ==> !OccursAt(s, t, j))
      && (r.None? ==> forall j :: 0 <= j <= i ==> !OccursAt(s, t, j))
    decreases i
  {
    if !OccursAt(s, t, i) && i > 0 {
      LastFromSpec(s, t, i - 1);
    }
  }

  /** Python's `t in s`. */
  predicate Contains(s: string, t: string) {
    LastFrom(s, t, |s|).Some?
  }

  lemma ContainsMeans(s: string, t: string)
    ensures Contains(s, t) <==> exists i :: OccursAt(s, t, i)
  {
    LastFromSpec(s, t, |s|);
  }

  /** The text after the last occurrence of t, or all of s when t does not occur. */
  function AfterLast(s: string, t: string): (r: string)
    ensures |r| <= |s|
  {
    match LastFrom(s, t, |s|)
    case None => s
    case Some(i) => s[i + |t|..]
  }

  /** The leftmost position at or after i where t occurs (case-sensitive). */
  function FirstFrom(s: string, t: string, i: nat): (r: Option<nat>)
    requires i <= |s|
    ensures r.Some? ==> i <= r.value && OccursAt(s, t, r.value)
    decreases |s| - i
  {
    if OccursAt(s, t, i) then Some(i)
    else if i == |s| then None
    else FirstFrom(s, t, i + 1)
  }

  /** FirstFrom reports the leftmost occurrence, and None only when there is none. */
  lemma {:induction false} FirstFromSpec(s: string, t: string, i: nat)
    requires i <= |s|
    ensures var r := FirstFrom(s, t, i);
      && (r.Some? ==> forall j :: i <= j < r.value ==> !OccursAt(s, t, j))
      && (r.None? ==> forall j :: i <= j <= |s| ==> !OccursAt(s, t, j))
    decreases |s| - i
  {
    if !OccursAt(s, t, i) && i < |s| {
      FirstFromSpec(s, t, i + 1);
    }
  }

  /** str.split(t) for a non-empty t: the pieces between the occurrences of t, found from left
      to right, each search starting after the previous occurrence. */
  function SplitOn(s: string, t: string): (parts: seq<string>)
    requires t != []
    ensures |parts| >= 1
    decreases |s|
  {
    match FirstFrom(s, t, 0)
    case None => [s]
    case Some(k) => [s[..k]] + SplitOn(s[k + |t|..], t)
  }

  /** No proper suffix of t is also a prefix of t, so two occurrences of t never overlap. */
  predicate SelfOverlapFree(t: string) {
    forall d :: 0 < d < |t| ==> t[d..] != t[..|t| - d]
  }

  /** An occurrence of a self-overlap-free t rules out another one starting inside it. */
  lemma NoOverlap(s: string, t: string, i: nat, j: nat)
    requires SelfOverlapFree(t) && OccursAt(s, t, i) && i < j < i + |t|
    ensures !OccursAt(s, t, j)
  {
    if OccursAt(s, t, j) {
      var d := j - i;
      forall x | 0 <= x < |t| - d ensures t[d..][x] == t[..|t| - d][x] {
        assert t[d + x] == s[i..i + |t|][d + x] == s[j + x];
        assert t[x] == s[j..j + |t|][x];
      }
    }
  }

  /** An occurrence in a suffix of s is an occurrence in s, shifted by where the suffix starts. */
  lemma OccursShift(s: string, n: nat, t: string, x: nat)
    requires n <= |s|
    ensures OccursAt(s[n..], t, x) <==> OccursAt(s, t, n + x)
  {
    if n + x + |t| <= |s| {
      assert s[n..][x..x + |t|] == s[n + x..n + x + |t|];
    }
  }

  /** When the text after an occurrence at k holds no further occurrence, k is the last one. */
  lemma LastAtCut(s: string, t: string, k: nat)
    requires SelfOverlapFree(t) && OccursAt(s, t, k)
    requires LastFrom(s[k + |t|..], t, |s| - (k + |t|)).None?
    ensures LastFrom(s, t, |s|) == Some(k)
  {
    var n := k + |t|;
    LastFromSpec(s, t, |s|);
    LastFromSpec(s[n..], t, |s| - n);
    var v := LastFrom(s, t, |s|).value;
    if v != k {
      assert k < v;
      if v < n {
        NoOverlap(s, t, k, v);
      } else {
        OccursShift(s, n, t, v - n);
      }
    }
  }

  /** An occurrence at or before i is found, at or before the rightmost one. */
  lemma LastFromAtLeast(s: string, t: string, i: nat, x: nat)
    requires OccursAt(s, t, x) && x <= i
    ensures LastFrom(s, t, i).Some? && x <= LastFrom(s, t, i).value
  {
    LastFromSpec(s, t, i);
  }

  /** No occurrence lies between the rightmost one and i. */
  lemma LastFromAbove(s: string, t: string, i: nat, x: nat)
    requires LastFrom(s, t, i).Some? && LastFrom(s, t, i).value < x <= i
    ensures !OccursAt(s, t, x)
  {
    LastFromSpec(s, t, i);
  }

  /** When the text after position k + |t| holds its last occurrence at j, the last occurrence
      in s is j positions after that cut. */
  lemma LastAfterCut(s: string, t: string, k: nat, j: nat)
    requires k + |t| <= |s|
    requires LastFrom(s[k + |t|..], t, |s| - (k + |t|)) == Some(j)
    ensures LastFrom(s, t, |s|) == Some(k + |t| + j)
  {
    var n := k + |t|;
    var r := s[n..];
    assert |r| == |s| - n && LastFrom(r, t, |r|) == Some(j);
    OccursShift(s, n, t, j);
    LastFromAtLeast(s, t, |s|, n + j);
    var v := LastFrom(s, t, |s|).value;
    if v != n + j {
      assert j < v - n <= |r|;
      OccursShift(s, n, t, v - n);
      LastFromAbove(r, t, |r|, v - n);
    }
  }

  /** The text after the last occurrence does not change when s is cut after any occurrence. */
  lemma AfterLastShift(s: string, t: string, k: nat)
    requires SelfOverlapFree(t) && OccursAt(s, t, k)
    ensures AfterLast(s, t) == AfterLast(s[k + |t|..], t)
  {
    var n := k + |t|;
    var r := s[n..];
    assert |r| == |s| - n;
    match LastFrom(r, t, |r|)
    case None =>
      LastAtCut(s, t, k);
    case Some(j) =>
      LastAfterCut(s, t, k, j);
      assert s[n + j + |t|..] == r[j + |t|..];
  }

  /** Without an occurrence found from the start, the text after the last one is all of s. */
  lemma AfterLastOfNone(s: string, t: string)
    requires FirstFrom(s, t, 0).None?
    ensures AfterLast(s, t) == s
  {
    NoFirstNotContained(s, t);
  }

  /** Without an occurrence found from the start, t does not occur in s at all. */
  lemma NoFirstNotContained(s: string, t: string)
    requires FirstFrom(s, t, 0).None?
    ensures !Contains(s, t)
  {
    FirstFromSpec(s, t, 0);
  }

  /** The last piece of str.split(t) is the text after the last occurrence of t. */
  lemma {:induction false} SplitOnLast(s: string, t: string)
    requires t != [] && SelfOverlapFree(t)
    ensures var parts := SplitOn(s, t); parts[|parts| - 1] == AfterLast(s, t)
    decreases |s|
  {
    var parts := SplitOn(s, t);
    match FirstFrom(s, t, 0)
    case None =>
      assert parts == [s];
      AfterLastOfNone(s, t);
    case Some(k) =>
      var rest := SplitOn(s[k + |t|..], t);
      assert parts == [s[..k]] + rest;
      LastOfCons(s[..k], rest);
      SplitOnLast(s[k + |t|..], t);
      AfterLastShift(s, t, k);
  }

  /** A non-empty sequence keeps its last element when an element is put in front. */
  lemma LastOfCons<X>(x: X, rest: seq<X>)
    requires rest != []
    ensures ([x] + rest)[|rest|] == rest[|rest| - 1]
  {
  }

  /** The last piece of a split does not contain the separator. */
  lemma {:induction false} SplitOnLastFree(s: string, t: string)
    requires t != []
    ensures var parts := SplitOn(s, t); !Contains(parts[|parts| - 1], t)
    decreases |s|
  {
    match FirstFrom(s, t, 0)
    case None =>
      NoFirstNotContained(s, t);
    case Some(k) =>
      var rest := SplitOn(s[k + |t|..], t);
      assert SplitOn(s, t) == [s[..k]] + rest;
      assert SplitOn(s, t)[|SplitOn(s, t)| - 1] == rest[|rest| - 1];
      SplitOnLastFree(s[k + |t|..], t);
  }

  /** A slice of a text without t does not contain t either. */
  lemma SliceFree(s: string, t: string, a: nat, b: nat)
    requires a <= b <= |s| && !Contains(s, t)
    ensures !Contains(s[a..b], t)
  {
    ContainsMeans(s, t);
    ContainsMeans(s[a..b], t);
    forall j: nat | OccursAt(s[a..b], t, j) ensures OccursAt(s, t, a + j) {
      forall x | 0 <= x < |t| ensures s[a + j..a + j + |t|][x] == t[x] {
        assert t[x] == s[a..b][j..j + |t|][x] == s[a + j + x];
      }
    }
  }

  /** The text without its leading characters that satisfy drop (str.lstrip). */
  function TrimStart(s: string, drop: CharClass): string {
    if |s| > 0 && InClass(s[0], drop) then TrimStart(s[1..], drop) else s
  }

  /** lstrip keeps a suffix, removes only droppable characters, and stops at a kept one. */
  lemma {:induction false} TrimStartSpec(s: string, drop: CharClass)
    ensures var r := TrimStart(s, drop);
      && |r| <= |s| && r == s[|s| - |r|..]
      && (forall k :: 0 <= k < |s| - |r| ==> InClass(s[k], drop))
      && (r == [] || !InClass(r[0], drop))
  {
    if |s| > 0 && InClass(s[0], drop) {
      TrimStartSpec(s[1..], drop);
    }
  }

  /** The text without its trailing characters that satisfy drop (str.rstrip). */
  function TrimEnd(s: string, drop: CharClass): string {
    if |s| > 0 && InClass(s[|s| - 1], drop) then TrimEnd(s[..|s| - 1], drop) else s
  }

  /** rstrip keeps a prefix, removes only droppable characters, and stops at a kept one. */
  lemma {:induction false} TrimEndSpec(s: string, drop: CharClass)
    ensures var r := TrimEnd(s, drop);
      && |r| <= |s| && r == s[..|r|]
      && (forall k :: |r| <= k < |s| ==> InClass(s[k], drop))
      && (r == [] || !InClass(r[|r| - 1], drop))
  {
    if |s| > 0 && InClass(s[|s| - 1], drop) {
      TrimEndSpec(s[..|s| - 1], drop);
    }
  }

  function Trim(s: string, drop: CharClass): string {
    TrimEnd(TrimStart(s, drop), drop)
  }

  /** Trimming never brings in an occurrence the text did not hold. */
  lemma TrimFree(s: string, t: string, drop: CharClass)
    requires !Contains(s, t)
    ensures !Contains(Trim(s, drop), t)
  {
    var a := TrimStart(s, drop);
    TrimStartSpec(s, drop);
    SliceFree(s, t, |s| - |a|, |s|);
    assert a == s[|s| - |a|..|s|];
    TrimEndSpec(a, drop);
    SliceFree(a, t, 0, |TrimEnd(a, drop)|);
    assert TrimEnd(a, drop) == a[0..|TrimEnd(a, drop)|];
  }

  /** str.strip(c) leaves no c at either end. */
  lemma TrimEnds(s: string, c: char)
    ensures var r := Trim(s, Only(c)); r == [] || (r[0] != c && r[|r| - 1] != c)
  {
    var a := TrimStart(s, Only(c));
    TrimStartSpec(s, Only(c));
    TrimEndSpec(a, Only(c));
  }

  /** str.strip() */
  function Strip(s: string): string {
    Trim(s, Whitespace)
  }

  /** Text with no whitespace at either end. */
  predicate NoOuterSpace(s: string) {
    s == [] || (!IsSpace(s[0]) && !IsSpace(s[|s| - 1]))
  }

  /** str.strip() leaves no whitespace at either end. */
  lemma StripEnds(s: string)
    ensures NoOuterSpace(Strip(s))
  {
    var a := TrimStart(s, Whitespace);
    TrimStartSpec(s, Whitespace);
    TrimEndSpec(a, Whitespace);
  }

  /** The bounds of what str.strip() keeps, with everything outside them whitespace. */
  lemma StripBounds(s: string) returns (a: nat, b: nat)
    ensures a <= b <= |s| && Strip(s) == s[a..b]
    ensures forall k :: 0 <= k < a ==> IsSpace(s[k])
    ensures forall k :: b <= k < |s| ==> IsSpace(s[k])
  {
    var t := TrimStart(s, Whitespace);
    var r := TrimEnd(t, Whitespace);
    TrimStartSpec(s, Whitespace);
    TrimEndSpec(t, Whitespace);
    a, b := |s| - |t|, |s| - |t| + |r|;
    SliceOfSuffix(s, t, r);
  }

  /** A prefix r of a suffix t of s is the slice of s it covers; what follows r in s is what follows it in t. */
  lemma SliceOfSuffix(s: string, t: string, r: string)
    requires |t| <= |s| && t == s[|s| - |t|..]
    requires |r| <= |t| && r == t[..|r|]
    ensures r == s[|s| - |t|..|s| - |t| + |r|]
    ensures forall k :: |s| - |t| + |r| <= k < |s| ==> s[k] == t[k - (|s| - |t|)]
  {
  }

  /** What str.strip() keeps is a slice of the input bounded by non-space characters,
      and everything it removes is whitespace. */
  lemma StripIsCore(s: string)
    ensures exists a, b ::
      (0 <= a <= b <= |s| && Strip(s) == s[a..b]
      && (forall k :: 0 <= k < a ==> IsSpace(s[k]))
      && (forall k :: b <= k < |s| ==> IsSpace(s[k])))
    ensures Strip(s) == [] || (!IsSpace(Strip(s)[0]) && !IsSpace(Strip(s)[|Strip(s)| - 1]))
  {
    var a, b := StripBounds(s);
    var t := TrimStart(s, Whitespace);
    TrimStartSpec(s, Whitespace);
    TrimEndSpec(t, Whitespace);
    if Strip(s) != [] {
      assert Strip(s)[0] == t[0];
    }
  }

  lemma {:induction false} TrimStartPrefix(pre: string, t: string, drop: CharClass)
    requires forall k :: 0 <= k < |pre| ==> InClass(pre[k], drop)
    requires t == [] || !InClass(t[0], drop)
    ensures TrimStart(pre + t, drop) == t
    decreases |pre|
  {
    if pre != [] {
      assert (pre + t)[1..] == pre[1..] + t;
      TrimStartPrefix(pre[1..], t, drop);
    }
  }

  lemma {:induction false} TrimEndSuffix(t: string, post: string, drop: CharClass)
    requires forall k :: 0 <= k < |post| ==> InClass(post[k], drop)
    requires t == [] || !InClass(t[|t| - 1], drop)
    ensures TrimEnd(t + post, drop) == t
    decreases |post|
  {
    if post != [] {
      assert (t + post)[..|t + post| - 1] == t + post[..|post| - 1];
      TrimEndSuffix(t, post[..|post| - 1], drop);
    } else {
      assert t + post == t;
    }
  }

  /** Trimming a text framed by droppable characters gives back exactly the framed text
      when its own ends are not droppable. */
  lemma TrimFramed(pre: string, t: string, post: string, drop: CharClass)
    requires forall k :: 0 <= k < |pre| ==> InClass(pre[k], drop)
    requires forall k :: 0 <= k < |post| ==> InClass(post[k], drop)
    requires t != [] && !InClass(t[0], drop) && !InClass(t[|t| - 1], drop)
    ensures Trim(pre + t + post, drop) == t
  {
    assert pre + t + post == pre + (t + post);
    TrimStartPrefix(pre, t + post, drop);
    TrimEndSuffix(t, post, drop);
  }

  /** Leading droppable characters make no difference to TrimStart. */
  lemma {:induction false} TrimStartSkips(pre: string, t: string, drop: CharClass)
    requires forall k :: 0 <= k < |pre| ==> InClass(pre[k], drop)
    ensures TrimStart(pre + t, drop) == TrimStart(t, drop)
    decreases |pre|
  {
    if pre != [] {
      assert (pre + t)[1..] == pre[1..] + t;
      TrimStartSkips(pre[1..], t, drop);
    } else {
      assert pre + t == t;
    }
  }

  /** Stripping after skipping whitespace is the same as stripping directly. */
  lemma StripAfterSkip(s: string, i: nat)
    requires i <= |s|
    ensures Strip(s[SkipSpace(s, i)..]) == Strip(s[i..])
  {
    var j := SkipSpace(s, i);
    SkipWhileSpec(s, i, Whitespace);
    assert s[i..] == s[i..j] + s[j..];
    TrimStartSkips(s[i..j], s[j..], Whitespace);
  }

  /** s.join(parts) with a separator string. */
  function Join(parts: seq<string>, sep: string): string {
    if parts == [] then ""
    else if |parts| == 1 then parts[0]
    else parts[0] + sep + Join(parts[1..], sep)
  }

  /** A join starts with its first piece and ends with its last. */
  lemma {:induction false} JoinEnds(parts: seq<string>, sep: string)
    requires |parts| >= 1
    ensures StartsWith(Join(parts, sep), parts[0])
    ensures EndsWith(Join(parts, sep), parts[|parts| - 1])
    decreases |parts|
  {
    if |parts| > 1 {
      var rest := Join(parts[1..], sep);
      JoinEnds(parts[1..], sep);
      Ends(parts[0], sep, rest);
      assert Join(parts, sep)[|parts[0] + sep| + |rest| - |parts[|parts| - 1]|..]
        == rest[|rest| - |parts[|parts| - 1]|..];
    }
  }

  /** str.split(sep) for a single-character separator: never empty. */
  function Split(s: string, sep: char): (parts: seq<string>)
    ensures |parts| >= 1
  {
    if s == [] then [""]
    else
      var rest := Split(s[1..], sep);
      if s[0] == sep then [""] + rest
      else [[s[0]] + rest[0]] + rest[1..]
  }

  /** No piece of a split holds the separator. */
  lemma {:induction false} SplitPiecesFree(s: string, sep: char)
    ensures forall k :: 0 <= k < |Split(s, sep)| ==> sep !in Split(s, sep)[k]
  {
    if s != [] {
      var rest := Split(s[1..], sep);
      SplitPiecesFree(s[1..], sep);
      if s[0] != sep {
        var parts := Split(s, sep);
        assert parts[0] == [s[0]] + rest[0];
        forall k | 1 <= k < |parts| ensures sep !in parts[k] {
          assert parts[k] == rest[k];
        }
      }
    }
  }

  /** Joining the pieces of a split with the separator gives back the text. */
  lemma {:induction false} JoinSplit(s: string, sep: char)
    ensures Join(Split(s, sep), [sep]) == s
  {
    if s != [] {
      var rest := Split(s[1..], sep);
      JoinSplit(s[1..], sep);
      if s[0] == sep {
        JoinCons("", rest, [sep]);
      } else {
        JoinGrowHead(s[0], rest, [sep]);
      }
      assert s == [s[0]] + s[1..];
    }
  }

  /** Joining a piece in front of at least one more adds it and a separator in front. */
  lemma JoinCons(a: string, rest: seq<string>, sep: string)
    requires rest != []
    ensures Join([a] + rest, sep) == a + sep + Join(rest, sep)
  {
    assert ([a] + rest)[1..] == rest;
  }

  /** Growing the first piece by a character grows the join by that character. */
  lemma JoinGrowHead(c: char, rest: seq<string>, sep: string)
    requires rest != []
    ensures Join([[c] + rest[0]] + rest[1..], sep) == [c] + Join(rest, sep)
  {
    if |rest| > 1 {
      JoinCons([c] + rest[0], rest[1..], sep);
      JoinCons(rest[0], rest[1..], sep);
      assert [rest[0]] + rest[1..] == rest;
    }
  }

  /** A split has more than one piece exactly when the separator occurs. */
  lemma SplitSeveral(s: string, sep: char)
    ensures |Split(s, sep)| >= 2 <==> sep in s
  {
    var parts := Split(s, sep);
    JoinSplit(s, sep);
    SplitPiecesFree(s, sep);
    if |parts| == 1 {
      assert s == parts[0];
    } else {
      assert s == parts[0] + [sep] + Join(parts[1..], [sep]);
      assert s[|parts[0]|] == sep;
    }
  }

  /** Splitting a join of separator-free pieces gives back the pieces. */
  lemma {:induction false} SplitJoin(parts: seq<string>, sep: char)
    requires |parts| >= 1
    requires forall k :: 0 <= k < |parts| ==> sep !in parts[k]
    ensures Split(Join(parts, [sep]), sep) == parts
    decreases |parts|, |parts[0]|
  {
    var p := parts[0];
    if p == [] {
      if |parts| > 1 {
        assert Join(parts, [sep]) == [sep] + Join(parts[1..], [sep]);
        SplitJoin(parts[1..], sep);
        assert ([sep] + Join(parts[1..], [sep]))[1..] == Join(parts[1..], [sep]);
      }
    } else {
      var parts' := [p[1..]] + parts[1..];
      assert forall k :: 0 <= k < |parts'| ==> sep !in parts'[k] by {
        assert forall c :: c in p[1..] ==> c in p;
      }
      var s := Join(parts, [sep]);
      assert s != [] && s[0] == p[0] && s[1..] == Join(parts', [sep]) by {
        if |parts| == 1 {
          assert s == [p[0]] + Join(parts', [sep]);
        } else {
          assert s == [p[0]] + (p[1..] + [sep] + Join(parts[1..], [sep]));
        }
      }
      var rest := Split(s[1..], sep);
      assert rest == parts' by {
        SplitJoin(parts', sep);
      }
      assert Split(s, sep) == [[s[0]] + rest[0]] + rest[1..] by {
        assert p[0] in p;
      }
      assert [[p[0]] + p[1..]] + parts[1..] == parts by {
        assert [p[0]] + p[1..] == p;
      }
    }
  }

  function DigitValue(c: char): nat
    requires IsDigit(c)
  {
    c as int - '0' as int
  }

  function DigitChar(d: nat): (c: char)
    requires d < 10
    ensures IsDigit(c) && DigitValue(c) == d
  {
    ('0' as int + d) as char
  }

  /** int(d) for a string of decimal digits (leading zeros allowed, as in Python). */
  function DigitsValue(d: string): nat
    requires AllDigits(d)
  {
    if d == [] then 0 else 10 * DigitsValue(d[..|d| - 1]) + DigitValue(d[|d| - 1])
  }

  /** str(n) for a natural number: the canonical decimal form, which int() reads back. */
  function NatToString(n: nat): (s: string)
    ensures |s| >= 1 && AllDigits(s) && DigitsValue(s) == n
    ensures s[0] != '0' || s == "0"
  {
    if n < 10 then [DigitChar(n)]
    else
      var s := NatToString(n / 10) + [DigitChar(n % 10)];
      assert s[..|s| - 1] == NatToString(n / 10);
      s
  }

  /** str(i) for an integer. */
  function IntToString(i: int): string {
    if i < 0 then "-" + NatToString(-i) else NatToString(i)
  }

  lemma {:induction false} LeadingDigitPositive(d: string)
    requires |d| >= 1 && AllDigits(d) && d[0] != '0'
    ensures DigitsValue(d) >= 1
    decreases |d|
  {
    if |d| > 1 {
      LeadingDigitPositive(d[..|d| - 1]);
    }
  }

  /** A canonical digit string (no leading zero) is exactly what str() writes for its value. */
  lemma {:induction false} DigitsRoundTrip(d: string)
    requires |d| >= 1 && AllDigits(d) && (d[0] != '0' || d == "0")
    ensures NatToString(DigitsValue(d)) == d
    decreases |d|
  {
    var n := DigitsValue(d);
    if |d| == 1 {
      assert d == [d[0]];
    } else {
      var init := d[..|d| - 1];
      LeadingDigitPositive(init);
      DigitsRoundTrip(init);
      assert n == 10 * DigitsValue(init) + DigitValue(d[|d| - 1]);
      assert n / 10 == DigitsValue(init) && n % 10 == DigitValue(d[|d| - 1]);
      assert d == init + [d[|d| - 1]];
    }
  }

  /** The most digits int() converts from text: CPython 3.11 and later (and the security
      releases of 3.7 to 3.10) refuse longer strings with ValueError, leading zeros included. */
  const MaxStrDigits := 4300

  /** int() of a digit string: its value, or None where int() raises ValueError. */
  function ToInt(digits: string): Option<nat>
    requires AllDigits(digits)
  {
    if |digits| > MaxStrDigits then None else Some(DigitsValue(digits))
  }

  /** The text of the ValueError int() raises for a digit string of `count` digits. */
  function IntLimitMessage(count: nat): string {
    "Exceeds the limit (4300 digits) for integer string conversion: value has "
    + NatToString(count) + " digits; use sys.set_int_max_str_digits() to increase the limit"
  }

  /** Python's `int(t) if t.isdigit() else 0`: isdigit is false for the empty string, and int()
      raises on a digit string above the limit. */
  function DigitsOrZero(t: string): Result<nat, string> {
    if t != [] && AllDigits(t) then
      match ToInt(t)
      case None => Err(IntLimitMessage(|t|))
      case Some(n) => Ok(n)
    else Ok(0)
  }

  /** A leading zero does not change the value int() reads. */
  lemma {:induction false} LeadingZeroIgnored(d: string)
    requires AllDigits(d)
    ensures AllDigits("0" + d) && DigitsValue("0" + d) == DigitsValue(d)
    decreases |d|
  {
    if d != [] {
      var init := d[..|d| - 1];
      LeadingZeroIgnored(init);
      assert ("0" + d)[..|d|] == "0" + init;
    }
  }

  /** `int(t) if t.isdigit() else 0` reads back what str() writes, with or without a leading zero,
      as long as the digits fit the limit; it gives 0 for text that is empty or holds a non-digit,
      and raises exactly on a digit string longer than the limit. */
  lemma DigitsOrZeroReads(n: nat, t: string)
    ensures |NatToString(n)| <= MaxStrDigits ==> DigitsOrZero(NatToString(n)) == Ok(n)
    ensures |NatToString(n)| < MaxStrDigits ==> DigitsOrZero("0" + NatToString(n)) == Ok(n)
    ensures (t == [] || exists k :: 0 <= k < |t| && !IsDigit(t[k])) ==> DigitsOrZero(t) == Ok(0)
    ensures t != [] && AllDigits(t) ==> (DigitsOrZero(t).Err? <==> |t| > MaxStrDigits)
    ensures t != [] && AllDigits(t) && |t| > MaxStrDigits ==> DigitsOrZero(t) == Err(IntLimitMessage(|t|))
  {
    LeadingZeroIgnored(NatToString(n));
  }

  predicate StartsWith(s: string, prefix: string) {
    |prefix| <= |s| && s[..|prefix|] == prefix
  }

  predicate EndsWith(s: string, suffix: string) {
    |suffix| <= |s| && s[|s| - |suffix|..] == suffix
  }

  /** t occurs in s at position i (case-sensitive, Python's `in`). */
  predicate OccursAt(s: string, t: string, i: nat) {
    i + |t| <= |s| && s[i..i + |t|] == t
  }

  /** The middle piece of a concatenation occurs right after the first. */
  lemma OccursInside(a: string, b: string, c: string)
    ensures OccursAt(a + b + c, b, |a|)
  {
    assert (a + b + c)[|a|..|a| + |b|] == b;
  }

  /** An occurrence inside an occurrence. */
  lemma OccursWithin(s: string, t: string, i: nat, u: string, j: nat)
    requires OccursAt(s, t, i) && OccursAt(t, u, j)
    ensures OccursAt(s, u, i + j)
  {
    forall x | 0 <= x < |u| ensures s[i + j..i + j + |u|][x] == u[x] {
      assert s[i + j + x] == s[i..i + |t|][j + x];
      assert t[j + x] == t[j..j + |u|][x];
    }
  }

  /** A concatenation starts with its first piece and ends with its last. */
  lemma Ends(a: string, b: string, c: string)
    ensures StartsWith(a + b + c, a) && EndsWith(a + b + c, c)
  {
    assert (a + b + c)[..|a|] == a;
    assert (a + b + c)[|a + b|..] == c;
  }

  /** rstrip never removes a character outside drop, nor anything before one. */
  lemma TrimEndKeeps(s: string, k: nat, drop: CharClass)
    requires k < |s| && !InClass(s[k], drop)
    ensures k < |TrimEnd(s, drop)| <= |s| && TrimEnd(s, drop) == s[..|TrimEnd(s, drop)|]
  {
    TrimEndSpec(s, drop);
  }

  /** Text starting with p still starts with p after str.strip() when p neither starts nor ends
      with whitespace. */
  lemma StripKeepsHead(s: string, p: string)
    requires StartsWith(s, p) && p != [] && !IsSpace(p[0]) && !IsSpace(p[|p| - 1])
    ensures StartsWith(Strip(s), p)
  {
    assert s[0] == s[..|p|][0];
    assert TrimStart(s, Whitespace) == s;
    assert s[|p| - 1] == s[..|p|][|p| - 1];
    TrimEndKeeps(s, |p| - 1, Whitespace);
    var r := TrimEnd(s, Whitespace);
    assert r[..|p|] == s[..|p|];
  }

  /** str.strip() removes exactly the surrounding newlines of text that neither starts nor ends with whitespace. */
  lemma StripNewlines(core: string)
    requires core != [] && !IsSpace(core[0]) && !IsSpace(core[|core| - 1])
    ensures Strip("\n" + core + "\n") == core
  {
    TrimFramed("\n", core, "\n", Whitespace);
  }

  /** Appending keeps a prefix. */
  lemma StartsWithAppend(s: string, t: string, p: string)
    requires StartsWith(s, p)
    ensures StartsWith(s + t, p)
  {
    assert (s + t)[..|p|] == s[..|p|];
  }

  /** A leading newline does not change what a stripped text starts with. */
  lemma StripAfterNewline(s: string, p: string)
    requires StartsWith(s, p) && p != [] && !IsSpace(p[0]) && !IsSpace(p[|p| - 1])
    ensures StartsWith(Strip("\n" + s), p)
  {
    TrimStartSkips("\n", s, Whitespace);
    StripKeepsHead(s, p);
  }

  /** A stripped text that opens with a newline and then p starts with p. */
  lemma StripAfterNewlineAppend(p: string, t: string)
    requires p != [] && !IsSpace(p[0]) && !IsSpace(p[|p| - 1])
    ensures StartsWith(Strip("\n" + (p + t)), p)
  {
    assert (p + t)[..|p|] == p;
    StripAfterNewline(p + t, p);
  }
}
