/** The two JavaScript string searches `clearCell` relies on, for a
    one-character needle: `String.prototype.lastIndexOf` and
    `String.prototype.indexOf`. Both clamp `fromIndex` into [0, length], so a
    negative `fromIndex` searches as if it were 0.

    A JavaScript string, and a character offset in an editor position, count
    UTF-16 code units: a character outside the Basic Multilingual Plane takes
    two. Lines are therefore sequences of `CodeUnit`, and the searches are
    stated for any sequence. */
module TextSearch {

  /** One UTF-16 code unit. */
  newtype CodeUnit = x: int | 0 <= x < 0x1_0000

  /** A line of text as JavaScript sees it. */
  type Utf16 = seq<CodeUnit>

  const Pipe: CodeUnit := 0x7C
  const Space: CodeUnit := 0x20

  /** `fromIndex` clamped below at 0, as both searches do. */
  function ClampBelow(fromIndex: int): (n: nat)
    ensures fromIndex >= 0 ==> n == fromIndex
    ensures fromIndex < 0 ==> n == 0
  {
    if fromIndex < 0 then 0 else fromIndex
  }

  /** The greatest index `k <= i` with `s[k] == c`, or -1. */
  function LastAtOrBefore<T(==)>(s: seq<T>, c: T, i: int): (k: int)
    requires -1 <= i < |s|
    ensures -1 <= k <= i
    ensures k != -1 ==> s[k] == c
    ensures forall j :: k < j <= i ==> s[j] != c
    decreases i + 1
  {
    if i < 0 then -1
    else if s[i] == c then i
    else LastAtOrBefore(s, c, i - 1)
  }

  /** The smallest index `k >= i` with `s[k] == c`, or -1. */
  function FirstAtOrAfter<T(==)>(s: seq<T>, c: T, i: nat): (k: int)
    requires i <= |s|
    ensures k == -1 || (i <= k < |s| && s[k] == c)
    ensures k != -1 ==> forall j :: i <= j < k ==> s[j] != c
    ensures k == -1 ==> forall j :: i <= j < |s| ==> s[j] != c
    decreases |s| - i
  {
    if i == |s| then -1
    else if s[i] == c then i
    else FirstAtOrAfter(s, c, i + 1)
  }

  /** `s.lastIndexOf(c, fromIndex)`: the last occurrence of `c` at an index
      no greater than `fromIndex` (a negative `fromIndex` counts as 0), or -1. */
  function LastIndexOf<T(==)>(s: seq<T>, c: T, fromIndex: int): (k: int)
    ensures -1 <= k < |s|
    ensures k != -1 ==> s[k] == c && k <= ClampBelow(fromIndex)
    ensures forall j :: k < j < |s| && j <= ClampBelow(fromIndex) ==> s[j] != c
  {
    var from := ClampBelow(fromIndex);
    LastAtOrBefore(s, c, if from < |s| then from else |s| - 1)
  }

  /** `s.indexOf(c, fromIndex)`: the first occurrence of `c` at an index no
      smaller than `fromIndex`, or -1. */
  function IndexOf<T(==)>(s: seq<T>, c: T, fromIndex: int): (k: int)
    ensures k == -1 || (ClampBelow(fromIndex) <= k < |s| && s[k] == c)
    ensures k != -1 ==> forall j :: ClampBelow(fromIndex) <= j < k ==> s[j] != c
    ensures k == -1 ==> forall j :: ClampBelow(fromIndex) <= j < |s| ==> s[j] != c
  {
    var from := ClampBelow(fromIndex);
    FirstAtOrAfter(s, c, if from <= |s| then from else |s|)
  }

  /** Both searches look only at where `c` occurs: two sequences of the same
      length with `c` at the same indices give the same answers. */
  lemma SearchesSeeOnlyOccurrences<T>(s: seq<T>, t: seq<T>, c: T, fromIndex: int)
    requires |s| == |t|
    requires forall j :: 0 <= j < |s| ==> (s[j] == c <==> t[j] == c)
    ensures LastIndexOf(s, c, fromIndex) == LastIndexOf(t, c, fromIndex)
    ensures IndexOf(s, c, fromIndex) == IndexOf(t, c, fromIndex)
  {
  }
}
