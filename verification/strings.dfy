/** Character classes, case folding, literal occurrence and `str.find` on
    character sequences: the string primitives the multi-file find dialog
    is built from. */
module Strings {

  datatype Option<T> = None | Some(value: T)

  /** Lower-casing of one character. Only the ASCII letters `A`..`Z` are
      mapped; every other character is its own lower case here. */
  function Lower(c: char): char {
    if 'A' <= c <= 'Z' then (c as int + 32) as char else c
  }

  /** Character-wise, length-preserving lower-casing of a string. */
  function Fold(s: string): string {
    seq(|s|, i requires 0 <= i < |s| => Lower(s[i]))
  }

  /** The text a search actually scans: the string itself in case-sensitive
      mode, its lower-cased form otherwise. */
  function Normalize(s: string, caseSensitive: bool): string {
    if caseSensitive then s else Fold(s)
  }

  /** `str.isalnum` on one character, restricted to ASCII letters and digits. */
  predicate IsAlnum(c: char) {
    'a' <= c <= 'z' || 'A' <= c <= 'Z' || '0' <= c <= '9'
  }

  /** The characters `str.isspace` accepts (and `str.strip` removes). */
  predicate IsSpace(c: char) {
    var n := c as int;
    n == 0x20 || 0x09 <= n <= 0x0D || 0x1C <= n <= 0x1F || n == 0x85 || n == 0xA0
    || n == 0x1680 || 0x2000 <= n <= 0x200A || n == 0x2028 || n == 0x2029
    || n == 0x202F || n == 0x205F || n == 0x3000
  }

  /** `sub` occurs in `s` starting at index `p`. */
  predicate OccursAt(s: string, sub: string, p: int) {
    0 <= p && p + |sub| <= |s| && s[p..p + |sub|] == sub
  }

  /** `s.find(sub, start)` for a non-negative `start`: the least index at or
      after `start` where `sub` occurs, or None (Python's -1). */
  function FindFrom(s: string, sub: string, start: nat): (r: Option<nat>)
    ensures r.Some? ==> start <= r.value && OccursAt(s, sub, r.value)
    ensures r.Some? ==> forall q :: start <= q < r.value ==> !OccursAt(s, sub, q)
    ensures r.None? ==> forall q :: start <= q ==> !OccursAt(s, sub, q)
    decreases |s| - start
  {
    if start + |sub| > |s| then None
    else if s[start..start + |sub|] == sub then Some(start)
    else FindFrom(s, sub, start + 1)
  }

  /** Lower-casing does not change whether a character is alphanumeric. */
  lemma AlnumFold(c: char)
    ensures IsAlnum(Lower(c)) == IsAlnum(c)
  {
  }

  lemma NormalizeLength(s: string, caseSensitive: bool)
    ensures |Normalize(s, caseSensitive)| == |s|
  {
  }

  /** Normalizing commutes with slicing. */
  lemma NormalizeSlice(s: string, caseSensitive: bool, a: int, b: int)
    requires 0 <= a <= b <= |s|
    ensures Normalize(s, caseSensitive)[a..b] == Normalize(s[a..b], caseSensitive)
  {
  }

  /** Whether the normalized `sub` occurs at `p` in the normalized `s` only
      depends on the characters of `s` it covers. */
  lemma OccursNormalized(s: string, sub: string, caseSensitive: bool, p: int)
    ensures OccursAt(Normalize(s, caseSensitive), Normalize(sub, caseSensitive), p)
        <==> 0 <= p && p + |sub| <= |s| && Normalize(s[p..p + |sub|], caseSensitive) == Normalize(sub, caseSensitive)
  {
    if 0 <= p && p + |sub| <= |s| {
      NormalizeSlice(s, caseSensitive, p, p + |sub|);
    }
  }

  /** An exact occurrence is also an occurrence once both sides are lower-cased. */
  lemma OccursFold(s: string, sub: string, p: int)
    requires OccursAt(s, sub, p)
    ensures OccursAt(Fold(s), Fold(sub), p)
  {
    OccursNormalized(s, sub, false, p);
  }

  /** `str.lstrip()`: drops leading whitespace. */
  function StripLeft(s: string): string {
    if |s| > 0 && IsSpace(s[0]) then StripLeft(s[1..]) else s
  }

  /** `str.rstrip()`: drops trailing whitespace. */
  function StripRight(s: string): string {
    if |s| > 0 && IsSpace(s[|s| - 1]) then StripRight(s[..|s| - 1]) else s
  }

  lemma {:induction false} StripLeftProps(s: string)
    ensures |StripLeft(s)| <= |s| && StripLeft(s) == s[|s| - |StripLeft(s)|..]
    ensures forall k :: 0 <= k < |s| - |StripLeft(s)| ==> IsSpace(s[k])
    ensures StripLeft(s) == [] || !IsSpace(StripLeft(s)[0])
  {
    if |s| > 0 && IsSpace(s[0]) {
      var t := s[1..];
      StripLeftProps(t);
      assert StripLeft(s) == StripLeft(t);
      assert t[|t| - |StripLeft(t)|..] == s[|s| - |StripLeft(t)|..];
      forall k | 0 <= k < |s| - |StripLeft(t)| ensures IsSpace(s[k]) {
        if k > 0 {
          assert s[k] == t[k - 1];
        }
      }
    }
  }

  lemma {:induction false} StripRightProps(s: string)
    ensures |StripRight(s)| <= |s| && StripRight(s) == s[..|StripRight(s)|]
    ensures forall k :: |StripRight(s)| <= k < |s| ==> IsSpace(s[k])
    ensures StripRight(s) == [] || !IsSpace(StripRight(s)[|StripRight(s)| - 1])
  {
    if |s| > 0 && IsSpace(s[|s| - 1]) {
      StripRightProps(s[..|s| - 1]);
    }
  }

  /** `r` is the piece of `s` starting at `i`, and everything around it is
      whitespace. */
  ghost predicate TrimmedAt(s: string, r: string, i: int) {
    && 0 <= i <= |s| - |r|
    && r == s[i..i + |r|]
    && (forall k :: 0 <= k < i ==> IsSpace(s[k]))
    && (forall k :: i + |r| <= k < |s| ==> IsSpace(s[k]))
  }

  /** `str.strip()`: the line text stored in a search result. */
  function Strip(s: string): string {
    StripRight(StripLeft(s))
  }

  /** The stripped text is a contiguous piece of `s`, everything cut away is
      whitespace, and the piece neither starts nor ends with whitespace. */
  lemma StripTrims(s: string)
    ensures exists i :: TrimmedAt(s, Strip(s), i)
    ensures Strip(s) == [] || (!IsSpace(Strip(s)[0]) && !IsSpace(Strip(s)[|Strip(s)| - 1]))
  {
    var left := StripLeft(s);
    var r := StripRight(left);
    StripLeftProps(s);
    StripRightProps(left);
    assert r == Strip(s);
    var i := |s| - |left|;
    assert r == s[i..i + |r|];
    assert forall k :: i + |r| <= k < |s| ==> s[k] == left[k - i];
    assert TrimmedAt(s, r, i);
  }
}
