/**
 * The few operations of Python's `str` and `bytes` that the validators use,
 * written over sequences so that one definition serves text and bytes alike:
 * the substring test `w in s`, `s.find(c)`, `s.rfind(c)`, `s.count(p)`,
 * `s.replace(p, r)` and an ASCII `s.lower()`.
 */
module PyStrings {

  /** `w` occurs in `s` starting at index `i`. */
  predicate OccursAt<T(==)>(s: seq<T>, w: seq<T>, i: int)
  {
    0 <= i && i + |w| <= |s| && s[i..i + |w|] == w
  }

  /** An occurrence at index `i + 1` of `s` is one at index `i` of `s[1..]`. */
  lemma OccursAtTail<T>(s: seq<T>, w: seq<T>, i: int)
    requires |s| > 0 && 0 <= i
    ensures OccursAt(s[1..], w, i) <==> OccursAt(s, w, i + 1)
  {
    if i + |w| <= |s| - 1 {
      assert s[1..][i..i + |w|] == s[i + 1..i + 1 + |w|];
    }
  }

  /** An occurrence at index `k` of `s[i..]` is one at index `i + k` of `s`. */
  lemma OccursAtSuffix<T>(s: seq<T>, w: seq<T>, i: nat, k: int)
    requires i <= |s| && 0 <= k
    ensures OccursAt(s[i..], w, k) <==> OccursAt(s, w, i + k)
  {
    if i + k + |w| <= |s| {
      assert s[i..][k..k + |w|] == s[i + k..i + k + |w|];
    }
  }

  /** Python's `w in s`: tries every start position from the left. */
  function Contains<T(==)>(s: seq<T>, w: seq<T>): bool
    decreases |s|
  {
    if OccursAt(s, w, 0) then true
    else if |s| == 0 then false
    else Contains(s[1..], w)
  }

  /** Where the scan answers yes, it has found an occurrence. */
  lemma {:induction false} ContainsWitness<T>(s: seq<T>, w: seq<T>) returns (i: nat)
    requires Contains(s, w)
    ensures OccursAt(s, w, i)
    decreases |s|
  {
    if OccursAt(s, w, 0) {
      i := 0;
    } else {
      var j := ContainsWitness(s[1..], w);
      OccursAtTail(s, w, j);
      i := j + 1;
    }
  }

  /** Every occurrence is found by the scan. */
  lemma {:induction false} ContainsComplete<T>(s: seq<T>, w: seq<T>, i: nat)
    requires OccursAt(s, w, i)
    ensures Contains(s, w)
    decreases i
  {
    if i > 0 && !OccursAt(s, w, 0) {
      OccursAtTail(s, w, i - 1);
      ContainsComplete(s[1..], w, i - 1);
    }
  }

  /** The scan finds `w` exactly when `w` occurs somewhere in `s`. */
  lemma ContainsIff<T>(s: seq<T>, w: seq<T>)
    ensures Contains(s, w) <==> exists i :: OccursAt(s, w, i)
  {
    if Contains(s, w) {
      var i := ContainsWitness(s, w);
    }
    if exists i :: OccursAt(s, w, i) {
      var i :| OccursAt(s, w, i);
      ContainsComplete(s, w, i);
    }
  }

  /** Python's `s.find(c)` for one character: the first index holding `c`, or -1. */
  function Find(s: string, c: char): (i: int)
    ensures -1 <= i < |s|
    ensures i >= 0 ==> s[i] == c
    ensures forall j :: 0 <= j < |s| && (i < 0 || j < i) ==> s[j] != c
    decreases |s|
  {
    if |s| == 0 then -1
    else if s[0] == c then 0
    else
      var k := Find(s[1..], c);
      if k < 0 then -1 else k + 1
  }

  /** Python's `s.rfind(c)` for one character: the last index holding `c`, or -1. */
  function RFind(s: string, c: char): (i: int)
    ensures -1 <= i < |s|
    ensures i >= 0 ==> s[i] == c
    ensures forall j :: i < j < |s| ==> s[j] != c
    decreases |s|
  {
    if |s| == 0 then -1
    else if s[|s| - 1] == c then |s| - 1
    else RFind(s[..|s| - 1], c)
  }

  /** The number of indices at which `p` occurs in `s`, overlapping or not. */
  function Occurrences<T(==)>(s: seq<T>, p: seq<T>): nat
    decreases |s|
  {
    if |s| == 0 then 0
    else (if OccursAt(s, p, 0) then 1 else 0) + Occurrences(s[1..], p)
  }

  /** Python's `s.count(p)` for a non-empty `p`: leftmost non-overlapping matches. */
  function Count<T(==)>(s: seq<T>, p: seq<T>): nat
    requires |p| > 0
    decreases |s|
  {
    if |s| == 0 then 0
    else if OccursAt(s, p, 0) then 1 + Count(s[|p|..], p)
    else Count(s[1..], p)
  }

  /**
   * Python's `s.replace(p, r)` for a non-empty `p`: the leftmost occurrence of
   * `p` is replaced by `r` and the search resumes after it.
   */
  function Replace<T(==)>(s: seq<T>, p: seq<T>, r: seq<T>): seq<T>
    requires |p| > 0
    decreases |s|
  {
    if |s| == 0 then []
    else if OccursAt(s, p, 0) then r + Replace(s[|p|..], p, r)
    else [s[0]] + Replace(s[1..], p, r)
  }

  /** Every replaced occurrence changes the length by `|r| - |p|`. */
  lemma {:induction false} ReplaceLength<T>(s: seq<T>, p: seq<T>, r: seq<T>)
    requires |p| > 0
    ensures |Replace(s, p, r)| == |s| + Count(s, p) * (|r| - |p|)
    decreases |s|
  {
    if |s| == 0 {
    } else if OccursAt(s, p, 0) {
      var rest := s[|p|..];
      ReplaceLength(rest, p, r);
      MulStep(Count(rest, p), |r| - |p|);
    } else {
      ReplaceLength(s[1..], p, r);
    }
  }

  lemma MulStep(c: int, d: int)
    ensures (1 + c) * d == d + c * d
  {
  }

  /** The first element of `p` appears nowhere else in `p`, so `p` cannot overlap itself. */
  predicate UniqueHead<T(==)>(p: seq<T>)
  {
    |p| > 0 && forall k :: 0 < k < |p| ==> p[k] != p[0]
  }

  /** A pattern with a unique head that occurs at 0 does not occur again before `|p|`. */
  lemma NoOccurrenceInside<T>(s: seq<T>, p: seq<T>, k: nat)
    requires UniqueHead(p) && OccursAt(s, p, 0) && 1 <= k < |p|
    ensures !OccursAt(s, p, k)
  {
    assert s[0..|p|][k] == s[k];
    if k + |p| <= |s| {
      assert s[k..k + |p|][0] == s[k];
    }
  }

  /** Nothing occurs at indices `i .. j - 1`, so counting from `i` equals counting from `j`. */
  lemma {:induction false} OccurrencesSkip<T>(s: seq<T>, p: seq<T>, i: nat, j: nat)
    requires i <= j <= |s|
    requires forall k :: i <= k < j ==> !OccursAt(s, p, k)
    ensures Occurrences(s[i..], p) == Occurrences(s[j..], p)
    decreases j - i
  {
    if i < j {
      OccursAtSuffix(s, p, i, 0);
      assert s[i..][1..] == s[i + 1..];
      OccurrencesSkip(s, p, i + 1, j);
    }
  }

  /** For a pattern that cannot overlap itself, `count` counts every occurrence. */
  lemma {:induction false} CountIsOccurrences<T>(s: seq<T>, p: seq<T>)
    requires UniqueHead(p)
    ensures Count(s, p) == Occurrences(s, p)
    decreases |s|
  {
    if |s| == 0 {
    } else if OccursAt(s, p, 0) {
      forall k | 1 <= k < |p| ensures !OccursAt(s, p, k) {
        NoOccurrenceInside(s, p, k);
      }
      OccurrencesSkip(s, p, 1, |p|);
      CountIsOccurrences(s[|p|..], p);
    } else {
      CountIsOccurrences(s[1..], p);
    }
  }

  /** ASCII case folding of one character. */
  function LowerChar(c: char): (d: char)
    ensures 'A' <= c <= 'Z' ==> d as int == c as int + 32
    ensures !('A' <= c <= 'Z') ==> d == c
  {
    if 'A' <= c <= 'Z' then (c as int + 32) as char else c
  }

  /** Python's `s.lower()`, restricted to ASCII letters. */
  function Lower(s: string): (r: string)
    ensures |r| == |s|
    ensures forall i :: 0 <= i < |s| ==> r[i] == LowerChar(s[i])
    ensures forall i :: 0 <= i < |r| ==> !('A' <= r[i] <= 'Z')
  {
    seq(|s|, i requires 0 <= i < |s| => LowerChar(s[i]))
  }

  /** Lowering twice is lowering once. */
  lemma LowerIdempotent(s: string)
    ensures Lower(Lower(s)) == Lower(s)
  {
  }

  /** Lowering a slice is slicing the lowered text. */
  lemma LowerSlice(s: string, i: nat, j: nat)
    requires i <= j <= |s|
    ensures Lower(s[i..j]) == Lower(s)[i..j]
  {
  }
}
