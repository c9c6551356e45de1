/** The two Python string operations the resolver relies on: the substring
    test `pat in s` and `s.replace(pat, rep)`, which rewrites every
    non-overlapping occurrence of `pat`, scanning from left to right.
    Both scans are written over an index into the fixed string `s`. */
module Strings {

  /** `s` begins with `p`. */
  predicate StartsWith(s: string, p: string) {
    |p| <= |s| && s[..|p|] == p
  }

  /** `s` ends with `p`. */
  predicate EndsWith(s: string, p: string) {
    |p| <= |s| && s[|s| - |p|..] == p
  }

  /** `pat` occurs in `s` starting at index `i`. */
  predicate OccursAt(s: string, pat: string, i: int) {
    0 <= i && i + |pat| <= |s| && s[i..i + |pat|] == pat
  }

  /** `pat` occurs in `s` at index `k` or later. */
  predicate ContainsFrom(s: string, pat: string, k: nat)
    requires k <= |s|
    decreases |s| - k
  {
    OccursAt(s, pat, k) || (k < |s| && ContainsFrom(s, pat, k + 1))
  }

  /** Python's `pat in s`; the empty string is in every string. */
  predicate Contains(s: string, pat: string) {
    ContainsFrom(s, pat, 0)
  }

  /** Where slot `i` of `InsertAround` starts when each slot (a copy of
      `rep` and one character) is `w` wide, counted one slot at a time. */
  function SlotStart(i: nat, w: nat): nat {
    if i == 0 then 0 else w + SlotStart(i - 1, w)
  }

  /** Slot `i` starts at `i * w`. */
  lemma {:induction false} SlotStartIsProduct(i: nat, w: nat)
    ensures SlotStart(i, w) == i * w
  {
    if i > 0 {
      SlotStartIsProduct(i - 1, w);
      assert i * w == w + (i - 1) * w;
    }
  }

  /** What `s.replace("", rep)` yields: `rep` before, between and after the
      characters of `s`. */
  function InsertAround(s: string, rep: string): (r: string)
    ensures |r| == SlotStart(|s|, |rep| + 1) + |rep|
  {
    if s == [] then rep else rep + [s[0]] + InsertAround(s[1..], rep)
  }

  /** `InsertAround` adds `|s| + 1` copies of `rep` to the characters of `s`. */
  lemma InsertAroundLength(s: string, rep: string)
    ensures |InsertAround(s, rep)| == |s| + (|s| + 1) * |rep|
  {
    SlotStartIsProduct(|s|, |rep| + 1);
    assert |s| * (|rep| + 1) == |s| + |s| * |rep|;
  }

  /** The copies in `InsertAround`: slot `i` (for `i <= |s|`) holds a copy
      of `rep` at index `SlotStart(i, |rep| + 1)`, that is `i * (|rep| + 1)`. */
  lemma {:induction false} InsertAroundSlots(s: string, rep: string, i: nat)
    requires i <= |s|
    ensures SlotStart(i, |rep| + 1) + |rep| <= |InsertAround(s, rep)|
    ensures InsertAround(s, rep)[SlotStart(i, |rep| + 1)..SlotStart(i, |rep| + 1) + |rep|] == rep
    decreases i
  {
    var r := InsertAround(s, rep);
    if s == [] {
      assert r == rep;
    } else {
      var tail := InsertAround(s[1..], rep);
      assert r == rep + [s[0]] + tail;
      if i == 0 {
        ShiftedSlice([], r, 0, |rep|);
      } else {
        assert SlotStart(i, |rep| + 1) == |rep + [s[0]]| + SlotStart(i - 1, |rep| + 1);
        InsertAroundSlots(s[1..], rep, i - 1);
        ShiftedSlice(rep + [s[0]], tail, SlotStart(i - 1, |rep| + 1), |rep|);
      }
    }
  }

  /** The characters in `InsertAround`: right after the copy of `rep` in
      slot `i < |s|` stands `s[i]`. */
  lemma {:induction false} InsertAroundChars(s: string, rep: string, i: nat)
    requires i < |s|
    ensures SlotStart(i, |rep| + 1) + |rep| < |InsertAround(s, rep)|
    ensures InsertAround(s, rep)[SlotStart(i, |rep| + 1) + |rep|] == s[i]
    decreases i
  {
    var tail := InsertAround(s[1..], rep);
    assert InsertAround(s, rep) == rep + [s[0]] + tail;
    if i > 0 {
      assert SlotStart(i, |rep| + 1) == |rep + [s[0]]| + SlotStart(i - 1, |rep| + 1);
      InsertAroundChars(s[1..], rep, i - 1);
      ShiftedSlice(rep + [s[0]], tail, SlotStart(i - 1, |rep| + 1) + |rep|, 0);
      assert s[i] == s[1..][i - 1];
    }
  }

  /** The first and the last slot: `s.replace("", rep)` starts and ends
      with `rep`. */
  lemma InsertAroundEnds(s: string, rep: string)
    ensures StartsWith(InsertAround(s, rep), rep) && EndsWith(InsertAround(s, rep), rep)
  {
    InsertAroundSlots(s, rep, 0);
    InsertAroundSlots(s, rep, |s|);
  }

  /** Indexing past a prefix of length `|p|` reads the rest. */
  lemma ShiftedSlice(p: string, t: string, j: nat, n: nat)
    requires j + n <= |t|
    ensures (p + t)[|p| + j..|p| + j + n] == t[j..j + n]
    ensures j < |t| ==> (p + t)[|p| + j] == t[j]
  {
  }

  /** The scan of `replace` from index `k` on: an occurrence of `pat` at the
      current index is replaced by `rep` and skipped over; otherwise one
      character is kept and the scan moves on. */
  function ReplaceFrom(s: string, pat: string, rep: string, k: nat): string
    requires pat != [] && k <= |s|
    decreases |s| - k
  {
    if k == |s| then []
    else if OccursAt(s, pat, k) then rep + ReplaceFrom(s, pat, rep, k + |pat|)
    else [s[k]] + ReplaceFrom(s, pat, rep, k + 1)
  }

  /** Python's `s.replace(pat, rep)`. */
  function ReplaceAll(s: string, pat: string, rep: string): string {
    if pat == [] then InsertAround(s, rep) else ReplaceFrom(s, pat, rep, 0)
  }

  /** The number of occurrences the scan from `k` rewrites: the
      non-overlapping ones, found from left to right. */
  function CountFrom(s: string, pat: string, k: nat): nat
    requires pat != [] && k <= |s|
    decreases |s| - k
  {
    if k == |s| then 0
    else if OccursAt(s, pat, k) then 1 + CountFrom(s, pat, k + |pat|)
    else CountFrom(s, pat, k + 1)
  }

  /** The number of occurrences `ReplaceAll` rewrites. */
  function Count(s: string, pat: string): nat
    requires pat != []
  {
    CountFrom(s, pat, 0)
  }

  /** The scanning test agrees with its reading as "there is an index from `k`
      on where `pat` occurs", in both directions. */
  lemma {:induction false} ContainsFromIffOccurs(s: string, pat: string, k: nat)
    requires k <= |s|
    ensures ContainsFrom(s, pat, k) <==> exists i :: k <= i && OccursAt(s, pat, i)
    decreases |s| - k
  {
    if k < |s| {
      ContainsFromIffOccurs(s, pat, k + 1);
      forall i | k <= i && OccursAt(s, pat, i) ensures ContainsFrom(s, pat, k) {
        assert i == k || (k + 1 <= i && OccursAt(s, pat, i));
      }
    } else {
      forall i | k <= i && OccursAt(s, pat, i) ensures ContainsFrom(s, pat, k) {
        assert i == k;
      }
    }
  }

  /** `pat in s` holds exactly when `pat` occurs at some index of `s`. */
  lemma ContainsIffOccurs(s: string, pat: string)
    ensures Contains(s, pat) <==> exists i :: OccursAt(s, pat, i)
  {
    ContainsFromIffOccurs(s, pat, 0);
  }

  /** An occurrence inside `t` is still one once `t` is surrounded by other
      text. */
  lemma ContainsInContext(a: string, t: string, b: string, pat: string)
    requires Contains(t, pat)
    ensures Contains(a + t + b, pat)
  {
    ContainsIffOccurs(t, pat);
    var i :| OccursAt(t, pat, i);
    var u := a + t + b;
    assert u[|a| + i..|a| + i + |pat|] == t[i..i + |pat|];
    assert OccursAt(u, pat, |a| + i);
    ContainsIffOccurs(u, pat);
  }

  /** Where `pat` does not occur from `k` on, the scan copies the rest. */
  lemma {:induction false} ReplaceFromAbsent(s: string, pat: string, rep: string, k: nat)
    requires pat != [] && k <= |s| && !ContainsFrom(s, pat, k)
    ensures ReplaceFrom(s, pat, rep, k) == s[k..]
    decreases |s| - k
  {
    if k < |s| {
      ReplaceFromAbsent(s, pat, rep, k + 1);
      assert [s[k]] + s[k + 1..] == s[k..];
    }
  }

  /** Where `pat` does not occur, `replace` changes nothing. */
  lemma ReplaceAllAbsent(s: string, pat: string, rep: string)
    requires pat != [] && !Contains(s, pat)
    ensures ReplaceAll(s, pat, rep) == s
  {
    ReplaceFromAbsent(s, pat, rep, 0);
  }

  /** A string that is the pattern followed by something too short to hold
      another occurrence is rewritten into the replacement and that rest. */
  lemma ReplaceAllLeadingOnly(pat: string, tail: string, rep: string)
    requires pat != [] && |tail| < |pat|
    ensures ReplaceAll(pat + tail, pat, rep) == rep + tail
  {
    var s := pat + tail;
    assert OccursAt(s, pat, 0) by {
      assert s[0..|pat|] == pat;
    }
    assert !ContainsFrom(s, pat, |pat|) by {
      ContainsFromIffOccurs(s, pat, |pat|);
    }
    ReplaceFromAbsent(s, pat, rep, |pat|);
    assert s[|pat|..] == tail;
  }

  /** Scanning with the pattern as its own replacement copies the rest. */
  lemma {:induction false} ReplaceFromSelf(s: string, pat: string, k: nat)
    requires pat != [] && k <= |s|
    ensures ReplaceFrom(s, pat, pat, k) == s[k..]
    decreases |s| - k
  {
    if k < |s| {
      if OccursAt(s, pat, k) {
        ReplaceFromSelf(s, pat, k + |pat|);
        assert s[k..k + |pat|] + s[k + |pat|..] == s[k..];
      } else {
        ReplaceFromSelf(s, pat, k + 1);
        assert [s[k]] + s[k + 1..] == s[k..];
      }
    }
  }

  /** Replacing a pattern by itself changes nothing. */
  lemma ReplaceAllSelf(s: string, pat: string)
    requires pat != []
    ensures ReplaceAll(s, pat, pat) == s
  {
    ReplaceFromSelf(s, pat, 0);
  }

  /** From `k` on, the first occurrence is the first one rewritten: the text
      before it is copied, it becomes `rep`, and the scan resumes right after
      it. */
  lemma {:induction false} ReplaceFromAtFirst(s: string, pat: string, rep: string, k: nat, i: nat)
    requires pat != [] && k <= i && OccursAt(s, pat, i)
    requires forall j :: k <= j < i ==> !OccursAt(s, pat, j)
    ensures ReplaceFrom(s, pat, rep, k) == s[k..i] + rep + ReplaceFrom(s, pat, rep, i + |pat|)
    decreases i - k
  {
    if k < i {
      assert !OccursAt(s, pat, k);
      var tail := ReplaceFrom(s, pat, rep, k + 1);
      assert ReplaceFrom(s, pat, rep, k) == [s[k]] + tail;
      ReplaceFromAtFirst(s, pat, rep, k + 1, i);
      var after := ReplaceFrom(s, pat, rep, i + |pat|);
      assert [s[k]] + (s[k + 1..i] + rep + after) == ([s[k]] + s[k + 1..i]) + rep + after;
      assert [s[k]] + s[k + 1..i] == s[k..i];
    }
  }

  /** The leftmost occurrence is the first one rewritten: everything before it
      is kept, it becomes `rep`, and the scan resumes right after it. */
  lemma ReplaceAllAtFirst(s: string, pat: string, rep: string, i: nat)
    requires pat != [] && OccursAt(s, pat, i)
    requires forall j :: 0 <= j < i ==> !OccursAt(s, pat, j)
    ensures ReplaceAll(s, pat, rep) == s[..i] + rep + ReplaceFrom(s, pat, rep, i + |pat|)
  {
    ReplaceFromAtFirst(s, pat, rep, 0, i);
  }

  /** Each occurrence the scan rewrites trades `|pat|` characters for `|rep|`. */
  lemma {:induction false} ReplaceFromLength(s: string, pat: string, rep: string, k: nat)
    requires pat != [] && k <= |s|
    ensures |ReplaceFrom(s, pat, rep, k)| + CountFrom(s, pat, k) * |pat|
            == |s| - k + CountFrom(s, pat, k) * |rep|
    decreases |s| - k
  {
    if k < |s| {
      if OccursAt(s, pat, k) {
        ReplaceFromLength(s, pat, rep, k + |pat|);
        var c, r := CountFrom(s, pat, k + |pat|), |ReplaceFrom(s, pat, rep, k + |pat|)|;
        assert |ReplaceFrom(s, pat, rep, k)| == |rep| + r;
        assert CountFrom(s, pat, k) == 1 + c;
        OneMoreOccurrence(r, c, |pat|, |rep|, |s| - k - |pat|);
      } else {
        ReplaceFromLength(s, pat, rep, k + 1);
      }
    }
  }

  /** The arithmetic of one more rewritten occurrence. */
  lemma OneMoreOccurrence(r: int, c: int, n: int, m: int, t: int)
    requires r + c * n == t + c * m
    ensures (m + r) + (1 + c) * n == (n + t) + (1 + c) * m
  {
    assert (1 + c) * n == n + c * n;
    assert (1 + c) * m == m + c * m;
  }

  /** `replace` grows or shrinks the string by `|rep| - |pat|` per rewritten
      occurrence. */
  lemma ReplaceAllLength(s: string, pat: string, rep: string)
    requires pat != []
    ensures |ReplaceAll(s, pat, rep)| + Count(s, pat) * |pat| == |s| + Count(s, pat) * |rep|
  {
    ReplaceFromLength(s, pat, rep, 0);
  }

  /** The scan from `k` rewrites something exactly when `pat` occurs from `k`
      on. */
  lemma {:induction false} CountFromPositiveIffContains(s: string, pat: string, k: nat)
    requires pat != [] && k <= |s|
    ensures CountFrom(s, pat, k) > 0 <==> ContainsFrom(s, pat, k)
    decreases |s| - k
  {
    if k < |s| && !OccursAt(s, pat, k) {
      CountFromPositiveIffContains(s, pat, k + 1);
    }
  }

  /** Some occurrence is rewritten exactly when the pattern occurs at all. */
  lemma CountPositiveIffContains(s: string, pat: string)
    requires pat != []
    ensures Count(s, pat) > 0 <==> Contains(s, pat)
  {
    CountFromPositiveIffContains(s, pat, 0);
  }

  /** Once the pattern occurs from `k` on, the replacement occurs in what the
      scan produces. */
  lemma {:induction false} ReplaceFromContainsRep(s: string, pat: string, rep: string, k: nat)
    requires pat != [] && k <= |s| && ContainsFrom(s, pat, k)
    ensures Contains(ReplaceFrom(s, pat, rep, k), rep)
    decreases |s| - k
  {
    if OccursAt(s, pat, k) {
      var rest := ReplaceFrom(s, pat, rep, k + |pat|);
      assert (rep + rest)[0..|rep|] == rep;
      assert OccursAt(rep + rest, rep, 0);
      ContainsIffOccurs(rep + rest, rep);
    } else {
      ReplaceFromContainsRep(s, pat, rep, k + 1);
      ContainsInContext([s[k]], ReplaceFrom(s, pat, rep, k + 1), [], rep);
      assert [s[k]] + ReplaceFrom(s, pat, rep, k + 1) + [] == ReplaceFrom(s, pat, rep, k);
    }
  }

  /** Once the pattern occurs, the replacement occurs in the result. */
  lemma ReplaceAllContainsRep(s: string, pat: string, rep: string)
    requires pat != [] && Contains(s, pat)
    ensures Contains(ReplaceAll(s, pat, rep), rep)
  {
    ReplaceFromContainsRep(s, pat, rep, 0);
  }
}
