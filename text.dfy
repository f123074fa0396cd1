/**
 * The three string operations the patch script relies on, with Python's
 * semantics: substring containment (`pat in s`), `s.count(pat)` and
 * `s.replace(pat, rep)`. Both `count` and `replace` scan left to right and
 * never let two matches overlap.
 */
module Text {

  /** `pat` occurs in `s` starting at index `i`. */
  predicate OccursAt(s: string, pat: string, i: int) {
    0 <= i && i + |pat| <= |s| && s[i..i + |pat|] == pat
  }

  /** Python's `pat in s`. */
  predicate Contains(s: string, pat: string)
    ensures pat == [] ==> Contains(s, pat)
    ensures Contains(s, pat) ==> |pat| <= |s|
  {
    assert pat == [] ==> OccursAt(s, pat, 0);
    exists i | 0 <= i <= |s| :: OccursAt(s, pat, i)
  }

  /** Python's `s.count(pat)`: the number of non-overlapping matches found
      scanning left to right; an empty pattern matches |s| + 1 times. */
  function Count(s: string, pat: string): nat
    decreases |s|
  {
    if pat == [] then |s| + 1
    else if s == [] then 0
    else if pat <= s then 1 + Count(s[|pat|..], pat)
    else Count(s[1..], pat)
  }

  /** Python's `s.replace(pat, rep)`: every non-overlapping match of `pat`,
      scanning left to right, is replaced by `rep`. An empty pattern puts
      `rep` before every character and at the end. */
  function ReplaceAll(s: string, pat: string, rep: string): string
    decreases |s|
  {
    if pat == [] then
      if s == [] then rep else rep + [s[0]] + ReplaceAll(s[1..], pat, rep)
    else if s == [] then []
    else if pat <= s then rep + ReplaceAll(s[|pat|..], pat, rep)
    else [s[0]] + ReplaceAll(s[1..], pat, rep)
  }

  /** A prefix match is an occurrence at index 0. */
  lemma PrefixOccurs(s: string, pat: string)
    ensures pat <= s <==> OccursAt(s, pat, 0)
  {
    if |pat| <= |s| {
      assert pat <= s <==> s[..|pat|] == pat;
    }
  }

  /** Dropping the first `d` characters shifts every occurrence by `d`. */
  lemma ShiftOccurs(s: string, pat: string, d: nat, i: int)
    requires d <= |s| && 0 <= i
    ensures OccursAt(s[d..], pat, i) <==> OccursAt(s, pat, i + d)
  {
    if 0 <= i && i + |pat| <= |s| - d {
      assert s[d..][i..i + |pat|] == s[i + d..i + d + |pat|];
    }
  }

  /** Every match is also a match in any text that surrounds it. */
  lemma ContainsInMiddle(a: string, b: string, c: string, pat: string)
    requires Contains(b, pat)
    ensures Contains(a + b + c, pat)
  {
    var i :| 0 <= i <= |b| && OccursAt(b, pat, i);
    assert (a + b + c)[|a| + i..|a| + i + |pat|] == b[i..i + |pat|];
    assert OccursAt(a + b + c, pat, |a| + i);
  }

  /** Containment is transitive. */
  lemma ContainsTransitive(s: string, t: string, pat: string)
    requires Contains(s, t) && Contains(t, pat)
    ensures Contains(s, pat)
  {
    var i :| 0 <= i <= |s| && OccursAt(s, t, i);
    assert s == s[..i] + t + s[i + |t|..];
    ContainsInMiddle(s[..i], t, s[i + |t|..], pat);
  }

  /** A string that contains `pat` has a leftmost occurrence of it. */
  lemma FirstOccurrence(s: string, pat: string) returns (k: nat)
    requires Contains(s, pat)
    ensures OccursAt(s, pat, k)
    ensures forall j :: 0 <= j < k ==> !OccursAt(s, pat, j)
  {
    var i :| 0 <= i <= |s| && OccursAt(s, pat, i);
    k := 0;
    while !OccursAt(s, pat, k)
      invariant k <= i
      invariant forall j :: 0 <= j < k ==> !OccursAt(s, pat, j)
      decreases i - k
    {
      k := k + 1;
    }
  }

  /** `count` finds something exactly when the pattern is contained. */
  lemma {:induction false} CountPositive(s: string, pat: string)
    ensures Count(s, pat) > 0 <==> Contains(s, pat)
    decreases |s|
  {
    PrefixOccurs(s, pat);
    if pat == [] {
      assert OccursAt(s, pat, 0);
    } else if s == [] {
    } else if pat <= s {
    } else {
      CountPositive(s[1..], pat);
      if Contains(s, pat) {
        var i :| 0 <= i <= |s| && OccursAt(s, pat, i);
        ShiftOccurs(s, pat, 1, i - 1);
      }
      if Contains(s[1..], pat) {
        var i :| 0 <= i <= |s[1..]| && OccursAt(s[1..], pat, i);
        ShiftOccurs(s, pat, 1, i);
      }
    }
  }

  /** `replace` leaves a string without matches unchanged. */
  lemma {:induction false} ReplaceAllAbsent(s: string, pat: string, rep: string)
    requires pat != [] && !Contains(s, pat)
    ensures ReplaceAll(s, pat, rep) == s
    decreases |s|
  {
    if s != [] {
      PrefixOccurs(s, pat);
      assert !OccursAt(s, pat, 0);
      var t := s[1..];
      forall i | 0 <= i <= |t|
        ensures !OccursAt(t, pat, i)
      {
        ShiftOccurs(s, pat, 1, i);
      }
      assert !Contains(t, pat);
      ReplaceAllAbsent(t, pat, rep);
      assert ReplaceAll(s, pat, rep) == [s[0]] + ReplaceAll(t, pat, rep);
      assert [s[0]] + t == s;
    }
  }

  /** Dropping a first character that starts no match keeps the leftmost
      match, one index earlier. */
  lemma FirstAfterDrop(s: string, pat: string, k: nat)
    requires 0 < k && OccursAt(s, pat, k)
    requires forall j :: 0 <= j < k ==> !OccursAt(s, pat, j)
    ensures OccursAt(s[1..], pat, k - 1)
    ensures forall j :: 0 <= j < k - 1 ==> !OccursAt(s[1..], pat, j)
  {
    ShiftOccurs(s, pat, 1, k - 1);
    forall j | 0 <= j < k - 1
      ensures !OccursAt(s[1..], pat, j)
    {
      ShiftOccurs(s, pat, 1, j);
    }
  }

  /** `replace` at a match: the replacement, then the rest after the match. */
  lemma ReplaceAllHit(s: string, pat: string, rep: string)
    requires pat != [] && pat <= s
    ensures ReplaceAll(s, pat, rep) == rep + ReplaceAll(s[|pat|..], pat, rep)
  {
  }

  /** `replace` where no match starts: the first character is kept. */
  lemma ReplaceAllMiss(s: string, pat: string, rep: string)
    requires pat != [] && s != [] && !(pat <= s)
    ensures ReplaceAll(s, pat, rep) == [s[0]] + ReplaceAll(s[1..], pat, rep)
  {
  }

  /** Putting the first character back in front of a split of the rest. */
  lemma ConsSplit(s: string, k: nat, rep: string, rest: string)
    requires 0 < k <= |s|
    ensures [s[0]] + (s[1..][..k - 1] + rep + rest) == s[..k] + rep + rest
  {
    assert [s[0]] + s[1..][..k - 1] == s[..k];
  }

  /** Dropping one character and then `n - 1` more drops `n`. */
  lemma DropAfterFirst(s: string, n: nat)
    requires 1 <= n <= |s|
    ensures s[1..][n - 1..] == s[n..]
  {
  }

  /** `ReplaceAllAtFirst` with the text after the match named `u`, which
      the induction carries along unchanged. */
  lemma {:induction false} ReplaceAllUpTo(s: string, pat: string, rep: string, k: nat, u: string)
    requires pat != [] && OccursAt(s, pat, k) && u == s[k + |pat|..]
    requires forall j :: 0 <= j < k ==> !OccursAt(s, pat, j)
    ensures ReplaceAll(s, pat, rep) == s[..k] + rep + ReplaceAll(u, pat, rep)
    decreases k
  {
    var rest := ReplaceAll(u, pat, rep);
    if k == 0 {
      assert pat <= s by { PrefixOccurs(s, pat); }
      ReplaceAllHit(s, pat, rep);
      assert s[..k] + rep == rep;
    } else {
      var t := s[1..];
      assert ReplaceAll(t, pat, rep) == t[..k - 1] + rep + rest by {
        FirstAfterDrop(s, pat, k);
        DropAfterFirst(s, k + |pat|);
        ReplaceAllUpTo(t, pat, rep, k - 1, u);
      }
      assert !(pat <= s) by { PrefixOccurs(s, pat); }
      ReplaceAllMiss(s, pat, rep);
      ConsSplit(s, k, rep, rest);
    }
  }

  /** `replace` copies the text before the leftmost match, puts `rep` in
      place of that match, and goes on after it. */
  lemma ReplaceAllAtFirst(s: string, pat: string, rep: string, k: nat)
    requires pat != [] && OccursAt(s, pat, k)
    requires forall j :: 0 <= j < k ==> !OccursAt(s, pat, j)
    ensures ReplaceAll(s, pat, rep) == s[..k] + rep + ReplaceAll(s[k + |pat|..], pat, rep)
  {
    ReplaceAllUpTo(s, pat, rep, k, s[k + |pat|..]);
  }

  /** With exactly one match at `k`, `replace` splices `rep` in its place. */
  lemma ReplaceAllSingle(s: string, pat: string, rep: string, k: nat)
    requires pat != [] && OccursAt(s, pat, k)
    requires forall j :: 0 <= j <= |s| && j != k ==> !OccursAt(s, pat, j)
    ensures ReplaceAll(s, pat, rep) == s[..k] + rep + s[k + |pat|..]
  {
    ReplaceAllAtFirst(s, pat, rep, k);
    var t := s[k + |pat|..];
    forall i | 0 <= i <= |t|
      ensures !OccursAt(t, pat, i)
    {
      ShiftOccurs(s, pat, k + |pat|, i);
    }
    ReplaceAllAbsent(t, pat, rep);
  }

  /** Whenever `replace` finds a match, the replacement text shows up in the
      result. */
  lemma ReplaceAllContainsReplacement(s: string, pat: string, rep: string)
    requires pat != [] && Contains(s, pat)
    ensures Contains(ReplaceAll(s, pat, rep), rep)
  {
    var k := FirstOccurrence(s, pat);
    ReplaceAllAtFirst(s, pat, rep, k);
    assert OccursAt(rep, rep, 0);
    ContainsInMiddle(s[..k], rep, ReplaceAll(s[k + |pat|..], pat, rep), rep);
  }

  /** Each match grows the text by the difference in length between `rep`
      and `pat`. */
  lemma {:induction false} ReplaceAllLength(s: string, pat: string, rep: string)
    ensures |ReplaceAll(s, pat, rep)| == |s| + Count(s, pat) * (|rep| - |pat|)
    decreases |s|
  {
    if pat == [] {
      if s != [] {
        ReplaceAllLength(s[1..], pat, rep);
        MulSucc(Count(s[1..], pat), |rep|);
      }
    } else if s == [] {
    } else if pat <= s {
      ReplaceAllLength(s[|pat|..], pat, rep);
      MulSucc(Count(s[|pat|..], pat), |rep| - |pat|);
    } else {
      ReplaceAllLength(s[1..], pat, rep);
    }
  }

  lemma MulSucc(c: int, d: int)
    ensures (c + 1) * d == d + c * d
  {
  }

  /** Inside a match at `j`, the character at `i` is the pattern's
      `(i - j)`-th. */
  lemma CharOfMatch(s: string, pat: string, j: int, i: int)
    requires OccursAt(s, pat, j) && j <= i < j + |pat|
    ensures s[i] == pat[i - j]
  {
    assert s[j..j + |pat|][i - j] == s[i];
  }

  /** A character that differs from the pattern's rules out a match. */
  lemma MismatchAt(s: string, pat: string, j: int, i: int)
    requires j <= i < j + |pat| && 0 <= i < |s| && s[i] != pat[i - j]
    ensures !OccursAt(s, pat, j)
  {
    if OccursAt(s, pat, j) {
      CharOfMatch(s, pat, j, i);
    }
  }

  /** The character `c` occurs nowhere in `s`. */
  predicate NoChar(s: string, c: char) {
    forall i :: 0 <= i < |s| ==> s[i] != c
  }

  /** A character missing from both halves is missing from the whole. */
  lemma NoCharAppend(a: string, b: string, c: char)
    requires NoChar(a, c) && NoChar(b, c)
    ensures NoChar(a + b, c)
  {
  }

  /** The concatenation of a sequence of strings, in order. */
  function Join(parts: seq<string>): string
  {
    if parts == [] then [] else parts[0] + Join(parts[1..])
  }

  /** A character absent from every part is absent from their concatenation. */
  lemma {:induction false} JoinLacks(parts: seq<string>, c: char)
    requires forall i :: 0 <= i < |parts| ==> NoChar(parts[i], c)
    ensures NoChar(Join(parts), c)
    decreases |parts|
  {
    if parts != [] {
      JoinLacks(parts[1..], c);
      NoCharAppend(parts[0], Join(parts[1..]), c);
    }
  }

  /** A pattern whose `d`-th character is not in `s` is not in `s`. */
  lemma AbsentByChar(s: string, pat: string, d: nat)
    requires d < |pat| && NoChar(s, pat[d])
    ensures !Contains(s, pat)
  {
    forall i | 0 <= i <= |s| && OccursAt(s, pat, i)
      ensures false
    {
      CharOfMatch(s, pat, i, i + d);
    }
  }

  /** If the `d`-th character of `pat` sits in `s` only at `p`, then `pat`
      can only occur in `s` at `p - d`. */
  lemma PinnedByChar(s: string, pat: string, d: nat, p: int, j: int)
    requires d < |pat| && forall i :: 0 <= i < |s| && s[i] == pat[d] ==> i == p
    requires OccursAt(s, pat, j)
    ensures j == p - d
  {
    CharOfMatch(s, pat, j, j + d);
  }

  /** A character found nowhere in `a` and `b` and only at `q` in `m` is
      found only at `|a| + q` in `a + m + b`. */
  lemma UniqueCharInMiddle(a: string, m: string, b: string, c: char, q: nat)
    requires NoChar(a, c) && NoChar(b, c) && q < |m| && m[q] == c
    requires forall i :: 0 <= i < |m| && m[i] == c ==> i == q
    ensures (a + m + b)[|a| + q] == c
    ensures forall i :: 0 <= i < |a + m + b| && (a + m + b)[i] == c ==> i == |a| + q
  {
    var s := a + m + b;
    forall i | 0 <= i < |s| && i != |a| + q
      ensures s[i] != c
    {
      if i < |a| {
        assert s[i] == a[i];
      } else if i < |a| + |m| {
        assert s[i] == m[i - |a|];
      } else {
        assert s[i] == b[i - |a| - |m|];
      }
    }
  }

  /** An occurrence in `s` is an occurrence in any text around `s`, shifted
      by what comes before. */
  lemma OccursExtended(a: string, s: string, b: string, pat: string, i: int)
    requires OccursAt(s, pat, i)
    ensures OccursAt(a + s + b, pat, |a| + i)
  {
    assert (a + s + b)[|a| + i..|a| + i + |pat|] == s[i..i + |pat|];
  }

  /** `b` occurs in `a + b + c` right after `a`. */
  lemma OccursInMiddle(a: string, b: string, c: string)
    ensures OccursAt(a + b + c, b, |a|)
  {
    assert (a + b + c)[|a|..|a| + |b|] == b;
  }
}
