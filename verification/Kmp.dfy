/** The firmware-flag search of mupgrade_check.c: the Knuth-Morris-Pratt failure table,
    the search itself, and what the search does and does not find.
 */
module Kmp {
  import opened Bytes

  /** k is the length of a proper border of s: a prefix that is also a suffix. */
  ghost predicate IsBorder(s: seq<Byte>, k: nat) {
    k < |s| && s[..k] == s[|s| - k..]
  }

  ghost predicate IsLongestBorder(s: seq<Byte>, k: nat) {
    IsBorder(s, k) && forall m: nat :: IsBorder(s, m) ==> m <= k
  }

  /** next[i] is the longest proper border of target[0..i], that is of the first n == i + 1 bytes. */
  ghost predicate IsBorderTable(target: seq<Byte>, next: seq<uint8>) {
    |next| == |target| &&
    forall n :: 1 <= n <= |target| ==> IsLongestBorder(target[..n], next[n - 1] as nat)
  }

  ghost predicate OccursAt(src: seq<Byte>, target: seq<Byte>, p: int) {
    0 <= p && p + |target| <= |src| && src[p..p + |target|] == target
  }

  ghost predicate Occurs(src: seq<Byte>, target: seq<Byte>) {
    exists p :: OccursAt(src, target, p)
  }

  // ---- Borders ----

  /** The borders of s shorter than a border j are exactly the borders of s[..j]. */
  lemma BorderOfBorder(s: seq<Byte>, j: nat, b: nat)
    requires IsBorder(s, j) && b < j
    ensures IsBorder(s, b) <==> IsBorder(s[..j], b)
  {
    var t := s[..j];
    assert t[j - b..] == s[|s| - j..][j - b..] == s[|s| - b..];
    assert t[..b] == s[..b];
  }

  /** Appending c turns the borders b of s with s[b] == c into the nonempty borders b + 1. */
  lemma BorderExtend(s: seq<Byte>, c: Byte, b: nat)
    requires b < |s|
    ensures IsBorder(s + [c], b + 1) <==> IsBorder(s, b) && s[b] == c
  {
    var t := s + [c];
    assert t[..b + 1] == s[..b] + [s[b]];
    assert t[|t| - (b + 1)..] == s[|s| - b..] + [c];
    if t[..b + 1] == t[|t| - (b + 1)..] {
      assert s[..b] == t[..b + 1][..b] == t[|t| - (b + 1)..][..b] == s[|s| - b..];
      assert s[b] == t[..b + 1][b] == t[|t| - (b + 1)..][b] == c;
    }
  }

  /** j is a border of target[..i] and every longer one fails to extend by target[i]. */
  ghost predicate IsCandidate(target: seq<Byte>, i: nat, j: nat) {
    i < |target| && IsBorder(target[..i], j) &&
    forall b: nat :: j < b && IsBorder(target[..i], b) ==> target[b] != target[i]
  }

  lemma FallBack(target: seq<Byte>, i: nat, j: nat, f: nat)
    requires IsCandidate(target, i, j) && 0 < j && target[j] != target[i]
    requires IsLongestBorder(target[..j], f)
    ensures IsCandidate(target, i, f) && f < j
  {
    var s := target[..i];
    assert s[..j] == target[..j];
    BorderOfBorder(s, j, f);
    forall b: nat | f < b && IsBorder(s, b) ensures target[b] != target[i] {
      if b < j {
        BorderOfBorder(s, j, b);
      }
    }
  }

  lemma Settle(target: seq<Byte>, i: nat, j: nat)
    requires IsCandidate(target, i, j)
    requires target[j] == target[i] || j == 0
    ensures IsLongestBorder(target[..i + 1], if target[j] == target[i] then j + 1 else 0)
  {
    var s, t := target[..i], target[..i + 1];
    var r := if target[j] == target[i] then j + 1 else 0;
    assert t == s + [target[i]];
    BorderExtend(s, target[i], j);
    assert t[..0] == t[|t|..];
    forall m: nat | IsBorder(t, m) ensures m <= r {
      if m > 0 {
        BorderExtend(s, target[i], m - 1);
      }
    }
  }

  lemma FirstBorder(target: seq<Byte>)
    requires target != []
    ensures IsLongestBorder(target[..1], 0)
  {
    assert target[..1][..0] == target[..1][1..];
  }

  /** kmp_next: fills next with the border table of target; the fallback steps of the inner
      loop number at most the steps of the outer loop. */
  method KmpNext(target: seq<Byte>, next: array<uint8>) returns (ghost fallbacks: nat)
    requires 1 <= |target| <= 256 && |target| <= next.Length
    modifies next
    ensures IsBorderTable(target, next[..|target|])
    ensures forall k :: |target| <= k < next.Length ==> next[k] == old(next[k])
    ensures fallbacks <= |target| - 1
  {
    hide IsBorder;
    next[0] := 0;
    fallbacks := 0;
    var i: nat, j: nat := 1, 0;
    FirstBorder(target);
    while i < |target|
      invariant 1 <= i <= |target|
      invariant j == next[i - 1] as nat
      invariant forall n :: 1 <= n <= i ==> IsLongestBorder(target[..n], next[n - 1] as nat)
      invariant forall k :: |target| <= k < next.Length ==> next[k] == old(next[k])
      invariant fallbacks + j <= i - 1
    {
      assert IsLongestBorder(target[..i], j);
      while j > 0 && target[j] != target[i]
        modifies {}
        invariant IsCandidate(target, i, j)
        invariant fallbacks + j <= i - 1
        decreases j
      {
        assert IsLongestBorder(target[..j], next[j - 1] as nat);
        FallBack(target, i, j, next[j - 1] as nat);
        j := next[j - 1] as nat;
        fallbacks := fallbacks + 1;
      }
      Settle(target, i, j);
      if target[j] == target[i] {
        j := j + 1;
      }
      next[i] := j as uint8;
      i := i + 1;
    }
  }

  // ---- Search ----

  /** The first k bytes of target end src[..i]. */
  ghost predicate EndsWith(src: seq<Byte>, i: nat, target: seq<Byte>, k: nat) {
    k <= i <= |src| && k <= |target| && src[i - k..i] == target[..k]
  }

  /** A match shorter than a match k is a border of target[..k], and conversely. */
  lemma MatchIsBorder(src: seq<Byte>, i: nat, target: seq<Byte>, k: nat, b: nat)
    requires EndsWith(src, i, target, k) && b < k
    ensures EndsWith(src, i, target, b) <==> IsBorder(target[..k], b)
  {
    var t := target[..k];
    assert t[k - b..] == src[i - k..i][k - b..] == src[i - b..i];
    assert t[..b] == target[..b];
  }

  lemma MatchExtend(src: seq<Byte>, i: nat, target: seq<Byte>, k: nat)
    requires i < |src| && k < |target|
    ensures EndsWith(src, i + 1, target, k + 1) <==> EndsWith(src, i, target, k) && src[i] == target[k]
  {
    if k <= i {
      assert src[i - k..i + 1] == src[i - k..i] + [src[i]];
      assert target[..k + 1] == target[..k] + [target[k]];
      if src[i - k..i + 1] == target[..k + 1] {
        assert src[i - k..i] == src[i - k..i + 1][..k] == target[..k + 1][..k] == target[..k];
        assert src[i] == src[i - k..i + 1][k] == target[..k + 1][k] == target[k];
      }
    }
  }

  /** Every match of src[..i] is at most k long. */
  ghost predicate IsLongestMatch(src: seq<Byte>, i: nat, target: seq<Byte>, k: nat) {
    EndsWith(src, i, target, k) && forall m: nat :: EndsWith(src, i, target, m) ==> m <= k
  }

  /** target[..k] ends src[..i] and every longer match fails to extend by src[i]. */
  ghost predicate IsMatchCandidate(src: seq<Byte>, i: nat, target: seq<Byte>, k: nat) {
    i < |src| && k < |target| && EndsWith(src, i, target, k) &&
    forall m: nat :: k < m < |target| && EndsWith(src, i, target, m) ==> src[i] != target[m]
  }

  lemma MatchFallBack(src: seq<Byte>, i: nat, target: seq<Byte>, k: nat, f: nat)
    requires IsMatchCandidate(src, i, target, k) && 0 < k && src[i] != target[k]
    requires IsLongestBorder(target[..k], f)
    ensures IsMatchCandidate(src, i, target, f) && f < k
  {
    MatchIsBorder(src, i, target, k, f);
    forall m: nat | f < m < |target| && EndsWith(src, i, target, m) ensures src[i] != target[m] {
      if m < k {
        MatchIsBorder(src, i, target, k, m);
      }
    }
  }

  lemma MatchSettle(src: seq<Byte>, i: nat, target: seq<Byte>, k: nat)
    requires IsMatchCandidate(src, i, target, k)
    requires src[i] == target[k] || k == 0
    ensures IsLongestMatch(src, i + 1, target, if src[i] == target[k] then k + 1 else 0)
  {
    var r := if src[i] == target[k] then k + 1 else 0;
    MatchExtend(src, i, target, k);
    var e := i + 1;
    forall m: nat | EndsWith(src, e, target, m) ensures m <= r {
      if m > 0 {
        MatchExtend(src, i, target, m - 1);
      }
    }
  }

  /** No occurrence of target ends at or before position i. */
  ghost predicate NoMatchUpTo(src: seq<Byte>, i: nat, target: seq<Byte>) {
    forall e: nat :: e <= i ==> !EndsWith(src, e, target, |target|)
  }

  ghost predicate IsSearchState(src: seq<Byte>, i: nat, target: seq<Byte>, k: nat) {
    k < |target| && IsLongestMatch(src, i, target, k) && NoMatchUpTo(src, i, target)
  }

  lemma FoundAt(src: seq<Byte>, target: seq<Byte>, i: nat)
    requires 1 <= |target| <= |src| && i <= |src| - |target| + 1
    requires EndsWith(src, i, target, |target|)
    ensures Occurs(src[..|src| - |target| + 1], target)
  {
    var pre, p := src[..|src| - |target| + 1], i - |target|;
    assert p + |target| == i;
    assert src[i - |target|..i] == target[..|target|] == target;
    assert pre[p..i] == src[p..i];
    assert OccursAt(pre, target, p);
  }

  lemma NowhereInPrefix(src: seq<Byte>, target: seq<Byte>)
    requires 1 <= |target| <= |src|
    requires NoMatchUpTo(src, |src| - |target| + 1, target)
    ensures !Occurs(src[..|src| - |target| + 1], target)
  {
    var pre := src[..|src| - |target| + 1];
    forall p ensures !OccursAt(pre, target, p) {
      if OccursAt(pre, target, p) {
        assert pre[p..p + |target|] == src[p..p + |target|];
        assert target[..|target|] == target;
        assert EndsWith(src, p + |target|, target, |target|);
      }
    }
  }

  /** What one outer step of the search establishes once the fallbacks are done. */
  lemma Advance(src: seq<Byte>, i: nat, target: seq<Byte>, k: nat)
    requires 1 <= |target| <= |src| && i <= |src| - |target|
    requires IsMatchCandidate(src, i, target, k) && NoMatchUpTo(src, i, target)
    requires src[i] == target[k] || k == 0
    ensures var r := if src[i] == target[k] then k + 1 else 0;
            if r == |target| then Occurs(src[..|src| - |target| + 1], target)
            else IsSearchState(src, i + 1, target, r)
  {
    MatchSettle(src, i, target, k);
    if src[i] == target[k] && k + 1 == |target| {
      FoundAt(src, target, i + 1);
    }
  }

  /** kmp_find: the last compared byte has index at most |src| - |target|, so the search covers
      exactly the first |src| - |target| + 1 bytes. */
  method KmpFind(src: seq<Byte>, target: seq<Byte>, next: seq<uint8>) returns (found: bool, ghost fallbacks: nat)
    requires 1 <= |target| && IsBorderTable(target, next)
    ensures found <==> |target| <= |src| && Occurs(src[..|src| - |target| + 1], target)
    ensures fallbacks <= if |src| >= |target| then |src| - |target| + 1 else 0
  {
    hide IsLongestBorder, OccursAt;
    var i: nat, nextIndex: nat := 0, 0;
    assert IsSearchState(src, 0, target, 0);
    fallbacks := 0;
    while i <= |src| - |target|
      invariant i <= if |src| >= |target| then |src| - |target| + 1 else 0
      invariant IsSearchState(src, i, target, nextIndex)
      invariant fallbacks + nextIndex <= i
    {
      while nextIndex != 0 && src[i] != target[nextIndex]
        invariant IsMatchCandidate(src, i, target, nextIndex)
        invariant fallbacks + nextIndex <= i
        decreases nextIndex
      {
        assert IsLongestBorder(target[..nextIndex], next[nextIndex - 1] as nat);
        MatchFallBack(src, i, target, nextIndex, next[nextIndex - 1] as nat);
        nextIndex := next[nextIndex - 1] as nat;
        fallbacks := fallbacks + 1;
      }
      Advance(src, i, target, nextIndex);
      if src[i] == target[nextIndex] {
        nextIndex := nextIndex + 1;
        if nextIndex == |target| {
          return true, fallbacks;
        }
      }
      i := i + 1;
    }
    if |target| <= |src| {
      NowhereInPrefix(src, target);
    }
    found := false;
  }

  /** The prefix search agrees with a search of all of src exactly when some occurrence, if there
      is one at all, starts at least |target| - 1 bytes before the last position it could. */
  lemma PrefixSearchExact(src: seq<Byte>, target: seq<Byte>)
    requires 1 <= |target| <= |src|
    ensures Occurs(src[..|src| - |target| + 1], target) <==>
            exists p :: OccursAt(src, target, p) && p + |target| <= |src| - |target| + 1
  {
    var pre := src[..|src| - |target| + 1];
    forall p | 0 <= p && p + |target| <= |pre| ensures OccursAt(pre, target, p) <==> OccursAt(src, target, p) {
      assert pre[p..p + |target|] == src[p..p + |target|];
    }
    if Occurs(pre, target) {
      var p :| OccursAt(pre, target, p);
      assert OccursAt(src, target, p);
    }
    if p :| OccursAt(src, target, p) && p + |target| <= |src| - |target| + 1 {
      assert OccursAt(pre, target, p);
    }
  }

  /** What kmp_find reports, by its contract. */
  ghost predicate Finds(src: seq<Byte>, target: seq<Byte>) {
    1 <= |target| <= |src| && Occurs(src[..|src| - |target| + 1], target)
  }

  /** The search agrees with a search of the whole source on every source exactly for targets of one byte. */
  lemma FullSearchIffOneByte(target: seq<Byte>)
    requires target != []
    ensures (forall src: seq<Byte> :: Finds(src, target) <==> Occurs(src, target)) <==> |target| == 1
  {
    if |target| == 1 {
      forall src: seq<Byte> ensures Finds(src, target) <==> Occurs(src, target) {
        assert src[..|src|] == src;
      }
    } else {
      FlagAtTheEndIsMissed(target);
      assert Occurs(target, target) && !Finds(target, target);
    }
  }

  /** And it agrees on a source whose byte just behind the searched prefix is not in the target, as when the
      partition ends in erased flash and the flag has no such byte. */
  lemma PaddedSearchIsFull(src: seq<Byte>, target: seq<Byte>)
    requires 2 <= |target| <= |src| && src[|src| - |target| + 1] !in target
    ensures Finds(src, target) <==> Occurs(src, target)
  {
    var q := |src| - |target| + 1;
    PrefixSearchExact(src, target);
    forall p | OccursAt(src, target, p) ensures p + |target| <= q {
      assert forall k :: 0 <= k < |target| ==> src[p + k] == target[k];
    }
    if Occurs(src, target) {
      var p :| OccursAt(src, target, p);
    }
  }

  /** So a flag of two or more bytes that sits at the very end of the firmware is never found
      unless it also occurs earlier: searching a flag in itself fails. */
  lemma {:induction false} FlagAtTheEndIsMissed(target: seq<Byte>)
    requires 2 <= |target|
    ensures Occurs(target, target) && !Occurs(target[..|target| - |target| + 1], target)
  {
    assert target[0..0 + |target|] == target;
    assert OccursAt(target, target, 0);
  }

  /** mupgrade_firmware_check on a mapped partition: the flag array holds 32 bytes. */
  method FirmwareCheck(partition: seq<Byte>, flag: seq<Byte>) returns (ok: bool)
    requires 1 <= |flag| <= 32
    ensures ok <==> |flag| <= |partition| && Occurs(partition[..|partition| - |flag| + 1], flag)
  {
    var next := new uint8[32](_ => 0);
    ghost var f1 := KmpNext(flag, next);
    ghost var f2: nat;
    ok, f2 := KmpFind(partition, flag, next[..|flag|]);
  }
}
