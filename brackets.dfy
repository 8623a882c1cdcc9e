/**
 * Loop matching. The interpreter finds the partner of a bracket by a linear
 * scan with a nesting counter; here that scan is a recursive function, and
 * what it finds is characterised by the net bracket depth of a segment.
 */
module Brackets {
  import opened Wrappers
  import opened Cells
  import opened Commands

  /** Net bracket depth of a segment: its number of `[` minus its number of `]`. */
  function Net(s: seq<Byte>): int
    decreases |s|
  {
    if s == [] then 0 else Net(s[..|s| - 1]) + Delta(s[|s| - 1])
  }

  /** Depth is additive over concatenation. */
  lemma {:induction false} NetAppend(a: seq<Byte>, b: seq<Byte>)
    ensures Net(a + b) == Net(a) + Net(b)
    decreases |b|
  {
    if b != [] {
      var b' := b[..|b| - 1];
      assert (a + b)[..|a + b| - 1] == a + b';
      assert (a + b)[|a + b| - 1] == b[|b| - 1];
      NetAppend(a, b');
      assert Net(a + b) == Net(a + b') + Delta(b[|b| - 1]);
      assert Net(b) == Net(b') + Delta(b[|b| - 1]);
    } else {
      assert a + b == a;
    }
  }

  /** Depth of `s[i..k]` split at any `j` between them. */
  lemma NetSplit(s: seq<Byte>, i: nat, j: nat, k: nat)
    requires i <= j <= k <= |s|
    ensures Net(s[i..k]) == Net(s[i..j]) + Net(s[j..k])
  {
    assert s[i..k] == s[i..j] + s[j..k];
    NetAppend(s[i..j], s[j..k]);
  }

  /** Depth of a one-byte segment. */
  lemma NetSingle(s: seq<Byte>, k: nat)
    requires k < |s|
    ensures Net(s[k..k + 1]) == Delta(s[k])
  {
    assert s[k..k + 1][..0] == [];
  }

  /**
   * `j` holds the `]` that closes the `[` at `i`: the first position after
   * `i` at which the depth counted from `i` drops to 0, so nested pairs in
   * between are skipped.
   */
  ghost predicate IsMatchingClose(src: seq<Byte>, i: nat, j: nat)
  {
    i < j < |src| && Net(src[i..j + 1]) == 0 &&
    forall k :: i < k <= j ==> Net(src[i..k]) > 0
  }

  /**
   * `j` holds the `[` that opens the `]` at `i`: the first position before
   * `i` at which the depth counted back to `i` rises to 0.
   */
  ghost predicate IsMatchingOpen(src: seq<Byte>, j: nat, i: nat)
  {
    j < i < |src| && Net(src[j..i + 1]) == 0 && ClosedBackTo(src, j + 1, i)
  }

  /** Every segment that starts at or after `k` and ends with position `i` has negative depth. */
  ghost predicate ClosedBackTo(src: seq<Byte>, k: nat, i: nat)
    requires i < |src|
  {
    var upTo := src[..i + 1];
    forall m :: k <= m <= i ==> Net(upTo[m..]) < 0
  }

  /** A `[` has at most one matching `]`. */
  lemma MatchingCloseUnique(src: seq<Byte>, i: nat, j: nat, j': nat)
    requires IsMatchingClose(src, i, j) && IsMatchingClose(src, i, j')
    ensures j == j'
  {
  }

  /** A `]` has at most one matching `[`. */
  lemma MatchingOpenUnique(src: seq<Byte>, j: nat, j': nat, i: nat)
    requires IsMatchingOpen(src, j, i) && IsMatchingOpen(src, j', i)
    ensures j == j'
  {
  }

  /**
   * The forward scan from a `[` and the backward scan from a `]` agree:
   * they pair exactly the same positions.
   */
  lemma MatchingSymmetric(src: seq<Byte>, j: nat, i: nat)
    ensures IsMatchingClose(src, j, i) <==> IsMatchingOpen(src, j, i)
  {
    if j < i < |src| && Net(src[j..i + 1]) == 0 {
      var upTo := src[..i + 1];
      forall k | j < k <= i
        ensures Net(src[j..k]) == -Net(upTo[k..])
      {
        assert upTo[k..] == src[k..i + 1];
        NetSplit(src, j, k, i + 1);
      }
      if IsMatchingClose(src, j, i) {
        forall m | j + 1 <= m <= i ensures Net(upTo[m..]) < 0 {
          assert Net(src[j..m]) > 0;
        }
        assert ClosedBackTo(src, j + 1, i);
      }
      if IsMatchingOpen(src, j, i) {
        forall k | j < k <= i ensures Net(src[j..k]) > 0 {
          assert Net(upTo[k..]) < 0;
        }
      }
    }
  }

  /**
   * The forward scan of a `[` handler: at position `k`, with nesting counter
   * `depth`, step forward; stop where the counter reaches 0, or give up at
   * the end of the source.
   */
  function CloseFrom(src: seq<Byte>, k: nat, depth: nat): (r: Option<nat>)
    requires k < |src| && depth > 0
    ensures r.Some? ==> k < r.value < |src| && src[r.value] == CloseByte
    decreases |src| - k
  {
    if k + 1 == |src| then None
    else
      var d := depth + Delta(src[k + 1]);
      if d == 0 then Some(k + 1) else CloseFrom(src, k + 1, d)
  }

  /**
   * The backward scan of a `]` handler: at position `k`, with nesting
   * counter `depth`, step back; stop where the counter reaches 0, or give up
   * before the start of the source.
   */
  function OpenFrom(src: seq<Byte>, k: nat, depth: nat): (r: Option<nat>)
    requires k < |src| && depth > 0
    ensures r.Some? ==> r.value < k && src[r.value] == OpenByte
    decreases k
  {
    if k == 0 then None
    else
      var d := depth - Delta(src[k - 1]);
      if d == 0 then Some(k - 1) else OpenFrom(src, k - 1, d)
  }

  /** The forward scan started anywhere inside the loop finds the match, if any. */
  lemma {:induction false} CloseFromFindsMatch(src: seq<Byte>, i: nat, k: nat, depth: nat)
    requires i <= k < |src| && depth > 0
    requires depth == Net(src[i..k + 1])
    requires forall m :: i < m <= k ==> Net(src[i..m]) > 0
    ensures forall j: nat :: CloseFrom(src, k, depth) == Some(j) <==> IsMatchingClose(src, i, j)
    decreases |src| - k
  {
    if k + 1 < |src| {
      var d := depth + Delta(src[k + 1]);
      NetSplit(src, i, k + 1, k + 2);
      NetSingle(src, k + 1);
      if d == 0 {
        assert IsMatchingClose(src, i, k + 1);
        OnlyMatchingClose(src, i, k + 1);
      } else {
        CloseFromFindsMatch(src, i, k + 1, d);
      }
    } else {
      NoMatchingCloseInside(src, i, k);
    }
  }

  /** A `[` has at most one matching `]`, so one found is the only one. */
  lemma OnlyMatchingClose(src: seq<Byte>, i: nat, j: nat)
    requires IsMatchingClose(src, i, j)
    ensures forall j': nat :: IsMatchingClose(src, i, j') <==> j' == j
  {
    forall j': nat | IsMatchingClose(src, i, j') ensures j' == j {
      MatchingCloseUnique(src, i, j', j);
    }
  }

  /** A loop whose depth stays positive up to the end of the source has no matching `]`. */
  lemma NoMatchingCloseInside(src: seq<Byte>, i: nat, k: nat)
    requires i <= k && k + 1 == |src|
    requires Net(src[i..k + 1]) > 0
    requires forall m :: i < m <= k ==> Net(src[i..m]) > 0
    ensures forall j: nat :: !IsMatchingClose(src, i, j)
  {
    forall j: nat | IsMatchingClose(src, i, j) ensures false {
    }
  }

  /** A segment ending at `i` with negative depth extends the negative region by one. */
  lemma ClosedBackExtend(src: seq<Byte>, k: nat, i: nat)
    requires 0 < k <= i < |src| && ClosedBackTo(src, k, i)
    requires Net(src[k - 1..i + 1]) < 0
    ensures ClosedBackTo(src, k - 1, i)
  {
    assert src[..i + 1][k - 1..] == src[k - 1..i + 1];
  }

  /** No position in a negative region can hold the matching `[`. */
  lemma ClosedBackExcludes(src: seq<Byte>, k: nat, i: nat, j: nat)
    requires i < |src| && ClosedBackTo(src, k, i) && k <= j
    ensures !IsMatchingOpen(src, j, i)
  {
    if j < i {
      assert src[..i + 1][j..] == src[j..i + 1];
    }
  }

  /** A `]` has at most one matching `[`, so one found is the only one. */
  lemma OnlyMatchingOpen(src: seq<Byte>, j: nat, i: nat)
    requires IsMatchingOpen(src, j, i)
    ensures forall j': nat :: IsMatchingOpen(src, j', i) <==> j' == j
  {
    forall j': nat | IsMatchingOpen(src, j', i) ensures j' == j {
      MatchingOpenUnique(src, j', j, i);
    }
  }

  /** A `]` whose depth stays negative back to the start of the source has no matching `[`. */
  lemma NoMatchingOpenBefore(src: seq<Byte>, i: nat)
    requires i < |src| && ClosedBackTo(src, 0, i)
    ensures forall j: nat :: !IsMatchingOpen(src, j, i)
  {
    forall j: nat ensures !IsMatchingOpen(src, j, i) {
      ClosedBackExcludes(src, 0, i, j);
    }
  }

  /** The backward scan started anywhere inside the loop finds the match, if any. */
  lemma {:induction false} OpenFromFindsMatch(src: seq<Byte>, i: nat, k: nat, depth: nat)
    requires k <= i < |src| && depth > 0
    requires depth == -Net(src[k..i + 1])
    requires ClosedBackTo(src, k, i)
    ensures forall j: nat :: OpenFrom(src, k, depth) == Some(j) <==> IsMatchingOpen(src, j, i)
    decreases k
  {
    if k > 0 {
      var d := depth - Delta(src[k - 1]);
      NetSplit(src, k - 1, k, i + 1);
      NetSingle(src, k - 1);
      if d == 0 {
        assert IsMatchingOpen(src, k - 1, i);
        OnlyMatchingOpen(src, k - 1, i);
      } else {
        ClosedBackExtend(src, k, i);
        OpenFromFindsMatch(src, i, k - 1, d);
      }
    } else {
      NoMatchingOpenBefore(src, i);
    }
  }

  /** The `]` matching the `[` at `i`, or None when the source ends first. */
  function MatchClose(src: seq<Byte>, i: nat): (r: Option<nat>)
    requires i < |src| && src[i] == OpenByte
    ensures forall j: nat :: r == Some(j) <==> IsMatchingClose(src, i, j)
    ensures r.Some? ==> i < r.value < |src| && src[r.value] == CloseByte
  {
    NetSingle(src, i);
    CloseFromFindsMatch(src, i, i, 1);
    var r := CloseFrom(src, i, 1);
    if r.Some? then
      assert IsMatchingClose(src, i, r.value);
      NetSplit(src, i, r.value, r.value + 1);
      NetSingle(src, r.value);
      r
    else r
  }

  /** The `[` matching the `]` at `i`, or None when the source starts first. */
  function MatchOpen(src: seq<Byte>, i: nat): (r: Option<nat>)
    requires i < |src| && src[i] == CloseByte
    ensures forall j: nat :: r == Some(j) <==> IsMatchingOpen(src, j, i)
    ensures r.Some? ==> r.value < i && src[r.value] == OpenByte
  {
    NetSingle(src, i);
    OpenFromFindsMatch(src, i, i, 1);
    var r := OpenFrom(src, i, 1);
    if r.Some? then
      assert IsMatchingOpen(src, r.value, i);
      NetSplit(src, r.value, r.value + 1, i + 1);
      NetSingle(src, r.value);
      r
    else r
  }

  /** The two scans are inverse on every pair they find. */
  lemma MatchRoundTrip(src: seq<Byte>, i: nat)
    requires i < |src| && src[i] == OpenByte
    ensures MatchClose(src, i).Some? ==> MatchOpen(src, MatchClose(src, i).value) == Some(i)
  {
    var r := MatchClose(src, i);
    if r.Some? {
      MatchingSymmetric(src, i, r.value);
      assert IsMatchingOpen(src, i, r.value);
    }
  }
}
