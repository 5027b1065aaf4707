/** `groupZips` (alias `groupDirs`), merge.py:363-373 and 421: the round-robin
    partition `[zips[i::n] for i in range(n)]` that spreads archives, and later
    chapter directories, over `n` workers. */
module Partition {
  import opened Common

  /** Python's extended slice `s[i::n]` for `i >= 0` and a positive step `n`:
      `s[i], s[i + n], s[i + 2n], ...` while the index is in range. */
  function Stride<T>(s: seq<T>, i: nat, n: nat): seq<T>
    requires n >= 1
    decreases |s| - i
  {
    if i >= |s| then [] else [s[i]] + Stride(s, i + n, n)
  }

  /** Item `j` of `s[i::n]` is `s[i + j * n]`. */
  lemma {:induction false} StrideAt<T>(s: seq<T>, i: nat, n: nat, j: nat)
    requires n >= 1 && j < |Stride(s, i, n)|
    ensures i + j * n < |s| && Stride(s, i, n)[j] == s[i + j * n]
    decreases |s| - i
  {
    if j > 0 {
      StrideAt(s, i + n, n, j - 1);
      assert i + n + (j - 1) * n == i + j * n;
    }
  }

  /** `s[i::n]` stops only when the next index would be out of range. */
  lemma {:induction false} StrideEnd<T>(s: seq<T>, i: nat, n: nat)
    requires n >= 1
    ensures i + |Stride(s, i, n)| * n >= |s|
    decreases |s| - i
  {
    if i < |s| {
      StrideEnd(s, i + n, n);
      var c := |Stride(s, i + n, n)|;
      assert i + (1 + c) * n == i + n + c * n;
    }
  }

  /** `groupZips(zips, n)`: `n` interleaved groups; for `n <= 0`, `range(n)` is
      empty and so is the result (no error is raised). */
  function GroupZips<T>(zips: seq<T>, n: int): (r: seq<seq<T>>)
    ensures n <= 0 ==> r == []
    ensures n >= 1 ==> |r| == n
  {
    if n <= 0 then [] else Columns(zips, n, n)
  }

  /** The first `k` of the `n` strided columns of `s`. */
  function Columns<T>(s: seq<T>, n: nat, k: nat): (r: seq<seq<T>>)
    requires 1 <= n
    ensures |r| == k && forall i :: 0 <= i < k ==> r[i] == Stride(s, i, n)
  {
    seq(k, i requires 0 <= i < k => Stride(s, i, n))
  }

  /** List `i` of `groupZips(zips, n)` is `zips[i], zips[i + n], zips[i + 2n], ...`:
      every item it holds sits at that index, and it stops at the end of `zips`. */
  lemma GroupZipsAt<T>(zips: seq<T>, n: int, i: int, j: int)
    requires n >= 1 && 0 <= i < n && 0 <= j
    ensures j < |GroupZips(zips, n)[i]| <==> i + j * n < |zips|
    ensures j < |GroupZips(zips, n)[i]| ==> GroupZips(zips, n)[i][j] == zips[i + j * n]
  {
    var c := |Stride(zips, i, n)|;
    if j < c {
      StrideAt(zips, i, n, j);
    } else {
      StrideEnd(zips, i, n);
      MulMonotone(c, j, n);
    }
  }

  /** Group sizes never increase from one group to the next and differ by at
      most one. */
  lemma GroupZipsSizes<T>(zips: seq<T>, n: int)
    requires n >= 1
    ensures forall i, j :: 0 <= i <= j < n ==>
              |GroupZips(zips, n)[j]| <= |GroupZips(zips, n)[i]| <= |GroupZips(zips, n)[j]| + 1
  {
    forall i, j | 0 <= i <= j < n
      ensures |Stride(zips, j, n)| <= |Stride(zips, i, n)| <= |Stride(zips, j, n)| + 1
    {
      StrideSizes(zips, i, j, n);
    }
  }

  /** Two strides starting less than one step apart have lengths that differ by
      at most one, the earlier one being the longer. */
  lemma {:induction false} StrideSizes<T>(s: seq<T>, i: nat, j: nat, n: nat)
    requires n >= 1 && i <= j < i + n
    ensures |Stride(s, j, n)| <= |Stride(s, i, n)| <= |Stride(s, j, n)| + 1
    decreases |s| - i
  {
    if j < |s| {
      StrideSizes(s, i + n, j + n, n);
    } else if i < |s| {
      assert Stride(s, i + n, n) == [];
    }
  }

  /** Every position `p` of the input has exactly one slot: group `p % n`, index
      `p / n`; together with the element formula of GroupZips this makes the
      groups a partition of the input. */
  lemma GroupZipsSlot<T>(zips: seq<T>, n: int, p: int)
    requires n >= 1 && 0 <= p < |zips|
    ensures p / n < |GroupZips(zips, n)[p % n]|
    ensures GroupZips(zips, n)[p % n][p / n] == zips[p]
  {
    var i, j := p % n, p / n;
    assert p == i + j * n;
    GroupZipsAt(zips, n, i, j);
  }

  lemma SlotOf<T>(zips: seq<T>, n: int, p: int) returns (i: nat, j: nat)
    requires n >= 1 && 0 <= p < |zips|
    ensures i < n && j < |GroupZips(zips, n)[i]| && GroupZips(zips, n)[i][j] == zips[p]
  {
    GroupZipsSlot(zips, n, p);
    i, j := p % n, p / n;
  }

  lemma MulMonotone(a: nat, b: nat, n: nat)
    requires a <= b
    ensures a * n <= b * n
  {
    assert b * n == a * n + (b - a) * n;
  }

  /** Something is in one of the groups exactly when it is in the input. */
  lemma {:induction false} GroupZipsMembers<T>(zips: seq<T>, n: int, x: T)
    requires n >= 1
    ensures x in Flatten(GroupZips(zips, n)) <==> x in zips
  {
    var r := GroupZips(zips, n);
    FlattenMember(r, x);
    if x in zips {
      var p :| 0 <= p < |zips| && zips[p] == x;
      var i, j := SlotOf(zips, n, p);
      assert r[i][j] == x;
    }
    if x in Flatten(r) {
      var i, j :| 0 <= i < |r| && 0 <= j < |r[i]| && r[i][j] == x;
      GroupZipsAt(zips, n, i, j);
    }
  }

  // ---------------------------------------------------------------------
  // Round-robin reading: one item from each group in turn.

  /** The first item of every non-empty group, group order kept. */
  function Heads<T>(gs: seq<seq<T>>): seq<T>
  {
    if gs == [] then [] else (if gs[0] == [] then [] else [gs[0][0]]) + Heads(gs[1..])
  }

  /** Every group without its first item. */
  function Tails<T>(gs: seq<seq<T>>): (r: seq<seq<T>>)
    ensures |r| == |gs|
  {
    seq(|gs|, i requires 0 <= i < |gs| => if gs[i] == [] then [] else gs[i][1..])
  }

  function TotalSize<T>(gs: seq<seq<T>>): nat
  {
    if gs == [] then 0 else |gs[0]| + TotalSize(gs[1..])
  }

  lemma {:induction false} HeadsTailsSize<T>(gs: seq<seq<T>>)
    ensures TotalSize(Tails(gs)) + |Heads(gs)| == TotalSize(gs)
  {
    if gs != [] {
      assert Tails(gs)[1..] == Tails(gs[1..]);
      HeadsTailsSize(gs[1..]);
    }
  }

  /** Round-robin merge of the groups: the heads of all groups, then the
      round-robin merge of what is left. */
  function RoundRobin<T>(gs: seq<seq<T>>): seq<T>
    decreases TotalSize(gs)
  {
    if Heads(gs) == [] then []
    else
      HeadsTailsSize(gs);
      Heads(gs) + RoundRobin(Tails(gs))
  }

  /** Taking items from the groups in turn rebuilds the input exactly. */
  lemma GroupZipsRoundRobin<T>(zips: seq<T>, n: int)
    requires n >= 1
    ensures RoundRobin(GroupZips(zips, n)) == zips
  {
    ColumnsRoundRobin(zips, n);
  }

  lemma {:induction false} ColumnsRoundRobin<T>(s: seq<T>, n: nat)
    requires n >= 1
    ensures RoundRobin(Columns(s, n, n)) == s
    decreases |s|
  {
    var m := if |s| < n then |s| else n;
    ColumnsHeads(s, n, n);
    if s != [] {
      ColumnsTails(s, n, n);
      ColumnsRoundRobin(s[m..], n);
      assert s[..m] + s[m..] == s;
    }
  }

  /** The heads of the first `k` columns are the first `k` items. */
  lemma {:induction false} ColumnsHeads<T>(s: seq<T>, n: nat, k: nat)
    requires 1 <= n && k <= n
    ensures Heads(Columns(s, n, k)) == s[..if |s| < k then |s| else k]
    decreases k
  {
    var cs := Columns(s, n, k);
    if k > 0 {
      if s == [] {
        assert cs[0] == [];
        assert cs[1..] == Columns(s, n, k - 1);
        ColumnsHeads(s, n, k - 1);
      } else {
        assert cs[0][0] == s[0];
        assert cs[1..] == Columns(s[1..], n, k - 1) by {
          forall i | 0 <= i < k - 1 ensures cs[1..][i] == Stride(s[1..], i, n) {
            StrideShift(s, 1, i, n);
          }
        }
        ColumnsHeads(s[1..], n, k - 1);
      }
    }
  }

  /** Dropping the first `m` items shifts every stride accordingly. */
  lemma {:induction false} StrideShift<T>(s: seq<T>, d: nat, i: nat, n: nat)
    requires n >= 1 && d <= |s|
    ensures Stride(s, i + d, n) == Stride(s[d..], i, n)
    decreases |s| - i
  {
    var t := s[d..];
    if i + d < |s| {
      var j := i + n;
      StrideShift(s, d, j, n);
      assert Stride(s, i + d, n) == [s[i + d]] + Stride(s, j + d, n);
      assert Stride(t, i, n) == [t[i]] + Stride(t, j, n);
      assert t[i] == s[i + d];
    } else {
      assert Stride(t, i, n) == [];
    }
  }

  /** After the heads are taken, the columns are those of the remaining items. */
  lemma ColumnsTails<T>(s: seq<T>, n: nat, k: nat)
    requires 1 <= n && k <= n
    ensures Tails(Columns(s, n, k)) == Columns(s[if |s| < n then |s| else n..], n, k)
  {
    var m := if |s| < n then |s| else n;
    var cs := Columns(s, n, k);
    forall i | 0 <= i < k ensures Tails(cs)[i] == Stride(s[m..], i, n) {
      if i < |s| {
        assert cs[i] == [s[i]] + Stride(s, i + n, n);
        StrideShift(s, m, i + n - m, n);
        if m < n {
          assert Stride(s, i + n, n) == [];
          assert Stride(s[m..], i, n) == [];
        }
      }
    }
  }

  // ---------------------------------------------------------------------
  // The groups together hold the input, each item as often as it is listed.

  /** Splitting off the heads of the groups keeps their items. */
  lemma {:induction false} FlattenHeadsTails<T>(gs: seq<seq<T>>)
    ensures multiset(Flatten(gs)) == multiset(Heads(gs)) + multiset(Flatten(Tails(gs)))
    decreases |gs|
  {
    if gs != [] {
      var h, t := HeadsTailsCons(gs);
      FlattenHeadsTails(gs[1..]);
    }
  }

  /** The first group splits into its head `h` and its tail `t`. */
  lemma HeadsTailsCons<T>(gs: seq<seq<T>>) returns (h: seq<T>, t: seq<T>)
    requires gs != []
    ensures gs[0] == h + t
    ensures Heads(gs) == h + Heads(gs[1..])
    ensures Flatten(Tails(gs)) == t + Flatten(Tails(gs[1..]))
  {
    var ts := Tails(gs);
    assert ts[1..] == Tails(gs[1..]);
    h, t := if gs[0] == [] then [] else [gs[0][0]], ts[0];
    assert Flatten(ts) == ts[0] + Flatten(ts[1..]);
  }

  /** Groups without heads are all empty. */
  lemma {:induction false} NoHeadsEmpty<T>(gs: seq<seq<T>>)
    requires Heads(gs) == []
    ensures Flatten(gs) == []
    decreases |gs|
  {
    if gs != [] {
      NoHeadsEmpty(gs[1..]);
    }
  }

  /** The round-robin reading is a permutation of the concatenated groups. */
  lemma {:induction false} RoundRobinPermutation<T>(gs: seq<seq<T>>)
    ensures multiset(RoundRobin(gs)) == multiset(Flatten(gs))
    decreases TotalSize(gs)
  {
    if Heads(gs) == [] {
      NoHeadsEmpty(gs);
    } else {
      HeadsTailsSize(gs);
      RoundRobinPermutation(Tails(gs));
      FlattenHeadsTails(gs);
    }
  }

  /** `groupZips` neither loses nor duplicates a file: the groups together hold
      every item of `zips` exactly as often as `zips` does. */
  lemma GroupZipsPermutation<T>(zips: seq<T>, n: int)
    requires n >= 1
    ensures multiset(Flatten(GroupZips(zips, n))) == multiset(zips)
  {
    GroupZipsRoundRobin(zips, n);
    RoundRobinPermutation(GroupZips(zips, n));
  }
}
