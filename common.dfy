/** Small building blocks shared by the whole model: optional values, results,
    flattening a list of lists, and Python's decimal `str(n)` for naturals. */
module Common {

  datatype Option<+T> = None | Some(value: T)

  datatype Result<+R, +E> = Success(value: R) | Failure(error: E)

  /** The first components of a list of pairs, in order: the keys of a
      Python dict kept as its items, or the archives of an extraction plan. */
  function Keys<K, V>(ps: seq<(K, V)>): (ks: seq<K>)
    ensures |ks| == |ps| && forall i :: 0 <= i < |ps| ==> ks[i] == ps[i].0
  {
    seq(|ps|, i requires 0 <= i < |ps| => ps[i].0)
  }

  lemma KeysAppend<K, V>(a: seq<(K, V)>, b: seq<(K, V)>)
    ensures Keys(a + b) == Keys(a) + Keys(b)
  {
  }

  /** Concatenation of a list of lists, left to right. */
  function Flatten<T>(ss: seq<seq<T>>): seq<T>
  {
    if ss == [] then [] else ss[0] + Flatten(ss[1..])
  }

  lemma {:induction false} FlattenAppend<T>(a: seq<seq<T>>, b: seq<seq<T>>)
    ensures Flatten(a + b) == Flatten(a) + Flatten(b)
  {
    if a == [] {
      assert a + b == b;
    } else {
      assert (a + b)[1..] == a[1..] + b;
      FlattenAppend(a[1..], b);
    }
  }

  lemma FlattenSnoc<T>(a: seq<seq<T>>, x: seq<T>)
    ensures Flatten(a + [x]) == Flatten(a) + x
  {
    FlattenAppend(a, [x]);
    assert Flatten([x]) == x + Flatten([x][1..]);
  }

  /** Sum of the lengths of `ss[..k]`: where list `k` starts in `Flatten(ss)`. */
  function Offset<T>(ss: seq<seq<T>>, k: nat): nat
    requires k <= |ss|
  {
    if k == 0 then 0 else Offset(ss, k - 1) + |ss[k - 1]|
  }

  /** Element `j` of list `i` sits at position `Offset(ss, i) + j` of the flattening. */
  lemma {:induction false} FlattenAt<T>(ss: seq<seq<T>>, i: nat, j: nat)
    requires i < |ss| && j < |ss[i]|
    ensures Offset(ss, i) + j < |Flatten(ss)|
    ensures Flatten(ss)[Offset(ss, i) + j] == ss[i][j]
  {
    FlattenLength(ss, |ss|);
    OffsetMonotone(ss, i + 1, |ss|);
    if i == 0 {
      assert Flatten(ss) == ss[0] + Flatten(ss[1..]);
    } else {
      assert Flatten(ss) == ss[0] + Flatten(ss[1..]);
      OffsetShift(ss, i);
      FlattenAt(ss[1..], i - 1, j);
    }
  }

  lemma {:induction false} FlattenLength<T>(ss: seq<seq<T>>, k: nat)
    requires k == |ss|
    ensures |Flatten(ss)| == Offset(ss, k)
    decreases k
  {
    if k > 0 {
      FlattenLength(ss[1..], k - 1);
      OffsetShift(ss, k);
    }
  }

  lemma {:induction false} OffsetShift<T>(ss: seq<seq<T>>, i: nat)
    requires 1 <= i <= |ss|
    ensures Offset(ss, i) == |ss[0]| + Offset(ss[1..], i - 1)
  {
    if i > 1 {
      OffsetShift(ss, i - 1);
    }
  }

  lemma {:induction false} OffsetMonotone<T>(ss: seq<seq<T>>, i: nat, k: nat)
    requires i <= k <= |ss|
    ensures Offset(ss, i) <= Offset(ss, k)
    decreases k - i
  {
    if i < k {
      OffsetMonotone(ss, i, k - 1);
    }
  }

  /** Every element of the flattening comes from some list, at some index. */
  lemma {:induction false} FlattenMember<T>(ss: seq<seq<T>>, x: T)
    ensures x in Flatten(ss) <==> exists i, j :: 0 <= i < |ss| && 0 <= j < |ss[i]| && ss[i][j] == x
  {
    if ss != [] {
      FlattenMember(ss[1..], x);
      if x in Flatten(ss[1..]) {
        var i, j :| 0 <= i < |ss[1..]| && 0 <= j < |ss[1..][i]| && ss[1..][i][j] == x;
        assert ss[i + 1][j] == x;
      }
      if exists i, j :: 0 <= i < |ss| && 0 <= j < |ss[i]| && ss[i][j] == x {
        var i, j :| 0 <= i < |ss| && 0 <= j < |ss[i]| && ss[i][j] == x;
        if i > 0 {
          assert ss[1..][i - 1][j] == x;
        }
      }
    }
  }

  // ---------------------------------------------------------------------
  // Python's str() on a non-negative int: decimal digits, no leading zero.

  predicate IsDigit(c: char)
  {
    '0' <= c <= '9'
  }

  predicate AllDigits(s: string)
  {
    forall i :: 0 <= i < |s| ==> IsDigit(s[i])
  }

  function DigitChar(d: nat): (c: char)
    requires d < 10
    ensures IsDigit(c) && c as int - '0' as int == d
  {
    (d + '0' as int) as char
  }

  /** `str(n)`: the shortest decimal spelling of `n`. */
  function NatToString(n: nat): (s: string)
    ensures |s| >= 1 && AllDigits(s)
    ensures s[0] == '0' ==> s == "0"
    decreases n
  {
    if n < 10 then [DigitChar(n)] else NatToString(n / 10) + [DigitChar(n % 10)]
  }

  /** The value of a string of decimal digits (Python's `int(s)` on such a string). */
  function DigitsValue(s: string): nat
    requires AllDigits(s)
  {
    if s == [] then 0
    else DigitsValue(s[..|s| - 1]) * 10 + (s[|s| - 1] as int - '0' as int)
  }

  /** Reading back what `str` wrote gives the number: `int(str(n)) == n`. */
  lemma {:induction false} NatToStringRoundTrip(n: nat)
    ensures DigitsValue(NatToString(n)) == n
    decreases n
  {
    var s := NatToString(n);
    if n >= 10 {
      NatToStringRoundTrip(n / 10);
      assert s[..|s| - 1] == NatToString(n / 10);
    }
  }

  /** Different numbers get different names: `str` is injective. */
  lemma NatToStringInjective(m: nat, n: nat)
    requires NatToString(m) == NatToString(n)
    ensures m == n
  {
    NatToStringRoundTrip(m);
    NatToStringRoundTrip(n);
  }

  /** A decimal number followed by a suffix that does not start with a digit can be
      split back: equal concatenations have equal number parts. */
  lemma DigitsPrefixUnique(n1: string, e1: string, n2: string, e2: string)
    requires AllDigits(n1) && AllDigits(n2)
    requires e1 == [] || !IsDigit(e1[0])
    requires e2 == [] || !IsDigit(e2[0])
    requires n1 + e1 == n2 + e2
    ensures n1 == n2 && e1 == e2
  {
    assert n1 == (n1 + e1)[..|n1|];
    assert n2 == (n2 + e2)[..|n2|];
  }

  /** A number followed by an extension can be read back: equal names mean
      equal numbers and equal extensions. */
  lemma NumberedNameUnique(prefix: string, j1: nat, e1: string, j2: nat, e2: string)
    requires e1 == [] || e1[0] == '.'
    requires e2 == [] || e2[0] == '.'
    requires prefix + NatToString(j1) + e1 == prefix + NatToString(j2) + e2
    ensures j1 == j2 && e1 == e2
  {
    var n1, n2 := NatToString(j1), NatToString(j2);
    assert n1 + e1 == (prefix + n1 + e1)[|prefix|..];
    assert n2 + e2 == (prefix + n2 + e2)[|prefix|..];
    DigitsPrefixUnique(n1, e1, n2, e2);
    NatToStringInjective(j1, j2);
  }
}
