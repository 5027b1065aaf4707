/** `segmentImgs`, merge.py:231-242: cuts the page list into chunks of at most
    `cap` pages, so that no more than `cap` one-page documents are open at once
    when they are merged (merge.py:191-192 uses a cap of 250). */
module Segment {
  import opened Common

  /** A cut of `imgs` into chunks: all chunks but the last hold exactly `cap`
      items, the last holds at most `cap`, and it is empty only when it is the
      one chunk of an empty list. */
  ghost predicate IsChunking<T>(c: seq<seq<T>>, imgs: seq<T>, cap: int)
  {
    && |c| >= 1
    && Flatten(c) == imgs
    && (forall k :: 0 <= k < |c| - 1 ==> |c[k]| == cap)
    && |c[|c| - 1]| <= cap
    && (|c| > 1 ==> c[|c| - 1] != [])
  }

  /** `segmentImgs(imgs, cap)`. A cap below one would recurse forever on a
      non-empty list, so a positive cap is required. */
  function SegmentImgs<T>(imgs: seq<T>, cap: int): (r: seq<seq<T>>)
    requires cap >= 1
    ensures |r| >= 1 && Flatten(r) == imgs
    ensures forall k :: 0 <= k < |r| ==> |r[k]| <= cap
    ensures forall k :: 0 <= k < |r| - 1 ==> |r[k]| == cap
    ensures imgs != [] ==> r[|r| - 1] != []
    ensures |imgs| <= cap ==> r == [imgs]
    decreases |imgs|
  {
    if |imgs| <= cap then [imgs]
    else
      var rest := SegmentImgs(imgs[cap..], cap);
      assert imgs == imgs[0..cap] + imgs[cap..];
      [imgs[0..cap]] + rest
  }

  lemma SegmentImgsIsChunking<T>(imgs: seq<T>, cap: int)
    requires cap >= 1
    ensures IsChunking(SegmentImgs(imgs, cap), imgs, cap)
  {
  }

  /** The chunking is the only one: any cut with the shape of IsChunking is the
      one `segmentImgs` returns. */
  lemma {:induction false} SegmentImgsUnique<T>(c: seq<seq<T>>, imgs: seq<T>, cap: int)
    requires cap >= 1 && IsChunking(c, imgs, cap)
    ensures c == SegmentImgs(imgs, cap)
    decreases |c|
  {
    if |c| == 1 {
      assert c[1..] == [];
      assert Flatten(c) == c[0] + Flatten(c[1..]);
      assert imgs == c[0] && |c[0]| <= cap;
      assert c == [c[0]];
    } else {
      var tail := c[1..];
      assert Flatten(c) == c[0] + Flatten(tail);
      FlattenLastNonEmpty(tail);
      assert |imgs| > cap;
      assert c[0] == imgs[..cap];
      assert Flatten(tail) == imgs[cap..];
      assert IsChunking(tail, imgs[cap..], cap);
      SegmentImgsUnique(tail, imgs[cap..], cap);
    }
  }

  lemma {:induction false} FlattenLastNonEmpty<T>(c: seq<seq<T>>)
    requires |c| >= 1 && c[|c| - 1] != []
    ensures Flatten(c) != []
  {
    if |c| > 1 {
      assert c[1..][|c[1..]| - 1] == c[|c| - 1];
      FlattenLastNonEmpty(c[1..]);
    }
    assert Flatten(c) == c[0] + Flatten(c[1..]);
  }

  /** 600 pages with the cap of 250 give chunks of 250, 250 and 100 pages. */
  lemma SegmentSixHundred<T>(imgs: seq<T>)
    requires |imgs| == 600
    ensures |SegmentImgs(imgs, 250)| == 3
    ensures |SegmentImgs(imgs, 250)[0]| == 250
    ensures |SegmentImgs(imgs, 250)[1]| == 250
    ensures |SegmentImgs(imgs, 250)[2]| == 100
  {
    var r := SegmentImgs(imgs, 250);
    var r1 := SegmentImgs(imgs[250..], 250);
    var r2 := SegmentImgs(imgs[250..][250..], 250);
    assert r2 == [imgs[250..][250..]];
    assert r1 == [imgs[250..][0..250]] + r2;
    assert r == [imgs[0..250]] + r1;
  }
}
