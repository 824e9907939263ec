/**
  Greedy non-maximum suppression over [x, y, w, h] boxes: visit the boxes from
  the highest score down, keep the current one, and drop every remaining box
  whose intersection-over-union with it exceeds the threshold.
*/
module Nms {
  import opened Wrappers

  /** A bounding box in image coordinates: corner (x, y), width w, height h. */
  datatype Box = Box(x: int, y: int, w: int, h: int)

  /** Area under the inclusive-pixel convention: (x2 - x1 + 1) * (y2 - y1 + 1) with x2 = x + w, y2 = y + h. */
  function Area(b: Box): int {
    (b.w + 1) * (b.h + 1)
  }

  /** Length of the overlap of [lo1, hi1] and [lo2, hi2] counted in whole pixels, never negative. */
  function Overlap(lo1: int, hi1: int, lo2: int, hi2: int): (n: nat)
    ensures n == 0 <==> IMin(hi1, hi2) < IMax(lo1, lo2)
  {
    IMax(0, IMin(hi1, hi2) - IMax(lo1, lo2) + 1)
  }

  /** Intersection area of two boxes. */
  function Inter(a: Box, b: Box): nat {
    Overlap(a.x, a.x + a.w, b.x, b.x + b.w) * Overlap(a.y, a.y + a.h, b.y, b.y + b.h)
  }

  /** The denominator of the IoU: area of a plus area of b minus their intersection. */
  function Union(a: Box, b: Box): int {
    Area(a) + Area(b) - Inter(a, b)
  }

  /**
    Whether keeping `a` removes `b`: the box survives only when `iou <= t`. A zero
    denominator gives NaN or +infinity in floating point, and neither is `<= t`,
    so such a box is removed as well.
  */
  predicate Suppresses(a: Box, b: Box, t: real) {
    Union(a, b) == 0 || (Inter(a, b) as real) / (Union(a, b) as real) > t
  }

  /** The overlap test does not depend on which box is kept. */
  lemma SuppressesSymmetric(a: Box, b: Box, t: real)
    ensures Suppresses(a, b, t) <==> Suppresses(b, a, t)
  {
    assert Overlap(a.x, a.x + a.w, b.x, b.x + b.w) == Overlap(b.x, b.x + b.w, a.x, a.x + a.w);
    assert Overlap(a.y, a.y + a.h, b.y, b.y + b.h) == Overlap(b.y, b.y + b.h, a.y, a.y + a.h);
  }

  /** Boxes that do not touch never suppress each other, whatever the threshold (t >= 0). */
  lemma DisjointNotSuppressed(a: Box, b: Box, t: real)
    requires a.w >= 0 && a.h >= 0 && b.w >= 0 && b.h >= 0 && t >= 0.0
    requires a.x + a.w < b.x
    ensures !Suppresses(a, b, t)
  {
    assert Inter(a, b) == 0;
    assert Area(a) > 0 && Area(b) > 0;
  }

  /** A box of non-negative size suppresses itself under any threshold below 1. */
  lemma SelfSuppressed(b: Box, t: real)
    requires b.w >= 0 && b.h >= 0 && t < 1.0
    ensures Suppresses(b, b, t)
  {
    var ox, oy := Overlap(b.x, b.x + b.w, b.x, b.x + b.w), Overlap(b.y, b.y + b.h, b.y, b.y + b.h);
    assert ox == b.w + 1 && oy == b.h + 1;
    assert Inter(b, b) == ox * oy == Area(b);
    assert ox * oy >= 1;
    assert Union(b, b) == Area(b);
    var a := Area(b) as real;
    assert a > 0.0 && a / a == 1.0;
  }

  predicate InRange(xs: seq<nat>, n: nat) {
    forall k :: 0 <= k < |xs| ==> xs[k] < n
  }

  predicate Distinct(xs: seq<nat>) {
    forall j, k :: 0 <= j < k < |xs| ==> xs[j] != xs[k]
  }

  /** Indices listed from the highest score to the lowest. */
  predicate Descending(scores: seq<real>, xs: seq<nat>)
    requires InRange(xs, |scores|)
  {
    forall j, k :: 0 <= j < k < |xs| ==> scores[xs[j]] >= scores[xs[k]]
  }

  /** A head scoring at least as high as every element of a descending list keeps it descending. */
  lemma ConsDescending(scores: seq<real>, h: nat, tail: seq<nat>)
    requires h < |scores| && InRange(tail, |scores|) && Descending(scores, tail)
    requires forall x :: x in tail ==> scores[h] >= scores[x]
    ensures Descending(scores, [h] + tail)
  {
    var r := [h] + tail;
    forall j, k | 0 <= j < k < |r|
      ensures scores[r[j]] >= scores[r[k]]
    {
      assert r[k] == tail[k - 1];
      if j > 0 {
        assert r[j] == tail[j - 1];
      }
    }
  }

  /** A head not in a list of distinct indices keeps them distinct. */
  lemma ConsDistinct(h: nat, tail: seq<nat>)
    requires Distinct(tail) && h !in tail
    ensures Distinct([h] + tail)
  {
    var r := [h] + tail;
    forall j, k | 0 <= j < k < |r|
      ensures r[j] != r[k]
    {
      assert r[k] == tail[k - 1];
      if j > 0 {
        assert r[j] == tail[j - 1];
      }
    }
  }

  /** Inserts index `i` into a descending list, after every strictly higher score. */
  function InsertDesc(scores: seq<real>, i: nat, xs: seq<nat>): (r: seq<nat>)
    requires i < |scores| && InRange(xs, |scores|)
    ensures |r| == |xs| + 1
    ensures forall x :: x in r <==> x == i || x in xs
    ensures InRange(r, |scores|)
  {
    if xs == [] || scores[xs[0]] <= scores[i] then [i] + xs
    else [xs[0]] + InsertDesc(scores, i, xs[1..])
  }

  /** Dropping the head keeps a list descending and distinct. */
  lemma TailSorted(scores: seq<real>, xs: seq<nat>)
    requires xs != [] && InRange(xs, |scores|) && Descending(scores, xs) && Distinct(xs)
    ensures Descending(scores, xs[1..]) && Distinct(xs[1..])
    ensures forall x :: x in xs[1..] ==> scores[xs[0]] >= scores[x] && xs[0] != x
  {
    var rest := xs[1..];
    forall j, k | 0 <= j < k < |rest|
      ensures scores[rest[j]] >= scores[rest[k]] && rest[j] != rest[k]
    {
      assert rest[j] == xs[j + 1] && rest[k] == xs[k + 1];
    }
    forall x | x in rest
      ensures scores[xs[0]] >= scores[x] && xs[0] != x
    {
      var k :| 0 <= k < |rest| && rest[k] == x;
      assert xs[k + 1] == x;
    }
  }

  lemma {:induction false} InsertDescSorted(scores: seq<real>, i: nat, xs: seq<nat>)
    requires i < |scores| && InRange(xs, |scores|)
    requires Descending(scores, xs) && Distinct(xs) && i !in xs
    ensures Descending(scores, InsertDesc(scores, i, xs)) && Distinct(InsertDesc(scores, i, xs))
  {
    if xs != [] && scores[xs[0]] > scores[i] {
      TailSorted(scores, xs);
      InsertDescSorted(scores, i, xs[1..]);
      var tail := InsertDesc(scores, i, xs[1..]);
      assert InsertDesc(scores, i, xs) == [xs[0]] + tail;
      assert xs[0] in xs;
      ConsDescending(scores, xs[0], tail);
      ConsDistinct(xs[0], tail);
    } else {
      assert InsertDesc(scores, i, xs) == [i] + xs;
      forall x | x in xs
        ensures scores[i] >= scores[x]
      {
        var k :| 0 <= k < |xs| && xs[k] == x;
        assert k == 0 || scores[xs[0]] >= scores[xs[k]];
      }
      ConsDescending(scores, i, xs);
      ConsDistinct(i, xs);
    }
  }

  /**
    `scores.argsort()[::-1]`: every index once, highest score first. NumPy's default
    sort does not fix the order of equal scores; this is the order a stable ascending
    sort gives once reversed, the later index first.
  */
  function ScoreOrder(scores: seq<real>, n: nat): (order: seq<nat>)
    requires n <= |scores|
    ensures |order| == n && InRange(order, |scores|)
    ensures forall i: nat :: i in order <==> i < n
  {
    if n == 0 then [] else InsertDesc(scores, n - 1, ScoreOrder(scores, n - 1))
  }

  /** The order visits each index exactly once, from the highest score down. */
  lemma {:induction false} ScoreOrderSorted(scores: seq<real>, n: nat)
    requires n <= |scores|
    ensures Descending(scores, ScoreOrder(scores, n)) && Distinct(ScoreOrder(scores, n))
  {
    if n > 0 {
      ScoreOrderSorted(scores, n - 1);
      InsertDescSorted(scores, n - 1, ScoreOrder(scores, n - 1));
    }
  }

  /** The order starts at a highest score. */
  lemma ScoreOrderHeadMax(scores: seq<real>)
    requires |scores| > 0
    ensures forall i :: 0 <= i < |scores| ==> scores[ScoreOrder(scores, |scores|)[0]] >= scores[i]
  {
    var order := ScoreOrder(scores, |scores|);
    ScoreOrderSorted(scores, |scores|);
    forall i | 0 <= i < |scores|
      ensures scores[order[0]] >= scores[i]
    {
      assert i in order;
      var k :| 0 <= k < |order| && order[k] == i;
      assert k == 0 || scores[order[0]] >= scores[order[k]];
    }
  }

  /** Kept boxes never suppress one another, in list order. */
  predicate NoneSuppressed(boxes: seq<Box>, keep: seq<nat>, sup: (Box, Box) -> bool)
    requires InRange(keep, |boxes|)
  {
    forall j, k :: 0 <= j < k < |keep| ==> !sup(boxes[keep[j]], boxes[keep[k]])
  }

  /** Box `x` is suppressed by some kept box that scores at least as high. */
  predicate Dominated(boxes: seq<Box>, scores: seq<real>, keep: seq<nat>, x: nat, sup: (Box, Box) -> bool)
    requires |scores| == |boxes| && InRange(keep, |boxes|) && x < |boxes|
  {
    exists j :: 0 <= j < |keep| && sup(boxes[keep[j]], boxes[x]) && scores[keep[j]] >= scores[x]
  }

  /**
    `order[inds + 1]`: the rest of the order minus the boxes that the kept box `i`
    suppresses. The suppression test is a parameter here; `NonMaxSuppression`
    passes the IoU test.
  */
  function Survivors(boxes: seq<Box>, i: nat, rest: seq<nat>, sup: (Box, Box) -> bool): (s: seq<nat>)
    requires i < |boxes| && InRange(rest, |boxes|)
    ensures |s| <= |rest| && InRange(s, |boxes|)
    ensures forall x :: x in s <==> x in rest && !sup(boxes[i], boxes[x])
  {
    if rest == [] then []
    else
      var tail := Survivors(boxes, i, rest[1..], sup);
      if sup(boxes[i], boxes[rest[0]]) then tail else [rest[0]] + tail
  }

  /** Filtering keeps the order and the distinctness of what it keeps. */
  lemma {:induction false} SurvivorsSorted(boxes: seq<Box>, scores: seq<real>, i: nat, rest: seq<nat>, sup: (Box, Box) -> bool)
    requires |scores| == |boxes| && i < |boxes| && InRange(rest, |boxes|)
    requires Descending(scores, rest)
    ensures Descending(scores, Survivors(boxes, i, rest, sup))
    ensures Distinct(rest) ==> Distinct(Survivors(boxes, i, rest, sup))
  {
    if rest != [] {
      SurvivorsSorted(boxes, scores, i, rest[1..], sup);
      var s := Survivors(boxes, i, rest, sup);
      var tail := Survivors(boxes, i, rest[1..], sup);
      if !sup(boxes[i], boxes[rest[0]]) {
        assert s == [rest[0]] + tail;
        forall x | x in tail
          ensures scores[rest[0]] >= scores[x] && (Distinct(rest) ==> rest[0] != x)
        {
          var k :| 1 <= k < |rest| && rest[k] == x;
        }
        ConsDescending(scores, rest[0], tail);
        if Distinct(rest) {
          ConsDistinct(rest[0], tail);
        }
      }
    }
  }

  /** What the loop keeps when it starts from `order`. */
  function GreedyKeep(boxes: seq<Box>, order: seq<nat>, sup: (Box, Box) -> bool): (keep: seq<nat>)
    requires InRange(order, |boxes|)
    ensures |keep| <= |order| && InRange(keep, |boxes|)
    ensures order != [] ==> keep != [] && keep[0] == order[0]
    ensures forall x :: x in keep ==> x in order
    decreases |order|
  {
    if order == [] then []
    else [order[0]] + GreedyKeep(boxes, Survivors(boxes, order[0], order[1..], sup), sup)
  }

  /** Kept indices are distinct and in descending score order. */
  lemma {:induction false} GreedyKeepSorted(boxes: seq<Box>, scores: seq<real>, order: seq<nat>, sup: (Box, Box) -> bool)
    requires |scores| == |boxes| && InRange(order, |boxes|)
    requires Descending(scores, order) && Distinct(order)
    ensures Descending(scores, GreedyKeep(boxes, order, sup)) && Distinct(GreedyKeep(boxes, order, sup))
    decreases |order|
  {
    if order != [] {
      var s := Survivors(boxes, order[0], order[1..], sup);
      SurvivorsSorted(boxes, scores, order[0], order[1..], sup);
      GreedyKeepSorted(boxes, scores, s, sup);
      var tail := GreedyKeep(boxes, s, sup);
      assert GreedyKeep(boxes, order, sup) == [order[0]] + tail;
      forall x | x in tail
        ensures scores[order[0]] >= scores[x] && order[0] != x
      {
        var k :| 1 <= k < |order| && order[k] == x;
      }
      ConsDescending(scores, order[0], tail);
      ConsDistinct(order[0], tail);
    }
  }

  /** No kept box is suppressed by an earlier kept one. */
  lemma {:induction false} GreedyKeepPairwise(boxes: seq<Box>, order: seq<nat>, sup: (Box, Box) -> bool)
    requires InRange(order, |boxes|)
    ensures NoneSuppressed(boxes, GreedyKeep(boxes, order, sup), sup)
    decreases |order|
  {
    if order != [] {
      var s := Survivors(boxes, order[0], order[1..], sup);
      GreedyKeepPairwise(boxes, s, sup);
      var tail := GreedyKeep(boxes, s, sup);
      assert GreedyKeep(boxes, order, sup) == [order[0]] + tail;
      ConsNoneSuppressed(boxes, order[0], tail, sup);
    }
  }

  /** A head that suppresses nothing after it extends a list in which no box suppresses a later one. */
  lemma ConsNoneSuppressed(boxes: seq<Box>, h: nat, tail: seq<nat>, sup: (Box, Box) -> bool)
    requires h < |boxes| && InRange(tail, |boxes|) && NoneSuppressed(boxes, tail, sup)
    requires forall x :: x in tail ==> !sup(boxes[h], boxes[x])
    ensures NoneSuppressed(boxes, [h] + tail, sup)
  {
    var keep := [h] + tail;
    forall j, k | 0 <= j < k < |keep|
      ensures !sup(boxes[keep[j]], boxes[keep[k]])
    {
      assert keep[k] == tail[k - 1];
      if j > 0 {
        assert keep[j] == tail[j - 1];
      }
    }
  }

  /** A box dominated within a list, or suppressed by a head scoring at least as high, is dominated once the head is added. */
  lemma DominatedCons(boxes: seq<Box>, scores: seq<real>, h: nat, tail: seq<nat>, x: nat, sup: (Box, Box) -> bool)
    requires |scores| == |boxes| && h < |boxes| && InRange(tail, |boxes|) && x < |boxes|
    requires Dominated(boxes, scores, tail, x, sup) || (sup(boxes[h], boxes[x]) && scores[h] >= scores[x])
    ensures Dominated(boxes, scores, [h] + tail, x, sup)
  {
    var keep := [h] + tail;
    if !(sup(boxes[h], boxes[x]) && scores[h] >= scores[x]) {
      var j :| 0 <= j < |tail| && sup(boxes[tail[j]], boxes[x]) && scores[tail[j]] >= scores[x];
      assert keep[j + 1] == tail[j];
    } else {
      assert keep[0] == h;
    }
  }

  /** Every index of the order that is not kept is suppressed by a kept box scoring at least as high. */
  lemma {:induction false} GreedyKeepCovers(boxes: seq<Box>, scores: seq<real>, order: seq<nat>, sup: (Box, Box) -> bool)
    requires |scores| == |boxes| && InRange(order, |boxes|)
    requires Descending(scores, order)
    ensures forall x :: x in order && x !in GreedyKeep(boxes, order, sup) ==>
      Dominated(boxes, scores, GreedyKeep(boxes, order, sup), x, sup)
    decreases |order|
  {
    if order != [] {
      var s := Survivors(boxes, order[0], order[1..], sup);
      var keep := GreedyKeep(boxes, order, sup);
      var tail := GreedyKeep(boxes, s, sup);
      assert keep == [order[0]] + tail;
      SurvivorsSorted(boxes, scores, order[0], order[1..], sup);
      GreedyKeepCovers(boxes, scores, s, sup);
      forall x | x in order && x !in keep
        ensures Dominated(boxes, scores, keep, x, sup)
      {
        var k :| 1 <= k < |order| && order[k] == x;
        DominatedCons(boxes, scores, order[0], tail, x, sup);
      }
    }
  }

  /** The IoU test of `_nms` at threshold `t`, as a suppression relation. */
  function IouTest(t: real): (Box, Box) -> bool {
    (a: Box, b: Box) => Suppresses(a, b, t)
  }

  /** The indices `_nms` keeps: greedy suppression with the IoU test, from the highest score down. */
  function NmsKeep(boxes: seq<Box>, scores: seq<real>, t: real): (keep: seq<nat>)
    requires |scores| == |boxes|
    ensures |boxes| == 0 ==> keep == []
    ensures |boxes| > 0 ==> keep != []
    ensures InRange(keep, |boxes|)
  {
    GreedyKeep(boxes, ScoreOrder(scores, |boxes|), IouTest(t))
  }

  /** Kept indices are distinct and listed from the highest score down. */
  lemma NmsKeepSorted(boxes: seq<Box>, scores: seq<real>, t: real)
    requires |scores| == |boxes|
    ensures Distinct(NmsKeep(boxes, scores, t)) && Descending(scores, NmsKeep(boxes, scores, t))
  {
    ScoreOrderSorted(scores, |boxes|);
    GreedyKeepSorted(boxes, scores, ScoreOrder(scores, |boxes|), IouTest(t));
  }

  /** The first kept index has the highest score of all. */
  lemma NmsKeepHeadMax(boxes: seq<Box>, scores: seq<real>, t: real)
    requires |scores| == |boxes| && |boxes| > 0
    ensures forall i :: 0 <= i < |scores| ==> scores[NmsKeep(boxes, scores, t)[0]] >= scores[i]
  {
    ScoreOrderHeadMax(scores);
  }

  /** Any two kept boxes have IoU at most `t`, whichever of them is taken first. */
  lemma NmsKeepPairwise(boxes: seq<Box>, scores: seq<real>, t: real)
    requires |scores| == |boxes|
    ensures var keep := NmsKeep(boxes, scores, t);
      forall j, k :: 0 <= j < |keep| && 0 <= k < |keep| && j != k ==> !Suppresses(boxes[keep[j]], boxes[keep[k]], t)
  {
    var keep := NmsKeep(boxes, scores, t);
    GreedyKeepPairwise(boxes, ScoreOrder(scores, |boxes|), IouTest(t));
    forall j, k | 0 <= j < |keep| && 0 <= k < |keep| && j != k
      ensures !Suppresses(boxes[keep[j]], boxes[keep[k]], t)
    {
      if j < k {
        assert !IouTest(t)(boxes[keep[j]], boxes[keep[k]]);
      } else {
        assert !IouTest(t)(boxes[keep[k]], boxes[keep[j]]);
        SuppressesSymmetric(boxes[keep[k]], boxes[keep[j]], t);
      }
    }
  }

  /** Every box not kept has IoU above `t` with a kept box that scores at least as high. */
  lemma NmsKeepCovers(boxes: seq<Box>, scores: seq<real>, t: real)
    requires |scores| == |boxes|
    ensures var keep := NmsKeep(boxes, scores, t);
      forall i :: 0 <= i < |boxes| && i !in keep ==>
        exists j :: 0 <= j < |keep| && Suppresses(boxes[keep[j]], boxes[i], t) && scores[keep[j]] >= scores[i]
  {
    var order := ScoreOrder(scores, |boxes|);
    var keep := NmsKeep(boxes, scores, t);
    ScoreOrderSorted(scores, |boxes|);
    GreedyKeepCovers(boxes, scores, order, IouTest(t));
    forall i | 0 <= i < |boxes| && i !in keep
      ensures exists j :: 0 <= j < |keep| && Suppresses(boxes[keep[j]], boxes[i], t) && scores[keep[j]] >= scores[i]
    {
      assert i in order;
      assert Dominated(boxes, scores, keep, i, IouTest(t));
      var j :| 0 <= j < |keep| && IouTest(t)(boxes[keep[j]], boxes[i]) && scores[keep[j]] >= scores[i];
    }
  }

  /** `_nms`: the indices of the boxes to keep. */
  method NonMaxSuppression(boxes: seq<Box>, scores: seq<real>, t: real) returns (keep: seq<nat>)
    requires |scores| == |boxes|
    ensures keep == NmsKeep(boxes, scores, t)
  {
    var sup := IouTest(t);
    if |boxes| == 0 {
      return [];
    }
    var order := ScoreOrder(scores, |boxes|);
    keep := [];
    while |order| > 0
      invariant InRange(order, |boxes|)
      invariant keep + GreedyKeep(boxes, order, sup) == NmsKeep(boxes, scores, t)
      decreases |order|
    {
      var i := order[0];
      keep := keep + [i];
      if |order| == 1 {
        assert GreedyKeep(boxes, order, sup) == [i];
        order := [];
        break;
      }
      order := Survivors(boxes, i, order[1..], sup);
    }
    assert keep + [] == keep;
  }
}
