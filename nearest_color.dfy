/**
 * `closest_color`: the name of the table entry whose RGB value is nearest to
 * the query, by squared Euclidean distance, chosen the way Python's `min` with
 * a key chooses (a left-to-right scan that keeps the first minimal entry).
 */
module NearestColor {
  import opened Wrappers
  import opened Pixel

  function Square(x: int): (s: nat)
    ensures s == 0 <==> x == 0
  {
    x * x
  }

  /** `distance`: the sum of squared channel differences of two triples. */
  function Distance(c1: Rgb, c2: Rgb): (d: nat)
    ensures d == 0 <==> c1 == c2
    ensures d >= Square(c1.r - c2.r) && d >= Square(c1.g - c2.g) && d >= Square(c1.b - c2.b)
  {
    Square(c1.r - c2.r) + Square(c1.g - c2.g) + Square(c1.b - c2.b)
  }

  /** The distance does not depend on which triple comes first. */
  lemma DistanceSymmetric(c1: Rgb, c2: Rgb)
    ensures Distance(c1, c2) == Distance(c2, c1)
  {
    assert Square(c1.r - c2.r) == Square(c2.r - c1.r);
    assert Square(c1.g - c2.g) == Square(c2.g - c1.g);
    assert Square(c1.b - c2.b) == Square(c2.b - c1.b);
  }

  /** Entry `i` of `t` is at least as near to `q` as every entry. */
  predicate IsNearest(t: ColorTable, q: Rgb, i: int) {
    0 <= i < |t| && forall j :: 0 <= j < |t| ==> Distance(t[i].rgb, q) <= Distance(t[j].rgb, q)
  }

  /** Entry `i` is nearest to `q`, and every entry before it is strictly farther. */
  predicate IsFirstNearest(t: ColorTable, q: Rgb, i: int) {
    IsNearest(t, q, i) && forall j :: 0 <= j < i ==> Distance(t[i].rgb, q) < Distance(t[j].rgb, q)
  }

  /** The first-nearest entry is unique, so the tie-break determines one entry. */
  lemma FirstNearestUnique(t: ColorTable, q: Rgb, i: int, k: int)
    requires IsFirstNearest(t, q, i) && IsFirstNearest(t, q, k)
    ensures i == k
  {
    assert Distance(t[i].rgb, q) == Distance(t[k].rgb, q);
  }

  /**
   * The position `min` settles on: the scan over the table keeps the best entry
   * so far and replaces it only by a strictly nearer one.
   */
  function ClosestIndex(t: ColorTable, q: Rgb): (k: nat)
    requires |t| > 0
    ensures IsFirstNearest(t, q, k)
    decreases |t|
  {
    if |t| == 1 then 0
    else
      var last := |t| - 1;
      var k := ClosestIndex(t[..last], q);
      assert t[..last][k] == t[k];
      assert forall j :: 0 <= j < last ==> t[..last][j] == t[j];
      if Distance(t[last].rgb, q) < Distance(t[k].rgb, q) then last else k
  }

  /**
   * `closest_color` over the table `t`. On an empty table `min` raises, which
   * is `None` here.
   */
  function ClosestColor(t: ColorTable, q: Rgb): (r: Option<string>)
    ensures r.None? <==> |t| == 0
    ensures r.Some? ==> exists i :: IsFirstNearest(t, q, i) && t[i].name == r.value
  {
    if |t| == 0 then None
    else
      var k := ClosestIndex(t, q);
      Some(t[k].name)
  }

  /** A query equal to some entry's RGB is matched at distance zero. */
  lemma ClosestOfExact(t: ColorTable, q: Rgb, i: int)
    requires 0 <= i < |t| && t[i].rgb == q
    ensures t[ClosestIndex(t, q)].rgb == q
  {
    var k := ClosestIndex(t, q);
    assert Distance(t[k].rgb, q) <= Distance(t[i].rgb, q) == 0;
  }
}
