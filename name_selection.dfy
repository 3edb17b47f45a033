/**
 * The "Nearest Named Color" field of the colour report: an exact lookup of the
 * pixel's RGB value in the named-colour table first (`rgb_to_name`), and the
 * nearest entry (`closest_color`) only when that lookup fails.
 */
module NameSelection {
  import opened Wrappers
  import opened Pixel
  import opened NearestColor

  /** Some entry of `t` has exactly the RGB value `q`. */
  predicate HasExact(t: ColorTable, q: Rgb) {
    exists i :: 0 <= i < |t| && t[i].rgb == q
  }

  /**
   * The exact lookup: a name whose entry has RGB value `q`, or `None` where
   * `rgb_to_name` raises. Which of several aliases is returned is not promised.
   */
  function ExactName(t: ColorTable, q: Rgb): (r: Option<string>)
    ensures r.Some? <==> HasExact(t, q)
    ensures r.Some? ==> exists i :: 0 <= i < |t| && t[i].rgb == q && t[i].name == r.value
    decreases |t|
  {
    if |t| == 0 then None
    else if t[0].rgb == q then Some(t[0].name)
    else
      var r := ExactName(t[1..], q);
      assert forall i :: 1 <= i < |t| ==> t[1..][i - 1] == t[i];
      r
  }

  /** The name reported for the pixel `q` (main.py lines 202-205). */
  function SelectName(t: ColorTable, q: Rgb): (r: Option<string>)
    ensures r.None? <==> |t| == 0
    ensures ExactName(t, q).Some? ==> r == ExactName(t, q)
    ensures r.Some? ==> InTable(t, r.value)
  {
    match ExactName(t, q)
    case Some(name) => Some(name)
    case None => ClosestColor(t, q)
  }

  /**
   * Whichever branch answers, the reported name labels an entry at the least
   * distance from the pixel; when the pixel is in the table, that entry is
   * the pixel's own colour.
   */
  lemma {:induction false} SelectNameIsNearest(t: ColorTable, q: Rgb)
    requires |t| > 0
    ensures exists i :: IsNearest(t, q, i) && SelectName(t, q) == Some(t[i].name)
    ensures HasExact(t, q) ==> exists i :: 0 <= i < |t| && t[i].rgb == q && SelectName(t, q) == Some(t[i].name)
  {
    match ExactName(t, q)
    case Some(name) =>
      var i :| 0 <= i < |t| && t[i].rgb == q && t[i].name == name;
      assert IsNearest(t, q, i);
    case None =>
      var k := ClosestIndex(t, q);
      assert IsNearest(t, q, k);
  }

  /** The nearest-entry fallback is taken exactly when no entry matches the pixel. */
  lemma FallbackOnlyWithoutExact(t: ColorTable, q: Rgb)
    ensures !HasExact(t, q) ==> SelectName(t, q) == ClosestColor(t, q)
    ensures !HasExact(t, q) ==> forall i :: 0 <= i < |t| ==> Distance(t[i].rgb, q) > 0
  {
  }
}
