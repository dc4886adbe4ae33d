/** Naming a colour: the entry of a table of named RGB colours that is
    nearest to a sampled colour, by squared Euclidean distance. */
module ColorMatch {

  datatype Rgb = Rgb(r: int, g: int, b: int)

  /** A named colour table, in the order its entries are enumerated. */
  type Palette = seq<(string, Rgb)>

  /** The distance bound of the search: no entry seen yet, or the distance of
      the best entry so far. */
  datatype Bound = Infinity | Finite(d: nat)

  function Square(n: int): (s: nat)
    ensures s == 0 <==> n == 0
  {
    var m := if n < 0 then -n else n;
    assert m * m >= m;
    m * m
  }

  /** The squared Euclidean distance between two colours; it is zero
      exactly when they are the same colour. */
  function SquaredDistance(a: Rgb, b: Rgb): (d: nat)
    ensures d == 0 <==> a == b
  {
    Square(a.r - b.r) + Square(a.g - b.g) + Square(a.b - b.b)
  }

  /** The distance does not depend on the order of the two colours. */
  lemma SquaredDistanceSymmetric(a: Rgb, b: Rgb)
    ensures SquaredDistance(a, b) == SquaredDistance(b, a)
  {
  }

  /** Entry k of colors is nearest to target, and strictly nearer than
      every entry before it. */
  ghost predicate FirstNearest(colors: Palette, target: Rgb, k: int) {
    && 0 <= k < |colors|
    && (forall j :: 0 <= j < k ==> SquaredDistance(colors[k].1, target) < SquaredDistance(colors[j].1, target))
    && (forall j :: k <= j < |colors| ==> SquaredDistance(colors[k].1, target) <= SquaredDistance(colors[j].1, target))
  }

  predicate Below(d: nat, bound: Bound) {
    bound.Infinity? || d < bound.d
  }

  /** The name of the nearest entry to target; among entries at the same
      distance the first one wins, and an empty table gives "other". */
  method ClosestColor(colors: Palette, target: Rgb) returns (best: string)
    ensures |colors| == 0 ==> best == "other"
    ensures |colors| > 0 ==> exists k :: FirstNearest(colors, target, k) && best == colors[k].0
  {
    best := "other";
    var bestDist := Infinity;
    ghost var k := 0;
    for i := 0 to |colors|
      invariant i == 0 ==> best == "other" && bestDist == Infinity
      invariant i > 0 ==> && FirstNearest(colors[..i], target, k)
                          && best == colors[k].0
                          && bestDist == Finite(SquaredDistance(colors[k].1, target))
    {
      var (name, c) := colors[i];
      var dist := SquaredDistance(c, target);
      if Below(dist, bestDist) {
        bestDist := Finite(dist);
        best := name;
        k := i;
      }
    }
    if |colors| > 0 {
      assert colors[..|colors|] == colors;
      assert FirstNearest(colors, target, k);
    }
  }

  /** An entry equal to the target is at distance zero, so the first such
      entry is the one named. */
  lemma ExactEntryWins(colors: Palette, target: Rgb, k: int, j: int)
    requires FirstNearest(colors, target, k)
    requires 0 <= j < |colors| && colors[j].1 == target
    ensures colors[k].1 == target && k <= j
  {
    assert SquaredDistance(colors[k].1, target) <= SquaredDistance(colors[j].1, target) == 0;
  }
}
