/**
 Target selection of `detect_ir_targets` and the coordinate mapping of
 `map_coordinates`.

 The vision library's thresholding, contour extraction, contour area and
 image moments are not modelled; what they produce for one frame is the
 input here: a sequence of contour records in the library's enumeration
 order, each with its area and its moments m00, m10 and m01. Areas, moments
 and coordinates are idealised as reals (no floating-point rounding).
 */
module TargetDetection {

  /** What the library reports about one outer contour. */
  datatype Contour = Contour(area: real, m00: real, m10: real, m01: real)

  /** A detected target: integer centroid and the area of its contour. */
  datatype Target = Target(x: int, y: int, area: real)

  function Min(a: int, b: int): int {
    if a <= b then a else b
  }

  /** Python's `int(v)` on a number: truncation toward zero. */
  function Trunc(v: real): (r: int)
    ensures 0.0 <= v ==> r as real <= v < r as real + 1.0
    ensures v < 0.0 ==> r as real - 1.0 < v <= r as real
  {
    if v >= 0.0 then v.Floor else -((-v).Floor)
  }

  /** The guard of the selection loop: area strictly above the minimum and a nonzero zeroth moment. */
  predicate Qualifies(c: Contour, minArea: real) {
    c.area > minArea && c.m00 != 0.0
  }

  /**
   The target a qualifying contour yields: its area, and as coordinates the
   moment ratios m10/m00 and m01/m00, each cut toward zero to an integer.
   */
  function Centroid(c: Contour): (t: Target)
    requires c.m00 != 0.0
    ensures t.area == c.area
    ensures var qx := c.m10 / c.m00;
      && (0.0 <= qx ==> t.x as real <= qx < t.x as real + 1.0)
      && (qx < 0.0 ==> t.x as real - 1.0 < qx <= t.x as real)
    ensures var qy := c.m01 / c.m00;
      && (0.0 <= qy ==> t.y as real <= qy < t.y as real + 1.0)
      && (qy < 0.0 ==> t.y as real - 1.0 < qy <= t.y as real)
  {
    Target(Trunc(c.m10 / c.m00), Trunc(c.m01 / c.m00), c.area)
  }

  /** The targets the loop collects from `cs`, in enumeration order: at most one per contour, each above the minimum area. */
  function Qualifying(cs: seq<Contour>, minArea: real): (r: seq<Target>)
    ensures |r| <= |cs|
    ensures forall t :: t in r ==> t.area > minArea
  {
    if cs == [] then []
    else
      var last := cs[|cs| - 1];
      Qualifying(cs[..|cs| - 1], minArea) + (if Qualifies(last, minArea) then [Centroid(last)] else [])
  }

  // ---------------------------------------------------------------------------
  // Sorting by area, descending and stable (Python's `list.sort(key=..., reverse=True)`)
  // ---------------------------------------------------------------------------

  /** Non-increasing by area. */
  predicate SortedByAreaDesc(s: seq<Target>) {
    forall i, j :: 0 <= i < j < |s| ==> s[i].area >= s[j].area
  }

  /** The subsequence of the targets whose area is exactly `a`, in order. */
  function WithArea(s: seq<Target>, a: real): (r: seq<Target>)
    ensures |r| <= |s|
  {
    if s == [] then [] else (if s[0].area == a then [s[0]] else []) + WithArea(s[1..], a)
  }

  /** Stability: for every area, targets of that area appear in the same relative order. */
  ghost predicate SameOrderPerArea(r: seq<Target>, s: seq<Target>) {
    forall a :: WithArea(r, a) == WithArea(s, a)
  }

  /** Puts `t` in front of the first element whose area is not larger than its own. */
  function InsertByArea(t: Target, s: seq<Target>): (r: seq<Target>)
    ensures multiset(r) == multiset(s) + multiset{t}
  {
    if s == [] || s[0].area <= t.area then
      [t] + s
    else
      assert s == [s[0]] + s[1..];
      [s[0]] + InsertByArea(t, s[1..])
  }

  /** Inserting below a bound keeps every element below it. */
  lemma {:induction false} InsertBounded(t: Target, s: seq<Target>, bound: real)
    requires t.area <= bound && forall j :: 0 <= j < |s| ==> s[j].area <= bound
    ensures forall j :: 0 <= j < |InsertByArea(t, s)| ==> InsertByArea(t, s)[j].area <= bound
  {
    if s != [] && s[0].area > t.area {
      InsertBounded(t, s[1..], bound);
    }
  }

  lemma {:induction false} InsertKeepsSorted(t: Target, s: seq<Target>)
    requires SortedByAreaDesc(s)
    ensures SortedByAreaDesc(InsertByArea(t, s))
  {
    if s != [] && s[0].area > t.area {
      var rest := InsertByArea(t, s[1..]);
      InsertKeepsSorted(t, s[1..]);
      InsertBounded(t, s[1..], s[0].area);
      ConsSorted(s[0], rest);
    }
  }

  lemma ConsSorted(x: Target, s: seq<Target>)
    requires SortedByAreaDesc(s) && forall j :: 0 <= j < |s| ==> s[j].area <= x.area
    ensures SortedByAreaDesc([x] + s)
  {
    var r := [x] + s;
    forall i, j | 0 <= i < j < |r| ensures r[i].area >= r[j].area {
      assert r[j] == s[j - 1];
      if i > 0 {
        assert r[i] == s[i - 1];
      }
    }
  }

  lemma {:induction false} InsertPerArea(t: Target, s: seq<Target>, a: real)
    ensures WithArea(InsertByArea(t, s), a) == if a == t.area then [t] + WithArea(s, a) else WithArea(s, a)
  {
    if s == [] || s[0].area <= t.area {
      assert ([t] + s)[1..] == s;
    } else {
      var rest := InsertByArea(t, s[1..]);
      InsertPerArea(t, s[1..], a);
      assert ([s[0]] + rest)[1..] == rest;
    }
  }

  /**
   Python's stable `list.sort(key=area, reverse=True)`, as an insertion sort:
   each element is placed before the equal-area elements that came after it.
   */
  function SortByAreaDesc(s: seq<Target>): (r: seq<Target>)
    ensures multiset(r) == multiset(s) && |r| == |s|
    ensures SortedByAreaDesc(r)
    ensures SameOrderPerArea(r, s)
  {
    if s == [] then []
    else
      var rest := SortByAreaDesc(s[1..]);
      assert s == [s[0]] + s[1..];
      InsertKeepsSorted(s[0], rest);
      assert forall a :: WithArea(InsertByArea(s[0], rest), a) == WithArea(s, a) by {
        forall a ensures WithArea(InsertByArea(s[0], rest), a) == WithArea(s, a) {
          InsertPerArea(s[0], rest, a);
        }
      }
      InsertByArea(s[0], rest)
  }

  // ---------------------------------------------------------------------------
  // The selection as a whole
  // ---------------------------------------------------------------------------

  /** `targets.sort(...)` then `targets[:max_targets]` applied to the collected targets. */
  function SelectTargets(cs: seq<Contour>, minArea: real, maxTargets: nat): seq<Target> {
    var sorted := SortByAreaDesc(Qualifying(cs, minArea));
    sorted[..Min(maxTargets, |sorted|)]
  }

  /** `detect_ir_targets` after the library calls: collect, sort, truncate. */
  method DetectIrTargets(contours: seq<Contour>, minArea: real, maxTargets: nat) returns (targets: seq<Target>)
    ensures targets == SelectTargets(contours, minArea, maxTargets)
  {
    targets := [];
    for i := 0 to |contours|
      invariant targets == Qualifying(contours[..i], minArea)
    {
      var contour := contours[i];
      assert contours[..i + 1][..i] == contours[..i];
      if contour.area > minArea {
        if contour.m00 != 0.0 {
          var cX := Trunc(contour.m10 / contour.m00);
          var cY := Trunc(contour.m01 / contour.m00);
          targets := targets + [Target(cX, cY, contour.area)];
        }
      }
    }
    assert contours[..|contours|] == contours;
    targets := SortByAreaDesc(targets);
    targets := targets[..Min(maxTargets, |targets|)];
  }

  // ---------------------------------------------------------------------------
  // Properties of the collected targets
  // ---------------------------------------------------------------------------

  /** Collecting over a concatenation is the concatenation of the collections. */
  lemma {:induction false} QualifyingAppend(a: seq<Contour>, b: seq<Contour>, minArea: real)
    ensures Qualifying(a + b, minArea) == Qualifying(a, minArea) + Qualifying(b, minArea)
  {
    if b == [] {
      assert a + b == a;
    } else {
      assert (a + b)[..|a + b| - 1] == a + b[..|b| - 1];
      assert (a + b)[|a + b| - 1] == b[|b| - 1];
      QualifyingAppend(a, b[..|b| - 1], minArea);
    }
  }

  /** A contour that fails the guard (area at most the minimum, or m00 == 0) contributes nothing, wherever it stands. */
  lemma NonQualifyingIgnored(a: seq<Contour>, c: Contour, b: seq<Contour>, minArea: real)
    requires c.area <= minArea || c.m00 == 0.0
    ensures Qualifying(a + [c] + b, minArea) == Qualifying(a + b, minArea)
  {
    QualifyingAppend(a + [c], b, minArea);
    QualifyingAppend(a, [c], minArea);
    QualifyingAppend(a, b, minArea);
    assert [c][..0] == [];
  }

  /** A target is collected exactly when some qualifying contour yields it. */
  lemma {:induction false} QualifyingMembers(cs: seq<Contour>, minArea: real, t: Target)
    ensures t in Qualifying(cs, minArea) <==> exists c :: c in cs && Qualifies(c, minArea) && t == Centroid(c)
  {
    if cs != [] {
      var init, last := cs[..|cs| - 1], cs[|cs| - 1];
      assert cs == init + [last];
      QualifyingMembers(init, minArea, t);
      if t in Qualifying(cs, minArea) && t !in Qualifying(init, minArea) {
        assert Qualifies(last, minArea) && t == Centroid(last);
      }
      if exists c :: c in cs && Qualifies(c, minArea) && t == Centroid(c) {
        var c :| c in cs && Qualifies(c, minArea) && t == Centroid(c);
        if c != last {
          assert c in init;
        }
      }
    }
  }

  // ---------------------------------------------------------------------------
  // Properties of the stable sort
  // ---------------------------------------------------------------------------

  lemma {:induction false} WithAreaMembers(s: seq<Target>, a: real, t: Target)
    ensures t in WithArea(s, a) <==> t in s && t.area == a
  {
    if s != [] {
      WithAreaMembers(s[1..], a, t);
      assert s == [s[0]] + s[1..];
    }
  }

  lemma {:induction false} WithAreaAppend(s: seq<Target>, u: seq<Target>, a: real)
    ensures WithArea(s + u, a) == WithArea(s, a) + WithArea(u, a)
  {
    if s != [] {
      assert (s + u)[1..] == s[1..] + u;
      WithAreaAppend(s[1..], u, a);
    } else {
      assert s + u == u;
    }
  }

  /**
   Sortedness and stability fix the result: any sequence sorted by area,
   descending, that keeps the relative order of equal-area elements of `s`
   is SortByAreaDesc(s). So every stable descending sort, Python's included,
   agrees with the model.
   */
  lemma StableSortIsUnique(r: seq<Target>, s: seq<Target>)
    requires SortedByAreaDesc(r) && SameOrderPerArea(r, s)
    ensures r == SortByAreaDesc(s)
  {
    var q := SortByAreaDesc(s);
    forall a ensures WithArea(r, a) == WithArea(q, a) {
      assert WithArea(r, a) == WithArea(s, a);
    }
    SortedStableEqual(r, q);
  }

  lemma SameEmptiness(r1: seq<Target>, r2: seq<Target>)
    requires forall a :: WithArea(r1, a) == WithArea(r2, a)
    ensures r1 == [] <==> r2 == []
  {
    if r2 != [] {
      assert WithArea(r2, r2[0].area) != [];
      assert WithArea(r1, r2[0].area) != [];
    }
    if r1 != [] {
      assert WithArea(r1, r1[0].area) != [];
      assert WithArea(r2, r1[0].area) != [];
    }
  }

  lemma {:induction false} SortedStableEqual(r1: seq<Target>, r2: seq<Target>)
    requires SortedByAreaDesc(r1) && SortedByAreaDesc(r2)
    requires forall a :: WithArea(r1, a) == WithArea(r2, a)
    ensures r1 == r2
  {
    SameEmptiness(r1, r2);
    if r1 != [] {
      SameHead(r1, r2);
      SameTailsPerArea(r1, r2);
      SortedStableEqual(r1[1..], r2[1..]);
      assert r1 == [r1[0]] + r1[1..];
      assert r2 == [r2[0]] + r2[1..];
    }
  }

  /** Two sorted sequences with the same per-area subsequences start with the same element. */
  lemma SameHead(r1: seq<Target>, r2: seq<Target>)
    requires r1 != [] && r2 != []
    requires SortedByAreaDesc(r1) && SortedByAreaDesc(r2)
    requires forall a :: WithArea(r1, a) == WithArea(r2, a)
    ensures r1[0] == r2[0]
  {
    var a1, a2 := r1[0].area, r2[0].area;
    WithAreaMembers(r1, a1, r1[0]);
    WithAreaMembers(r2, a1, r1[0]);
    WithAreaMembers(r2, a2, r2[0]);
    WithAreaMembers(r1, a2, r2[0]);
    var i1 :| 0 <= i1 < |r1| && r1[i1] == r2[0];
    var i2 :| 0 <= i2 < |r2| && r2[i2] == r1[0];
    assert a1 >= a2 && a2 >= a1;
    assert WithArea(r1, a1)[0] == r1[0];
    assert WithArea(r2, a1)[0] == r2[0];
  }

  /** Removing a common head keeps the per-area subsequences equal. */
  lemma SameTailsPerArea(r1: seq<Target>, r2: seq<Target>)
    requires r1 != [] && r2 != [] && r1[0] == r2[0]
    requires forall a :: WithArea(r1, a) == WithArea(r2, a)
    ensures forall a :: WithArea(r1[1..], a) == WithArea(r2[1..], a)
  {
    forall a ensures WithArea(r1[1..], a) == WithArea(r2[1..], a) {
      assert WithArea(r1, a) == WithArea(r2, a);
      if a == r1[0].area {
        assert WithArea(r1, a)[1..] == WithArea(r1[1..], a);
        assert WithArea(r2, a)[1..] == WithArea(r2[1..], a);
      } else {
        assert WithArea(r1, a) == WithArea(r1[1..], a);
        assert WithArea(r2, a) == WithArea(r2[1..], a);
      }
    }
  }

  // ---------------------------------------------------------------------------
  // Properties of the selection
  // ---------------------------------------------------------------------------

  /** The result holds min(#qualifying contours, max_targets) targets. */
  lemma SelectLength(cs: seq<Contour>, minArea: real, maxTargets: nat)
    ensures |SelectTargets(cs, minArea, maxTargets)| == Min(|Qualifying(cs, minArea)|, maxTargets)
    ensures |SelectTargets(cs, minArea, maxTargets)| <= maxTargets
  {
  }

  /** The result is a prefix of the sorted collected targets, and is sorted by area, descending. */
  lemma SelectIsSortedPrefix(cs: seq<Contour>, minArea: real, maxTargets: nat)
    ensures SelectTargets(cs, minArea, maxTargets) <= SortByAreaDesc(Qualifying(cs, minArea))
    ensures SortedByAreaDesc(SelectTargets(cs, minArea, maxTargets))
  {
  }

  /** Every returned target comes from a contour with area > min_area and m00 != 0, with the truncated centroid and the contour's area. */
  lemma SelectProvenance(cs: seq<Contour>, minArea: real, maxTargets: nat, t: Target)
    requires t in SelectTargets(cs, minArea, maxTargets)
    ensures exists c ::
      && c in cs && c.area > minArea && c.m00 != 0.0
      && t == Target(Trunc(c.m10 / c.m00), Trunc(c.m01 / c.m00), c.area)
  {
    var q := Qualifying(cs, minArea);
    var sorted := SortByAreaDesc(q);
    assert t in sorted;
    assert t in multiset(q);
    QualifyingMembers(cs, minArea, t);
  }

  /** Every returned target's area is strictly above min_area, so area == min_area is excluded. */
  lemma SelectAboveMin(cs: seq<Contour>, minArea: real, maxTargets: nat)
    ensures forall t :: t in SelectTargets(cs, minArea, maxTargets) ==> t.area > minArea
  {
    forall t | t in SelectTargets(cs, minArea, maxTargets) ensures t.area > minArea {
      SelectProvenance(cs, minArea, maxTargets, t);
    }
  }

  /** Equal-area targets of the result keep the enumeration order of their contours. */
  lemma SelectKeepsEnumerationOrder(cs: seq<Contour>, minArea: real, maxTargets: nat, a: real)
    ensures WithArea(SelectTargets(cs, minArea, maxTargets), a) <= WithArea(Qualifying(cs, minArea), a)
  {
    var sorted := SortByAreaDesc(Qualifying(cs, minArea));
    var k := Min(maxTargets, |sorted|);
    assert sorted == sorted[..k] + sorted[k..];
    WithAreaAppend(sorted[..k], sorted[k..], a);
  }

  /** A collected target dropped by the truncation is no larger than any returned target. */
  lemma SelectDropsOnlySmaller(cs: seq<Contour>, minArea: real, maxTargets: nat, j: nat)
    requires maxTargets <= j < |Qualifying(cs, minArea)|
    ensures forall t :: t in SelectTargets(cs, minArea, maxTargets) ==>
      SortByAreaDesc(Qualifying(cs, minArea))[j].area <= t.area
  {
  }

  /** Nothing qualifying, in particular no contours at all, gives the empty list. */
  lemma SelectEmptyWhenNothingQualifies(cs: seq<Contour>, minArea: real, maxTargets: nat)
    requires forall c :: c in cs ==> !Qualifies(c, minArea)
    ensures SelectTargets(cs, minArea, maxTargets) == []
  {
    if Qualifying(cs, minArea) != [] {
      var t := Qualifying(cs, minArea)[0];
      QualifyingMembers(cs, minArea, t);
    }
  }

  /** Two blobs of area 300 and 100 with min_area 50 and max_targets 1: only the larger one is returned, in either enumeration order. */
  lemma SelectLargerOfTwo(big: Contour, small: Contour)
    requires big.area == 300.0 && small.area == 100.0 && big.m00 != 0.0 && small.m00 != 0.0
    ensures SelectTargets([big, small], 50.0, 1) == [Centroid(big)]
    ensures SelectTargets([small, big], 50.0, 1) == [Centroid(big)]
  {
    LargerFirst(big, small);
    SmallerFirst(big, small);
  }

  lemma LargerFirst(big: Contour, small: Contour)
    requires big.area == 300.0 && small.area == 100.0 && big.m00 != 0.0 && small.m00 != 0.0
    ensures SelectTargets([big, small], 50.0, 1) == [Centroid(big)]
  {
    CollectTwo(big, small, 50.0);
    SortTwo(Centroid(big), Centroid(small));
  }

  lemma SmallerFirst(big: Contour, small: Contour)
    requires big.area == 300.0 && small.area == 100.0 && big.m00 != 0.0 && small.m00 != 0.0
    ensures SelectTargets([small, big], 50.0, 1) == [Centroid(big)]
  {
    CollectTwo(small, big, 50.0);
    SortTwo(Centroid(small), Centroid(big));
  }

  /** Two qualifying contours yield their two targets, in order. */
  lemma CollectTwo(c1: Contour, c2: Contour, minArea: real)
    requires Qualifies(c1, minArea) && Qualifies(c2, minArea)
    ensures Qualifying([c1, c2], minArea) == [Centroid(c1), Centroid(c2)]
  {
    assert [c1, c2][..1] == [c1];
    assert [c1][..0] == [];
  }

  /** Sorting two targets swaps them exactly when the second is strictly larger. */
  lemma SortTwo(t1: Target, t2: Target)
    ensures SortByAreaDesc([t1, t2]) == if t1.area >= t2.area then [t1, t2] else [t2, t1]
  {
    assert [t1, t2][1..] == [t2];
    assert [t2][1..] == [];
    assert SortByAreaDesc([t2]) == InsertByArea(t2, []) == [t2];
    assert InsertByArea(t1, [t2]) == if t1.area >= t2.area then [t1, t2] else [t2] + InsertByArea(t1, []);
  }

  // ---------------------------------------------------------------------------
  // map_coordinates, over the reals
  // ---------------------------------------------------------------------------

  /** Per-axis linear rescale from a frame of size frameWidth x frameHeight to one of size outWidth x outHeight. */
  function MapCoordinates(x: real, y: real, frameWidth: real, frameHeight: real, outWidth: real, outHeight: real): (m: (real, real))
    requires frameWidth != 0.0 && frameHeight != 0.0
    ensures m.0 * frameWidth == x * outWidth
    ensures m.1 * frameHeight == y * outHeight
  {
    ((x / frameWidth) * outWidth, (y / frameHeight) * outHeight)
  }

  /** Mapping onto a space of the frame's own size is the identity. */
  lemma MapIdentity(x: real, y: real, w: real, h: real)
    requires w != 0.0 && h != 0.0
    ensures MapCoordinates(x, y, w, h, w, h) == (x, y)
  {
  }

  /** Each axis depends only on its own coordinate and dimensions. */
  lemma MapAxesIndependent(x: real, y: real, x': real, y': real, fw: real, fh: real, fh': real, fw': real, ow: real, oh: real, ow': real, oh': real)
    requires fw != 0.0 && fh != 0.0 && fw' != 0.0 && fh' != 0.0
    ensures MapCoordinates(x, y, fw, fh, ow, oh).0 == MapCoordinates(x, y', fw, fh', ow, oh').0
    ensures MapCoordinates(x, y, fw, fh, ow, oh).1 == MapCoordinates(x', y, fw', fh, ow', oh).1
  {
  }

  /** Scaling the output space by k scales the mapped point by k. */
  lemma MapScaling(x: real, y: real, w: real, h: real, k: real)
    requires w != 0.0 && h != 0.0
    ensures MapCoordinates(x, y, w, h, k * w, k * h) == (k * x, k * y)
  {
  }

  /** Mapping to a space and back with the dimensions swapped gives the original point. */
  lemma MapRoundTrip(x: real, y: real, fw: real, fh: real, ow: real, oh: real)
    requires fw != 0.0 && fh != 0.0 && ow != 0.0 && oh != 0.0
    ensures var m := MapCoordinates(x, y, fw, fh, ow, oh); MapCoordinates(m.0, m.1, ow, oh, fw, fh) == (x, y)
  {
    var m := MapCoordinates(x, y, fw, fh, ow, oh);
    UndoScale(x / fw, ow);
    UndoScale(y / fh, oh);
    assert m.0 / ow == x / fw;
    assert m.1 / oh == y / fh;
    DivThenScale(x, fw);
    DivThenScale(y, fh);
    assert MapCoordinates(m.0, m.1, ow, oh, fw, fh).0 == (x / fw) * fw;
    assert MapCoordinates(m.0, m.1, ow, oh, fw, fh).1 == (y / fh) * fh;
  }

  lemma DivThenScale(p: real, k: real)
    requires k != 0.0
    ensures (p / k) * k == p
  {
  }

  lemma UndoScale(p: real, k: real)
    requires k != 0.0
    ensures (p * k) / k == p
  {
  }

  /** The mapping is additive in the point. */
  lemma MapAdditive(x1: real, y1: real, x2: real, y2: real, fw: real, fh: real, ow: real, oh: real)
    requires fw != 0.0 && fh != 0.0
    ensures MapCoordinates(x1 + x2, y1 + y2, fw, fh, ow, oh).0
      == MapCoordinates(x1, y1, fw, fh, ow, oh).0 + MapCoordinates(x2, y2, fw, fh, ow, oh).0
    ensures MapCoordinates(x1 + x2, y1 + y2, fw, fh, ow, oh).1
      == MapCoordinates(x1, y1, fw, fh, ow, oh).1 + MapCoordinates(x2, y2, fw, fh, ow, oh).1
  {
  }

  /** Mapping 100,100 from a 200 x 200 frame onto 1000 x 1000 gives 500,500. */
  lemma MapExample()
    ensures MapCoordinates(100.0, 100.0, 200.0, 200.0, 1000.0, 1000.0) == (500.0, 500.0)
  {
  }
}
