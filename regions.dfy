/** The region data model of regions.c and its geometric operations:
    validity (region_p), centre (region_center), buffering (region_extend)
    and the in-place merge (region_merge). Coordinates are exact reals. */
module Regions {

  /** region_t: an axis-aligned box; xmin/xmax are west/east, ymin/ymax south/north. */
  datatype Region = Region(xmin: real, xmax: real, ymin: real, ymax: real)

  /** point_t */
  datatype Point = Point(x: real, y: real)

  /** `p` lies strictly inside `r`. */
  predicate Inside(p: Point, r: Region) {
    r.xmin < p.x < r.xmax && r.ymin < p.y < r.ymax
  }

  /** Every point of `inner` is a point of `outer` (bounds compared inclusively). */
  predicate Contains(outer: Region, inner: Region) {
    outer.xmin <= inner.xmin && inner.xmax <= outer.xmax &&
    outer.ymin <= inner.ymin && inner.ymax <= outer.ymax
  }

  /** region_p: 1 for a box of positive width and height, 0 otherwise
      (equal bounds make a region invalid). */
  function RegionP(r: Region): (v: int)
    ensures v == 0 || v == 1
    ensures v == 1 <==> r.xmin < r.xmax && r.ymin < r.ymax
  {
    if r.xmin >= r.xmax then 0
    else if r.ymin >= r.ymax then 0
    else 1
  }

  /** region_center: the midpoint of the box. */
  function Center(r: Region): (p: Point)
    ensures p.x - r.xmin == r.xmax - p.x
    ensures p.y - r.ymin == r.ymax - p.y
    ensures RegionP(r) == 1 ==> Inside(p, r)
  {
    Point(r.xmin + (r.xmax - r.xmin) / 2.0, r.ymin + (r.ymax - r.ymin) / 2.0)
  }

  /** A region is valid exactly when it has an interior point. */
  lemma ValidIffInterior(r: Region)
    ensures RegionP(r) == 1 <==> exists p :: Inside(p, r)
  {
    if RegionP(r) == 1 {
      assert Inside(Center(r), r);
    }
  }

  /** region_extend, as a value: every bound moves outward by `v` (inward when `v` is negative).
      The result is determined by its width, height and centre. */
  function Extended(r: Region, v: real): (e: Region)
    ensures e.xmax - e.xmin == (r.xmax - r.xmin) + 2.0 * v
    ensures e.ymax - e.ymin == (r.ymax - r.ymin) + 2.0 * v
    ensures Center(e) == Center(r)
  {
    Region(r.xmin - v, r.xmax + v, r.ymin - v, r.ymax + v)
  }

  lemma ExtendedByZero(r: Region)
    ensures Extended(r, 0.0) == r
  {
  }

  lemma ExtendedRoundTrip(r: Region, v: real)
    ensures Extended(Extended(r, v), -v) == r
  {
  }

  lemma ExtendedCompose(r: Region, a: real, b: real)
    ensures Extended(Extended(r, a), b) == Extended(r, a + b)
  {
  }

  /** A non-negative buffer grows the box, a non-positive one shrinks it. */
  lemma ExtendedContains(r: Region, v: real)
    ensures v >= 0.0 ==> Contains(Extended(r, v), r)
    ensures v <= 0.0 ==> Contains(r, Extended(r, v))
  {
  }

  /** Whether a buffered box is valid depends only on the original width and height. */
  lemma ExtendedValidity(r: Region, v: real)
    ensures RegionP(Extended(r, v)) == 1 <==>
            (r.xmax - r.xmin) + 2.0 * v > 0.0 && (r.ymax - r.ymin) + 2.0 * v > 0.0
  {
  }

  /** One pass of region_merge's loop body: widen `acc` so that it also covers `r`.
      The result is the smallest box containing both. */
  function Hull(acc: Region, r: Region): (h: Region)
    ensures Contains(h, acc) && Contains(h, r)
    ensures forall b :: Contains(b, acc) && Contains(b, r) ==> Contains(b, h)
  {
    Region(if r.xmin < acc.xmin then r.xmin else acc.xmin,
           if r.xmax > acc.xmax then r.xmax else acc.xmax,
           if r.ymin < acc.ymin then r.ymin else acc.ymin,
           if r.ymax > acc.ymax then r.ymax else acc.ymax)
  }

  /** The envelope region_merge folds into regions[0]: the first box widened by each later one. */
  function Envelope(rs: seq<Region>): (e: Region)
    requires |rs| >= 1
    ensures forall k :: 0 <= k < |rs| ==> Contains(e, rs[k])
    decreases |rs|
  {
    if |rs| == 1 then rs[0] else Hull(Envelope(rs[..|rs| - 1]), rs[|rs| - 1])
  }

  /** `e` is the min/max envelope of the boxes in `rs`: it contains each of them and
      each of its four bounds is the bound of one of them. */
  ghost predicate IsEnvelope(e: Region, rs: seq<Region>) {
    (forall r :: r in rs ==> Contains(e, r)) &&
    (exists r :: r in rs && r.xmin == e.xmin) &&
    (exists r :: r in rs && r.xmax == e.xmax) &&
    (exists r :: r in rs && r.ymin == e.ymin) &&
    (exists r :: r in rs && r.ymax == e.ymax)
  }

  /** Each bound of the envelope is attained by one of the input boxes. */
  lemma {:induction false} EnvelopeAttained(rs: seq<Region>)
    requires |rs| >= 1
    ensures IsEnvelope(Envelope(rs), rs)
    decreases |rs|
  {
    var e := Envelope(rs);
    forall r | r in rs ensures Contains(e, r) {
      var k :| 0 <= k < |rs| && rs[k] == r;
    }
    if |rs| == 1 {
      assert rs[0] in rs;
    } else {
      var pre, last := rs[..|rs| - 1], rs[|rs| - 1];
      EnvelopeAttained(pre);
      assert last in rs;
      assert forall r :: r in pre ==> r in rs;
    }
  }

  /** There is only one envelope of a given collection of boxes. */
  lemma EnvelopeUnique(e1: Region, e2: Region, rs: seq<Region>)
    requires IsEnvelope(e1, rs) && IsEnvelope(e2, rs)
    ensures e1 == e2
  {
    var a :| a in rs && a.xmin == e1.xmin;
    var b :| b in rs && b.xmin == e2.xmin;
    assert Contains(e1, b) && Contains(e2, a);
    var c :| c in rs && c.xmax == e1.xmax;
    var d :| d in rs && d.xmax == e2.xmax;
    assert Contains(e1, d) && Contains(e2, c);
    var f :| f in rs && f.ymin == e1.ymin;
    var g :| g in rs && g.ymin == e2.ymin;
    assert Contains(e1, g) && Contains(e2, f);
    var h :| h in rs && h.ymax == e1.ymax;
    var i :| i in rs && i.ymax == e2.ymax;
    assert Contains(e1, i) && Contains(e2, h);
  }

  /** Merging does not depend on the order of the regions: any permutation gives the same envelope. */
  lemma EnvelopeOrderIndependent(rs: seq<Region>, ps: seq<Region>)
    requires |rs| >= 1
    requires multiset(rs) == multiset(ps)
    ensures |ps| >= 1 && Envelope(rs) == Envelope(ps)
  {
    assert |ps| == |multiset(ps)| == |multiset(rs)| == |rs|;
    assert forall r :: r in rs <==> r in ps by {
      forall r ensures r in rs <==> r in ps {
        assert r in rs <==> r in multiset(rs);
        assert r in ps <==> r in multiset(ps);
      }
    }
    EnvelopeAttained(rs);
    EnvelopeAttained(ps);
    EnvelopeUnique(Envelope(rs), Envelope(ps), rs);
  }

  /** The envelope is the smallest box containing every input box. */
  lemma EnvelopeLeast(rs: seq<Region>, b: Region)
    requires |rs| >= 1
    requires forall k :: 0 <= k < |rs| ==> Contains(b, rs[k])
    ensures Contains(b, Envelope(rs))
  {
    EnvelopeAttained(rs);
    var e := Envelope(rs);
    var p :| p in rs && p.xmin == e.xmin;
    var q :| q in rs && q.xmax == e.xmax;
    var s :| s in rs && s.ymin == e.ymin;
    var t :| t in rs && t.ymax == e.ymax;
  }

  /** Merging a single region leaves it as it is. */
  lemma EnvelopeSingle(r: Region)
    ensures Envelope([r]) == r
  {
  }

  /** region_merge: fold every entry of regions[0..rsize) into regions[0], field by field.
      Only regions[0] changes, and with fewer than two entries nothing changes. */
  method MergeRegions(regions: array<Region>, rsize: int)
    requires rsize <= regions.Length
    modifies regions
    ensures rsize >= 1 ==> regions[0] == Envelope(old(regions[..rsize]))
    ensures forall k :: 1 <= k < regions.Length ==> regions[k] == old(regions[k])
    ensures rsize <= 1 ==> regions[..] == old(regions[..])
  {
    ghost var a := regions[..];
    var i := 0;
    while i < rsize
      invariant 0 <= i && (i == 0 || i <= rsize)
      invariant i <= 1 ==> regions[..] == a
      invariant i >= 1 ==> regions[0] == Envelope(a[..i])
      invariant forall k :: 1 <= k < regions.Length ==> regions[k] == a[k]
    {
      if i > 0 {
        if regions[i].xmin < regions[0].xmin {
          regions[0] := regions[0].(xmin := regions[i].xmin);
        }
        if regions[i].xmax > regions[0].xmax {
          regions[0] := regions[0].(xmax := regions[i].xmax);
        }
        if regions[i].ymin < regions[0].ymin {
          regions[0] := regions[0].(ymin := regions[i].ymin);
        }
        if regions[i].ymax > regions[0].ymax {
          regions[0] := regions[0].(ymax := regions[i].ymax);
        }
        assert a[..i + 1][..i] == a[..i];
      } else {
        assert a[..1] == [a[0]];
      }
      i := i + 1;
    }
  }

  /** region_extend applied through a pointer to regions[i]: the four bounds are
      overwritten one by one; no other entry changes. */
  method ExtendAt(regions: array<Region>, i: int, xval: real)
    requires 0 <= i < regions.Length
    modifies regions
    ensures regions[i] == Extended(old(regions[i]), xval)
    ensures forall k :: 0 <= k < regions.Length && k != i ==> regions[k] == old(regions[k])
  {
    regions[i] := regions[i].(xmin := regions[i].xmin - xval);
    regions[i] := regions[i].(xmax := regions[i].xmax + xval);
    regions[i] := regions[i].(ymin := regions[i].ymin - xval);
    regions[i] := regions[i].(ymax := regions[i].ymax + xval);
  }
}
