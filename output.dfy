/** What region_name and region_format select for a region: the hemisphere
    letters and the whole and hundredth parts of the name string, and the closed
    ring of corners of the polygon feature. The printf rendering is not modelled. */
module RegionOutput {
  import opened Regions

  function RAbs(x: real): real {
    if x < 0.0 then -x else x
  }

  function IAbs(a: int): nat {
    if a < 0 then -a else a
  }

  /** C's conversion of a double to int: truncation toward zero. */
  function CTrunc(x: real): (n: int)
    ensures IAbs(n) as real <= RAbs(x) < IAbs(n) as real + 1.0
    ensures n > 0 ==> x > 0.0
    ensures n < 0 ==> x < 0.0
  {
    if x >= 0.0 then x.Floor else -((-x).Floor)
  }

  /** C's `/` on int for a positive divisor: the quotient is truncated toward zero. */
  function CQuot(a: int, b: int): int
    requires b > 0
  {
    if a >= 0 then a / b else -((-a) / b)
  }

  /** C's `%` on int for a positive divisor: the remainder takes the sign of the dividend
      and completes C's quotient. */
  function CRem(a: int, b: int): (r: int)
    requires b > 0
    ensures CQuot(a, b) * b + r == a
    ensures IAbs(r) < b
    ensures a >= 0 ==> r >= 0
    ensures a < 0 ==> r <= 0
  {
    if a >= 0 then a % b else -((-a) % b)
  }

  /** |(int) x| is the whole part of |x|. */
  lemma TruncAbs(x: real)
    ensures IAbs(CTrunc(x)) == RAbs(x).Floor
  {
  }

  /** |a % 100| in C is |a| mod 100. */
  lemma RemAbs(a: int)
    ensures IAbs(CRem(a, 100)) == IAbs(a) % 100
  {
  }

  /** The fields of the name string region_name prints: a latitude letter, whole degrees
      and hundredths of the north bound, a longitude letter, whole degrees and
      hundredths of the west bound. */
  datatype NameString = NameString(ns: char, latDeg: nat, latCents: nat, ew: char, lonDeg: nat, lonCents: nat)

  /** region_name. The longitude letter is 'w' for a negative west bound and 's'
      otherwise: never 'e'. */
  function NameOf(r: Region): (n: NameString)
    ensures n.ns == 's' <==> r.ymax < 0.0
    ensures n.ns == 'n' <==> r.ymax >= 0.0
    ensures n.ew == 'w' <==> r.xmin < 0.0
    ensures n.ew == 's' <==> r.xmin >= 0.0
    ensures n.ew != 'e'
    ensures n.latDeg == RAbs(r.ymax).Floor && n.lonDeg == RAbs(r.xmin).Floor
    ensures n.latCents == (RAbs(r.ymax) * 100.0).Floor % 100 && n.latCents < 100
    ensures n.lonCents == (RAbs(r.xmin) * 100.0).Floor % 100 && n.lonCents < 100
  {
    NameParts(r.ymax);
    NameParts(r.xmin);
    NameString(if r.ymax < 0.0 then 's' else 'n',
               IAbs(CTrunc(r.ymax)), IAbs(CRem(CTrunc(r.ymax * 100.0), 100)),
               if r.xmin < 0.0 then 'w' else 's',
               IAbs(CTrunc(r.xmin)), IAbs(CRem(CTrunc(r.xmin * 100.0), 100)))
  }

  /** The whole and hundredth parts of a coordinate, as region_name computes them. */
  lemma NameParts(x: real)
    ensures IAbs(CTrunc(x)) == RAbs(x).Floor
    ensures IAbs(CRem(CTrunc(x * 100.0), 100)) == (RAbs(x) * 100.0).Floor % 100
  {
    TruncAbs(x);
    TruncAbs(x * 100.0);
    RemAbs(CTrunc(x * 100.0));
    assert RAbs(x * 100.0) == RAbs(x) * 100.0;
  }

  /** The corners of a box. */
  function Corners(r: Region): set<Point> {
    {Point(r.xmin, r.ymax), Point(r.xmax, r.ymax), Point(r.xmax, r.ymin), Point(r.xmin, r.ymin)}
  }

  /** The polygon feature of region_format: the header block and the vertex ring. */
  datatype Feature = Feature(header: bool, ring: seq<Point>)

  /** region_format: a ring of five vertices starting and ending at the top-left corner
      (xmin, ymax); the header block only for the region at index 0. */
  function FormatOf(r: Region, aflag: int): (f: Feature)
    ensures f.header <==> aflag == 0
    ensures |f.ring| == 5
    ensures f.ring[0] == f.ring[4] == Point(r.xmin, r.ymax)
  {
    Feature(aflag == 0,
            [Point(r.xmin, r.ymax), Point(r.xmax, r.ymax), Point(r.xmax, r.ymin),
             Point(r.xmin, r.ymin), Point(r.xmin, r.ymax)])
  }

  /** The ring visits each of the four corners and every edge is parallel to an axis. */
  lemma FormatRing(r: Region, aflag: int)
    ensures var ring := FormatOf(r, aflag).ring;
      {ring[0], ring[1], ring[2], ring[3]} == Corners(r) &&
      forall k :: 0 <= k < 4 ==> ring[k].x == ring[k + 1].x || ring[k].y == ring[k + 1].y
  {
  }

  /** Twice the signed area of a vertex ring (the shoelace sum): negative for a clockwise ring. */
  function Shoelace(ps: seq<Point>): real
    decreases |ps|
  {
    if |ps| < 2 then 0.0
    else ps[0].x * ps[1].y - ps[1].x * ps[0].y + Shoelace(ps[1..])
  }

  /** The ring of a valid region encloses its area, traced clockwise. */
  lemma {:induction false} FormatClockwise(r: Region, aflag: int)
    ensures Shoelace(FormatOf(r, aflag).ring) == -2.0 * (r.xmax - r.xmin) * (r.ymax - r.ymin)
    ensures RegionP(r) == 1 ==> Shoelace(FormatOf(r, aflag).ring) < 0.0
  {
    var ps := FormatOf(r, aflag).ring;
    assert Shoelace(ps[4..]) == 0.0;
    assert Shoelace(ps[3..]) == ps[3].x * ps[4].y - ps[4].x * ps[3].y by {
      assert ps[3..][1..] == ps[4..];
    }
    assert Shoelace(ps[2..]) == ps[2].x * ps[3].y - ps[3].x * ps[2].y + Shoelace(ps[3..]) by {
      assert ps[2..][1..] == ps[3..];
    }
    assert Shoelace(ps[1..]) == ps[1].x * ps[2].y - ps[2].x * ps[1].y + Shoelace(ps[2..]) by {
      assert ps[1..][1..] == ps[2..];
    }
    var w, h := r.xmax - r.xmin, r.ymax - r.ymin;
    if RegionP(r) == 1 {
      assert w * h > 0.0 by { PositiveProduct(w, h); }
    }
  }

  lemma PositiveProduct(a: real, b: real)
    requires a > 0.0 && b > 0.0
    ensures a * b > 0.0
  {
  }
}
