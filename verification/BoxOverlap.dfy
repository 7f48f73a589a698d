/** Overlap and movement of boxes (anpr-worker/edge/vehicle_tracker.py) against definitions of their own:
    overlap by counting pixels, movement by distance. */
module BoxOverlap {
  import opened Prelude
  import opened TrackLifecycle

  datatype Pixel = Pixel(x: int, y: int)

  ghost function Column(x: int, y: int, h: int): set<Pixel> {
    if h <= 0 then {} else Column(x, y, h - 1) + {Pixel(x, y + h - 1)}
  }

  ghost function Pixels(x: int, y: int, w: int, h: int): set<Pixel> {
    if w <= 0 then {} else Pixels(x, y, w - 1, h) + Column(x + w - 1, y, h)
  }

  ghost function PixelsOf(b: Box): set<Pixel> { Pixels(b.x, b.y, b.w, b.h) }

  lemma {:induction false} PixelInColumn(x: int, y: int, h: int, p: Pixel)
    requires h >= 0
    ensures p in Column(x, y, h) <==> p.x == x && y <= p.y < y + h
  {
    if h > 0 {
      PixelInColumn(x, y, h - 1, p);
    }
  }

  lemma {:induction false} ColumnCount(x: int, y: int, h: int)
    requires h >= 0
    ensures |Column(x, y, h)| == h
  {
    if h > 0 {
      ColumnCount(x, y, h - 1);
      PixelInColumn(x, y, h - 1, Pixel(x, y + h - 1));
    }
  }

  lemma DisjointCount(a: set<Pixel>, b: set<Pixel>)
    requires a * b == {}
    ensures |a + b| == |a| + |b|
  {
  }

  lemma {:induction false} PixelInside(x: int, y: int, w: int, h: int, p: Pixel)
    requires w >= 0 && h >= 0
    ensures p in Pixels(x, y, w, h) <==> x <= p.x < x + w && y <= p.y < y + h
  {
    if w > 0 {
      PixelInside(x, y, w - 1, h, p);
      PixelInColumn(x + w - 1, y, h, p);
    }
  }

  lemma PixelsMembers(x: int, y: int, w: int, h: int)
    requires w >= 0 && h >= 0
    ensures forall p: Pixel :: p in Pixels(x, y, w, h) <==> x <= p.x < x + w && y <= p.y < y + h
  {
    forall p: Pixel ensures p in Pixels(x, y, w, h) <==> x <= p.x < x + w && y <= p.y < y + h {
      PixelInside(x, y, w, h, p);
    }
  }

  lemma PixelsStep(x: int, y: int, w: int, h: int)
    requires w > 0 && h >= 0
    ensures |Pixels(x, y, w, h)| == |Pixels(x, y, w - 1, h)| + h
  {
    var left, last := Pixels(x, y, w - 1, h), Column(x + w - 1, y, h);
    assert left * last == {} by {
      forall p | p in left ensures p !in last {
        PixelInside(x, y, w - 1, h, p);
        PixelInColumn(x + w - 1, y, h, p);
      }
    }
    ColumnCount(x + w - 1, y, h);
    DisjointCount(left, last);
  }

  lemma OneMore(w: int, h: int)
    ensures w * h == (w - 1) * h + h
  {
  }

  lemma {:induction false} PixelsCount(x: int, y: int, w: int, h: int)
    requires w >= 0 && h >= 0
    ensures |Pixels(x, y, w, h)| == w * h
  {
    if w > 0 {
      PixelsCount(x, y, w - 1, h);
      PixelsStep(x, y, w, h);
      OneMore(w, h);
    }
  }

  lemma PixelsFacts(x: int, y: int, w: int, h: int)
    requires w >= 0 && h >= 0
    ensures forall p: Pixel :: p in Pixels(x, y, w, h) <==> x <= p.x < x + w && y <= p.y < y + h
    ensures |Pixels(x, y, w, h)| == w * h
  {
    PixelsMembers(x, y, w, h);
    PixelsCount(x, y, w, h);
  }

  lemma SharedPixels(a: Box, b: Box)
    requires BoxOk(a) && BoxOk(b)
    ensures |PixelsOf(a) * PixelsOf(b)| == Intersection(a, b)
  {
    var x, y := Max(a.x, b.x), Max(a.y, b.y);
    var w, h := Overlap(a.x, a.w, b.x, b.w), Overlap(a.y, a.h, b.y, b.h);
    assert PixelsOf(a) * PixelsOf(b) == Pixels(x, y, w, h) by {
      PixelsMembers(a.x, a.y, a.w, a.h);
      PixelsMembers(b.x, b.y, b.w, b.h);
      PixelsMembers(x, y, w, h);
    }
    PixelsCount(x, y, w, h);
  }

  /** Overlap is the number of shared pixels over the number of covered ones, for every two boxes. */
  lemma IouIsByPixels(a: Box, b: Box)
    requires BoxOk(a) && BoxOk(b)
    ensures |PixelsOf(a) + PixelsOf(b)| > 0
    ensures Iou(a, b) == |PixelsOf(a) * PixelsOf(b)| as real / |PixelsOf(a) + PixelsOf(b)| as real
    ensures Iou(a, b) > 0.0 <==> PixelsOf(a) * PixelsOf(b) != {}
  {
    var p, q := PixelsOf(a), PixelsOf(b);
    SharedPixels(a, b);
    PixelsFacts(a.x, a.y, a.w, a.h);
    PixelsFacts(b.x, b.y, b.w, b.h);
    assert |p + q| == |p| + |q| - |p * q|;
    assert |p + q| == Union(a, b);
    assert Pixel(a.x, a.y) in p + q;
    Quotient(Intersection(a, b), Union(a, b)) by {
      assert p * q <= p + q;
      SubsetCount(p * q, p + q);
    }
  }

  lemma SubsetCount(a: set<Pixel>, b: set<Pixel>)
    requires a <= b
    ensures |a| <= |b|
  {
    assert b == a + (b - a);
  }

  // -------------------------------------------------------------------------------- movement

  function CenterX(b: Box): real { b.x as real + b.w as real / 2.0 }

  function CenterY(b: Box): real { b.y as real + b.h as real / 2.0 }

  /** `d` is the distance of the two centres. */
  predicate IsDistance(d: real, a: Box, b: Box) {
    d >= 0.0 && d * d == (CenterX(b) - CenterX(a)) * (CenterX(b) - CenterX(a))
                       + (CenterY(b) - CenterY(a)) * (CenterY(b) - CenterY(a))
  }

  /** `s` is the diagonal of the box, or one if that is less. */
  predicate IsScale(s: real, b: Box) {
    s >= 1.0 && (s * s == (b.w * b.w + b.h * b.h) as real || (s == 1.0 && (b.w * b.w + b.h * b.h) as real < 1.0))
  }

  lemma PositiveProduct(x: real, y: real)
    requires x > 0.0 && y > 0.0
    ensures x * y > 0.0
  {
  }

  lemma SquaresDiffer(x: real, y: real)
    ensures (x - y) * (x + y) == x * x - y * y
  {
  }

  lemma SquaresCompare(x: real, y: real)
    requires x >= 0.0 && y >= 0.0
    ensures x >= y <==> x * x >= y * y
  {
    if x > y {
      SquaresDiffer(x, y);
      PositiveProduct(x - y, x + y);
    } else if x < y {
      SquaresDiffer(y, x);
      PositiveProduct(y - x, y + x);
    }
  }

  /** A box counts as moved exactly when its centre is at least `ratio` diagonals of the old box away. */
  lemma RelocatedIsByDistance(previous: Box, current: Box, ratio: real, d: real, s: real)
    requires BoxOk(previous) && ratio > 0.0 && IsDistance(d, previous, current) && IsScale(s, previous)
    ensures Relocated(previous, current, ratio) <==> d >= ratio * s
  {
    var diagonal := (previous.w * previous.w + previous.h * previous.h) as real;
    assert diagonal >= 1.0 by {
      assert previous.w * previous.w >= 1;
    }
    assert s * s == diagonal;
    ScaledSquare(ratio, s);
    SquaresCompare(d, ratio * s);
  }

  lemma ScaledSquare(ratio: real, s: real)
    requires ratio > 0.0 && s >= 1.0
    ensures (ratio * s) * (ratio * s) == ratio * ratio * (s * s) && ratio * s >= 0.0
  {
  }

  // ------------------------------------------------------------------------ readings that count

  /** A reading counts exactly when it is accepted, has a text and a confidence, and overlaps some track;
      it then goes to a track no other overlaps it more than. */
  lemma ReadingCounts(w: World, tracks: seq<Track>, r: Reading)
    requires forall i :: 0 <= i < |tracks| ==> tracks[i].id in w.states
    ensures var k := TrackFor(r.vehicle.box, tracks);
      var counts := r.accepted && r.text != "" && r.confidence.Some? && k.Some?;
      && Observe(w, tracks, r) == (if counts then Place(w, tracks[k.value].id, r.text, r.confidence.value) else w)
      && (k.Some? <==> exists i :: 0 <= i < |tracks| && Iou(r.vehicle.box, tracks[i].detection.box) > 0.0)
  {
  }

  // ----------------------------------------------------------------------- reports of a sighting

  /** What seeing a track adds to the history: its entry when it is new, a relocation with its best plate
      exactly when it is known and moved, and nothing otherwise. */
  lemma SightingReports(cfg: Settings, w: World, frame: int, track: Track)
    ensures var t, box := See(cfg, w, frame, track).trace, track.detection.box;
      && (track.id !in w.states ==> t == w.trace + [Enter(track.id, box)])
      && (track.id in w.states && cfg.moved(w.states[track.id].position, box) ==>
            t == w.trace + [Relocate(track.id, box, w.states[track.id].best)])
      && (track.id in w.states && !cfg.moved(w.states[track.id].position, box) ==> t == w.trace)
  {
  }
}
