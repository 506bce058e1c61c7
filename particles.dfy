/** The hero's particle network: the particle-count rule, the creation of a
    fresh particle array from supplied random draws, and one animation frame
    that moves every particle in place and picks the pairs to connect.
    JavaScript numbers are taken as exact reals. */
module Particles {

  /** Pairs closer than this many CSS pixels are joined by a line. */
  const ConnectionDistance: real := 120.0

  /** Viewports narrower than this get the smaller particle count. */
  const NarrowViewport: real := 768.0

  /** `particleCount`, recomputed from `window.innerWidth` at load and on each
      settled resize. */
  function ParticleCount(innerWidth: real): (n: nat)
    ensures n == 30 || n == 60
    ensures n == 30 <==> innerWidth < NarrowViewport
  {
    if innerWidth < NarrowViewport then 30 else 60
  }

  datatype Particle = Particle(x: real, y: real, vx: real, vy: real, r: real)

  /** The five `Math.random()` results one particle consumes, in call order. */
  datatype Draw = Draw(ux: real, uy: real, uvx: real, uvy: real, ur: real)

  predicate IsUnit(u: real) {
    0.0 <= u < 1.0
  }

  predicate IsDraw(d: Draw) {
    IsUnit(d.ux) && IsUnit(d.uy) && IsUnit(d.uvx) && IsUnit(d.uvy) && IsUnit(d.ur)
  }

  /** Lies in `[0, limit)`, or is 0 when the region has no extent. */
  predicate InHalfOpen(u: real, limit: real) {
    0.0 <= u && (u < limit || u == 0.0 == limit)
  }

  /** A freshly built particle: inside the region, velocity in `[-0.2, 0.2)`
      on each axis, radius in `[1, 3)`. */
  predicate FreshlyPlaced(p: Particle, width: real, height: real) {
    InHalfOpen(p.x, width) && InHalfOpen(p.y, height) &&
    -0.2 <= p.vx < 0.2 && -0.2 <= p.vy < 0.2 && 1.0 <= p.r < 3.0
  }

  /** A unit draw scaled to a non-negative extent stays below that extent. */
  lemma ScaledUnit(u: real, limit: real)
    ensures IsUnit(u) && 0.0 <= limit ==> InHalfOpen(u * limit, limit)
  {
    if IsUnit(u) && 0.0 < limit {
      assert u * limit < 1.0 * limit;
    }
  }

  /** The particle built from one draw inside a region of the given size:
      for draws in `[0, 1)` and a region of non-negative size it lies inside
      the region, moves by less than 0.2 per axis and has radius in `[1, 3)`. */
  function Spawn(width: real, height: real, d: Draw): (p: Particle)
    ensures IsDraw(d) && 0.0 <= width && 0.0 <= height ==> FreshlyPlaced(p, width, height)
  {
    ScaledUnit(d.ux, width);
    ScaledUnit(d.uy, height);
    Particle(d.ux * width, d.uy * height, (d.uvx - 0.5) * 0.4, (d.uvy - 0.5) * 0.4, d.ur * 2.0 + 1.0)
  }

  /** One axis of the frame's position update: add the velocity, then a
      coordinate below 0 becomes `limit` and one above `limit` becomes 0,
      by two tests in that order (a snap to the opposite edge, not a
      modular wrap). */
  function Snap(c: real, v: real, limit: real): (u: real)
    ensures 0.0 <= limit ==> 0.0 <= u <= limit
    ensures c + v < 0.0 ==> u == limit
    ensures 0.0 <= limit < c + v ==> u == 0.0
    ensures 0.0 <= c + v <= limit ==> u == c + v
  {
    var n := c + v;
    var a := if n < 0.0 then limit else n;
    if a > limit then 0.0 else a
  }

  predicate InBounds(p: Particle, w: real, h: real) {
    0.0 <= p.x <= w && 0.0 <= p.y <= h
  }

  /** The particle after one visible frame: only its position moves, and for
      a non-negative canvas size it lands inside `[0, w] x [0, h]` wherever it
      started. */
  function Advance(p: Particle, w: real, h: real): (q: Particle)
    ensures q.vx == p.vx && q.vy == p.vy && q.r == p.r
    ensures 0.0 <= w && 0.0 <= h ==> InBounds(q, w, h)
  {
    p.(x := Snap(p.x, p.vx, w), y := Snap(p.y, p.vy, h))
  }

  /** Every particle of `ps` after one visible frame: each is advanced on its
      own, keeps its velocity and radius, and ends inside a canvas of
      non-negative size. */
  function AdvanceAll(ps: seq<Particle>, w: real, h: real): (r: seq<Particle>)
    ensures |r| == |ps|
    ensures forall k :: 0 <= k < |r| ==> r[k] == Advance(ps[k], w, h)
    ensures forall k :: 0 <= k < |r| ==> r[k].vx == ps[k].vx && r[k].vy == ps[k].vy && r[k].r == ps[k].r
    ensures 0.0 <= w && 0.0 <= h ==> forall k :: 0 <= k < |r| ==> InBounds(r[k], w, h)
  {
    seq(|ps|, k requires 0 <= k < |ps| => Advance(ps[k], w, h))
  }

  /** A particle leaving the right edge by a little reappears at exactly 0,
      not at the overshoot. */
  lemma SnapIsNotModular()
    ensures Snap(99.9, 0.3, 100.0) == 0.0
  {
  }

  // ---------------------------------------------------------------------
  // Connections
  // ---------------------------------------------------------------------

  /** A line from particle `i` at `(x1, y1)` to particle `j` at `(x2, y2)`. */
  datatype Link = Link(i: nat, j: nat, x1: real, y1: real, x2: real, y2: real)

  function SquaredDistance(p: Particle, q: Particle): real {
    (p.x - q.x) * (p.x - q.x) + (p.y - q.y) * (p.y - q.y)
  }

  predicate Near(p: Particle, q: Particle) {
    SquaredDistance(p, q) < ConnectionDistance * ConnectionDistance
  }

  function LinkOf(i: nat, j: nat, p: Particle, q: Particle): Link {
    Link(i, j, p.x, p.y, q.x, q.y)
  }

  /** Linked pairs in drawing order: by `i`, then by `j`. */
  predicate Before(a: Link, b: Link) {
    a.i < b.i || (a.i == b.i && a.j < b.j)
  }

  /** The links from `p`, the moved particle `i`, to the particles
      `before[i + 1..hi]`: all from `i` to a later particle, in index order. */
  function RowLinks(p: Particle, i: nat, before: seq<Particle>, hi: nat): (r: seq<Link>)
    requires hi <= |before|
    ensures forall k :: 0 <= k < |r| ==> r[k].i == i && i < r[k].j < hi
    ensures forall k, m :: 0 <= k < m < |r| ==> r[k].j < r[m].j
    decreases hi
  {
    if hi <= i + 1 then []
    else RowLinks(p, i, before, hi - 1) +
         (if Near(p, before[hi - 1]) then [LinkOf(i, hi - 1, p, before[hi - 1])] else [])
  }

  /** The links a frame draws for its first `n` particles: particle `i` at
      its moved position `moved[i]`, each later particle `j` at the position
      `before[j]` it still has while particle `i` is processed. They join
      pairs `i < j` with `i < n`, in drawing order. */
  function FrameLinks(moved: seq<Particle>, before: seq<Particle>, n: nat): (r: seq<Link>)
    requires n <= |moved| == |before|
    ensures forall k :: 0 <= k < |r| ==> r[k].i < n && r[k].i < r[k].j < |before|
    ensures forall k, m :: 0 <= k < m < |r| ==> Before(r[k], r[m])
    decreases n
  {
    if n == 0 then []
    else FrameLinks(moved, before, n - 1) + RowLinks(moved[n - 1], n - 1, before, |before|)
  }

  predicate LinkFits(l: Link, moved: seq<Particle>, before: seq<Particle>, n: nat)
    requires |moved| == |before|
  {
    l.i < l.j < |before| && l.i < n &&
    Near(moved[l.i], before[l.j]) && l == LinkOf(l.i, l.j, moved[l.i], before[l.j])
  }

  lemma {:induction false} RowLinksSound(p: Particle, i: nat, moved: seq<Particle>, before: seq<Particle>, hi: nat)
    requires hi <= |before| == |moved| && i < |moved| && p == moved[i]
    ensures forall l :: l in RowLinks(p, i, before, hi) ==> LinkFits(l, moved, before, i + 1) && l.i == i && l.j < hi
    decreases hi
  {
    if hi > i + 1 {
      RowLinksSound(p, i, moved, before, hi - 1);
    }
  }

  lemma {:induction false} RowLinksComplete(p: Particle, i: nat, before: seq<Particle>, hi: nat, j: nat)
    requires hi <= |before| && i < j < hi && Near(p, before[j])
    ensures LinkOf(i, j, p, before[j]) in RowLinks(p, i, before, hi)
    decreases hi
  {
    if j < hi - 1 {
      RowLinksComplete(p, i, before, hi - 1, j);
    }
  }

  /** Every link drawn joins a pair `i < j` that is nearer than the
      connection distance, from `moved[i]` to `before[j]`. */
  lemma {:induction false} FrameLinksSound(moved: seq<Particle>, before: seq<Particle>, n: nat)
    requires n <= |moved| == |before|
    ensures forall l :: l in FrameLinks(moved, before, n) ==> LinkFits(l, moved, before, n)
    decreases n
  {
    if n > 0 {
      FrameLinksSound(moved, before, n - 1);
      RowLinksSound(moved[n - 1], n - 1, moved, before, |before|);
    }
  }

  /** Every near pair `i < j` among the first `n` particles is drawn. */
  lemma {:induction false} FrameLinksComplete(moved: seq<Particle>, before: seq<Particle>, n: nat, i: nat, j: nat)
    requires n <= |moved| == |before| && i < n && i < j < |before|
    requires Near(moved[i], before[j])
    ensures LinkOf(i, j, moved[i], before[j]) in FrameLinks(moved, before, n)
    decreases n
  {
    if i < n - 1 {
      FrameLinksComplete(moved, before, n - 1, i, j);
    } else {
      RowLinksComplete(moved[i], i, before, |before|, j);
    }
  }

  /** The source's test `dist < connectionDistance`, on the distance itself. */
  predicate Connected(d: real) {
    d < ConnectionDistance
  }

  /** For a non-negative `d` whose square is the squared distance, the test
      on `d` and the test on the squared distance agree. */
  lemma ConnectedIffNear(p: Particle, q: Particle, d: real)
    requires 0.0 <= d && d * d == SquaredDistance(p, q)
    ensures Connected(d) <==> Near(p, q)
  {
    var c := ConnectionDistance;
    if d < c {
      assert d * d <= d * c;
      assert d * c < c * c;
      assert SquaredDistance(p, q) < c * c;
    } else {
      assert d * d >= d * c;
      assert d * c >= c * c;
      assert SquaredDistance(p, q) >= c * c;
    }
  }

  /** The stroke opacity of a drawn line: at most 0.3 and always visible. */
  function Opacity(d: real): (o: real)
    requires 0.0 <= d && Connected(d)
    ensures 0.0 < o <= 0.3
    ensures d == 0.0 ==> o == 0.3
  {
    (1.0 - d / ConnectionDistance) * 0.3
  }

  /** The opacity fades strictly as the distance grows. */
  lemma OpacityDecreasing(d1: real, d2: real)
    requires 0.0 <= d1 < d2 && Connected(d2)
    ensures Opacity(d2) < Opacity(d1)
  {
  }

  /** Two particles 60 pixels apart are joined at opacity 0.15. */
  lemma OpacityAtHalfDistance()
    ensures Connected(60.0) && Opacity(60.0) == 0.15
  {
  }

  /** A row depends only on the particles after `i`. */
  lemma {:induction false} RowLinksOnlyLater(p: Particle, i: nat, a: seq<Particle>, b: seq<Particle>, hi: nat)
    requires hi <= |a| && hi <= |b|
    requires forall k :: i < k < hi ==> a[k] == b[k]
    ensures RowLinks(p, i, a, hi) == RowLinks(p, i, b, hi)
    decreases hi
  {
    if hi > i + 1 {
      RowLinksOnlyLater(p, i, a, b, hi - 1);
    }
  }

  /** One iteration of a frame's outer loop keeps its invariant: once
      particle `i` is moved to `p` and its row is drawn, the first `i + 1`
      particles are moved, the rest are as before the frame, and the lines so
      far are those of the first `i + 1` particles. */
  lemma FrameStep(before: seq<Particle>, moved: seq<Particle>, ps: seq<Particle>, i: nat,
                  p: Particle, row: seq<Link>, links: seq<Link>)
    requires |ps| == |before| == |moved| && i < |ps|
    requires forall k :: 0 <= k < i ==> ps[k] == moved[k]
    requires forall k :: i <= k < |ps| ==> ps[k] == before[k]
    requires p == moved[i] && links == FrameLinks(moved, before, i)
    requires row == RowLinks(p, i, ps[i := p], |ps|)
    ensures forall k :: 0 <= k < i + 1 ==> ps[i := p][k] == moved[k]
    ensures forall k :: i + 1 <= k < |ps| ==> ps[i := p][k] == before[k]
    ensures links + row == FrameLinks(moved, before, i + 1)
  {
    RowLinksOnlyLater(p, i, ps[i := p], before, |before|);
  }

  /** The inner loop of a frame: the moved particle `p`, at index `i`, is
      compared with every later particle of `ps` in index order, and a line
      is recorded for each one nearer than the connection distance. */
  method ConnectRow(p: Particle, i: nat, ps: seq<Particle>) returns (row: seq<Link>)
    requires i < |ps|
    ensures row == RowLinks(p, i, ps, |ps|)
  {
    row := [];
    var j := i + 1;
    while j < |ps|
      invariant i + 1 <= j <= |ps|
      invariant row == RowLinks(p, i, ps, j)
    {
      var p2 := ps[j];
      // dx * dx + dy * dy, compared with the square of the distance bound
      if SquaredDistance(p, p2) < ConnectionDistance * ConnectionDistance {
        row := row + [Link(i, j, p.x, p.y, p2.x, p2.y)];
      }
      j := j + 1;
    }
  }

  /** The in-place update at the top of each iteration of the frame's outer
      loop: add the velocity, then the four edge tests in source order. */
  method Move(p0: Particle, w: real, h: real) returns (p: Particle)
    ensures p == Advance(p0, w, h)
  {
    p := p0.(x := p0.x + p0.vx, y := p0.y + p0.vy);
    if p.x < 0.0 { p := p.(x := w); }
    if p.x > w { p := p.(x := 0.0); }
    if p.y < 0.0 { p := p.(y := h); }
    if p.y > h { p := p.(y := 0.0); }
  }

  // ---------------------------------------------------------------------
  // The animated field
  // ---------------------------------------------------------------------

  /** The module-level state of the animation: the particle array, the
      target count and the hero-visibility flag. */
  class ParticleField {
    var particles: seq<Particle>
    var particleCount: nat
    var heroVisible: bool

    /** The state right after the script runs, before the first
        `createParticles`. */
    constructor (innerWidth: real)
      ensures particles == [] && particleCount == ParticleCount(innerWidth) && heroVisible
    {
      particles := [];
      particleCount := ParticleCount(innerWidth);
      heroVisible := true;
    }

    /** `createParticles`: the old array is discarded and `particleCount`
        new particles are built, the `k`-th from `draws[k]`, inside the
        hero's current `width x height`. */
    method CreateParticles(width: real, height: real, draws: seq<Draw>)
      requires |draws| == particleCount
      modifies this`particles
      ensures |particles| == particleCount
      ensures forall k :: 0 <= k < |particles| ==> particles[k] == Spawn(width, height, draws[k])
      ensures 0.0 <= width && 0.0 <= height && (forall k :: 0 <= k < |draws| ==> IsDraw(draws[k])) ==>
        forall k :: 0 <= k < |particles| ==> FreshlyPlaced(particles[k], width, height)
    {
      particles := [];
      var i := 0;
      while i < particleCount
        invariant 0 <= i <= particleCount == |draws|
        invariant |particles| == i
        invariant forall k :: 0 <= k < i ==> particles[k] == Spawn(width, height, draws[k])
      {
        particles := particles + [Spawn(width, height, draws[i])];
        i := i + 1;
      }
      if 0.0 <= width && 0.0 <= height && forall k :: 0 <= k < |draws| ==> IsDraw(draws[k]) {
        assert forall k :: 0 <= k < |particles| ==> FreshlyPlaced(particles[k], width, height);
      }
    }

    /** The settled-resize callback: recompute the count from the new
        viewport width, then rebuild the particles. */
    method Resize(innerWidth: real, width: real, height: real, draws: seq<Draw>)
      requires |draws| == ParticleCount(innerWidth)
      modifies this`particleCount, this`particles
      ensures particleCount == ParticleCount(innerWidth) && |particles| == particleCount
      ensures forall k :: 0 <= k < |particles| ==> particles[k] == Spawn(width, height, draws[k])
    {
      particleCount := ParticleCount(innerWidth);
      CreateParticles(width, height, draws);
    }

    /** The visibility observer's callback. */
    method SetHeroVisible(isIntersecting: bool)
      modifies this`heroVisible
      ensures heroVisible == isIntersecting
    {
      heroVisible := isIntersecting;
    }

    /** One `drawParticles` frame on a canvas of logical size `w x h`. While
        the hero is hidden nothing changes. Otherwise each particle in turn is
        moved in place and then compared with every later, not yet moved,
        particle; the links to draw are returned in drawing order. */
    method Step(w: real, h: real) returns (links: seq<Link>)
      modifies this`particles
      ensures !heroVisible ==> particles == old(particles) && links == []
      ensures heroVisible ==>
        particles == AdvanceAll(old(particles), w, h) &&
        links == FrameLinks(particles, old(particles), |particles|)
    {
      links := [];
      if !heroVisible {
        return;
      }
      ghost var before := particles;
      ghost var moved := AdvanceAll(before, w, h);
      var i := 0;
      while i < |particles|
        invariant 0 <= i <= |particles| == |before|
        invariant forall k :: 0 <= k < i ==> particles[k] == moved[k]
        invariant forall k :: i <= k < |particles| ==> particles[k] == before[k]
        invariant links == FrameLinks(moved, before, i)
      {
        var p := Move(particles[i], w, h);
        assert p == moved[i];
        var row := ConnectRow(p, i, particles[i := p]);
        FrameStep(before, moved, particles, i, p, row, links);
        particles := particles[i := p];
        links := links + row;
        i := i + 1;
      }
      assert particles == moved;
    }
  }
}
