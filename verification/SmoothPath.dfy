/** Path smoothing: sharp corners of a path are replaced by points of a Bezier curve, in a list that
    shrinks and grows while it is traversed.  Coordinates are reals; which corners are sharp is a parameter. */
module SmoothPaths {

  datatype Point = Point(x: real, y: real)

  type Corner = (Point, Point, Point) -> bool

  function Mix(p0: Point, p1: Point, t: real): Point {
    Point(p0.x * (1.0 - t) + p1.x * t, p0.y * (1.0 - t) + p1.y * t)
  }

  function Bezier(v: seq<Point>, t: real): Point
    requires |v| >= 2
  {
    if |v| == 2 then Mix(v[0], v[1], t) else Mix(Bezier(v[..|v| - 1], t), Bezier(v[1..], t), t)
  }

  function Quadratic(a: real, b: real, c: real, t: real): real {
    (1.0 - t) * (1.0 - t) * a + 2.0 * t * (1.0 - t) * b + t * t * c
  }

  /** One corner gives the quadratic curve of the comment above do_smooth. */
  lemma BezierQuadratic(p0: Point, p1: Point, p2: Point, t: real)
    ensures Bezier([p0, p1, p2], t) == Point(Quadratic(p0.x, p1.x, p2.x, t), Quadratic(p0.y, p1.y, p2.y, t))
  {
    var v := [p0, p1, p2];
    hide Mix, Quadratic;
    assert v[..2] == [p0, p1] && v[1..] == [p1, p2];
    assert Bezier(v, t) == Mix(Mix(p0, p1, t), Mix(p1, p2, t), t);
    MixTwice(p0, p1, p2, t);
  }

  lemma MixTwice(p0: Point, p1: Point, p2: Point, t: real)
    ensures Mix(Mix(p0, p1, t), Mix(p1, p2, t), t)
         == Point(Quadratic(p0.x, p1.x, p2.x, t), Quadratic(p0.y, p1.y, p2.y, t))
  {
    Expand(p0.x, p1.x, p2.x, t);
    Expand(p0.y, p1.y, p2.y, t);
    hide Quadratic;
  }

  lemma Expand(a: real, b: real, c: real, t: real)
    ensures (a * (1.0 - t) + b * t) * (1.0 - t) + (b * (1.0 - t) + c * t) * t == Quadratic(a, b, c, t)
  {
  }

  // ---------- The Bernstein form ----------

  function Pow(a: real, n: nat): real {
    if n == 0 then 1.0 else a * Pow(a, n - 1)
  }

  /** Binomial coefficients, by Pascal's rule. */
  function Choose(n: nat, k: nat): nat {
    if k == 0 then 1 else if n == 0 then 0 else Choose(n - 1, k - 1) + Choose(n - 1, k)
  }

  function Factorial(n: nat): nat {
    if n == 0 then 1 else n * Factorial(n - 1)
  }

  lemma {:induction false} ChooseNone(n: nat, k: nat)
    requires n < k
    ensures Choose(n, k) == 0
  {
    if n > 0 {
      ChooseNone(n - 1, k - 1);
      ChooseNone(n - 1, k);
    }
  }

  lemma {:induction false} ChooseAll(n: nat)
    ensures Choose(n, n) == 1
  {
    if n > 0 {
      ChooseAll(n - 1);
      ChooseNone(n - 1, n);
    }
  }

  lemma Pascal(f: nat, g: nat, a: nat, b: nat, whole: nat, k: nat, j: nat)
    requires k > 0 && j > 0 && a * f * (j * g) == whole && b * (k * f) * g == whole
    ensures (a + b) * (k * f) * (j * g) == (k + j) * whole
  {
    calc {
      (a + b) * (k * f) * (j * g);
      k * (a * f * (j * g)) + j * (b * (k * f) * g);
      k * whole + j * whole;
    }
  }

  /** The binomial coefficient of n and k is n! / (k! (n - k)!). */
  lemma {:induction false} ChooseFactorial(n: nat, k: nat)
    requires k <= n
    ensures Choose(n, k) * Factorial(k) * Factorial(n - k) == Factorial(n)
  {
    if k == 0 {
    } else if k == n {
      ChooseAll(n);
    } else {
      ChooseFactorial(n - 1, k - 1);
      ChooseFactorial(n - 1, k);
      var j := n - k;
      assert n - 1 - (k - 1) == j && n - 1 - k == j - 1;
      Pascal(Factorial(k - 1), Factorial(j - 1), Choose(n - 1, k - 1), Choose(n - 1, k), Factorial(n - 1), k, j);
    }
  }

  function Weight(n: nat, k: nat, t: real): real
    requires k <= n
  {
    Choose(n, k) as real * Pow(1.0 - t, n - k) * Pow(t, k)
  }

  function Times(w: real, x: real): real {
    w * x
  }

  /** The sum of C(n, k) (1 - t)^(n - k) t^k c[k] for k below `m`, with n = |c| - 1. */
  function Bernstein(c: seq<real>, t: real, m: nat): real
    requires m <= |c|
  {
    if m == 0 then 0.0 else Bernstein(c, t, m - 1) + Times(Weight(|c| - 1, m - 1, t), c[m - 1])
  }

  function Xs(v: seq<Point>): (c: seq<real>)
    ensures |c| == |v|
  {
    seq(|v|, i requires 0 <= i < |v| => v[i].x)
  }

  function Ys(v: seq<Point>): (c: seq<real>)
    ensures |c| == |v|
  {
    seq(|v|, i requires 0 <= i < |v| => v[i].y)
  }

  /** The Bezier curve of the control points `v` in closed form. */
  function Curve(v: seq<Point>, t: real): Point {
    Point(Bernstein(Xs(v), t, |v|), Bernstein(Ys(v), t, |v|))
  }

  lemma WeightEnds(n: nat, t: real)
    ensures Weight(n, 0, t) == Pow(1.0 - t, n) && Weight(n, n, t) == Pow(t, n)
  {
    ChooseAll(n);
    assert Pow(t, 0) == 1.0 && Pow(1.0 - t, 0) == 1.0;
  }

  lemma PowStep(a: real, n: nat)
    ensures Pow(a, n + 1) == a * Pow(a, n) && Pow(a, 1) == a
  {
    assert Pow(a, 1) == a * Pow(a, 0);
  }

  lemma Regrouped(a: real, b: real, u: real, t: real, p: real, q: real)
    ensures (a + b) * (u * p) * (t * q) == u * (b * p * (t * q)) + t * (a * (u * p) * q)
  {
  }

  /** Pascal's rule for the weights. */
  lemma WeightStep(n: nat, k: nat, t: real)
    requires 0 < k < n
    ensures Weight(n, k, t) == (1.0 - t) * Weight(n - 1, k, t) + t * Weight(n - 1, k - 1, t)
  {
    var a, b := Choose(n - 1, k - 1) as real, Choose(n - 1, k) as real;
    assert Choose(n, k) as real == a + b;
    assert n - 1 - (k - 1) == n - k && n - k - 1 == n - 1 - k;
    Regrouped(a, b, 1.0 - t, t, Pow(1.0 - t, n - k - 1), Pow(t, k - 1));
  }

  function Blend(t: real, a: real, b: real): real {
    a * (1.0 - t) + b * t
  }

  lemma BlendAdd(t: real, f: real, b: real, x: real, y: real)
    ensures Blend(t, f, b) + Blend(t, x, y) == Blend(t, f + x, b + y)
    ensures Blend(t, 0.0, 0.0) == 0.0
  {
  }

  lemma BlendTimes(t: real, f: real, b: real, x: real)
    ensures Times(Blend(t, f, b), x) == Blend(t, Times(f, x), Times(b, x)) && Times(0.0, x) == 0.0
  {
    assert f * (1.0 - t) * x == f * x * (1.0 - t);
  }

  lemma BernsteinSnoc(c: seq<real>, t: real, m: nat)
    requires m < |c|
    ensures Bernstein(c, t, m + 1) == Bernstein(c, t, m) + Times(Weight(|c| - 1, m, t), c[m])
  {
    hide Times, Weight;
  }

  lemma BernsteinNone(c: seq<real>, t: real)
    ensures Bernstein(c, t, 0) == 0.0
  {
  }

  /** The weights of n + 1 values are blends of those of n, with no value beyond either end. */
  lemma WeightBlend(n: nat, k: nat, t: real)
    requires 0 < n && k <= n
    ensures Weight(n, k, t)
         == Blend(t, if k < n then Weight(n - 1, k, t) else 0.0, if k > 0 then Weight(n - 1, k - 1, t) else 0.0)
  {
    hide Weight, Pow;
    WeightEnds(n, t);
    WeightEnds(n - 1, t);
    PowStep(t, n - 1);
    PowStep(1.0 - t, n - 1);
    if 0 < k < n {
      WeightStep(n, k, t);
    }
  }

  /** The sum over n + 1 values is the blend of the sums over the first and over the last n of them. */
  lemma {:induction false} BernsteinStep(c: seq<real>, t: real, k: nat)
    requires |c| >= 2 && k < |c|
    ensures var n := |c| - 1;
            Bernstein(c, t, k + 1)
            == Blend(t, Bernstein(c[..n], t, if k < n then k + 1 else n), Bernstein(c[1..], t, k))
  {
    hide Weight, Times, Bernstein, Blend;
    var n, z := |c| - 1, c[k];
    var front, back := c[..n], c[1..];
    var w1 := if k < n then Weight(n - 1, k, t) else 0.0;
    var w2 := if k > 0 then Weight(n - 1, k - 1, t) else 0.0;
    BernsteinSnoc(c, t, k);
    WeightBlend(n, k, t);
    BlendTimes(t, w1, w2, z);
    if k == 0 {
      BernsteinNone(c, t);
      BernsteinNone(front, t);
      BernsteinNone(back, t);
      BlendAdd(t, 0.0, 0.0, Times(w1, z), Times(w2, z));
    } else {
      BernsteinStep(c, t, k - 1);
      BernsteinSnoc(back, t, k - 1);
      BlendAdd(t, Bernstein(front, t, k), Bernstein(back, t, k - 1), Times(w1, z), Times(w2, z));
    }
    if k < n {
      BernsteinSnoc(front, t, k);
    }
  }

  lemma CurveStep(v: seq<Point>, t: real)
    requires |v| > 2
    ensures Curve(v, t) == Mix(Curve(v[..|v| - 1], t), Curve(v[1..], t), t)
  {
    hide Bernstein;
    var n := |v| - 1;
    BernsteinStep(Xs(v), t, n);
    BernsteinStep(Ys(v), t, n);
    assert Xs(v)[..n] == Xs(v[..n]) && Xs(v)[1..] == Xs(v[1..]);
    assert Ys(v)[..n] == Ys(v[..n]) && Ys(v)[1..] == Ys(v[1..]);
  }

  lemma CurveOfTwo(a: real, b: real, t: real)
    ensures Bernstein([a, b], t, 2) == a * (1.0 - t) + b * t
  {
    hide Weight, Pow, Bernstein;
    WeightEnds(1, t);
    PowStep(t, 0);
    PowStep(1.0 - t, 0);
    BernsteinNone([a, b], t);
    BernsteinSnoc([a, b], t, 0);
    BernsteinSnoc([a, b], t, 1);
  }

  /** The recursion computes the Bezier curve of its control points, however many there are. */
  lemma {:induction false} BezierBernstein(v: seq<Point>, t: real)
    requires |v| >= 2
    ensures Bezier(v, t) == Curve(v, t)
  {
    hide Mix, Curve;
    if |v| == 2 {
      LineIsCurve(v, t);
    } else {
      BezierBernstein(v[..|v| - 1], t);
      BezierBernstein(v[1..], t);
      CurveStep(v, t);
    }
  }

  lemma LineIsCurve(v: seq<Point>, t: real)
    requires |v| == 2
    ensures Mix(v[0], v[1], t) == Curve(v, t)
  {
    hide Bernstein;
    CurveOfTwo(v[0].x, v[1].x, t);
    CurveOfTwo(v[0].y, v[1].y, t);
    assert Xs(v) == [v[0].x, v[1].x] && Ys(v) == [v[0].y, v[1].y];
  }

  // ---------- Where the curve runs ----------

  lemma {:induction false} BezierEnds(v: seq<Point>)
    requires |v| >= 2
    ensures Bezier(v, 0.0) == v[0] && Bezier(v, 1.0) == v[|v| - 1]
  {
    if |v| > 2 {
      BezierEnds(v[..|v| - 1]);
      BezierEnds(v[1..]);
    }
  }

  predicate InBox(p: Point, lo: Point, hi: Point) {
    lo.x <= p.x <= hi.x && lo.y <= p.y <= hi.y
  }

  lemma Between(a: real, b: real, lo: real, hi: real, u: real, t: real)
    requires lo <= a <= hi && lo <= b <= hi && u >= 0.0 && t >= 0.0 && u + t == 1.0
    ensures lo <= a * u + b * t <= hi
  {
    Above(a, b, lo, u, t);
    Above(-a, -b, -hi, u, t);
    assert (-a) * u == -(a * u) && (-b) * t == -(b * t);
  }

  lemma Above(a: real, b: real, lo: real, u: real, t: real)
    requires lo <= a && lo <= b && u >= 0.0 && t >= 0.0 && u + t == 1.0
    ensures lo <= a * u + b * t
  {
    Share(lo, a, u);
    Share(lo, b, t);
    Split(lo, u, t);
    AddUp(lo * u, a * u, lo * t, b * t);
  }

  lemma Split(a: real, u: real, t: real)
    ensures a * (u + t) == a * u + a * t
  {
  }

  lemma AddUp(a: real, b: real, c: real, d: real)
    requires a <= b && c <= d
    ensures a + c <= b + d
  {
  }

  lemma Share(a: real, b: real, t: real)
    requires a <= b && t >= 0.0
    ensures a * t <= b * t
  {
  }

  lemma MixInBox(p0: Point, p1: Point, t: real, lo: Point, hi: Point)
    requires InBox(p0, lo, hi) && InBox(p1, lo, hi) && 0.0 <= t <= 1.0
    ensures InBox(Mix(p0, p1, t), lo, hi)
  {
    Between(p0.x, p1.x, lo.x, hi.x, 1.0 - t, t);
    Between(p0.y, p1.y, lo.y, hi.y, 1.0 - t, t);
  }

  lemma {:induction false} BezierInBox(v: seq<Point>, t: real, lo: Point, hi: Point)
    requires |v| >= 2 && 0.0 <= t <= 1.0 && forall p <- v :: InBox(p, lo, hi)
    ensures InBox(Bezier(v, t), lo, hi)
  {
    hide Mix, InBox;
    if |v| == 2 {
      assert v[0] in v && v[1] in v;
      MixInBox(v[0], v[1], t, lo, hi);
    } else {
      BezierInBox(v[..|v| - 1], t, lo, hi);
      BezierInBox(v[1..], t, lo, hi);
      MixInBox(Bezier(v[..|v| - 1], t), Bezier(v[1..], t), t, lo, hi);
    }
  }

  /** The points that replace the corners `run` between `a` and `b`. */
  function Bend(a: Point, run: seq<Point>, b: Point): (r: seq<Point>)
    ensures |r| == 9
  {
    seq(9, k requires 0 <= k < 9 => Bezier([a] + run + [b], (k + 1) as real / 10.0))
  }

  /** The points of the Bezier curve at one tenth, two tenths, ..., nine tenths. */
  function Tenths(v: seq<Point>): (r: seq<Point>)
    ensures |r| == 9
  {
    seq(9, k requires 0 <= k < 9 => Curve(v, (k + 1) as real / 10.0))
  }

  /** In `path` they stand from `at` on, where `vp` has the `k` points they replace. */
  ghost predicate OnCurve(vp: seq<Point>, at: nat, k: nat, path: seq<Point>)
    requires 1 <= at && at + k < |vp|
  {
    at + 9 <= |path| && path[at..at + 9] == Tenths(vp[at - 1..at + k + 1])
  }

  /** `path` is `vp` with the `k` points from `at` on replaced by their bend. */
  ghost predicate Bends(vp: seq<Point>, at: nat, k: nat, path: seq<Point>)
    requires 1 <= at && at + k < |vp|
  {
    path == vp[..at] + Bend(vp[at - 1], vp[at..at + k], vp[at + k]) + vp[at + k..]
  }

  lemma BendIsCurve(a: Point, run: seq<Point>, b: Point)
    ensures Bend(a, run, b) == Tenths([a] + run + [b])
  {
    hide Bezier, Curve;
    forall k | 0 <= k < 9 ensures Bend(a, run, b)[k] == Tenths([a] + run + [b])[k] {
      BezierBernstein([a] + run + [b], (k + 1) as real / 10.0);
    }
  }

  lemma BendSnoc(a: Point, run: seq<Point>, b: Point, k: nat)
    requires k < 9
    ensures Bend(a, run, b)[..k + 1] == Bend(a, run, b)[..k] + [Bezier([a] + run + [b], (k + 1) as real / 10.0)]
  {
    hide Bezier;
  }

  lemma ThreeParts(vp: seq<Point>, lo: nat, n: nat)
    requires lo + n + 1 < |vp|
    ensures vp[lo..lo + n + 2] == [vp[lo]] + vp[lo + 1..lo + 1 + n] + [vp[lo + n + 1]]
  {
  }

  /** do_smooth: replace the points of `vp` at the places in `v`, and say where the traversal goes on. */
  method DoSmooth(v: seq<int>, vp: seq<Point>) returns (path: seq<Point>, i: int)
    requires v != [] && 1 <= v[0] && v[|v| - 1] < |vp| - 1
    requires forall j :: 0 <= j < |v| ==> v[j] == v[0] + j
    ensures Bends(vp, v[0], |v|, path)
    ensures i == v[0] + 9 && OnCurve(vp, v[0], |v|, path)
  {
    hide Bezier, Tenths, Bend;
    var w := [v[0] - 1] + v + [v[|v| - 1] + 1];
    assert forall j :: 0 <= j < |w| ==> w[j] == v[0] - 1 + j;
    var tvp := [];
    for j := 0 to |w|
      invariant tvp == vp[v[0] - 1..v[0] - 1 + j]
    {
      tvp := tvp + [vp[w[j]]];
    }
    path := vp;
    for j := 1 to |w| - 1
      invariant path == vp[..v[0]] + vp[v[0] + j - 1..]
    {
      path := path[..w[1]] + path[w[1] + 1..];
    }
    ThreeParts(vp, v[0] - 1, |v|);
    var result := [];
    for ii := 1 to 10
      invariant result == Bend(vp[v[0] - 1], vp[v[0]..v[0] + |v|], vp[v[0] + |v|])[..ii - 1]
    {
      BendSnoc(vp[v[0] - 1], vp[v[0]..v[0] + |v|], vp[v[0] + |v|], ii - 1);
      result := result + [Bezier(tvp, ii as real / 10.0)];
    }
    path := path[..w[1]] + result + path[w[1]..];
    i := w[1] + |result|;
    BendIsCurve(vp[v[0] - 1], vp[v[0]..v[0] + |v|], vp[v[0] + |v|]);
  }

  function Last<T>(s: seq<T>): T
    requires s != []
  {
    s[|s| - 1]
  }

  /** What follows the point `prev` of the result, when `run` is pending and `rest` is still to be seen. */
  function Onward(sharp: Corner, prev: Point, run: seq<Point>, rest: seq<Point>): seq<Point>
    requires rest != []
    decreases |rest|, |run|
  {
    if |rest| == 1 then
      if run == [] then rest else Bend(prev, run, rest[0]) + rest
    else if sharp(Last([prev] + run), rest[0], rest[1]) then
      Onward(sharp, prev, run + [rest[0]], rest[1..])
    else if run == [] then
      [rest[0]] + Onward(sharp, rest[0], [], rest[1..])
    else
      Bend(prev, run, rest[0]) + Onward(sharp, Last(Bend(prev, run, rest[0])), [], rest)
  }

  function Smoothed(sharp: Corner, vp: seq<Point>): seq<Point> {
    if |vp| < 2 then vp else [vp[0]] + Onward(sharp, vp[0], [], vp[1..])
  }

  /** The places before `i` that are pending. */
  ghost predicate Run(v: seq<int>, i: int) {
    forall j :: 0 <= j < |v| ==> v[j] == i - |v| + j
  }

  lemma RunSpan(v: seq<int>, i: int)
    requires Run(v, i)
    ensures Run(v + [i], i + 1) && Run([], i)
    ensures v != [] ==> v[0] == i - |v| && v[|v| - 1] == i - 1 && forall j :: 0 <= j < |v| ==> v[j] == v[0] + j
  {
  }

  lemma BendsUnique(vp: seq<Point>, at: nat, k: nat, a: seq<Point>, b: seq<Point>)
    requires 1 <= at && at + k < |vp| && Bends(vp, at, k, a) && Bends(vp, at, k, b)
    ensures a == b
  {
  }

  lemma SmoothedShort(sharp: Corner, path: seq<Point>)
    ensures |path| < 2 ==> Smoothed(sharp, path) == path
  {
  }

  /** The traversal stands at place `i` of `vp`, with the `k` points before it pending. */
  ghost predicate Stage(sharp: Corner, path: seq<Point>, vp: seq<Point>, i: int, k: nat) {
    && k < i < |vp|
    && Smoothed(sharp, path) == vp[..i - k] + Onward(sharp, vp[i - k - 1], vp[i - k..i], vp[i..])
  }

  lemma StageBegins(sharp: Corner, path: seq<Point>)
    requires |path| >= 2
    ensures Stage(sharp, path, path, 1, 0)
  {
    assert path[..1] == [path[0]] && path[1..1] == [];
  }

  lemma StageSharp(sharp: Corner, path: seq<Point>, vp: seq<Point>, i: int, k: nat)
    requires Stage(sharp, path, vp, i, k) && i < |vp| - 1 && sharp(vp[i - 1], vp[i], vp[i + 1])
    ensures Stage(sharp, path, vp, i + 1, k + 1)
  {
    assert vp[i..][1..] == vp[i + 1..] && vp[i - k..i] + [vp[i]] == vp[i - k..i + 1];
    assert Last([vp[i - k - 1]] + vp[i - k..i]) == vp[i - 1];
  }

  lemma StageKeep(sharp: Corner, path: seq<Point>, vp: seq<Point>, i: int)
    requires Stage(sharp, path, vp, i, 0) && i < |vp| - 1 && !sharp(vp[i - 1], vp[i], vp[i + 1])
    ensures Stage(sharp, path, vp, i + 1, 0)
  {
    assert vp[i..][1..] == vp[i + 1..] && vp[i..i] == [] && vp[i + 1..i + 1] == [];
    assert vp[..i + 1] == vp[..i] + [vp[i]];
  }

  lemma StageBend(sharp: Corner, path: seq<Point>, vp: seq<Point>, i: int, k: nat, after: seq<Point>)
    requires Stage(sharp, path, vp, i, k) && i < |vp| - 1 && k > 0 && !sharp(vp[i - 1], vp[i], vp[i + 1])
    requires Bends(vp, i - k, k, after)
    ensures Stage(sharp, path, after, i - k + 9, 0)
  {
    hide Bend;
    var bend := Bend(vp[i - k - 1], vp[i - k..i], vp[i]);
    var n := i - k + 9;
    assert after[n..] == vp[i..] && after[..n] == vp[..i - k] + bend && after[n..n] == [];
    assert after[n - 1] == Last(bend) && Last([vp[i - k - 1]] + vp[i - k..i]) == vp[i - 1];
  }

  lemma StageEnds(sharp: Corner, path: seq<Point>, vp: seq<Point>, i: int, k: nat)
    requires Stage(sharp, path, vp, i, k) && i == |vp| - 1
    ensures if k == 0 then Smoothed(sharp, path) == vp else Bends(vp, i - k, k, Smoothed(sharp, path))
  {
    hide Bend;
    assert vp[..i] + vp[i..] == vp;
  }

  /** smooth_path */
  method SmoothPath(sharp: Corner, path: seq<Point>) returns (vp: seq<Point>)
    ensures vp == Smoothed(sharp, path)
  {
    vp := path;
    if |path| >= 2 {
      StageBegins(sharp, path);
    }
    SmoothedShort(sharp, path);
    hide Stage, OnCurve, Smoothed, Bend, Run;
    var v: seq<int> := [];
    var i := 1;
    RunSpan([], 1);
    while i < |vp| - 1
      invariant |path| < 2 ==> vp == path && v == []
      invariant |path| >= 2 ==> |v| < i < |vp| && Stage(sharp, path, vp, i, |v|)
      invariant Run(v, i)
      decreases |vp| - i, |v|
    {
      RunSpan(v, i);
      if sharp(vp[i - 1], vp[i], vp[i + 1]) {
        StageSharp(sharp, path, vp, i, |v|);
        v := v + [i];
        i := i + 1;
      } else {
        if v != [] {
          ghost var before, at, k := vp, i, |v|;
          vp, i := DoSmooth(v, vp);
          StageBend(sharp, path, before, at, k, vp);
          v := [];
        } else {
          StageKeep(sharp, path, vp, i);
          i := i + 1;
        }
        RunSpan([], i);
      }
    }
    RunSpan(v, i);
    if |path| >= 2 {
      StageEnds(sharp, path, vp, i, |v|);
    }
    if v != [] {
      ghost var before, k := vp, |v|;
      var unused: int;
      vp, unused := DoSmooth(v, vp);
      BendsUnique(before, i - k, k, vp, Smoothed(sharp, path));
    }
  }

  /** How the smoothed path comes about: a point stays, or a run of corners becomes a bend. */
  datatype Piece = Kept(point: Point) | Bent(run: seq<Point>)

  function Replaced(piece: Piece): seq<Point> {
    match piece case Kept(p) => [p] case Bent(run) => run
  }

  /** The points of the old path that the pieces stand for. */
  function Replaceds(pieces: seq<Piece>): seq<Point> {
    if pieces == [] then [] else Replaced(pieces[0]) + Replaceds(pieces[1..])
  }

  /** The old points after the first piece. */
  function Rest(pieces: seq<Piece>, last: Point): (r: seq<Point>)
    requires pieces != []
    ensures r != []
  {
    Replaceds(pieces[1..]) + [last]
  }

  function Image(prev: Point, pieces: seq<Piece>, last: Point): (r: seq<Point>)
    requires pieces != []
    ensures r != []
  {
    match pieces[0]
    case Kept(p) => [p]
    case Bent(run) => Bend(prev, run, Rest(pieces, last)[0])
  }

  function Images(prev: Point, pieces: seq<Piece>, last: Point): seq<Point>
    decreases |pieces|
  {
    if pieces == [] then []
    else
      var image := Image(prev, pieces, last);
      image + Images(Last(image), pieces[1..], last)
  }

  /** Point `j` of `points` is a sharp corner of the path that comes from `prev`. */
  predicate SharpAt(sharp: Corner, prev: Point, points: seq<Point>, j: nat)
    requires j + 1 < |points|
  {
    sharp(if j == 0 then prev else points[j - 1], points[j], points[j + 1])
  }

  /** Kept points are no corners; the points of a run are, and the run could not be longer. */
  predicate Legal(sharp: Corner, prev: Point, pieces: seq<Piece>, last: Point)
    decreases |pieces|
  {
    pieces == [] ||
    (&& pieces[0] != Bent([])
     && var rest := Rest(pieces, last);
        match pieces[0]
        case Kept(p) =>
          !sharp(prev, p, rest[0]) && Legal(sharp, p, pieces[1..], last)
        case Bent(run) =>
          && (forall j: nat :: j < |run| ==> SharpAt(sharp, prev, run + rest, j))
          && (|rest| > 1 ==> !SharpAt(sharp, prev, run + rest, |run|))
          && Legal(sharp, Last(Bend(prev, run, rest[0])), pieces[1..], last))
  }

  /** The pieces found from `prev` on, with `run` pending and `rest` still to be seen. */
  function PiecesFrom(sharp: Corner, prev: Point, run: seq<Point>, rest: seq<Point>): seq<Piece>
    requires rest != []
    decreases |rest|, |run|
  {
    if |rest| == 1 then
      if run == [] then [] else [Bent(run)]
    else if sharp(Last([prev] + run), rest[0], rest[1]) then
      PiecesFrom(sharp, prev, run + [rest[0]], rest[1..])
    else if run == [] then
      [Kept(rest[0])] + PiecesFrom(sharp, rest[0], [], rest[1..])
    else
      [Bent(run)] + PiecesFrom(sharp, Last(Bend(prev, run, rest[0])), [], rest)
  }

  /** All of `run` were sharp, in a path that goes on with `rest`. */
  predicate Pending(sharp: Corner, prev: Point, run: seq<Point>, rest: seq<Point>) {
    rest != [] && forall j: nat :: j < |run| ==> SharpAt(sharp, prev, run + rest, j)
  }

  lemma PendingMore(sharp: Corner, prev: Point, run: seq<Point>, rest: seq<Point>)
    requires Pending(sharp, prev, run, rest) && |rest| > 1 && sharp(Last([prev] + run), rest[0], rest[1])
    ensures Pending(sharp, prev, run + [rest[0]], rest[1..])
  {
    assert (run + [rest[0]]) + rest[1..] == run + rest;
    forall j: nat | j < |run| + 1 ensures SharpAt(sharp, prev, run + rest, j) {
      if j == |run| {
        assert (run + rest)[j] == rest[0] && (run + rest)[j + 1] == rest[1];
        assert Last([prev] + run) == if j == 0 then prev else (run + rest)[j - 1];
      }
    }
  }

  /** `pieces` explain how `points`, after `prev`, became `out`. */
  predicate Describes(sharp: Corner, prev: Point, pieces: seq<Piece>, points: seq<Point>, out: seq<Point>) {
    && points != []
    && Legal(sharp, prev, pieces, Last(points))
    && points == Replaceds(pieces) + [Last(points)]
    && out == Images(prev, pieces, Last(points)) + [Last(points)]
  }

  lemma NoneDescribes(sharp: Corner, prev: Point, last: Point)
    ensures Describes(sharp, prev, [], [last], [last])
  {
  }

  lemma KeptDescribes(sharp: Corner, prev: Point, p: Point, tail: seq<Piece>, rest: seq<Point>, out: seq<Point>)
    requires Describes(sharp, p, tail, rest, out) && !sharp(prev, p, rest[0])
    ensures Describes(sharp, prev, [Kept(p)] + tail, [p] + rest, [p] + out)
  {
    var pieces, last := [Kept(p)] + tail, Last(rest);
    assert pieces[1..] == tail && Rest(pieces, last) == rest && Last([p] + rest) == last;
    assert Images(prev, pieces, last) == [p] + Images(p, tail, last);
    assert Replaceds(pieces) == [p] + Replaceds(tail);
    hide Images, Replaceds;
    assert [p] + out == ([p] + Images(p, tail, last)) + [last];
    assert [p] + rest == ([p] + Replaceds(tail)) + [last];
  }

  lemma BentDescribes(sharp: Corner, prev: Point, run: seq<Point>, tail: seq<Piece>, rest: seq<Point>, out: seq<Point>)
    requires Pending(sharp, prev, run, rest) && run != []
    requires |rest| > 1 ==> !SharpAt(sharp, prev, run + rest, |run|)
    requires Describes(sharp, Last(Bend(prev, run, rest[0])), tail, rest, out)
    ensures Describes(sharp, prev, [Bent(run)] + tail, run + rest, Bend(prev, run, rest[0]) + out)
  {
    hide Bend;
    var pieces, last, bend := [Bent(run)] + tail, Last(rest), Bend(prev, run, rest[0]);
    assert pieces[1..] == tail && Rest(pieces, last) == rest && Last(run + rest) == last;
    assert Images(prev, pieces, last) == bend + Images(Last(bend), tail, last);
    assert Replaceds(pieces) == run + Replaceds(tail);
    assert Legal(sharp, prev, pieces, last);
    hide Images, Replaceds, Legal;
    assert bend + out == (bend + Images(Last(bend), tail, last)) + [last];
    assert run + rest == (run + Replaceds(tail)) + [last];
  }

  lemma {:induction false} PiecesDescribe(sharp: Corner, prev: Point, run: seq<Point>, rest: seq<Point>)
    requires Pending(sharp, prev, run, rest)
    ensures Describes(sharp, prev, PiecesFrom(sharp, prev, run, rest), run + rest, Onward(sharp, prev, run, rest))
    decreases |rest|, |run|
  {
    hide Describes, Bend, SharpAt;
    if |rest| > 1 && sharp(Last([prev] + run), rest[0], rest[1]) {
      PendingMore(sharp, prev, run, rest);
      PiecesDescribe(sharp, prev, run + [rest[0]], rest[1..]);
      assert run + rest == (run + [rest[0]]) + rest[1..];
    } else if run == [] {
      if |rest| == 1 {
        NoneDescribes(sharp, prev, rest[0]);
        assert run + rest == rest == [rest[0]];
      } else {
        PiecesDescribe(sharp, rest[0], [], rest[1..]);
        KeptDescribes(sharp, prev, rest[0], PiecesFrom(sharp, rest[0], [], rest[1..]), [] + rest[1..],
                      Onward(sharp, rest[0], [], rest[1..]));
        assert run + rest == [rest[0]] + ([] + rest[1..]);
      }
    } else {
      NotSharpAfter(sharp, prev, run, rest);
      var onto := Last(Bend(prev, run, rest[0]));
      if |rest| == 1 {
        NoneDescribes(sharp, onto, rest[0]);
        assert rest == [rest[0]];
        BentDescribes(sharp, prev, run, [], rest, rest);
        assert [Bent(run)] + [] == [Bent(run)];
      } else {
        PiecesDescribe(sharp, onto, [], rest);
        assert [] + rest == rest;
        BentDescribes(sharp, prev, run, PiecesFrom(sharp, onto, [], rest), rest, Onward(sharp, onto, [], rest));
      }
    }
  }

  lemma NotSharpAfter(sharp: Corner, prev: Point, run: seq<Point>, rest: seq<Point>)
    requires rest != [] && (|rest| > 1 ==> !sharp(Last([prev] + run), rest[0], rest[1]))
    ensures |rest| > 1 ==> !SharpAt(sharp, prev, run + rest, |run|)
  {
  }

  function RunLength(piece: Piece): nat {
    match piece case Kept(_) => 0 case Bent(run) => |run|
  }

  /** The first piece can be read off the old path. */
  lemma FirstPiece(sharp: Corner, prev: Point, pieces: seq<Piece>, last: Point)
    requires Legal(sharp, prev, pieces, last) && pieces != []
    ensures var points := Replaceds(pieces) + [last]; var n := RunLength(pieces[0]);
            && n < |points| && |points| > 1
            && pieces[0] == (if n == 0 then Kept(points[0]) else Bent(points[..n]))
            && (forall j: nat :: j < n ==> SharpAt(sharp, prev, points, j))
            && (n + 1 < |points| ==> !SharpAt(sharp, prev, points, n))
  {
    var points, rest := Replaceds(pieces) + [last], Rest(pieces, last);
    match pieces[0]
    case Kept(p) =>
      assert points == [p] + rest;
    case Bent(run) =>
      assert points == run + rest;
      assert points[..|run|] == run;
  }

  /** There is only one way to cut a path into such pieces. */
  lemma {:induction false} PiecesUnique(sharp: Corner, prev: Point, a: seq<Piece>, b: seq<Piece>, last: Point)
    requires Legal(sharp, prev, a, last) && Legal(sharp, prev, b, last) && Replaceds(a) == Replaceds(b)
    ensures a == b
    decreases |a|
  {
    if a == [] || b == [] {
      if a != [] {
        FirstPiece(sharp, prev, a, last);
      } else if b != [] {
        FirstPiece(sharp, prev, b, last);
      }
    } else {
      FirstPiece(sharp, prev, a, last);
      FirstPiece(sharp, prev, b, last);
      var points := Replaceds(a) + [last];
      var m, n := RunLength(a[0]), RunLength(b[0]);
      assert m == n && a[0] == b[0];
      assert Replaceds(a[1..]) == Replaceds(a)[|Replaced(a[0])|..];
      assert Replaceds(b[1..]) == Replaceds(b)[|Replaced(b[0])|..];
      PiecesUnique(sharp, if a[0].Kept? then a[0].point else Last(Bend(prev, a[0].run, Rest(a, last)[0])),
                   a[1..], b[1..], last);
      assert a == [a[0]] + a[1..] && b == [b[0]] + b[1..];
    }
  }

  /** The smoothed path is the one path that can be explained by keeping points and bending runs. */
  lemma SmoothedCharacterised(sharp: Corner, vp: seq<Point>, out: seq<Point>)
    requires |vp| >= 2
    ensures out == Smoothed(sharp, vp) <==>
      out != [] && out[0] == vp[0] && exists pieces :: Describes(sharp, vp[0], pieces, vp[1..], out[1..])
  {
    if out == Smoothed(sharp, vp) {
      PiecesDescribe(sharp, vp[0], [], vp[1..]);
      hide Describes;
      assert [] + vp[1..] == vp[1..] && out[1..] == Onward(sharp, vp[0], [], vp[1..]);
    }
    if out != [] && out[0] == vp[0] && exists pieces :: Describes(sharp, vp[0], pieces, vp[1..], out[1..]) {
      var pieces :| Describes(sharp, vp[0], pieces, vp[1..], out[1..]);
      OnlySmoothed(sharp, vp, out[1..], pieces);
      assert out == [out[0]] + out[1..];
    }
  }

  lemma OnlySmoothed(sharp: Corner, vp: seq<Point>, tail: seq<Point>, pieces: seq<Piece>)
    requires |vp| >= 2 && Describes(sharp, vp[0], pieces, vp[1..], tail)
    ensures [vp[0]] + tail == Smoothed(sharp, vp)
  {
    hide Legal, Images, PiecesFrom;
    var all := PiecesFrom(sharp, vp[0], [], vp[1..]);
    PiecesDescribe(sharp, vp[0], [], vp[1..]);
    assert [] + vp[1..] == vp[1..];
    assert Replaceds(pieces) == vp[1..][..|vp| - 2] == Replaceds(all);
    PiecesUnique(sharp, vp[0], pieces, all, Last(vp[1..]));
  }

  /** The number of points that the pieces add. */
  function Growth(pieces: seq<Piece>): int {
    if pieces == [] then 0
    else (match pieces[0] case Kept(_) => 0 case Bent(run) => 9 - |run|) + Growth(pieces[1..])
  }

  lemma {:induction false} ImagesLength(prev: Point, pieces: seq<Piece>, last: Point)
    ensures |Images(prev, pieces, last)| == |Replaceds(pieces)| + Growth(pieces)
    decreases |pieces|
  {
    if pieces != [] {
      ImagesLength(Last(Image(prev, pieces, last)), pieces[1..], last);
    }
  }

  /** The ends stay, and every run of k corners becomes nine points. */
  lemma SmoothedShape(sharp: Corner, vp: seq<Point>)
    requires |vp| >= 2
    ensures var r := Smoothed(sharp, vp);
            && |r| >= 2 && r[0] == vp[0] && Last(r) == Last(vp)
            && |r| == |vp| + Growth(PiecesFrom(sharp, vp[0], [], vp[1..]))
  {
    var pieces := PiecesFrom(sharp, vp[0], [], vp[1..]);
    PiecesDescribe(sharp, vp[0], [], vp[1..]);
    assert [] + vp[1..] == vp[1..];
    ImagesLength(vp[0], pieces, Last(vp[1..]));
  }

  lemma BendInBox(a: Point, run: seq<Point>, b: Point, lo: Point, hi: Point)
    requires forall p <- [a] + run + [b] :: InBox(p, lo, hi)
    ensures forall p <- Bend(a, run, b) :: InBox(p, lo, hi)
  {
    hide InBox, Bezier;
    forall k | 0 <= k < 9 ensures InBox(Bend(a, run, b)[k], lo, hi) {
      BezierInBox([a] + run + [b], (k + 1) as real / 10.0, lo, hi);
    }
  }

  lemma {:induction false} OnwardInBox(sharp: Corner, prev: Point, run: seq<Point>, rest: seq<Point>,
                                       lo: Point, hi: Point)
    requires rest != [] && forall p <- [prev] + run + rest :: InBox(p, lo, hi)
    ensures forall p <- Onward(sharp, prev, run, rest) :: InBox(p, lo, hi)
    decreases |rest|, |run|
  {
    hide InBox, Bend;
    if |rest| > 1 && sharp(Last([prev] + run), rest[0], rest[1]) {
      assert run + rest == run + [rest[0]] + rest[1..];
      OnwardInBox(sharp, prev, run + [rest[0]], rest[1..], lo, hi);
    } else if run != [] {
      var bend := Bend(prev, run, rest[0]);
      BendInBox(prev, run, rest[0], lo, hi);
      if |rest| > 1 {
        assert Last(bend) in bend;
        OnwardInBox(sharp, Last(bend), [], rest, lo, hi);
      }
    } else if |rest| > 1 {
      assert rest[0] in rest;
      OnwardInBox(sharp, rest[0], [], rest[1..], lo, hi);
    }
  }

  /** Smoothing never leaves a box that holds the path. */
  lemma SmoothedInBox(sharp: Corner, vp: seq<Point>, lo: Point, hi: Point)
    requires forall p <- vp :: InBox(p, lo, hi)
    ensures forall p <- Smoothed(sharp, vp) :: InBox(p, lo, hi)
  {
    hide InBox;
    if |vp| >= 2 {
      assert vp == [vp[0]] + [] + vp[1..];
      OnwardInBox(sharp, vp[0], [], vp[1..], lo, hi);
    }
  }

  // ---------- Corners of the path itself ----------

  /** The cutting that tests the corners of the path as it is given: `prev` and `run` are its own points. */
  function CornersFrom(sharp: Corner, prev: Point, run: seq<Point>, rest: seq<Point>): seq<Piece>
    requires rest != []
    decreases |rest|
  {
    if |rest| == 1 then
      if run == [] then [] else [Bent(run)]
    else if sharp(Last([prev] + run), rest[0], rest[1]) then
      CornersFrom(sharp, prev, run + [rest[0]], rest[1..])
    else if run == [] then
      [Kept(rest[0])] + CornersFrom(sharp, rest[0], [], rest[1..])
    else
      [Bent(run), Kept(rest[0])] + CornersFrom(sharp, rest[0], [], rest[1..])
  }

  /** The pieces are the points that are no corners of the path and its maximal runs of corners. */
  predicate Maximal(sharp: Corner, prev: Point, pieces: seq<Piece>, last: Point)
    decreases |pieces|
  {
    pieces == [] ||
    (&& pieces[0] != Bent([])
     && var rest := Rest(pieces, last);
        match pieces[0]
        case Kept(p) =>
          !sharp(prev, p, rest[0]) && Maximal(sharp, p, pieces[1..], last)
        case Bent(run) =>
          && (forall j: nat :: j < |run| ==> SharpAt(sharp, prev, run + rest, j))
          && (|rest| > 1 ==> !SharpAt(sharp, prev, run + rest, |run|))
          && Maximal(sharp, Last(run), pieces[1..], last))
  }

  /** After a run of corners, the point that follows is no corner when seen from the end of the bend. */
  predicate Calm(sharp: Corner, prev: Point, pieces: seq<Piece>, last: Point)
    decreases |pieces|
  {
    pieces == [] ||
    match pieces[0]
    case Kept(p) => Calm(sharp, p, pieces[1..], last)
    case Bent(run) =>
      var rest := Rest(pieces, last);
      && (|rest| > 1 ==> !sharp(Last(Bend(prev, run, rest[0])), rest[0], rest[1]))
      && Calm(sharp, Last([prev] + run), pieces[1..], last)
  }

  lemma KeptFirst(p: Point, tail: seq<Piece>)
    ensures Replaceds([Kept(p)] + tail) == [p] + Replaceds(tail)
  {
    assert ([Kept(p)] + tail)[1..] == tail;
  }

  lemma BentFirst(run: seq<Point>, tail: seq<Piece>)
    ensures Replaceds([Bent(run)] + tail) == run + Replaceds(tail)
  {
    assert ([Bent(run)] + tail)[1..] == tail;
  }

  lemma {:induction false} CornersReplace(sharp: Corner, prev: Point, run: seq<Point>, rest: seq<Point>)
    requires rest != []
    ensures Replaceds(CornersFrom(sharp, prev, run, rest)) + [Last(rest)] == run + rest
    decreases |rest|
  {
    hide Replaceds;
    if |rest| == 1 {
      assert rest == [rest[0]];
      NoneReplaced(run);
    } else if sharp(Last([prev] + run), rest[0], rest[1]) {
      CornersReplace(sharp, prev, run + [rest[0]], rest[1..]);
      assert (run + [rest[0]]) + rest[1..] == run + rest;
    } else {
      CornersReplace(sharp, rest[0], [], rest[1..]);
      var tail := CornersFrom(sharp, rest[0], [], rest[1..]);
      KeptFirst(rest[0], tail);
      BentFirst(run, [Kept(rest[0])] + tail);
      assert [Bent(run)] + ([Kept(rest[0])] + tail) == [Bent(run), Kept(rest[0])] + tail;
      CornersRegroup(run, rest, Replaceds(tail));
    }
  }

  lemma NoneReplaced(run: seq<Point>)
    ensures Replaceds([]) == [] && Replaceds([Bent(run)]) == run
  {
    assert Replaceds([Bent(run)]) == run + Replaceds([Bent(run)][1..]);
  }

  lemma CornersRegroup(run: seq<Point>, rest: seq<Point>, tail: seq<Point>)
    requires |rest| > 1 && tail + [Last(rest)] == [] + rest[1..]
    ensures ([rest[0]] + tail) + [Last(rest)] == rest
    ensures (run + ([rest[0]] + tail)) + [Last(rest)] == run + rest
  {
    assert ([rest[0]] + tail) + [Last(rest)] == [rest[0]] + (tail + [Last(rest)]);
  }

  /** Where a run was pending, the traversal begins with its bend. */
  lemma {:induction false} BeginsBent(sharp: Corner, prev: Point, run: seq<Point>, rest: seq<Point>)
    requires rest != [] && run != []
    ensures PiecesFrom(sharp, prev, run, rest) != [] && PiecesFrom(sharp, prev, run, rest)[0].Bent?
    decreases |rest|
  {
    if |rest| > 1 && sharp(Last([prev] + run), rest[0], rest[1]) {
      BeginsBent(sharp, prev, run + [rest[0]], rest[1..]);
    }
  }

  /** A run of corners ends before `rest`, which has more than one point. */
  lemma AfterRun(sharp: Corner, prev: Point, run: seq<Point>, rest: seq<Point>)
    requires |rest| > 1 && run != [] && !sharp(Last([prev] + run), rest[0], rest[1])
    ensures var last := Last(rest); var cut := CornersFrom(sharp, prev, run, rest);
            var tail := CornersFrom(sharp, rest[0], [], rest[1..]);
            && cut == [Bent(run)] + ([Kept(rest[0])] + tail)
            && Rest(cut, last) == rest && Rest(cut[1..], last) == rest[1..]
            && cut[1..] == [Kept(rest[0])] + tail && cut[1..][1..] == tail
  {
    CornersUnfold(sharp, prev, run, rest);
    CornersReplace(sharp, rest[0], [], rest[1..]);
    hide CornersFrom, Replaceds;
    var tail := CornersFrom(sharp, rest[0], [], rest[1..]);
    KeptFirst(rest[0], tail);
    CornersRegroup(run, rest, Replaceds(tail));
    PieceTails(Bent(run), Kept(rest[0]), tail);
  }

  lemma CornersUnfold(sharp: Corner, prev: Point, run: seq<Point>, rest: seq<Point>)
    requires |rest| > 1 && run != [] && !sharp(Last([prev] + run), rest[0], rest[1])
    ensures CornersFrom(sharp, prev, run, rest)
         == [Bent(run), Kept(rest[0])] + CornersFrom(sharp, rest[0], [], rest[1..])
  {
  }

  lemma PieceTails(first: Piece, second: Piece, tail: seq<Piece>)
    ensures var cut := [first, second] + tail;
            && cut == [first] + ([second] + tail) && cut[1..] == [second] + tail && cut[1..][1..] == tail
  {
  }

  /** The traversal cuts the path into its own maximal runs of corners exactly if it is calm. */
  lemma {:induction false} TraversalFindsCorners(sharp: Corner, prev: Point, run: seq<Point>, rest: seq<Point>)
    requires rest != []
    ensures PiecesFrom(sharp, prev, run, rest) == CornersFrom(sharp, prev, run, rest)
       <==> Calm(sharp, prev, CornersFrom(sharp, prev, run, rest), Last(rest))
    decreases |rest|
  {
    hide Bend;
    var last, cut := Last(rest), CornersFrom(sharp, prev, run, rest);
    if |rest| == 1 {
    } else if sharp(Last([prev] + run), rest[0], rest[1]) {
      TraversalFindsCorners(sharp, prev, run + [rest[0]], rest[1..]);
    } else if run == [] {
      TraversalFindsCorners(sharp, rest[0], [], rest[1..]);
      assert cut[1..] == CornersFrom(sharp, rest[0], [], rest[1..]);
      assert PiecesFrom(sharp, prev, run, rest)[1..] == PiecesFrom(sharp, rest[0], [], rest[1..]);
    } else {
      AfterRun(sharp, prev, run, rest);
      var onto := Last(Bend(prev, run, rest[0]));
      var found := PiecesFrom(sharp, prev, run, rest);
      assert found[1..] == PiecesFrom(sharp, onto, [], rest);
      if sharp(onto, rest[0], rest[1]) {
        assert PiecesFrom(sharp, onto, [], rest) == PiecesFrom(sharp, onto, [] + [rest[0]], rest[1..]);
        BeginsBent(sharp, onto, [] + [rest[0]], rest[1..]);
      } else {
        TraversalFindsCorners(sharp, rest[0], [], rest[1..]);
        assert found[1..] == [Kept(rest[0])] + PiecesFrom(sharp, rest[0], [], rest[1..]);
        assert found[1..][1..] == PiecesFrom(sharp, rest[0], [], rest[1..]);
      }
    }
  }

  /** The cutting is the one into maximal runs of corners of the path. */
  lemma {:induction false} CornersAreMaximal(sharp: Corner, prev: Point, run: seq<Point>, rest: seq<Point>)
    requires Pending(sharp, prev, run, rest)
    ensures Maximal(sharp, prev, CornersFrom(sharp, prev, run, rest), Last(rest))
    decreases |rest|
  {
    hide SharpAt, Replaceds, Maximal;
    if |rest| == 1 {
      LastMaximal(sharp, prev, run, rest);
    } else if sharp(Last([prev] + run), rest[0], rest[1]) {
      PendingMore(sharp, prev, run, rest);
      CornersAreMaximal(sharp, prev, run + [rest[0]], rest[1..]);
    } else {
      CornersAreMaximal(sharp, rest[0], [], rest[1..]);
      CornersReplace(sharp, rest[0], [], rest[1..]);
      var tail := CornersFrom(sharp, rest[0], [], rest[1..]);
      KeptMaximal(sharp, Last([prev] + run), rest, tail);
      if run != [] {
        AfterRun(sharp, prev, run, rest);
        NotSharpAfter(sharp, prev, run, rest);
        BentMaximal(sharp, prev, run, rest, [Kept(rest[0])] + tail);
      }
    }
  }

  lemma LastMaximal(sharp: Corner, prev: Point, run: seq<Point>, rest: seq<Point>)
    requires Pending(sharp, prev, run, rest) && |rest| == 1
    ensures Maximal(sharp, prev, CornersFrom(sharp, prev, run, rest), Last(rest))
  {
    assert rest == [rest[0]] && [Bent(run)][1..] == [];
    assert run != [] ==> Rest([Bent(run)], rest[0]) == rest;
  }

  lemma BentMaximal(sharp: Corner, prev: Point, run: seq<Point>, rest: seq<Point>, tail: seq<Piece>)
    requires Pending(sharp, prev, run, rest) && run != [] && Rest([Bent(run)] + tail, Last(rest)) == rest
    requires |rest| > 1 ==> !SharpAt(sharp, prev, run + rest, |run|)
    requires Maximal(sharp, Last(run), tail, Last(rest))
    ensures Maximal(sharp, prev, [Bent(run)] + tail, Last(rest))
  {
    hide SharpAt, Replaceds;
    assert ([Bent(run)] + tail)[1..] == tail;
  }

  lemma KeptMaximal(sharp: Corner, prev: Point, rest: seq<Point>, tail: seq<Piece>)
    requires |rest| > 1 && !sharp(prev, rest[0], rest[1]) && Maximal(sharp, rest[0], tail, Last(rest))
    requires Replaceds(tail) + [Last(rest)] == [] + rest[1..]
    ensures Maximal(sharp, prev, [Kept(rest[0])] + tail, Last(rest))
  {
    hide Replaceds;
    var pieces := [Kept(rest[0])] + tail;
    assert pieces[1..] == tail && [] + rest[1..] == rest[1..];
  }

  /** The pieces of a whole path: those of the traversal, and its own runs of corners. */
  function Traversed(sharp: Corner, vp: seq<Point>): seq<Piece>
    requires |vp| >= 2
  {
    PiecesFrom(sharp, vp[0], [], vp[1..])
  }

  function Corners(sharp: Corner, vp: seq<Point>): seq<Piece>
    requires |vp| >= 2
  {
    CornersFrom(sharp, vp[0], [], vp[1..])
  }

  /** What is promised of each maximal run of corners holds exactly of the calm paths: the traversal then
      replaces these runs and nothing else, each run of k by nine points. */
  lemma MaximalRunsReplaced(sharp: Corner, vp: seq<Point>)
    requires |vp| >= 2
    ensures Maximal(sharp, vp[0], Corners(sharp, vp), Last(vp))
    ensures Traversed(sharp, vp) == Corners(sharp, vp) <==> Calm(sharp, vp[0], Corners(sharp, vp), Last(vp))
    ensures Calm(sharp, vp[0], Corners(sharp, vp), Last(vp)) ==>
      && Smoothed(sharp, vp) == [vp[0]] + Images(vp[0], Corners(sharp, vp), Last(vp)) + [Last(vp)]
      && |Smoothed(sharp, vp)| == |vp| + Growth(Corners(sharp, vp))
  {
    hide PiecesFrom, CornersFrom, Onward, Images, Growth, Calm, Maximal, Legal, Replaceds;
    CornersAreMaximal(sharp, vp[0], [], vp[1..]);
    TraversalFindsCorners(sharp, vp[0], [], vp[1..]);
    PiecesDescribe(sharp, vp[0], [], vp[1..]);
    SmoothedShape(sharp, vp);
    assert [] + vp[1..] == vp[1..];
  }

  // ---------- A path that is not calm ----------

  /** A turn of about fifteen degrees or more. */
  predicate Turns(a: Point, b: Point, c: Point) {
    var dot := (b.x - a.x) * (c.x - b.x) + (b.y - a.y) * (c.y - b.y);
    var u := (b.x - a.x) * (b.x - a.x) + (b.y - a.y) * (b.y - a.y);
    var v := (c.x - b.x) * (c.x - b.x) + (c.y - b.y) * (c.y - b.y);
    dot <= 0.0 || 100.0 * dot * dot < 93.0 * u * v
  }

  const HOOK := [Point(0.0, 100.0), Point(0.0, 0.0), Point(1.0, 0.0), Point(2.0, 0.0), Point(3.0, 0.0)]

  lemma HookTurns()
    ensures Turns(HOOK[0], HOOK[1], HOOK[2]) && !Turns(HOOK[1], HOOK[2], HOOK[3]) && !Turns(HOOK[2], HOOK[3], HOOK[4])
  {
  }

  lemma HookCurve()
    ensures Quadratic(0.0, 0.0, 1.0, 0.9) == 0.81 && Quadratic(100.0, 0.0, 0.0, 0.9) == 1.0
  {
  }

  lemma HookSeen()
    ensures Turns(Point(0.81, 1.0), HOOK[2], HOOK[3])
  {
  }

  /** The bend ends beside the straight part of the path, which seems to turn there. */
  lemma HookBend()
    ensures Last(Bend(HOOK[0], [HOOK[1]], HOOK[2])) == Point(0.81, 1.0)
  {
    hide Bezier, Quadratic;
    HookCurve();
    var v := [HOOK[0]] + [HOOK[1]] + [HOOK[2]];
    assert v == [HOOK[0], HOOK[1], HOOK[2]];
    BezierQuadratic(HOOK[0], HOOK[1], HOOK[2], 0.9);
    assert 9 as real / 10.0 == 0.9;
  }

  /** A path with one corner, where the point after it is replaced as well, by a bend of its own. */
  lemma TouchingRuns()
    ensures Corners(Turns, HOOK) == [Bent([HOOK[1]]), Kept(HOOK[2]), Kept(HOOK[3])]
    ensures var found := Traversed(Turns, HOOK);
            |found| >= 2 && found[0] == Bent([HOOK[1]]) && found[1] == Bent([HOOK[2]])
  {
    HookTurns();
    HookBend();
    HookSeen();
    var p0, p1, p2, p3, p4 := HOOK[0], HOOK[1], HOOK[2], HOOK[3], HOOK[4];
    hide Turns, Bend, Bezier;
    assert HOOK[1..] == [p1, p2, p3, p4] && [p1, p2, p3, p4][1..] == [p2, p3, p4];
    assert [p2, p3, p4][1..] == [p3, p4] && [p3, p4][1..] == [p4];
    assert [] + [p1] == [p1] && [] + [p2] == [p2];
    var onto := Last(Bend(p0, [p1], p2));
    assert PiecesFrom(Turns, p2, [], [p3, p4]) == [Kept(p3)] + PiecesFrom(Turns, p3, [], [p4]);
    assert PiecesFrom(Turns, onto, [p2], [p3, p4])[0] == Bent([p2]);
    assert PiecesFrom(Turns, onto, [], [p2, p3, p4]) == PiecesFrom(Turns, onto, [p2], [p3, p4]);
    assert PiecesFrom(Turns, p0, [p1], [p2, p3, p4]) == [Bent([p1])] + PiecesFrom(Turns, onto, [], [p2, p3, p4]);
    assert CornersFrom(Turns, p2, [], [p3, p4]) == [Kept(p3)] + CornersFrom(Turns, p3, [], [p4]);
    assert CornersFrom(Turns, p3, [], [p4]) == [];
    assert CornersFrom(Turns, p0, [p1], [p2, p3, p4]) == [Bent([p1]), Kept(p2)] + CornersFrom(Turns, p2, [], [p3, p4]);
  }
}
