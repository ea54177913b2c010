/**
 * Target production: turning the text's geometry into the ordered points the
 * cubes are sent to. The geometry itself (the text mesh and its surface
 * sampler) is an input here: the coarse mode receives the mesh's flat vertex
 * position array, the detailed mode a source of surface samples.
 */
module Targets {
  import opened Space

  /** Lays points out as one flat array x0, y0, z0, x1, y1, z1, ... */
  function Flatten(ps: seq<Vec3>): (a: seq<real>)
    ensures |a| == 3 * |ps|
  {
    if ps == [] then [] else
      var last := ps[|ps| - 1];
      Flatten(ps[..|ps| - 1]) + [last.x, last.y, last.z]
  }

  /**
   * Coarse mode: reads the vertex array three numbers at a time, in order, one
   * point per vertex, with no reordering. The result is exactly the array's
   * points: flattening it gives the array back.
   */
  method CoarseTargets(a: seq<real>) returns (r: seq<Vec3>)
    requires |a| % 3 == 0
    ensures 3 * |r| == |a|
    ensures forall j :: 0 <= j < |r| ==> r[j] == Vec3(a[3 * j], a[3 * j + 1], a[3 * j + 2])
    ensures Flatten(r) == a
  {
    r := [];
    var i := 0;
    while i < |a|
      invariant i == 3 * |r| && i <= |a|
      invariant forall j :: 0 <= j < |r| ==> r[j] == Vec3(a[3 * j], a[3 * j + 1], a[3 * j + 2])
      invariant Flatten(r) == a[..i]
    {
      var v := Vec3(a[i], a[i + 1], a[i + 2]);
      FlattenSnoc(r, v);
      assert a[..i + 3] == a[..i] + [a[i], a[i + 1], a[i + 2]];
      r := r + [v];
      i := i + 3;
    }
    assert a[..i] == a;
  }

  /** Appending a point appends its three coordinates. */
  lemma FlattenSnoc(ps: seq<Vec3>, v: Vec3)
    ensures Flatten(ps + [v]) == Flatten(ps) + [v.x, v.y, v.z]
  {
  }

  /** The first `n` draws of a sampler, in the order they are drawn. */
  function Draws(n: nat, draw: nat -> Vec3): (ps: seq<Vec3>)
    ensures |ps| == n
  {
    if n == 0 then [] else Draws(n - 1, draw) + [draw(n - 1)]
  }

  /** The draws of `Draws` sit at their own index. */
  lemma {:induction false} DrawsAt(n: nat, draw: nat -> Vec3, j: nat)
    requires j < n
    ensures Draws(n, draw)[j] == draw(j)
  {
    if j < n - 1 {
      DrawsAt(n - 1, draw, j);
    }
  }

  /**
   * Detailed mode, first part: one surface sample per cube. `draw(i)` is the
   * sampler's i-th sample. A cube count below one draws nothing.
   */
  method SampleTargets(numCubes: int, draw: nat -> Vec3) returns (r: seq<Vec3>)
    ensures |r| == if numCubes < 0 then 0 else numCubes
    ensures forall j :: 0 <= j < |r| ==> r[j] == draw(j)
    ensures r == Draws(|r|, draw)
  {
    r := [];
    var i := 0;
    while i < numCubes
      invariant 0 <= i && (numCubes < 0 ==> i == 0) && (0 <= numCubes ==> i <= numCubes)
      invariant r == Draws(i, draw)
    {
      r := r + [draw(i)];
      i := i + 1;
    }
    forall j | 0 <= j < |r|
      ensures r[j] == draw(j)
    {
      DrawsAt(|r|, draw, j);
    }
  }

  /** Exchanges two entries of a sequence. */
  function Swap<T>(s: seq<T>, i: nat, j: nat): (r: seq<T>)
    requires i < |s| && j < |s|
    ensures |r| == |s| && multiset(r) == multiset(s)
    ensures r[i] == s[j] && r[j] == s[i]
    ensures forall k :: 0 <= k < |s| && k != i && k != j ==> r[k] == s[k]
  {
    s[i := s[j]][j := s[i]]
  }

  /**
   * Detailed mode, second part: the samples are put in a random order. The
   * randomness is the input `swaps`, a sequence of exchanges whose positions
   * are taken modulo the length; any order can be reached this way, and no
   * point is lost or duplicated.
   */
  method Shuffle<T>(s: seq<T>, swaps: seq<(nat, nat)>) returns (r: seq<T>)
    ensures |r| == |s|
    ensures multiset(r) == multiset(s)
  {
    r := s;
    for k := 0 to |swaps|
      invariant |r| == |s|
      invariant multiset(r) == multiset(s)
    {
      if |r| > 0 {
        var (i, j) := swaps[k];
        r := Swap(r, i % |r|, j % |r|);
      }
    }
  }

  /**
   * Detailed mode: exactly one point per cube, namely the sampler's first
   * draws in some order.
   */
  method DetailedTargets(numCubes: int, draw: nat -> Vec3, swaps: seq<(nat, nat)>) returns (r: seq<Vec3>)
    ensures |r| == if numCubes < 0 then 0 else numCubes
    ensures multiset(r) == multiset(Draws(|r|, draw))
  {
    var samples := SampleTargets(numCubes, draw);
    r := Shuffle(samples, swaps);
  }
}
