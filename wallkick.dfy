/** The wall-kick search of `playerRotate`: after a turn that collides, the
    piece is pushed sideways by offsets 1, -2, 3, -4, ..., so that the
    positions tried are shifted by 0, +1, -1, +2, -2, ... from the start.
    The search gives up once the next offset would exceed half the shape's
    width (rounded up) plus one. */
module WallKick {
  import opened Arena

  datatype Option<T> = None | Some(value: T)

  /** Net shift after k kick moves. */
  function Probe(k: nat): int
  {
    if k % 2 == 1 then (k + 1) / 2 else -(k / 2)
  }

  /** The offset the (k+1)-th kick move adds. */
  function Offset(k: nat): int
  {
    if k % 2 == 0 then k + 1 else -(k + 1)
  }

  /** Adding the offsets one after another visits the probes in order. */
  lemma ProbeStep(k: nat)
    ensures Probe(0) == 0
    ensures Probe(k + 1) == Probe(k) + Offset(k)
  {
  }

  /** `Math.ceil(width / 2) + 1`: how many positions are tried. */
  function KickBound(w: nat): nat
  {
    (w + 1) / 2 + 1
  }

  /** The index of the first probe from k on (below bound) at which the
      shape fits, if there is one. */
  function KickSearch(a: Matrix, m: Matrix, x0: int, y: int, k: nat, bound: nat): (r: Option<nat>)
    requires IsArena(a) && k <= bound
    ensures r.Some? ==> k <= r.value < bound && !Colliding(a, m, x0 + Probe(r.value), y)
    ensures r.Some? ==> forall j :: k <= j < r.value ==> Colliding(a, m, x0 + Probe(j), y)
    ensures r.None? ==> forall j :: k <= j < bound ==> Colliding(a, m, x0 + Probe(j), y)
    decreases bound - k
  {
    if k == bound then None
    else if !Colliding(a, m, x0 + Probe(k), y) then Some(k)
    else KickSearch(a, m, x0, y, k + 1, bound)
  }

  /** The shift the kick search settles on for shape m at (x0, y), if any;
      the bound comes from the width of the shape's first row. */
  function Kick(a: Matrix, m: Matrix, x0: int, y: int): (r: Option<int>)
    requires IsArena(a) && |m| > 0
    ensures r.Some? ==> !Colliding(a, m, x0 + r.value, y)
    ensures r.None? <==> forall j :: 0 <= j < KickBound(|m[0]|) ==> Colliding(a, m, x0 + Probe(j), y)
  {
    match KickSearch(a, m, x0, y, 0, KickBound(|m[0]|))
    case None => None
    case Some(j) => Some(Probe(j))
  }

  /** The kick loop of `playerRotate`: test the position, and while the
      shape collides push it by the next offset, giving up as soon as the
      offset after that would exceed the bound. */
  method KickFrom(a: Matrix, m: Matrix, x0: int, y: int) returns (r: Option<int>)
    requires IsArena(a) && |m| > 0
    ensures r == Kick(a, m, x0, y)
  {
    var bound := KickBound(|m[0]|);
    var x := x0;
    var offset := 1;
    ghost var k: nat := 0;
    while Colliding(a, m, x, y)
      invariant k < bound && offset == Offset(k) && x == x0 + Probe(k)
      invariant KickSearch(a, m, x0, y, 0, bound) == KickSearch(a, m, x0, y, k, bound)
      decreases bound - k
    {
      ProbeStep(k);
      x := x + offset;
      offset := -(offset + (if offset > 0 then 1 else -1));
      k := k + 1;
      if (if offset < 0 then -offset else offset) > bound {
        return None;
      }
    }
    return Some(x - x0);
  }

  /** For the catalog's shapes the search is short: a 3- or 4-wide shape is
      tried at shifts 0, +1 and -1 only, a 2-wide one at 0 and +1 only; the
      position reached by the last kick move is never tested. */
  lemma KickShiftsForPieces(a: Matrix, m: Matrix, x0: int, y: int)
    requires IsArena(a) && |m| > 0 && 2 <= |m[0]| <= 4
    ensures |m[0]| == 2 ==> Kick(a, m, x0, y) in {None, Some(0), Some(1)}
    ensures |m[0]| >= 3 ==> Kick(a, m, x0, y) in {None, Some(0), Some(1), Some(-1)}
  {
    var r := KickSearch(a, m, x0, y, 0, KickBound(|m[0]|));
    if r.Some? {
      assert r.value == 0 || r.value == 1 || (|m[0]| >= 3 && r.value == 2);
    }
  }
}
