/**
 * The compass arrow the arena map draws for a tribute's heading:
 * the angle is brought into [0, 360) and each 45-degree sector,
 * clockwise from straight up, gets one of eight arrow emoji.
 */
module Compass {

  // Each arrow is its base symbol followed by the emoji presentation selector U+FE0F.
  const Up: string := "\U{2B06}\U{FE0F}"
  const UpRight: string := "\U{2197}\U{FE0F}"
  const Right: string := "\U{27A1}\U{FE0F}"
  const DownRight: string := "\U{2198}\U{FE0F}"
  const Down: string := "\U{2B07}\U{FE0F}"
  const DownLeft: string := "\U{2199}\U{FE0F}"
  const Left: string := "\U{2B05}\U{FE0F}"
  const UpLeft: string := "\U{2196}\U{FE0F}"

  /** The eight arrows in clockwise order; arrow k covers the degrees [45k, 45k + 45). */
  const Arrows: seq<string> := [Up, UpRight, Right, DownRight, Down, DownLeft, Left, UpLeft]

  /** Degrees in a full turn. */
  const FullTurn: int := 360

  /** JavaScript's `a % 360`: it truncates, so the remainder takes the sign of `a`. */
  function JsRemTurn(a: int): (r: int)
    ensures -FullTurn < r < FullTurn
    ensures a >= 0 ==> r >= 0
    ensures a <= 0 ==> r <= 0
    ensures (a - r) % FullTurn == 0
  {
    if a >= 0 then a % FullTurn else -((-a) % FullTurn)
  }

  /** `((deg % 360) + 360) % 360`: the angle in [0, 360) congruent to `deg`, negatives included. */
  function Normalize(deg: int): (d: int)
    ensures 0 <= d < 360
    ensures d == deg % 360
  {
    JsRemTurn(JsRemTurn(deg) + FullTurn)
  }

  /** `arrow(deg)`: the arrow of the sector that holds the normalised angle. */
  function Arrow(deg: int): (r: string)
    ensures r in Arrows
    ensures r == Arrows[Normalize(deg) / 45]
  {
    var d := Normalize(deg);
    if d < 45 then Up
    else if d < 90 then UpRight
    else if d < 135 then Right
    else if d < 180 then DownRight
    else if d < 225 then Down
    else if d < 270 then DownLeft
    else if d < 315 then Left
    else UpLeft
  }

  /** No two sectors share an arrow. */
  lemma ArrowsDistinct(i: nat, j: nat)
    requires i < 8 && j < 8 && i != j
    ensures Arrows[i] != Arrows[j]
  {
  }

  /** Whole turns do not change the arrow, in either direction. */
  lemma ArrowPeriodic(deg: int, k: int)
    ensures Normalize(deg + 360 * k) == Normalize(deg)
    ensures Arrow(deg + 360 * k) == Arrow(deg)
  {
  }

  /** Arrow k is returned exactly for the angles whose normalised value lies in [45k, 45k + 45). */
  lemma ArrowSector(deg: int, k: nat)
    requires k < 8
    ensures Arrow(deg) == Arrows[k] <==> 45 * k <= Normalize(deg) < 45 * k + 45
  {
    var s := Normalize(deg) / 45;
    if s != k {
      ArrowsDistinct(s, k);
    }
  }

  /** The default heading 0 (an absent rotation) points up. */
  lemma ArrowDefault()
    ensures Arrow(0) == Up
  {
  }
}
