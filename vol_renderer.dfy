/** The rotation and light state of the 3-D view (Widgets/VolRenderer.h,
    Widgets/VolRenderer.cpp): three rotation angles in sixteenths of a
    degree, kept in [0, 5760] by qNormalizeAngle, and the light switch. */
module Rendering {
  import opened Machine

  /** A full turn in sixteenths of a degree, 360 * 16. */
  const FULL_TURN: int := 5760

  /** The angle qNormalizeAngle leaves: negative angles are brought up to
      [0, 5760), angles above 5760 down to (0, 5760]. */
  function NormalizedAngle(angle: int): (r: int)
    ensures 0 <= r <= FULL_TURN
    ensures (r - angle) % FULL_TURN == 0
    ensures 0 <= angle <= FULL_TURN ==> r == angle
    ensures angle < 0 ==> r < FULL_TURN
    ensures angle > FULL_TURN ==> r > 0
  {
    if angle < 0 then angle % FULL_TURN
    else if angle > FULL_TURN then (angle - 1) % FULL_TURN + 1
    else angle
  }

  /** 0 and 5760 are the same rotation but stay apart: the upper test is
      strict, so a full turn is kept and two full turns come down to it,
      while minus a full turn comes up to 0. */
  lemma FullTurnKept()
    ensures NormalizedAngle(FULL_TURN) == FULL_TURN && NormalizedAngle(2 * FULL_TURN) == FULL_TURN
    ensures NormalizedAngle(0) == 0 && NormalizedAngle(-FULL_TURN) == 0
  {
  }

  /** Normalising twice changes nothing more. */
  lemma NormalizeIdempotent(angle: int)
    ensures NormalizedAngle(NormalizedAngle(angle)) == NormalizedAngle(angle)
  {
  }

  /** qNormalizeAngle(angle): adds full turns while the angle is negative,
      then takes full turns away while it exceeds one. */
  method NormalizeAngle(angle0: int) returns (angle: int)
    ensures angle == NormalizedAngle(angle0)
  {
    angle := angle0;
    ghost var turns := 0;
    while angle < 0
      invariant angle == angle0 + turns * FULL_TURN
      invariant angle0 < 0 ==> angle < FULL_TURN
      invariant angle0 >= 0 ==> angle == angle0
      decreases -angle
    {
      angle := angle + FULL_TURN;
      turns := turns + 1;
    }
    if angle0 < 0 {
      DivModUnique(angle0, FULL_TURN, -turns, angle);
    }
    while angle > FULL_TURN
      invariant angle == angle0 + turns * FULL_TURN
      invariant angle0 <= FULL_TURN ==> angle == NormalizedAngle(angle0)
      invariant angle0 > FULL_TURN ==> angle > 0
      decreases angle
    {
      angle := angle - FULL_TURN;
      turns := turns - 1;
    }
    if angle0 > FULL_TURN {
      DivModUnique(angle0 - 1, FULL_TURN, -turns, angle - 1);
    }
  }

  class VolRenderer {
    var xRot: int
    var yRot: int
    var zRot: int
    /** light.enabled. */
    var lightEnabled: bool

    /** The rotation angles start at 0 and the light is on. */
    constructor()
      ensures xRot == 0 && yRot == 0 && zRot == 0 && lightEnabled
    {
      xRot, yRot, zRot := 0, 0, 0;
      lightEnabled := true;
    }

    /** setXRotation(angle): the normalised angle is stored, and
        xRotationChanged emitted, only when it differs from xRot. */
    method SetXRotation(angle: int) returns (changed: bool)
      modifies this
      ensures changed <==> NormalizedAngle(angle) != old(xRot)
      ensures xRot == NormalizedAngle(angle)
      ensures yRot == old(yRot) && zRot == old(zRot) && lightEnabled == old(lightEnabled)
    {
      var a := NormalizeAngle(angle);
      changed := false;
      if a != xRot {
        xRot := a;
        changed := true;
      }
    }

    /** setYRotation(angle), as setXRotation for the y axis. */
    method SetYRotation(angle: int) returns (changed: bool)
      modifies this
      ensures changed <==> NormalizedAngle(angle) != old(yRot)
      ensures yRot == NormalizedAngle(angle)
      ensures xRot == old(xRot) && zRot == old(zRot) && lightEnabled == old(lightEnabled)
    {
      var a := NormalizeAngle(angle);
      changed := false;
      if a != yRot {
        yRot := a;
        changed := true;
      }
    }

    /** setZRotation(angle), as setXRotation for the z axis. */
    method SetZRotation(angle: int) returns (changed: bool)
      modifies this
      ensures changed <==> NormalizedAngle(angle) != old(zRot)
      ensures zRot == NormalizedAngle(angle)
      ensures xRot == old(xRot) && yRot == old(yRot) && lightEnabled == old(lightEnabled)
    {
      var a := NormalizeAngle(angle);
      changed := false;
      if a != zRot {
        zRot := a;
        changed := true;
      }
    }

    /** toggleLight(forceOn): on when forced, switched over otherwise. */
    method ToggleLight(forceOn: bool)
      modifies this
      ensures lightEnabled == (forceOn || !old(lightEnabled))
      ensures xRot == old(xRot) && yRot == old(yRot) && zRot == old(zRot)
    {
      if forceOn {
        lightEnabled := true;
      } else {
        lightEnabled := !lightEnabled;
      }
    }

    /** idle(): one sixteenth of a degree more about x, not normalised. */
    method Idle()
      modifies this
      ensures xRot == old(xRot) + 1
      ensures yRot == old(yRot) && zRot == old(zRot) && lightEnabled == old(lightEnabled)
    {
      xRot := xRot + 1;
    }

    /** The rotation part of mouseMoveEvent for a move by (dx, dy): a left
        drag turns about x by -8 dy and about z by 8 dx, a right drag about
        x by 8 dy and about y by 8 dx; other buttons leave the angles. */
    method MouseMove(dx: int, dy: int, left: bool, right: bool)
      modifies this
      ensures left ==> (xRot == NormalizedAngle(old(xRot) - 8 * dy) && yRot == old(yRot)
        && zRot == NormalizedAngle(old(zRot) + 8 * dx))
      ensures !left && right ==> (xRot == NormalizedAngle(old(xRot) + 8 * dy)
        && yRot == NormalizedAngle(old(yRot) + 8 * dx) && zRot == old(zRot))
      ensures !left && !right ==> xRot == old(xRot) && yRot == old(yRot) && zRot == old(zRot)
      ensures lightEnabled == old(lightEnabled)
    {
      var changed;
      if left {
        changed := SetXRotation(xRot - 8 * dy);
        changed := SetZRotation(zRot + 8 * dx);
      } else if right {
        changed := SetXRotation(xRot + 8 * dy);
        changed := SetYRotation(yRot + 8 * dx);
      }
    }
  }
}
