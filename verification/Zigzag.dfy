/**
 The zigzag order both codecs share (`s_zag` in the encoder, `Zig` in the decoder).
 */
module Zigzag {

  /** Raster position of the `z`-th coefficient. */
  function Zig(z: nat): nat
  {
    match z
    case 0 => 0 case 1 => 1 case 2 => 8 case 3 => 16 case 4 => 9 case 5 => 2 case 6 => 3 case 7 => 10
    case 8 => 17 case 9 => 24 case 10 => 32 case 11 => 25 case 12 => 18 case 13 => 11 case 14 => 4 case 15 => 5
    case 16 => 12 case 17 => 19 case 18 => 26 case 19 => 33 case 20 => 40 case 21 => 48 case 22 => 41 case 23 => 34
    case 24 => 27 case 25 => 20 case 26 => 13 case 27 => 6 case 28 => 7 case 29 => 14 case 30 => 21 case 31 => 28
    case 32 => 35 case 33 => 42 case 34 => 49 case 35 => 56 case 36 => 57 case 37 => 50 case 38 => 43 case 39 => 36
    case 40 => 29 case 41 => 22 case 42 => 15 case 43 => 23 case 44 => 30 case 45 => 37 case 46 => 44 case 47 => 51
    case 48 => 58 case 49 => 59 case 50 => 52 case 51 => 45 case 52 => 38 case 53 => 31 case 54 => 39 case 55 => 46
    case 56 => 53 case 57 => 60 case 58 => 61 case 59 => 54 case 60 => 47 case 61 => 55 case 62 => 62 case 63 => 63
    case _ => 64
  }

  /** Where a raster position comes in zigzag order. */
  function Inv(i: nat): nat
  {
    match i
    case 0 => 0 case 1 => 1 case 2 => 5 case 3 => 6 case 4 => 14 case 5 => 15 case 6 => 27 case 7 => 28
    case 8 => 2 case 9 => 4 case 10 => 7 case 11 => 13 case 12 => 16 case 13 => 26 case 14 => 29 case 15 => 42
    case 16 => 3 case 17 => 8 case 18 => 12 case 19 => 17 case 20 => 25 case 21 => 30 case 22 => 41 case 23 => 43
    case 24 => 9 case 25 => 11 case 26 => 18 case 27 => 24 case 28 => 31 case 29 => 40 case 30 => 44 case 31 => 53
    case 32 => 10 case 33 => 19 case 34 => 23 case 35 => 32 case 36 => 39 case 37 => 45 case 38 => 52 case 39 => 54
    case 40 => 20 case 41 => 22 case 42 => 33 case 43 => 38 case 44 => 46 case 45 => 51 case 46 => 55 case 47 => 60
    case 48 => 21 case 49 => 34 case 50 => 37 case 51 => 47 case 52 => 50 case 53 => 56 case 54 => 59 case 55 => 61
    case 56 => 35 case 57 => 36 case 58 => 48 case 59 => 49 case 60 => 57 case 61 => 58 case 62 => 62 case 63 => 63
    case _ => 64
  }

  predicate InverseAt(z: nat) {
    Zig(z) < 64 && Inv(Zig(z)) == z
  }

  /** The zigzag order visits every raster position exactly once. */
  lemma ZigzagIsPermutation()
    ensures forall z :: 0 <= z < 64 ==> InverseAt(z)
    ensures forall y, z {:trigger Zig(y), Zig(z)} :: 0 <= y < 64 && 0 <= z < 64 && Zig(y) == Zig(z) ==> y == z
  {
    hide Zig, Inv, InverseAt;
    ZigzagInverse();
    forall y, z | 0 <= y < 64 && 0 <= z < 64 && Zig(y) == Zig(z) ensures y == z {
      InverseMeans(y);
      InverseMeans(z);
    }
  }

  lemma ZigzagInverse()
    ensures forall z :: 0 <= z < 64 ==> InverseAt(z)
  {
  }

  lemma InverseMeans(z: nat)
    requires InverseAt(z)
    ensures Zig(z) < 64 && Inv(Zig(z)) == z
  {
    hide Zig, Inv;
  }

  // ---------- the path ----------

  /**
   The next position on the zigzag path of ITU-T T.81 Figure A.6, by row and column: along the diagonals, up to
   the right where row plus column is even and down to the left where it is odd, and on at the border where a
   diagonal ends.
   */
  function NextOnPath(row: nat, column: nat): (nat, nat)
    requires row < 8 && column < 8
  {
    if (row + column) % 2 == 0 then
      if column == 7 then (row + 1, 7) else if row == 0 then (0, column + 1) else (row - 1, column + 1)
    else
      if row == 7 then (7, column + 1) else if column == 0 then (row + 1, 0) else (row + 1, column - 1)
  }

  /** The table follows the path. */
  lemma ZigzagPath(z: nat)
    requires z < 63
    ensures Zig(0) == 0 && Zig(z) < 64
    ensures (Zig(z + 1) / 8, Zig(z + 1) % 8) == NextOnPath(Zig(z) / 8, Zig(z) % 8)
  {
  }

  /** So it is the only one: whatever starts at the first position and follows the path is this order. */
  lemma {:induction false} PathDeterminesOrder(path: seq<nat>, z: nat)
    requires z < |path| == 64 && path[0] == 0 && forall k :: 0 <= k < 64 ==> path[k] < 64
    requires forall k :: 1 <= k < 64 ==> (path[k] / 8, path[k] % 8) == NextOnPath(path[k - 1] / 8, path[k - 1] % 8)
    ensures path[z] == Zig(z)
  {
    hide Zig, NextOnPath;
    ZigzagPath(if z > 0 then z - 1 else 0);
    if z > 0 {
      PathDeterminesOrder(path, z - 1);
      SamePosition(path[z], Zig(z));
    }
  }

  lemma SamePosition(a: nat, b: nat)
    requires a / 8 == b / 8 && a % 8 == b % 8
    ensures a == b
  {
  }
}
