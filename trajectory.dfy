/**
 * Poses and trajectory distances, as demo/computeDistance.cpp reads and
 * computes them: a pose is a 4x4 matrix whose top three rows come from twelve
 * numbers of the ground-truth file, and the distance of a pose to the
 * reference pose is taken between their translation columns.
 */
module Trajectory {
  import opened Basics

  /** A matrix as `Matrix::val` holds it: `val[r][c]`. */
  datatype Matrix = Matrix(val: seq<seq<real>>)

  predicate Is4x4(m: Matrix)
  {
    |m.val| == 4 && forall r :: 0 <= r < 4 ==> |m.val[r]| == 4
  }

  predicate All4x4(ps: seq<Matrix>)
  {
    forall k :: 0 <= k < |ps| ==> Is4x4(ps[k])
  }

  /** `Matrix::eye(4)`. */
  function Eye4(): (m: Matrix)
    ensures Is4x4(m)
  {
    Matrix([[1.0, 0.0, 0.0, 0.0], [0.0, 1.0, 0.0, 0.0], [0.0, 0.0, 1.0, 0.0], [0.0, 0.0, 0.0, 1.0]])
  }

  /**
   * What `fscanf` leaves in a matrix after converting `vals`: the values go,
   * in order, to `val[0][0..3]`, `val[1][0..3]`, `val[2][0..3]`; the other
   * entries keep what they held.
   */
  function Fill(m: Matrix, vals: seq<real>): (p: Matrix)
    requires Is4x4(m) && |vals| <= 12
    ensures Is4x4(p)
  {
    Matrix(seq(4, r requires 0 <= r < 4 =>
      seq(4, c requires 0 <= c < 4 => if 4 * r + c < |vals| then vals[4 * r + c] else m.val[r][c])))
  }

  /** The pose a record of twelve numbers gives. */
  function FromRecord(rec: seq<real>): (p: Matrix)
    requires |rec| == 12
    ensures Is4x4(p)
  {
    Fill(Eye4(), rec)
  }

  /** The poses `loadPoses` reads from the numbers of the file: twelve at a time, a short tail dropped. */
  function Poses(tokens: seq<real>): (ps: seq<Matrix>)
    ensures All4x4(ps)
    decreases |tokens|
  {
    if |tokens| < 12 then [] else [FromRecord(tokens[..12])] + Poses(tokens[12..])
  }

  /** As `Poses`, for a file that may not open: that yields no pose and no error. */
  function LoadedPoses(file: Option<seq<real>>): (ps: seq<Matrix>)
    ensures All4x4(ps)
    ensures file.None? ==> ps == []
  {
    match file
    case None => []
    case Some(tokens) => Poses(tokens)
  }

  /** A record's twelve numbers fill rows 0 to 2 row by row; row 3 stays that of the identity. */
  lemma FromRecordEntries(rec: seq<real>)
    requires |rec| == 12
    ensures forall r, c :: 0 <= r < 3 && 0 <= c < 4 ==> FromRecord(rec).val[r][c] == rec[4 * r + c]
    ensures FromRecord(rec).val[3] == [0.0, 0.0, 0.0, 1.0]
  {
    var p := FromRecord(rec);
    assert p.val[3] == Eye4().val[3];
  }

  /** One pose per complete group of twelve numbers. */
  lemma {:induction false} PoseCount(tokens: seq<real>)
    ensures |Poses(tokens)| == |tokens| / 12
    decreases |tokens|
  {
    if |tokens| >= 12 {
      PoseCount(tokens[12..]);
    }
  }

  /** Pose k is built from numbers 12k to 12k + 11. */
  lemma {:induction false} PoseAt(tokens: seq<real>, k: nat)
    requires k < |tokens| / 12
    ensures 12 * k + 12 <= |tokens|
    ensures |Poses(tokens)| == |tokens| / 12
    ensures Poses(tokens)[k] == FromRecord(tokens[12 * k..12 * k + 12])
    decreases k
  {
    PoseCount(tokens);
    if k > 0 {
      PoseAt(tokens[12..], k - 1);
      assert tokens[12..][12 * (k - 1)..12 * (k - 1) + 12] == tokens[12 * k..12 * k + 12];
    }
  }

  /** Every pose read keeps the bottom row [0, 0, 0, 1] of the identity it starts as. */
  lemma BottomRowIsIdentity(tokens: seq<real>, k: nat)
    requires k < |Poses(tokens)|
    ensures Poses(tokens)[k].val[3] == [0.0, 0.0, 0.0, 1.0]
  {
    PoseCount(tokens);
    PoseAt(tokens, k);
    FromRecordEntries(tokens[12 * k..12 * k + 12]);
  }

  /** A point in space: the translation column of a pose. */
  datatype Vec3 = Vec3(x: real, y: real, z: real)

  function Translation(p: Matrix): Vec3
    requires Is4x4(p)
  {
    Vec3(p.val[0][3], p.val[1][3], p.val[2][3])
  }

  /** The translation of pose k is made of numbers 12k + 3, 12k + 7 and 12k + 11 of the file. */
  lemma TranslationOfPose(tokens: seq<real>, k: nat)
    requires k < |Poses(tokens)|
    ensures 12 * k + 12 <= |tokens|
    ensures Translation(Poses(tokens)[k]) == Vec3(tokens[12 * k + 3], tokens[12 * k + 7], tokens[12 * k + 11])
  {
    PoseCount(tokens);
    PoseAt(tokens, k);
    FromRecordEntries(tokens[12 * k..12 * k + 12]);
  }

  /**
   * The square of the Euclidean distance between two translations; the
   * source takes its square root in single precision.
   */
  function SquaredDistance(a: Vec3, b: Vec3): (d: real)
    ensures d >= 0.0
    ensures a == b ==> d == 0.0
  {
    var dx, dy, dz := a.x - b.x, a.y - b.y, a.z - b.z;
    dx * dx + dy * dy + dz * dz
  }

  /** The distance of every pose to the reference pose, in pose order. */
  function Distances(poses: seq<Matrix>, reference: nat): (ds: seq<real>)
    requires All4x4(poses) && reference < |poses|
  {
    seq(|poses|, i requires 0 <= i < |poses| => SquaredDistance(Translation(poses[reference]), Translation(poses[i])))
  }

  /** The reference pose is at distance 0 from itself, and so is every pose with the same translation. */
  lemma DistanceZeroAtReference(poses: seq<Matrix>, reference: nat, i: nat)
    requires All4x4(poses) && reference < |poses| && i < |poses|
    ensures |Distances(poses, reference)| == |poses|
    ensures Distances(poses, reference)[reference] == 0.0
    ensures Translation(poses[i]) == Translation(poses[reference]) ==> Distances(poses, reference)[i] == 0.0
    ensures forall k :: 0 <= k < |poses| ==> Distances(poses, reference)[k] >= 0.0
  {
  }

  /** Entry i depends only on the translation columns of pose i and of the reference pose. */
  lemma DistancesDependOnlyOnTranslations(poses: seq<Matrix>, others: seq<Matrix>, reference: nat)
    requires All4x4(poses) && All4x4(others) && reference < |poses| == |others|
    requires forall i :: 0 <= i < |poses| ==> Translation(poses[i]) == Translation(others[i])
    ensures Distances(poses, reference) == Distances(others, reference)
  {
  }
}
