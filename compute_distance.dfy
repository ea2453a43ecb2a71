/**
 * demo/computeDistance.cpp: read the ground-truth poses of a trajectory,
 * measure how far every pose is from the pose of one reference image, and
 * write one line per pose.
 */
module ComputeDistance {
  import opened Basics
  import opened Trajectory

  /** The index of the reference image, `MATCHING_IMAGE`. */
  const MatchingImage: nat := 70

  /**
   * `loadPoses`: while the file is not exhausted, start from the identity,
   * convert up to twelve numbers into its top three rows, and keep the
   * matrix only when all twelve were converted. A file that does not open
   * gives no pose.
   */
  method LoadPoses(file: Option<seq<real>>) returns (poses: seq<Matrix>)
    ensures poses == LoadedPoses(file)
    ensures All4x4(poses)
  {
    poses := [];
    if file.None? {
      return;
    }
    var tokens := file.value;
    var pos := 0;
    var eof := false;
    while !eof
      invariant pos <= |tokens|
      invariant Poses(tokens) == poses + Poses(tokens[pos..])
      invariant eof ==> pos == |tokens|
      decreases |tokens| - pos, !eof
    {
      var n := if |tokens| - pos < 12 then |tokens| - pos else 12;
      var p := Fill(Eye4(), tokens[pos..pos + n]);
      if n == 12 {
        assert tokens[pos..][..12] == tokens[pos..pos + 12];
        assert tokens[pos..][12..] == tokens[pos + 12..];
        assert Poses(tokens[pos..]) == [p] + Poses(tokens[pos + 12..]);
        poses := poses + [p];
      } else {
        assert Poses(tokens[pos..]) == [];
        eof := true;
      }
      pos := pos + n;
    }
    assert tokens[pos..] == [];
  }

  /**
   * `trajectoryDistances`: the distance of every pose to pose
   * `MatchingImage`, in pose order. Indexing the reference pose needs more
   * than `MatchingImage` poses.
   */
  method TrajectoryDistances(poses: seq<Matrix>) returns (dist: seq<real>)
    requires All4x4(poses) && MatchingImage < |poses|
    ensures |dist| == |poses|
    ensures forall i :: 0 <= i < |poses| ==>
      dist[i] == SquaredDistance(Translation(poses[MatchingImage]), Translation(poses[i]))
    ensures dist[MatchingImage] == 0.0
    ensures forall i :: 0 <= i < |poses| ==> dist[i] >= 0.0
    ensures dist == Distances(poses, MatchingImage)
  {
    dist := [];
    var p1 := poses[MatchingImage];
    for i := 0 to |poses|
      invariant |dist| == i
      invariant forall k :: 0 <= k < i ==> dist[k] == SquaredDistance(Translation(p1), Translation(poses[k]))
    {
      var p2 := poses[i];
      dist := dist + [SquaredDistance(Translation(p1), Translation(p2))];
    }
  }

  /** The rows of the output file: each distance after its pose index. */
  function Numbered(ds: seq<real>): (rows: seq<(nat, real)>)
    ensures |rows| == |ds|
    ensures forall i :: 0 <= i < |ds| ==> rows[i].0 == i && rows[i].1 == ds[i]
  {
    seq(|ds|, i requires 0 <= i < |ds| => (i, ds[i]))
  }

  /** The loop of `main` that writes one line per distance: the pose index, then the distance. */
  method WriteRows(dist: seq<real>) returns (rows: seq<(nat, real)>)
    ensures rows == Numbered(dist)
  {
    rows := [];
    for i := 0 to |dist|
      invariant |rows| == i
      invariant forall k :: 0 <= k < i ==> rows[k] == (k, dist[k])
    {
      rows := rows + [(i, dist[i])];
    }
  }

  /** The outcomes of `main`. */
  datatype DistanceRun =
      /** Not exactly two arguments: `main` prints its usage line and returns exit code 1. */
    | Usage
      /** Fewer than `MatchingImage + 1` poses: the reference pose does not exist. */
    | ReferenceOutOfRange
      /** The output file `<output_name>.dat`: a header line, then one `(index, distance)` row per pose. */
    | Table(fileName: string, rows: seq<(nat, real)>)

  /**
   * `main`: exactly two arguments, the ground-truth file and the output
   * name; `poseFile` is the content of the first, None when it cannot be
   * opened.
   */
  method Run(argv: seq<string>, poseFile: Option<seq<real>>) returns (run: DistanceRun)
    ensures run == Usage <==> |argv| != 3
    ensures run == ReferenceOutOfRange <==> |argv| == 3 && |LoadedPoses(poseFile)| <= MatchingImage
    ensures run.Table? ==> run.fileName == argv[2] + ".dat"
    ensures run.Table? ==> MatchingImage < |LoadedPoses(poseFile)|
    ensures run.Table? ==> run.rows == Numbered(Distances(LoadedPoses(poseFile), MatchingImage))
  {
    if |argv| != 3 {
      return Usage;
    }
    var poses := LoadPoses(poseFile);
    if |poses| <= MatchingImage {
      return ReferenceOutOfRange;
    }
    var dist := TrajectoryDistances(poses);
    var rows := WriteRows(dist);
    return Table(argv[2] + ".dat", rows);
  }
}
