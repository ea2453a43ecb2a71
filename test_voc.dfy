/**
 * The self-contained logic of demo/testVoc.cpp: the argument check of `main`,
 * the CNN descriptor-file reader `loadCNNFeatures`, and `changeOrbStructure`,
 * which splits a descriptor matrix into its rows.
 */
module TestVoc {
  import opened Basics
  import opened CnnFormat

  // ---------------------------------------------------------------------------
  // loadCNNFeatures

  /** The frames the reader ends with when it has `features`, holds `current` open, and `rest` is what remains to be read. */
  ghost function Continue(features: seq<Frame>, current: Frame, rest: Result<seq<Record>>): Result<seq<Frame>>
  {
    match rest
    case Error => Error
    case Ok(rs) => Ok(features + GroupFrom(current, rs))
  }

  /** Reading a sentinel pair at `pos` closes the open frame. */
  lemma SentinelStep(w: seq<Word>, L: nat, pos: nat, atBoundary: bool, features: seq<Frame>, current: Frame)
    requires 0 < L && pos + 2 <= |w| && IsSentinel(w[pos], w[pos + 1])
    ensures Continue(features, current, Scan(w[pos..], L, atBoundary))
         == Continue(features + NonEmpty(current), [], Scan(w[pos + 2..], L, true))
  {
    assert w[pos..][2..] == w[pos + 2..];
    var more := Scan(w[pos + 2..], L, true);
    assert Scan(w[pos..], L, atBoundary) == Prepend(EndOfFrame(w[pos], w[pos + 1]), more);
    if more.Ok? {
      assert ([EndOfFrame(w[pos], w[pos + 1])] + more.value)[1..] == more.value;
      var g := GroupFrom([], more.value);
      assert features + (NonEmpty(current) + g) == features + NonEmpty(current) + g;
    }
  }

  /**
   * With fewer than two words left, the reader stops cleanly in two cases: no
   * word is left and the pair read last was a sentinel, or the one word left
   * is -1, which closes the open frame.
   */
  lemma EndStep(w: seq<Word>, L: nat, pos: nat, atBoundary: bool, features: seq<Frame>, current: Frame)
    requires 0 < L && pos <= |w| < pos + 2
    ensures Continue(features, current, Scan(w[pos..], L, atBoundary))
         == if pos < |w| && AsInt32(w[pos]) == -1 then Ok(features + NonEmpty(current))
            else if pos == |w| && atBoundary then Ok(features)
            else Error
  {
    if pos == |w| && atBoundary {
      assert w[pos..] == [];
      assert features + GroupFrom(current, []) == features;
    } else if pos < |w| && AsInt32(w[pos]) == -1 {
      var lone := LoneSentinel(w[pos]);
      assert w[pos..] == [w[pos]];
      assert Scan(w[pos..], L, atBoundary) == Ok([lone]);
      assert [lone][1..] == [];
      assert GroupFrom(current, [lone]) == NonEmpty(current) + [];
      assert NonEmpty(current) + [] == NonEmpty(current);
    }
  }

  /** Reading a feature record at `pos` adds its descriptor to the open frame. */
  lemma FeatureStep(w: seq<Word>, L: nat, pos: nat, atBoundary: bool, features: seq<Frame>, current: Frame)
    requires 0 < L && pos + 2 + L <= |w| && !IsSentinel(w[pos], w[pos + 1])
    ensures Continue(features, current, Scan(w[pos..], L, atBoundary))
         == Continue(features, current + [w[pos + 2..pos + 2 + L]], Scan(w[pos + 2 + L..], L, false))
  {
    assert w[pos..][2..2 + L] == w[pos + 2..pos + 2 + L];
    assert w[pos..][2 + L..] == w[pos + 2 + L..];
    var r := Feature(w[pos], w[pos + 1], w[pos + 2..pos + 2 + L]);
    var more := Scan(w[pos + 2 + L..], L, false);
    assert Scan(w[pos..], L, atBoundary) == Prepend(r, more);
    if more.Ok? {
      assert ([r] + more.value)[1..] == more.value;
    }
  }

  /**
   * The loop of `loadCNNFeatures` that reads the L floats of one descriptor;
   * a read that fails throws.
   */
  method ReadDescriptor(w: seq<Word>, pos: nat, L: nat) returns (d: Result<Descriptor>, next: nat)
    requires pos <= |w|
    ensures d.Ok? <==> pos + L <= |w|
    ensures d.Ok? ==> d.value == w[pos..pos + L] && next == pos + L
  {
    var descriptor: Descriptor := [];
    next := pos;
    for i := 0 to L
      invariant next == pos + i <= |w|
      invariant descriptor == w[pos..next]
    {
      if next == |w| {
        return Error, next;
      }
      descriptor := descriptor + [w[next]];
      next := next + 1;
    }
    return Ok(descriptor), next;
  }

  /** What one pass of the inner loop of `loadCNNFeatures` reads. */
  datatype PairRead =
    | SentinelPair                                  // x and y hold a sentinel: the frame ends
    | FeatureRead(descriptor: Descriptor, next: nat) // a feature and its descriptor
    | ReadFailed                                    // the descriptor read throws

  /**
   * One pass of the inner loop: read x and y at `pos`, and, unless they are a
   * sentinel, the descriptor after them. `features`, `frame` and `atBoundary`
   * only serve to state the result.
   */
  method ReadRecord(w: seq<Word>, L: nat, pos: nat, ghost features: seq<Frame>, ghost frame: Frame, ghost atBoundary: bool)
    returns (r: PairRead, x: Word, y: Word)
    requires 0 < L && pos + 2 <= |w|
    ensures x == w[pos] && y == w[pos + 1]
    ensures r.SentinelPair? <==> IsSentinel(x, y)
    ensures r.SentinelPair? ==>
      Continue(features, frame, Scan(w[pos..], L, atBoundary))
      == Continue(features + NonEmpty(frame), [], Scan(w[pos + 2..], L, true))
    ensures r.ReadFailed? ==> Continue(features, frame, Scan(w[pos..], L, atBoundary)) == Error
    ensures r.FeatureRead? ==>
      && r.next == pos + 2 + L <= |w|
      && Continue(features, frame, Scan(w[pos..], L, atBoundary))
         == Continue(features, frame + [r.descriptor], Scan(w[r.next..], L, false))
  {
    x, y := w[pos], w[pos + 1];
    if IsSentinel(x, y) {
      SentinelStep(w, L, pos, atBoundary, features, frame);
      return SentinelPair, x, y;
    }
    var descriptor, next := ReadDescriptor(w, pos + 2, L);
    if descriptor.Error? {
      return ReadFailed, x, y;
    }
    FeatureStep(w, L, pos, atBoundary, features, frame);
    return FeatureRead(descriptor.value, next), x, y;
  }

  /** How the inner loop of `loadCNNFeatures` ends. */
  datatype FrameEnd =
    | Closed       // a sentinel pair was read
    | EndOfStream  // no data was left after a sentinel: the pair held from before, or a lone -1 in x
    | Failed       // a read failed where the reader throws

  /**
   * The inner `while (!f.eof())` loop of `loadCNNFeatures`: it reads the
   * features of one frame. `x` and `y` hold the pair read last and are left as
   * they were by a read that finds no data. `features`, the frames kept so
   * far, only serves to state the result.
   */
  method ReadFrame(w: seq<Word>, L: nat, start: nat, x0: Word, y0: Word, ghost features: seq<Frame>)
    returns (status: FrameEnd, frame: Frame, pos: nat, x: Word, y: Word)
    requires 0 < L && start <= |w|
    ensures start <= pos <= |w|
    ensures status.Failed? ==> Continue(features, [], Scan(w[start..], L, IsSentinel(x0, y0))) == Error
    ensures status.EndOfStream? ==>
      && pos == |w|
      && IsSentinel(x, y)
      && Continue(features, [], Scan(w[start..], L, IsSentinel(x0, y0))) == Ok(features + NonEmpty(frame))
    ensures status.Closed? ==>
      && start < pos
      && IsSentinel(x, y)
      && Continue(features, [], Scan(w[start..], L, IsSentinel(x0, y0)))
         == Continue(features + NonEmpty(frame), [], Scan(w[pos..], L, true))
  {
    frame, pos, x, y := [], start, x0, y0;
    ghost var goal := Continue(features, [], Scan(w[start..], L, IsSentinel(x0, y0)));
    while 2 <= |w| - pos
      invariant start <= pos <= |w|
      invariant IsSentinel(x, y) ==> frame == []
      invariant goal == Continue(features, frame, Scan(w[pos..], L, IsSentinel(x, y)))
      decreases |w| - pos
    {
      var read;
      read, x, y := ReadRecord(w, L, pos, features, frame, IsSentinel(x, y));
      match read
      case SentinelPair =>
        return Closed, frame, pos + 2, x, y;
      case ReadFailed =>
        return Failed, frame, pos, x, y;
      case FeatureRead(descriptor, next) =>
        pos := next;
        frame := frame + [descriptor];
    }
    EndStep(w, L, pos, IsSentinel(x, y), features, frame);
    if pos == |w| {
      // The reads of x and y find no data: the stream reports end of file,
      // and x and y keep the pair read last. Unless that pair was a sentinel,
      // the descriptor read throws.
      status := if IsSentinel(x, y) then EndOfStream else Failed;
    } else {
      // One word is left: x reads it and the read of y finds no data. A -1 in
      // x ends the frame. Otherwise y is uninitialised there, and the model
      // takes the read to fail.
      x, pos := w[pos], |w|;
      status := if AsInt32(x) == -1 then EndOfStream else Failed;
    }
  }

  /**
   * `loadCNNFeatures`: frames are read until a read finds no data; an empty
   * frame is not kept. The source declares `x` and `y` afresh on every pass
   * and does not check their reads, so a read that finds no data leaves them
   * uninitialised; the model takes them to keep the pair read last, and to be
   * 0, which is not a sentinel, before the first read. `eof` is set only by a
   * read that finds no data, so a file that ends right after a sentinel enters
   * the loop once more. A file whose last word is a lone -1 ends there: the
   * read of y finds no data, the -1 in x closes the open frame, and that frame
   * is kept when it holds features.
   */
  method LoadCnnFeatures(file: Option<seq<Word>>, L: nat) returns (r: Result<seq<Frame>>)
    requires 0 < L
    ensures r == Load(file, L)
  {
    if file.None? {
      return Error;
    }
    var w := file.value;
    var features: seq<Frame> := [];
    var pos := 0;
    var eof := false;
    var x: Word, y: Word := 0, 0;
    assert w[pos..] == w;
    assert Scan(w, L, false).Ok? ==> features + Group(Scan(w, L, false).value) == Group(Scan(w, L, false).value);
    while !eof
      invariant pos <= |w|
      invariant !eof ==> Parse(w, L) == Continue(features, [], Scan(w[pos..], L, IsSentinel(x, y)))
      invariant eof ==> Parse(w, L) == Ok(features)
      decreases |w| - pos, !eof
    {
      var status, frame;
      status, frame, pos, x, y := ReadFrame(w, L, pos, x, y, features);
      if status.Failed? {
        return Error;
      }
      eof := status.EndOfStream?;
      ghost var kept := features + NonEmpty(frame);
      if frame != [] {
        features := features + [frame];
      }
      assert features == kept;
    }
    return Ok(features);
  }

  // ---------------------------------------------------------------------------
  // changeOrbStructure

  /** A descriptor matrix as cv::Mat stores it: `rows` rows of `cols` elements, row after row. */
  datatype Mat<T> = Mat(rows: nat, cols: nat, data: seq<T>)
  {
    predicate Valid()
    {
      |data| == rows * cols
    }
  }

  lemma RowFits(rows: nat, cols: nat, i: nat)
    requires i < rows
    ensures i * cols + cols <= rows * cols
  {
    assert (i + 1) * cols <= rows * cols by {
      var k := rows - (i + 1);
      assert rows * cols == (i + 1) * cols + k * cols;
    }
  }

  /** `plain.row(i)`: the elements (i, 0), ..., (i, cols - 1). */
  function Row<T>(m: Mat<T>, i: nat): (r: seq<T>)
    requires m.Valid() && i < m.rows
    ensures |r| == m.cols
  {
    RowFits(m.rows, m.cols, i);
    m.data[i * m.cols..i * m.cols + m.cols]
  }

  /** Element j of row i is element (i, j) of the matrix, stored row after row. */
  lemma RowEntry<T>(m: Mat<T>, i: nat, j: nat)
    requires m.Valid() && i < m.rows && j < m.cols
    ensures i * m.cols + j < |m.data|
    ensures Row(m, i)[j] == m.data[i * m.cols + j]
  {
    RowFits(m.rows, m.cols, i);
  }

  /** The rows laid end to end. */
  function Concat<T>(rows: seq<seq<T>>): seq<T>
  {
    if rows == [] then [] else Concat(rows[..|rows| - 1]) + rows[|rows| - 1]
  }

  /** The rows of a matrix, laid end to end, are its data again. */
  lemma {:induction false} RowsReassemble<T>(m: Mat<T>, out: seq<seq<T>>, k: nat)
    requires m.Valid() && k <= m.rows && |out| >= k
    requires forall i :: 0 <= i < k ==> out[i] == Row(m, i)
    ensures k * m.cols <= |m.data|
    ensures Concat(out[..k]) == m.data[..k * m.cols]
    decreases k
  {
    if k == 0 {
      assert out[..k] == [];
    } else {
      RowsReassemble(m, out, k - 1);
      RowFits(m.rows, m.cols, k - 1);
      var start := (k - 1) * m.cols;
      assert k * m.cols == start + m.cols by {
        assert k * m.cols == (k - 1) * m.cols + m.cols;
      }
      assert out[..k][..k - 1] == out[..k - 1];
      assert Concat(out[..k]) == Concat(out[..k - 1]) + out[k - 1];
      assert m.data[..start + m.cols] == m.data[..start] + m.data[start..start + m.cols];
    }
  }

  /**
   * `changeOrbStructure`: resize `out` to the row count, then assign row i to
   * element i. The rows, laid end to end, give back the matrix.
   */
  method ChangeOrbStructure<T>(plain: Mat<T>) returns (out: seq<seq<T>>)
    requires plain.Valid()
    ensures |out| == plain.rows
    ensures forall i :: 0 <= i < plain.rows ==> out[i] == Row(plain, i)
    ensures Concat(out) == plain.data
  {
    out := seq(plain.rows, _ => []);
    for i := 0 to plain.rows
      invariant |out| == plain.rows
      invariant forall k :: 0 <= k < i ==> out[k] == Row(plain, k)
    {
      out := out[i := Row(plain, i)];
    }
    RowsReassemble(plain, out, plain.rows);
    assert out[..plain.rows] == out;
  }

  // ---------------------------------------------------------------------------
  // main

  datatype FeatureType = Orb | Cnn

  /** What `main` takes from its command line. */
  datatype Arguments = Arguments(vocabulary: string, descriptors: string, featureType: FeatureType, outputName: string)

  datatype ArgumentCheck = WrongCount | UnknownFeatureType | Accepted(args: Arguments)

  /**
   * The argument check of `main`. `argv` includes the program name, so the
   * source's `argc` is `|argv|`.
   */
  function CheckArguments(argv: seq<string>): (r: ArgumentCheck)
    ensures r.WrongCount? <==> |argv| != 4 && |argv| != 5
    ensures r.UnknownFeatureType? <==> (|argv| == 4 || |argv| == 5) && argv[3] != "orb" && argv[3] != "cnn"
    ensures r.Accepted? ==>
      && r.args.vocabulary == argv[1]
      && r.args.descriptors == argv[2]
      && (r.args.featureType == Orb <==> argv[3] == "orb")
      && (r.args.featureType == Cnn <==> argv[3] == "cnn")
      && r.args.outputName == if |argv| == 5 then argv[4] else "none"
  {
    if |argv| != 4 && |argv| != 5 then WrongCount
    else
      var outputName := if |argv| == 5 then argv[4] else "none";
      if argv[3] == "orb" then Accepted(Arguments(argv[1], argv[2], Orb, outputName))
      else if argv[3] == "cnn" then Accepted(Arguments(argv[1], argv[2], Cnn, outputName))
      else UnknownFeatureType
  }

  /** How a run of `main` ends, as far as this model follows it. */
  datatype Termination =
    | Exit(code: int)
    | Aborted                          // an uncaught exception from the CNN reader
    | VocabularyTests(args: Arguments) // control reaches testVoc and testDatabase

  /**
   * `main` up to the vocabulary and database tests. `descriptorFile` is the
   * file named by the second argument (None when it cannot be opened), L the
   * CNN descriptor length, and `vocabularyLoads` what
   * `voc.loadFromTextFile` returns. The ORB feature extraction is not
   * modelled; it is taken to return.
   */
  method Run(argv: seq<string>, descriptorFile: Option<seq<Word>>, L: nat, vocabularyLoads: bool) returns (t: Termination)
    requires 0 < L
    ensures t.Exit? ==> t.code == 1
    ensures !CheckArguments(argv).Accepted? ==> t == Exit(1)
    ensures t.Aborted? <==>
      CheckArguments(argv).Accepted? && CheckArguments(argv).args.featureType == Cnn && Load(descriptorFile, L).Error?
    ensures t.VocabularyTests? <==> CheckArguments(argv).Accepted? && vocabularyLoads && !t.Aborted?
    ensures t.VocabularyTests? ==> t.args == CheckArguments(argv).args
  {
    var check := CheckArguments(argv);
    if !check.Accepted? {
      return Exit(1);
    }
    var args := check.args;
    if args.featureType == Cnn {
      var features := LoadCnnFeatures(descriptorFile, L);
      if features.Error? {
        return Aborted;
      }
    }
    if !vocabularyLoads {
      return Exit(1);
    }
    return VocabularyTests(args);
  }
}
