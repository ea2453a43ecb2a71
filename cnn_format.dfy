/**
 * The binary CNN descriptor file read by `loadCNNFeatures` in demo/testVoc.cpp.
 *
 * The file is a stream of 32-bit words. A frame is a run of feature records,
 * each a coordinate pair (x, y) followed by the L words of one descriptor, and
 * the frame is closed by a pair in which x or y is -1. The reader drops the
 * coordinates, keeps the descriptors, and drops frames that hold none.
 *
 * This module states the format as two layers: `Scan` turns words into the
 * records the reader reads, `Group` turns records into frames, and `Parse`
 * is the one after the other. The imperative reader in module TestVoc is
 * proved to compute `Parse`.
 */
module CnnFormat {
  import opened Basics

  /** One 32-bit word of the file, as the unsigned value of its bits. */
  newtype Word = w: int | 0 <= w < 0x1_0000_0000

  /** The word as the two's-complement `int` the coordinate read stores. */
  function AsInt32(w: Word): (i: int)
    ensures -0x8000_0000 <= i < 0x8000_0000
    ensures (i + 0x1_0000_0000) % 0x1_0000_0000 == w as int
    ensures i == -1 <==> w == 0xFFFF_FFFF
  {
    if w < 0x8000_0000 then w as int else w as int - 0x1_0000_0000
  }

  /** A coordinate pair that closes a frame: either coordinate equal to -1 suffices. */
  predicate IsSentinel(x: Word, y: Word)
  {
    AsInt32(x) == -1 || AsInt32(y) == -1
  }

  /** A descriptor: the L float words of one feature, copied and never computed on. */
  type Descriptor = seq<Word>

  /** The descriptors of one frame, in file order. */
  type Frame = seq<Descriptor>

  /**
   * What one read of a coordinate pair yields. `LoneSentinel` is the last
   * word of a file read as x, when the read of y then finds no data: a -1
   * there ends the frame and the file like a sentinel pair does.
   */
  datatype Record =
    | Feature(x: Word, y: Word, descriptor: Descriptor)
    | EndOfFrame(x: Word, y: Word)
    | LoneSentinel(x: Word)

  predicate ValidRecord(r: Record, L: nat)
  {
    match r
    case Feature(x, y, d) => !IsSentinel(x, y) && |d| == L
    case EndOfFrame(x, y) => IsSentinel(x, y)
    case LoneSentinel(x) => AsInt32(x) == -1
  }

  /** Whether a record ends the open frame. */
  predicate Closes(r: Record)
  {
    !r.Feature?
  }

  /** Records that each occupy a whole pair: no lone word among them. */
  predicate PairsOnly(rs: seq<Record>)
  {
    forall i :: 0 <= i < |rs| ==> !rs[i].LoneSentinel?
  }

  predicate AllValid(rs: seq<Record>, L: nat)
  {
    forall i :: 0 <= i < |rs| ==> ValidRecord(rs[i], L)
  }

  /**
   * A whole file's worth of records: valid, ending with a sentinel pair or a
   * lone -1 word, and with a lone word nowhere but at the end.
   */
  predicate WellFormedFile(rs: seq<Record>, L: nat)
  {
    AllValid(rs, L) && rs != [] && Closes(rs[|rs| - 1]) && PairsOnly(rs[..|rs| - 1])
  }

  /** Whether the reader may stop cleanly after `rs`: only right after a sentinel. */
  function BoundaryAfter(rs: seq<Record>, atBoundary: bool): bool
  {
    if rs == [] then atBoundary else Closes(rs[|rs| - 1])
  }

  /** The words a record occupies in the file. */
  function EncodeRecord(r: Record): seq<Word>
  {
    match r
    case Feature(x, y, d) => [x, y] + d
    case EndOfFrame(x, y) => [x, y]
    case LoneSentinel(x) => [x]
  }

  function Encode(rs: seq<Record>): seq<Word>
  {
    if rs == [] then [] else EncodeRecord(rs[0]) + Encode(rs[1..])
  }

  function Prepend(r: Record, rest: Result<seq<Record>>): Result<seq<Record>>
  {
    match rest
    case Error => Error
    case Ok(rs) => Ok([r] + rs)
  }

  function PrependAll(rs: seq<Record>, rest: Result<seq<Record>>): Result<seq<Record>>
  {
    match rest
    case Error => Error
    case Ok(more) => Ok(rs + more)
  }

  /**
   * The records read from `w`. `atBoundary` tells whether the pair read last
   * was a sentinel. The source reads x and y without checking the read: at the
   * end of the file they keep the pair read before, so the reader stops cleanly
   * when that pair was a sentinel, and otherwise goes on to read a descriptor
   * and raises an error. When one word is left, x is read and the read of y
   * fails: a -1 in x ends the file cleanly; any other x is compared with a
   * y left over from the pair before, and is taken as an error.
   */
  function Scan(w: seq<Word>, L: nat, atBoundary: bool): (r: Result<seq<Record>>)
    requires 0 < L
    ensures r.Ok? ==> AllValid(r.value, L)
    decreases |w|
  {
    if w == [] then (if atBoundary then Ok([]) else Error)
    else if |w| < 2 then (if AsInt32(w[0]) == -1 then Ok([LoneSentinel(w[0])]) else Error)
    else if IsSentinel(w[0], w[1]) then Prepend(EndOfFrame(w[0], w[1]), Scan(w[2..], L, true))
    else if |w| < 2 + L then Error
    else Prepend(Feature(w[0], w[1], w[2..2 + L]), Scan(w[2 + L..], L, false))
  }

  function NonEmpty(f: Frame): seq<Frame>
  {
    if f == [] then [] else [f]
  }

  /** The frames formed from `rs` when `current` holds the descriptors read so far in the open frame. */
  function GroupFrom(current: Frame, rs: seq<Record>): seq<Frame>
    decreases |rs|
  {
    if rs == [] then []
    else if rs[0].Feature? then GroupFrom(current + [rs[0].descriptor], rs[1..])
    else NonEmpty(current) + GroupFrom([], rs[1..])
  }

  function Group(rs: seq<Record>): seq<Frame>
  {
    GroupFrom([], rs)
  }

  /** What `loadCNNFeatures` yields for the file contents `w`, with descriptor length L. */
  function Parse(w: seq<Word>, L: nat): Result<seq<Frame>>
    requires 0 < L
  {
    match Scan(w, L, false)
    case Error => Error
    case Ok(rs) => Ok(Group(rs))
  }

  /** As `Parse`, for a file that may not open: that raises an error too. */
  function Load(file: Option<seq<Word>>, L: nat): Result<seq<Frame>>
    requires 0 < L
  {
    match file
    case None => Error
    case Some(w) => Parse(w, L)
  }

  function Flatten(fs: seq<Frame>): seq<Descriptor>
  {
    if fs == [] then [] else fs[0] + Flatten(fs[1..])
  }

  /** The descriptors of the feature records, in order. */
  function Descriptors(rs: seq<Record>): seq<Descriptor>
  {
    if rs == [] then []
    else (if rs[0].Feature? then [rs[0].descriptor] else []) + Descriptors(rs[1..])
  }

  function CountFeatures(rs: seq<Record>): nat
  {
    if rs == [] then 0 else (if rs[0].Feature? then 1 else 0) + CountFeatures(rs[1..])
  }

  function CountEnds(rs: seq<Record>): nat
  {
    if rs == [] then 0 else (if Closes(rs[0]) then 1 else 0) + CountEnds(rs[1..])
  }

  /** A writer for the format: each descriptor under the pair (x, y), each frame closed by (-1, -1). */
  function FramesToRecords(fs: seq<Frame>, x: Word, y: Word): seq<Record>
  {
    if fs == [] then [] else FeatureRecords(fs[0], x, y) + [EndOfFrame(0xFFFF_FFFF, 0xFFFF_FFFF)] + FramesToRecords(fs[1..], x, y)
  }

  function FeatureRecords(f: Frame, x: Word, y: Word): seq<Record>
  {
    if f == [] then [] else [Feature(x, y, f[0])] + FeatureRecords(f[1..], x, y)
  }

  // ---------------------------------------------------------------------------
  // Scanning

  lemma EncodeCons(r: Record, rs: seq<Record>)
    ensures Encode([r] + rs) == EncodeRecord(r) + Encode(rs)
  {
    assert ([r] + rs)[1..] == rs;
  }

  /** Reading the encoding of valid whole-pair records yields those records and then whatever the rest yields. */
  lemma {:induction false} ScanAfterRecords(rs: seq<Record>, t: seq<Word>, L: nat, atBoundary: bool)
    requires 0 < L && AllValid(rs, L) && PairsOnly(rs)
    ensures Scan(Encode(rs) + t, L, atBoundary) == PrependAll(rs, Scan(t, L, BoundaryAfter(rs, atBoundary)))
    decreases |rs|
  {
    if rs == [] {
      assert Encode(rs) + t == t;
      var more := Scan(t, L, atBoundary);
      if more.Ok? {
        assert rs + more.value == more.value;
      }
    } else {
      var r, rest := rs[0], rs[1..];
      assert rs == [r] + rest;
      assert AllValid(rest, L) && PairsOnly(rest) by {
        forall i | 0 <= i < |rest| ensures ValidRecord(rest[i], L) && !rest[i].LoneSentinel? {
          assert rest[i] == rs[i + 1];
        }
      }
      assert ValidRecord(r, L) && !r.LoneSentinel? by { assert r == rs[0]; }
      EncodeCons(r, rest);
      var w := Encode(rs) + t;
      var after := Encode(rest) + t;
      assert w == EncodeRecord(r) + after;
      var b := Closes(r);
      assert BoundaryAfter(rest, b) == BoundaryAfter(rs, atBoundary);
      ScanAfterRecords(rest, t, L, b);
      PrependAllCons(r, rest, Scan(t, L, BoundaryAfter(rs, atBoundary)));
      ScanRecord(r, after, L, atBoundary);
    }
  }

  /** Reading the words of one valid whole-pair record yields that record, then whatever follows yields. */
  lemma ScanRecord(r: Record, after: seq<Word>, L: nat, atBoundary: bool)
    requires 0 < L && ValidRecord(r, L) && !r.LoneSentinel?
    ensures Scan(EncodeRecord(r) + after, L, atBoundary) == Prepend(r, Scan(after, L, Closes(r)))
  {
    var w := EncodeRecord(r) + after;
    match r
    case EndOfFrame(x, y) =>
      assert w[0] == x && w[1] == y && w[2..] == after;
      assert IsSentinel(w[0], w[1]);
    case Feature(x, y, d) =>
      assert w[0] == x && w[1] == y && w[2..2 + L] == d && w[2 + L..] == after;
  }

  lemma PrependAllCons(r: Record, rest: seq<Record>, more: Result<seq<Record>>)
    ensures Prepend(r, PrependAll(rest, more)) == PrependAll([r] + rest, more)
  {
    if more.Ok? {
      assert [r] + (rest + more.value) == ([r] + rest) + more.value;
    }
  }

  /** The record `Scan` reads first from nonempty `w`, and the number of words it takes. */
  lemma ScanFirst(w: seq<Word>, L: nat, atBoundary: bool) returns (r: Record, n: nat, b: bool)
    requires 0 < L && w != [] && Scan(w, L, atBoundary).Ok?
    ensures 1 <= n <= |w| && EncodeRecord(r) == w[..n]
    ensures b == Closes(r)
    ensures r.LoneSentinel? ==> n == |w|
    ensures Scan(w, L, atBoundary) == Prepend(r, Scan(w[n..], L, b))
  {
    if |w| < 2 {
      r, n, b := LoneSentinel(w[0]), 1, true;
      assert w[n..] == [];
      assert Scan(w[n..], L, b) == Ok([]);
      assert Scan(w, L, atBoundary) == Ok([r]);
      assert [r] + [] == [r];
    } else if IsSentinel(w[0], w[1]) {
      r, n, b := EndOfFrame(w[0], w[1]), 2, true;
    } else {
      r, n, b := Feature(w[0], w[1], w[2..2 + L]), 2 + L, false;
    }
  }

  /** Whatever `Scan` reads, the file is exactly the encoding of the records it returns. */
  lemma {:induction false} ScanSound(w: seq<Word>, L: nat, atBoundary: bool)
    requires 0 < L && Scan(w, L, atBoundary).Ok?
    ensures Encode(Scan(w, L, atBoundary).value) == w
    ensures BoundaryAfter(Scan(w, L, atBoundary).value, atBoundary)
    ensures var rs := Scan(w, L, atBoundary).value; rs == [] || PairsOnly(rs[..|rs| - 1])
    decreases |w|
  {
    if w != [] {
      var r, n, b := ScanFirst(w, L, atBoundary);
      ScanSound(w[n..], L, b);
      var rest := Scan(w[n..], L, b).value;
      var rs := [r] + rest;
      assert Scan(w, L, atBoundary).value == rs;
      EncodeCons(r, rest);
      assert w == w[..n] + w[n..];
      if rest == [] {
        assert rs[|rs| - 1] == r;
        assert rs[..|rs| - 1] == [];
      } else {
        assert rs[|rs| - 1] == rest[|rest| - 1];
        assert !r.LoneSentinel?;
        assert rs[..|rs| - 1] == [r] + rest[..|rest| - 1];
      }
    }
  }

  // ---------------------------------------------------------------------------
  // Grouping

  lemma {:induction false} FlattenAppend(a: seq<Frame>, b: seq<Frame>)
    ensures Flatten(a + b) == Flatten(a) + Flatten(b)
    decreases |a|
  {
    if a == [] {
      assert a + b == b;
    } else {
      assert (a + b)[1..] == a[1..] + b;
      FlattenAppend(a[1..], b);
    }
  }

  /** No frame that grouping emits is empty. */
  lemma {:induction false} GroupNoEmptyFrames(current: Frame, rs: seq<Record>)
    ensures forall i :: 0 <= i < |GroupFrom(current, rs)| ==> GroupFrom(current, rs)[i] != []
    decreases |rs|
  {
    if rs != [] {
      GroupNoEmptyFrames(if rs[0].Feature? then current + [rs[0].descriptor] else [], rs[1..]);
    }
  }

  /** Grouping emits, in order, exactly the descriptors of the feature records, once every frame is closed. */
  lemma {:induction false} GroupKeepsDescriptors(current: Frame, rs: seq<Record>)
    requires rs != [] && Closes(rs[|rs| - 1])
    ensures Flatten(GroupFrom(current, rs)) == current + Descriptors(rs)
    decreases |rs|
  {
    var rest := rs[1..];
    if rs[0].Feature? {
      GroupKeepsDescriptors(current + [rs[0].descriptor], rest);
    } else {
      FlattenAppend(NonEmpty(current), GroupFrom([], rest));
      assert Flatten(NonEmpty(current)) == current by {
        if current != [] { assert Flatten([current]) == current + Flatten([]); }
      }
      if rest != [] {
        GroupKeepsDescriptors([], rest);
      }
    }
  }

  /** One descriptor per feature record. */
  lemma {:induction false} DescriptorsCount(rs: seq<Record>)
    ensures |Descriptors(rs)| == CountFeatures(rs)
    decreases |rs|
  {
    if rs != [] {
      DescriptorsCount(rs[1..]);
    }
  }

  /** At most one frame per sentinel. */
  lemma {:induction false} GroupCount(current: Frame, rs: seq<Record>)
    ensures |GroupFrom(current, rs)| <= CountEnds(rs)
    decreases |rs|
  {
    if rs != [] {
      GroupCount(if rs[0].Feature? then current + [rs[0].descriptor] else [], rs[1..]);
    }
  }

  /** Every descriptor of a frame comes from a valid feature record, so it has exactly L words. */
  lemma {:induction false} GroupDescriptorLength(current: Frame, rs: seq<Record>, L: nat)
    requires AllValid(rs, L)
    requires forall j :: 0 <= j < |current| ==> |current[j]| == L
    ensures forall i, j :: 0 <= i < |GroupFrom(current, rs)| && 0 <= j < |GroupFrom(current, rs)[i]| ==>
              |GroupFrom(current, rs)[i][j]| == L
    decreases |rs|
  {
    if rs != [] {
      assert ValidRecord(rs[0], L);
      assert AllValid(rs[1..], L) by {
        forall i | 0 <= i < |rs[1..]| ensures ValidRecord(rs[1..][i], L) {
          assert rs[1..][i] == rs[i + 1];
        }
      }
      GroupDescriptorLength(if rs[0].Feature? then current + [rs[0].descriptor] else [], rs[1..], L);
    }
  }

  /** Grouping reads only the kinds and descriptors of the records, never the coordinates. */
  lemma {:induction false} GroupIgnoresCoordinates(current: Frame, rs: seq<Record>, rs': seq<Record>)
    requires |rs| == |rs'|
    requires forall i :: 0 <= i < |rs| ==> rs[i].Feature? == rs'[i].Feature?
    requires forall i :: 0 <= i < |rs| && rs[i].Feature? ==> rs[i].descriptor == rs'[i].descriptor
    ensures GroupFrom(current, rs) == GroupFrom(current, rs')
    decreases |rs|
  {
    if rs != [] {
      GroupIgnoresCoordinates(if rs[0].Feature? then current + [rs[0].descriptor] else [], rs[1..], rs'[1..]);
    }
  }

  /** Once the open frame is closed, grouping what follows starts afresh. */
  lemma {:induction false} GroupAppend(current: Frame, a: seq<Record>, b: seq<Record>)
    requires a != [] && Closes(a[|a| - 1])
    ensures GroupFrom(current, a + b) == GroupFrom(current, a) + GroupFrom([], b)
    decreases |a|
  {
    assert (a + b)[0] == a[0];
    assert (a + b)[1..] == a[1..] + b;
    var next := if a[0].Feature? then current + [a[0].descriptor] else [];
    if |a| == 1 {
      assert a[1..] + b == b;
    } else {
      GroupAppend(next, a[1..], b);
    }
  }

  lemma {:induction false} GroupFeatureRecords(current: Frame, f: Frame, x: Word, y: Word, rest: seq<Record>)
    ensures GroupFrom(current, FeatureRecords(f, x, y) + rest) == GroupFrom(current + f, rest)
    decreases |f|
  {
    if f == [] {
      assert FeatureRecords(f, x, y) + rest == rest;
      assert current + f == current;
    } else {
      var rs := FeatureRecords(f, x, y) + rest;
      assert rs == [Feature(x, y, f[0])] + (FeatureRecords(f[1..], x, y) + rest);
      assert rs[1..] == FeatureRecords(f[1..], x, y) + rest;
      GroupFeatureRecords(current + [f[0]], f[1..], x, y, rest);
      assert current + [f[0]] + f[1..] == current + f;
    }
  }

  lemma {:induction false} FeatureRecordsValid(f: Frame, x: Word, y: Word, L: nat)
    requires !IsSentinel(x, y)
    requires forall j :: 0 <= j < |f| ==> |f[j]| == L
    ensures AllValid(FeatureRecords(f, x, y), L) && PairsOnly(FeatureRecords(f, x, y))
    ensures |FeatureRecords(f, x, y)| == |f|
    decreases |f|
  {
    if f != [] {
      FeatureRecordsValid(f[1..], x, y, L);
    }
  }

  lemma AllValidAppend(a: seq<Record>, b: seq<Record>, L: nat)
    ensures AllValid(a + b, L) <==> AllValid(a, L) && AllValid(b, L)
  {
    if AllValid(a + b, L) {
      forall i | 0 <= i < |a| ensures ValidRecord(a[i], L) { assert a[i] == (a + b)[i]; }
      forall i | 0 <= i < |b| ensures ValidRecord(b[i], L) { assert b[i] == (a + b)[|a| + i]; }
    }
  }

  lemma PairsOnlyAppend(a: seq<Record>, b: seq<Record>)
    ensures PairsOnly(a + b) <==> PairsOnly(a) && PairsOnly(b)
  {
    if PairsOnly(a + b) {
      forall i | 0 <= i < |a| ensures !a[i].LoneSentinel? { assert a[i] == (a + b)[i]; }
      forall i | 0 <= i < |b| ensures !b[i].LoneSentinel? { assert b[i] == (a + b)[|a| + i]; }
    }
  }

  lemma {:induction false} FramesToRecordsValid(fs: seq<Frame>, x: Word, y: Word, L: nat)
    requires !IsSentinel(x, y)
    requires forall i, j :: 0 <= i < |fs| && 0 <= j < |fs[i]| ==> |fs[i][j]| == L
    ensures AllValid(FramesToRecords(fs, x, y), L) && PairsOnly(FramesToRecords(fs, x, y))
    ensures fs != [] ==> WellFormedFile(FramesToRecords(fs, x, y), L)
    decreases |fs|
  {
    if fs != [] {
      var e := [EndOfFrame(0xFFFF_FFFF, 0xFFFF_FFFF)];
      var head := FeatureRecords(fs[0], x, y) + e;
      var tail := FramesToRecords(fs[1..], x, y);
      var rs := FramesToRecords(fs, x, y);
      assert rs == head + tail;
      FramesToRecordsValid(fs[1..], x, y, L);
      FeatureRecordsValid(fs[0], x, y, L);
      assert IsSentinel(0xFFFF_FFFF, 0xFFFF_FFFF);
      assert AllValid(e, L);
      AllValidAppend(FeatureRecords(fs[0], x, y), e, L);
      AllValidAppend(head, tail, L);
      PairsOnlyAppend(FeatureRecords(fs[0], x, y), e);
      PairsOnlyAppend(head, tail);
      assert PairsOnly(rs[..|rs| - 1]) by {
        var front := rs[..|rs| - 1];
        forall i | 0 <= i < |front| ensures !front[i].LoneSentinel? { assert front[i] == rs[i]; }
      }
      assert rs[|rs| - 1].EndOfFrame? by {
        if tail == [] {
          assert rs[|rs| - 1] == head[|head| - 1];
        } else {
          assert rs[|rs| - 1] == tail[|tail| - 1];
        }
      }
    }
  }

  lemma {:induction false} FramesToRecordsGroup(fs: seq<Frame>, x: Word, y: Word)
    requires forall i :: 0 <= i < |fs| ==> fs[i] != []
    ensures Group(FramesToRecords(fs, x, y)) == fs
    decreases |fs|
  {
    if fs != [] {
      var e := [EndOfFrame(0xFFFF_FFFF, 0xFFFF_FFFF)];
      var head := FeatureRecords(fs[0], x, y) + e;
      var tail := FramesToRecords(fs[1..], x, y);
      assert FramesToRecords(fs, x, y) == head + tail;
      GroupAppend([], head, tail);
      GroupFeatureRecords([], fs[0], x, y, e);
      assert [] + fs[0] == fs[0];
      assert GroupFrom(fs[0], e) == [fs[0]] by {
        assert e[1..] == [];
      }
      FramesToRecordsGroup(fs[1..], x, y);
      assert fs == [fs[0]] + fs[1..];
    }
  }

  // ---------------------------------------------------------------------------
  // The reader's promises

  lemma {:induction false} EncodeAppend(a: seq<Record>, b: seq<Record>)
    ensures Encode(a + b) == Encode(a) + Encode(b)
    decreases |a|
  {
    if a == [] {
      assert a + b == b;
    } else {
      assert a + b == [a[0]] + (a[1..] + b);
      EncodeCons(a[0], a[1..] + b);
      EncodeAppend(a[1..], b);
    }
  }

  /** A well-formed file reads back as its records. */
  lemma ScanWellFormed(rs: seq<Record>, L: nat)
    requires 0 < L && WellFormedFile(rs, L)
    ensures Scan(Encode(rs), L, false) == Ok(rs)
  {
    var front, last := rs[..|rs| - 1], rs[|rs| - 1];
    assert rs == front + [last];
    AllValidAppend(front, [last], L);
    EncodeAppend(front, [last]);
    assert Encode([last]) == EncodeRecord(last) by { EncodeCons(last, []); }
    ScanAfterRecords(front, EncodeRecord(last), L, false);
    if last.LoneSentinel? {
      assert Scan([last.x], L, BoundaryAfter(front, false)) == Ok([last]);
    } else {
      ScanRecord(last, [], L, BoundaryAfter(front, false));
      assert EncodeRecord(last) + [] == EncodeRecord(last);
      assert Scan([], L, true) == Ok([]);
      assert [last] + [] == [last];
    }
  }

  /** The records of a successful read form a well-formed file whose encoding is the input. */
  lemma ScannedWellFormed(w: seq<Word>, L: nat) returns (rs: seq<Record>)
    requires 0 < L && Scan(w, L, false).Ok?
    ensures rs == Scan(w, L, false).value
    ensures WellFormedFile(rs, L) && Encode(rs) == w
  {
    rs := Scan(w, L, false).value;
    ScanSound(w, L, false);
    assert BoundaryAfter(rs, false);
    assert rs != [] && Closes(rs[|rs| - 1]);
  }

  /** The reader succeeds exactly on the encodings of well-formed record lists. */
  lemma ParseSucceedsIff(w: seq<Word>, L: nat)
    requires 0 < L
    ensures Parse(w, L).Ok? <==> exists rs :: WellFormedFile(rs, L) && Encode(rs) == w
  {
    if Parse(w, L).Ok? {
      var rs := ScannedWellFormed(w, L);
      assert WellFormedFile(rs, L) && Encode(rs) == w;
    }
    if exists rs :: WellFormedFile(rs, L) && Encode(rs) == w {
      var rs :| WellFormedFile(rs, L) && Encode(rs) == w;
      ScanWellFormed(rs, L);
    }
  }

  /**
   * What a successful read returns: the frames group the records read from
   * the file, none of them is empty, every descriptor has L words, the
   * descriptors are those of the feature records in file order (so their
   * number is the number of non-sentinel pairs), and there are no more frames
   * than sentinels.
   */
  lemma ParsedFrames(w: seq<Word>, L: nat)
    requires 0 < L && Parse(w, L).Ok?
    ensures Scan(w, L, false).Ok?
    ensures var rs, fs := Scan(w, L, false).value, Parse(w, L).value;
      && Encode(rs) == w
      && WellFormedFile(rs, L)
      && (forall i :: 0 <= i < |fs| ==> fs[i] != [])
      && (forall i, j :: 0 <= i < |fs| && 0 <= j < |fs[i]| ==> |fs[i][j]| == L)
      && Flatten(fs) == Descriptors(rs)
      && |Flatten(fs)| == CountFeatures(rs)
      && |fs| <= CountEnds(rs)
  {
    var rs := Scan(w, L, false).value;
    ScanSound(w, L, false);
    GroupNoEmptyFrames([], rs);
    GroupDescriptorLength([], rs, L);
    GroupKeepsDescriptors([], rs);
    assert [] + Descriptors(rs) == Descriptors(rs);
    DescriptorsCount(rs);
    GroupCount([], rs);
  }

  /** Written frames read back unchanged, whatever non-sentinel coordinates they were written with. */
  lemma FramesRoundTrip(fs: seq<Frame>, x: Word, y: Word, L: nat)
    requires 0 < L && fs != [] && !IsSentinel(x, y)
    requires forall i :: 0 <= i < |fs| ==> fs[i] != []
    requires forall i, j :: 0 <= i < |fs| && 0 <= j < |fs[i]| ==> |fs[i][j]| == L
    ensures Parse(Encode(FramesToRecords(fs, x, y)), L) == Ok(fs)
  {
    FramesToRecordsValid(fs, x, y, L);
    FramesToRecordsGroup(fs, x, y);
    ScanWellFormed(FramesToRecords(fs, x, y), L);
  }

  /** Changing the coordinates of the features (keeping them non-sentinel) does not change what is read. */
  lemma CoordinatesAreNotStored(rs: seq<Record>, rs': seq<Record>, L: nat)
    requires 0 < L && WellFormedFile(rs, L) && WellFormedFile(rs', L)
    requires |rs| == |rs'|
    requires forall i :: 0 <= i < |rs| ==> rs[i].Feature? == rs'[i].Feature?
    requires forall i :: 0 <= i < |rs| && rs[i].Feature? ==> rs[i].descriptor == rs'[i].descriptor
    ensures Parse(Encode(rs), L) == Parse(Encode(rs'), L)
  {
    ScanWellFormed(rs, L);
    ScanWellFormed(rs', L);
    GroupIgnoresCoordinates([], rs, rs');
  }

  /** A frame whose first pair is a sentinel adds nothing to the result. */
  lemma EmptyFrameAddsNothing(before: seq<Record>, x: Word, y: Word, after: seq<Record>, L: nat)
    requires 0 < L && IsSentinel(x, y)
    requires before == [] || before[|before| - 1].EndOfFrame?
    requires WellFormedFile(before + after, L)
    ensures Parse(Encode(before + [EndOfFrame(x, y)] + after), L) == Parse(Encode(before + after), L)
  {
    var with := before + [EndOfFrame(x, y)] + after;
    InsertedEndWellFormed(before, x, y, after, L);
    ScanWellFormed(with, L);
    ScanWellFormed(before + after, L);
    GroupSkipsEmptyFrame(before, x, y, after);
  }

  lemma InsertedEndWellFormed(before: seq<Record>, x: Word, y: Word, after: seq<Record>, L: nat)
    requires IsSentinel(x, y) && WellFormedFile(before + after, L)
    requires before == [] || before[|before| - 1].EndOfFrame?
    ensures WellFormedFile(before + [EndOfFrame(x, y)] + after, L)
  {
    var e := [EndOfFrame(x, y)];
    var with := before + (e + after);
    assert before + e + after == with;
    AllValidAppend(before, after, L);
    assert AllValid(e, L);
    AllValidAppend(e, after, L);
    AllValidAppend(before, e + after, L);
    if after == [] {
      assert with[|with| - 1] == EndOfFrame(x, y);
    } else {
      assert with[|with| - 1] == after[|after| - 1] == (before + after)[|before + after| - 1];
    }
    var joined := before + after;
    var front, joinedFront := with[..|with| - 1], joined[..|joined| - 1];
    forall i | 0 <= i < |front| ensures !front[i].LoneSentinel? {
      if i < |before| {
        assert front[i] == joined[i];
        if i < |joinedFront| {
          assert joinedFront[i] == joined[i];
        }
      } else if |before| < i {
        assert front[i] == joined[i - 1] == joinedFront[i - 1];
      }
    }
  }

  lemma GroupSkipsEmptyFrame(before: seq<Record>, x: Word, y: Word, after: seq<Record>)
    requires before == [] || before[|before| - 1].EndOfFrame?
    ensures Group(before + [EndOfFrame(x, y)] + after) == Group(before + after)
  {
    var e := [EndOfFrame(x, y)];
    assert before + e + after == before + (e + after);
    assert GroupFrom([], e + after) == GroupFrom([], after) by {
      assert (e + after)[1..] == after;
    }
    if before != [] {
      GroupAppend([], before, e + after);
      GroupAppend([], before, after);
    } else {
      assert before + (e + after) == e + after;
      assert before + after == after;
    }
  }

  /**
   * Input that ends at a pair boundary, or one word into a pair, is read
   * cleanly only when it ends right after a sentinel pair, or when that one
   * word is -1.
   */
  lemma EndOfInputOnlyAfterSentinel(rs: seq<Record>, t: seq<Word>, L: nat)
    requires 0 < L && AllValid(rs, L) && PairsOnly(rs) && |t| < 2
    ensures Parse(Encode(rs) + t, L).Ok? <==>
      (t == [] && rs != [] && rs[|rs| - 1].EndOfFrame?) || (|t| == 1 && AsInt32(t[0]) == -1)
  {
    ScanAfterRecords(rs, t, L, false);
    if rs != [] {
      assert !rs[|rs| - 1].LoneSentinel?;
    }
  }

  /** A lone -1 word at the end of the input reads exactly as a sentinel pair there would. */
  lemma LoneSentinelReadsAsPair(rs: seq<Record>, x: Word, y: Word, L: nat)
    requires 0 < L && AllValid(rs, L) && PairsOnly(rs) && AsInt32(x) == -1
    ensures Parse(Encode(rs) + [x], L) == Parse(Encode(rs) + [x, y], L)
    ensures Parse(Encode(rs) + [x], L).Ok?
  {
    ScanAfterRecords(rs, [x], L, false);
    ScanAfterRecords(rs, [x, y], L, false);
    var b := BoundaryAfter(rs, false);
    assert [x, y][2..] == [];
    assert Scan([], L, true) == Ok([]);
    assert IsSentinel([x, y][0], [x, y][1]);
    assert [EndOfFrame(x, y)] + [] == [EndOfFrame(x, y)];
    assert Scan([x], L, b) == Ok([LoneSentinel(x)]);
    assert Scan([x, y], L, b) == Ok([EndOfFrame(x, y)]);
    GroupIgnoresCoordinates([], rs + [LoneSentinel(x)], rs + [EndOfFrame(x, y)]);
  }

  /** Input that ends partway through a descriptor raises an error; no partial descriptor is returned. */
  lemma TruncatedDescriptorFails(rs: seq<Record>, x: Word, y: Word, part: seq<Word>, L: nat)
    requires 0 < L && AllValid(rs, L) && PairsOnly(rs) && !IsSentinel(x, y) && |part| < L
    ensures Parse(Encode(rs) + [x, y] + part, L) == Error
  {
    var t := [x, y] + part;
    ScanAfterRecords(rs, t, L, false);
    assert Encode(rs) + [x, y] + part == Encode(rs) + t;
    assert t[0] == x && t[1] == y;
  }
}
