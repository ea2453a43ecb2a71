# DBoW2 demo utilities: descriptor loading and trajectory distances

This project models, in Dafny, the self-contained logic of two demo programs of
DBoW2, the bag-of-binary-words library for place recognition:

- `demo/testVoc.cpp`, which tests a vocabulary against a set of images. The
  model covers:
  - the argument check and the control flow of its `main`;
  - `loadCNNFeatures`, the reader of the binary CNN descriptor file. The file
    holds 32-bit words. Each frame is a run of features, and each feature is
    an (x, y) pair followed by L float words. A pair with x or y equal to -1
    closes the frame. The reader drops the coordinates and drops frames with
    no feature.
  - `changeOrbStructure`, which splits a descriptor matrix into its rows.
- `demo/computeDistance.cpp`, which reads a ground-truth trajectory. The model
  covers:
  - `loadPoses`, which reads twelve numbers per pose into the top three rows
    of a 4x4 identity matrix;
  - `trajectoryDistances`, the distance of every pose's translation to that
    of pose 70 (`MATCHING_IMAGE`);
  - the argument check and output table of `main`.

Modules:

- `Basics` (basics.dfy): `Option` for a file that may not open, `Result` for
  a reader that may throw.
- `CnnFormat` (cnn_format.dfy): the descriptor file format as a
  specification.
  - `Scan` turns words into records: a feature, a sentinel pair that ends
    a frame, or a lone -1 word at the very end, read as x when the read of y
    finds no data, which ends the frame and the file.
  - `Group` turns records into frames.
  - `Parse` applies one after the other, and `Load` adds the file that does
    not open.
  - The lemmas characterise exactly which files are accepted, what they
    yield, and the round trip from frames to a file and back.
- `TestVoc` (test_voc.dfy): the imperative reader `LoadCnnFeatures`, with
  its inner loops `ReadFrame`, `ReadRecord` and `ReadDescriptor`. It is
  proved equal to `Load`. The module also holds `ChangeOrbStructure` and
  `main` (`CheckArguments`, `Run`).
- `Trajectory` (trajectory.dfy): poses as 4x4 matrices, the poses a list of
  numbers yields, translations and squared distances.
- `ComputeDistance` (compute_distance.dfy): the imperative `LoadPoses` and
  `TrajectoryDistances`, each proved against its specification function,
  and `main` (`Run`).

## Model

| member | source | states |
|---|---|---|
| CnnFormat.AsInt32 | demo/testVoc.cpp:155-160 | a word read into an `int` is its two's-complement value, in range, congruent to the word modulo 2^32, and equal to -1 exactly for the all-ones word |
| CnnFormat.Scan | demo/testVoc.cpp:148-181 | every record read is valid: a feature has a non-sentinel pair and exactly L descriptor words, an end-of-frame record has a sentinel pair, and a lone last word is -1 |
| CnnFormat.ScanAfterRecords | demo/testVoc.cpp:151-181 | reading the encoding of valid whole-pair records followed by more words gives back exactly those records, then whatever the rest gives; whether the rest may end cleanly depends on whether the last record was a sentinel |
| CnnFormat.ScanRecord | demo/testVoc.cpp:157-175 | the words of one valid whole-pair record read back as that record |
| CnnFormat.ScanSound | demo/testVoc.cpp:148-181 | whenever the reader succeeds, the input is exactly the encoding of the records it read, it ends right after a sentinel, and a lone -1 word appears only as the last record |
| CnnFormat.ScanWellFormed | demo/testVoc.cpp:148-194 | a list of valid records that ends with a sentinel pair or a lone -1 word, with no lone word before the end, reads back as itself |
| CnnFormat.ScannedWellFormed | demo/testVoc.cpp:148-194 | the records of a successful read form a well-formed file whose encoding is the input |
| CnnFormat.ParseSucceedsIff | demo/testVoc.cpp:148-194 | the reader succeeds if and only if the file is the encoding of some valid record list that ends with a sentinel pair or a lone -1 word, with no lone word before the end |
| CnnFormat.ParsedFrames | demo/testVoc.cpp:148-194 | on success: the file encodes the records read; no frame is empty; every descriptor has L words; the frames hold exactly the feature descriptors, in order; there are as many descriptors as features and at most one frame per sentinel |
| CnnFormat.GroupNoEmptyFrames | demo/testVoc.cpp:184-187 | no frame that grouping keeps is empty |
| CnnFormat.GroupKeepsDescriptors | demo/testVoc.cpp:180-187 | once every frame is closed, the kept frames laid end to end are the open frame's descriptors followed by every feature descriptor, in file order |
| CnnFormat.DescriptorsCount | demo/testVoc.cpp:176-180 | there is one descriptor per feature record |
| CnnFormat.GroupCount | demo/testVoc.cpp:160-163 | grouping keeps at most one frame per sentinel |
| CnnFormat.GroupDescriptorLength | demo/testVoc.cpp:167-175 | every descriptor in every kept frame has exactly L words |
| CnnFormat.GroupIgnoresCoordinates | demo/testVoc.cpp:155-163 | grouping depends only on the kind and descriptor of each record, never on the coordinates |
| CnnFormat.GroupAppend | demo/testVoc.cpp:148-150 | after a sentinel closes the open frame, the next frame starts empty: grouping a concatenation is grouping the parts |
| CnnFormat.GroupFeatureRecords | demo/testVoc.cpp:180 | a run of feature records appends its descriptors, in order, to the open frame |
| CnnFormat.FeatureRecordsValid | demo/testVoc.cpp:157-175 | the features written for a frame with non-sentinel coordinates and L-word descriptors are valid, one per descriptor |
| CnnFormat.FramesToRecordsValid | demo/testVoc.cpp:157-175 | the records written for frames of L-word descriptors are valid, and end with a sentinel when there is a frame |
| CnnFormat.FramesToRecordsGroup | demo/testVoc.cpp:180-187 | grouping the records written for non-empty frames gives back those frames |
| CnnFormat.FramesRoundTrip | demo/testVoc.cpp:130-197 | non-empty frames of L-word descriptors, written with any non-sentinel coordinates, read back unchanged |
| CnnFormat.CoordinatesAreNotStored | demo/testVoc.cpp:155-163 | two files that differ only in their non-sentinel coordinates read the same |
| CnnFormat.EmptyFrameAddsNothing | demo/testVoc.cpp:182-187 | an extra sentinel pair at a frame boundary, which makes an empty frame, changes nothing in the result |
| CnnFormat.InsertedEndWellFormed | demo/testVoc.cpp:160-163 | adding a sentinel pair to a well-formed record list keeps it well formed |
| CnnFormat.GroupSkipsEmptyFrame | demo/testVoc.cpp:184-187 | grouping drops the empty frame made by a sentinel pair at a frame boundary |
| CnnFormat.EndOfInputOnlyAfterSentinel | demo/testVoc.cpp:151-163 | input that ends at a pair boundary or one word into a pair is read cleanly if and only if it ends right after a sentinel pair or that one word is -1 |
| CnnFormat.LoneSentinelReadsAsPair | demo/testVoc.cpp:155-163 | a lone -1 word at the end of the input is read cleanly, and reads exactly as a sentinel pair starting with that word would |
| CnnFormat.TruncatedDescriptorFails | demo/testVoc.cpp:170-175 | input that ends partway through a descriptor raises an error, and no partial descriptor is returned |
| TestVoc.SentinelStep | demo/testVoc.cpp:157-163 | reading a sentinel pair closes the open frame; the frame is kept only if it is not empty |
| TestVoc.EndStep | demo/testVoc.cpp:148-163 | with fewer than two words left, the reader stops cleanly at the end of the input after a sentinel, or on a lone -1 word, which closes the open frame; it raises an error otherwise |
| TestVoc.FeatureStep | demo/testVoc.cpp:157-180 | reading a feature pair and its descriptor appends the descriptor to the open frame |
| TestVoc.ReadDescriptor | demo/testVoc.cpp:167-175 | the descriptor loop succeeds exactly when L words remain, and then returns those L words in order and the position after them |
| TestVoc.ReadRecord | demo/testVoc.cpp:155-180 | one pass of the inner loop reads the next pair; a sentinel closes the frame, a short descriptor raises an error, and otherwise the descriptor is added to the frame, all as the specification reads them |
| TestVoc.ReadFrame | demo/testVoc.cpp:150-181 | the inner loop ends with a closed frame, the end of the input (after a sentinel pair, or on a lone -1 word that closes the frame), or an error; each outcome agrees with the specification on the rest of the input |
| TestVoc.LoadCnnFeatures | demo/testVoc.cpp:130-197 | the reader returns exactly `Load` of the file: an error when it cannot be opened or the specification rejects it, otherwise the non-empty frames of descriptors |
| TestVoc.RowEntry | demo/testVoc.cpp:242 | element j of row i is matrix element (i, j), stored row after row |
| TestVoc.RowsReassemble | demo/testVoc.cpp:240-243 | the first k rows laid end to end are the first k*cols elements of the matrix |
| TestVoc.ChangeOrbStructure | demo/testVoc.cpp:236-244 | the output has one entry per matrix row, entry i is row i, and the rows laid end to end give back the matrix |
| TestVoc.CheckArguments | demo/testVoc.cpp:65-76 | the argument count must be 4 or 5 (program name included); the feature type must be `orb` or `cnn`; otherwise the fields are the arguments, with output name `none` when there are only 4 |
| TestVoc.Run | demo/testVoc.cpp:63-126 | bad arguments exit with 1; the CNN path aborts exactly when the descriptor file cannot be read; otherwise the vocabulary tests run exactly when the vocabulary loads, and with the parsed arguments |
| Trajectory.Fill | demo/computeDistance.cpp:27-31 | converting up to twelve numbers into a 4x4 matrix leaves a 4x4 matrix |
| Trajectory.Poses | demo/computeDistance.cpp:26-34 | every pose read from a list of numbers is a 4x4 matrix |
| Trajectory.LoadedPoses | demo/computeDistance.cpp:21-37 | a file that does not open yields no pose, and every pose is 4x4 |
| Trajectory.FromRecordEntries | demo/computeDistance.cpp:27-31 | twelve numbers fill rows 0 to 2 row by row, and row 3 stays `[0, 0, 0, 1]` |
| Trajectory.PoseCount | demo/computeDistance.cpp:26-34 | one pose per complete group of twelve numbers; a short tail is dropped |
| Trajectory.PoseAt | demo/computeDistance.cpp:26-34 | pose k is built from numbers 12k to 12k + 11 |
| Trajectory.BottomRowIsIdentity | demo/computeDistance.cpp:27 | every pose read keeps the identity's bottom row |
| Trajectory.TranslationOfPose | demo/computeDistance.cpp:28-31 | the translation of pose k is numbers 12k + 3, 12k + 7 and 12k + 11 of the file |
| Trajectory.SquaredDistance | demo/computeDistance.cpp:45-48 | a squared distance is never negative and is zero between equal points |
| Trajectory.DistanceZeroAtReference | demo/computeDistance.cpp:42-48 | there is one distance per pose; every distance is non-negative; the reference pose and every pose with the same translation are at distance 0 |
| Trajectory.DistancesDependOnlyOnTranslations | demo/computeDistance.cpp:45-47 | the distances depend only on the translation columns of the poses |
| ComputeDistance.LoadPoses | demo/computeDistance.cpp:21-37 | the loop returns exactly the poses the file's numbers yield, none when it does not open |
| ComputeDistance.TrajectoryDistances | demo/computeDistance.cpp:40-51 | one distance per pose, entry i taken between pose i and pose 70; the entry of pose 70 is 0 and none is negative |
| ComputeDistance.WriteRows | demo/computeDistance.cpp:70-73 | the output lines are the distances, each after its pose index, in order |
| ComputeDistance.Run | demo/computeDistance.cpp:54-76 | the program demands exactly two arguments; with fewer than 71 poses the reference pose does not exist; otherwise it writes `<output_name>.dat` with one numbered distance per pose read |

## Left out

- Loading ORB features (`loadOrbFeatures`): OpenCV image reading and ORB extraction are foreign code. In `TestVoc.Run` that path is taken to return.
- `testVoc`, `testDatabase` and `voc.loadFromTextFile` are the vocabulary and database library, not this core. `TestVoc.Run` stops where control reaches them and takes the vocabulary load's outcome as a parameter.
- The CNN descriptor length `FCNN::L` is a parameter `L > 0`: FCNN.h is not part of this model.
- Progress counters (`nfeatures`, `nFrames`) and all console output are not modelled.
- The file is modelled as a sequence of 32-bit words. Native byte order and a file whose length is not a multiple of four bytes are not modelled. `errno` is not modelled: a failed open or read is an `Error`.
- Descriptor floats are carried as their bit patterns (`Word`). The reader only copies them.
- x and y after a read that finds no data: the source reads uninitialised locals there. The model takes them to keep the pair read last, and to be 0 before the first read. It follows that an empty file is an `Error`, as a non-sentinel x leads to the descriptor read, which throws.
- CnnFormat.Scan: when one word is left, x reads it and the read of y finds no data. A -1 there ends the frame and the file cleanly, as in the source. Any other lone word is an `Error`: the source then compares x with an uninitialised y, which is undefined behaviour.
- `cv::Mat` row headers share the matrix data. `TestVoc.ChangeOrbStructure` returns copies of the rows as sequences, so aliasing is not modelled.
- Numbers in the pose file are modelled as the `real` values `fscanf` converts. Decimal parsing and double rounding are not modelled. A file with a token `fscanf` cannot convert is not modelled either: there the source loops forever, because `feof` never becomes true.
- When `feof` becomes true (on the last successful `fscanf`, or on the one after it) does not change the poses read. The model takes the latter.
- Trajectory.SquaredDistance: the source computes `sqrt(dx*dx+dy*dy+dz*dz)` in single precision. The model keeps the exact squared distance: the square root and float rounding are left out. The contract states non-negativity and zero at equal points, but not that distinct points are at a positive distance.
- ComputeDistance.TrajectoryDistances: indexing pose 70 of a shorter trajectory is undefined behaviour in the source. The method requires more than 70 poses, and `ComputeDistance.Run` reports the shorter case as `ReferenceOutOfRange`.
- The `.dat` file is modelled as its name and its `(index, distance)` rows. The header line `#frame dist` and the number formatting are not modelled.
