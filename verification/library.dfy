/**
 Filing one photo into the library. The file system is a finite map from path
 to content; the probe walks the candidate paths of attempts 0, 1, 2, ... and
 stops at the first free path, or at an occupied one that already holds the
 same bytes (a duplicate, which is not copied again).

 The probe is stated over any injective sequence of candidate paths
 (`Namer`); the organiser's own sequence is `Attempts`, built from the naming
 rules, and the filing functions at the end use only that one.
 */
module Library {

  import opened Wrappers
  import opened Timestamps
  import opened ExifTags
  import opened Paths
  import opened Naming

  newtype byte = x: int | 0 <= x < 256

  type Content = seq<byte>

  type FileSystem = map<string, Content>

  /** The path probed on each attempt. */
  type Namer = nat -> string

  ghost predicate Injective(names: Namer) {
    forall i: nat, j: nat :: names(i) == names(j) ==> i == j
  }

  /** The organiser's probe sequence for one photo. */
  function Attempts(root: string, rec: ImageRecord): (names: Namer)
    ensures forall n: nat :: names(n) == Candidate(root, rec, n)
  {
    (n: nat) => Candidate(root, rec, n)
  }

  lemma AttemptsInjective(root: string, rec: ImageRecord)
    ensures Injective(Attempts(root, rec))
  {
    forall i: nat, j: nat | Attempts(root, rec)(i) == Attempts(root, rec)(j)
      ensures i == j
    {
      CandidateInjective(root, rec, i, j);
    }
  }

  /** What filing one photo did: copied it to a new path, found it already there, or had no date. */
  datatype Outcome = Copied(path: string) | Duplicate(path: string) | DateNotFound(source: string)

  /** `copy(source, dest)`: the destination now holds the source's bytes; nothing else changes. */
  function Copy(fs: FileSystem, dest: string, content: Content): (fs': FileSystem)
    ensures fs'.Keys == fs.Keys + {dest}
    ensures fs'[dest] == content
    ensures forall p :: p in fs && p != dest ==> fs'[p] == fs[p]
  {
    fs[dest := content]
  }

  /** Every attempt before `k` hit an existing file with different content. */
  ghost predicate EarlierOccupied(fs: FileSystem, names: Namer, src: Content, k: nat) {
    forall i: nat :: i < k ==> names(i) in fs && fs[names(i)] != src
  }

  /** An attempt that meets a file with other content extends the run of collisions. */
  lemma OccupiedStep(fs: FileSystem, names: Namer, src: Content, k: nat)
    requires EarlierOccupied(fs, names, src, k)
    requires names(k) in fs && fs[names(k)] != src
    ensures EarlierOccupied(fs, names, src, k + 1)
  {
  }

  /** The probe ends at attempt `k`: all earlier ones collided, and attempt `k` is free or identical. */
  ghost predicate StopsAt(fs: FileSystem, names: Namer, src: Content, k: nat) {
    EarlierOccupied(fs, names, src, k) && (names(k) !in fs || fs[names(k)] == src)
  }

  /** The outcome of a probe that ends at attempt `k`. */
  function OutcomeAt(fs: FileSystem, names: Namer, k: nat): Outcome {
    if names(k) in fs then Duplicate(names(k)) else Copied(names(k))
  }

  /** The outcome is the one a probe of the library reaches. */
  ghost predicate IsPlacement(fs: FileSystem, names: Namer, src: Content, o: Outcome) {
    exists k: nat :: StopsAt(fs, names, src, k) && o == OutcomeAt(fs, names, k)
  }

  /** Whatever the outcome, its path is one of the attempted names. */
  lemma PlacementPath(fs: FileSystem, names: Namer, src: Content, o: Outcome)
    requires IsPlacement(fs, names, src, o)
    ensures exists k: nat :: o.path == names(k)
  {
    var k: nat :| StopsAt(fs, names, src, k) && o == OutcomeAt(fs, names, k);
    assert o.path == names(k);
  }

  /** The probe can end at one attempt only. */
  lemma StopsAtUnique(fs: FileSystem, names: Namer, src: Content, j: nat, k: nat)
    requires StopsAt(fs, names, src, j) && StopsAt(fs, names, src, k)
    ensures j == k
  {
  }

  /** Filing is deterministic: the library and the photo fix the outcome. */
  lemma PlacementUnique(fs: FileSystem, names: Namer, src: Content, o1: Outcome, o2: Outcome)
    requires IsPlacement(fs, names, src, o1) && IsPlacement(fs, names, src, o2)
    ensures o1 == o2
  {
    var j: nat :| StopsAt(fs, names, src, j) && o1 == OutcomeAt(fs, names, j);
    var k: nat :| StopsAt(fs, names, src, k) && o2 == OutcomeAt(fs, names, k);
    StopsAtUnique(fs, names, src, j, k);
  }

  /** The paths of the first `n` attempts. */
  ghost function Probed(names: Namer, n: nat): set<string>
    decreases n
  {
    if n == 0 then {} else Probed(names, n - 1) + {names(n - 1)}
  }

  lemma {:induction false} NotYetProbed(names: Namer, n: nat, m: nat)
    requires Injective(names)
    requires n <= m
    ensures names(m) !in Probed(names, n)
    decreases n
  {
    if n > 0 {
      NotYetProbed(names, n - 1, m);
    }
  }

  /** With an injective namer the first `n` attempts probe `n` distinct paths. */
  lemma {:induction false} ProbedSize(names: Namer, n: nat)
    requires Injective(names)
    ensures |Probed(names, n)| == n
    decreases n
  {
    if n > 0 {
      ProbedSize(names, n - 1);
      NotYetProbed(names, n - 1, n - 1);
    }
  }

  lemma {:induction false} ProbedOccupied(fs: FileSystem, names: Namer, src: Content, n: nat)
    requires EarlierOccupied(fs, names, src, n)
    ensures Probed(names, n) <= fs.Keys
    decreases n
  {
    if n > 0 {
      ProbedOccupied(fs, names, src, n - 1);
    }
  }

  lemma {:induction false} SubsetSize<T>(a: set<T>, b: set<T>)
    requires a <= b
    ensures |a| <= |b|
    decreases |a|
  {
    if a != {} {
      var x :| x in a;
      SubsetSize(a - {x}, b - {x});
    }
  }

  /**
   Termination: collisions are distinct existing files, so a finite library
   allows at most `|fs|` of them and the probe makes at most `|fs| + 1` attempts.
   */
  lemma ProbeBound(fs: FileSystem, names: Namer, src: Content, k: nat)
    requires Injective(names)
    requires EarlierOccupied(fs, names, src, k)
    ensures k <= |fs|
  {
    ProbedSize(names, k);
    ProbedOccupied(fs, names, src, k);
    SubsetSize(Probed(names, k), fs.Keys);
  }

  /** The attempt at which the probe from attempt `n` ends. */
  function FirstFit(fs: FileSystem, names: Namer, src: Content, n: nat): (k: nat)
    requires Injective(names)
    requires EarlierOccupied(fs, names, src, n)
    ensures n <= k <= |fs|
    ensures StopsAt(fs, names, src, k)
    decreases |fs| - n
  {
    ProbeBound(fs, names, src, n);
    if names(n) in fs && fs[names(n)] != src then
      ProbeBound(fs, names, src, n + 1);
      FirstFit(fs, names, src, n + 1)
    else
      n
  }

  /**
   The probe over an injective namer: `Copied` names a path that does not
   exist yet, `Duplicate` one that already holds the same bytes.
   */
  function Probe(fs: FileSystem, names: Namer, src: Content): (o: Outcome)
    requires Injective(names)
    ensures IsPlacement(fs, names, src, o)
    ensures o.Copied? || o.Duplicate?
    ensures o.Copied? ==> o.path !in fs
    ensures o.Duplicate? ==> o.path in fs && fs[o.path] == src
  {
    OutcomeAt(fs, names, FirstFit(fs, names, src, 0))
  }

  /** The library after an outcome: a copy adds the new path, anything else leaves it alone. */
  function Commit(fs: FileSystem, o: Outcome, src: Content): (fs': FileSystem)
    ensures o.Copied? ==> fs' == Copy(fs, o.path, src)
    ensures !o.Copied? ==> fs' == fs
  {
    if o.Copied? then Copy(fs, o.path, src) else fs
  }

  /**
   Idempotence: probing again in the library the first probe left behind
   finds the copy (or the same duplicate) at the same path.
   */
  lemma {:induction false} SecondProbeIsDuplicate(fs: FileSystem, names: Namer, src: Content)
    requires Injective(names)
    ensures var o := Probe(fs, names, src);
            Probe(Commit(fs, o, src), names, src) == Duplicate(o.path)
  {
    var o := Probe(fs, names, src);
    var fs1 := Commit(fs, o, src);
    var k: nat :| StopsAt(fs, names, src, k) && o == OutcomeAt(fs, names, k);
    assert EarlierOccupied(fs1, names, src, k) by {
      forall i: nat | i < k
        ensures names(i) in fs1 && fs1[names(i)] != src
      {
        assert names(i) != names(k);
      }
    }
    assert StopsAt(fs1, names, src, k);
    PlacementUnique(fs1, names, src, Probe(fs1, names, src), OutcomeAt(fs1, names, k));
  }

  /** The probe of `copy_to_library` for one photo under the library root. */
  function Place(fs: FileSystem, root: string, rec: ImageRecord, src: Content): (o: Outcome)
    ensures IsPlacement(fs, Attempts(root, rec), src, o)
    ensures o.Copied? || o.Duplicate?
    ensures o.Copied? ==> o.path !in fs
    ensures o.Duplicate? ==> o.path in fs && fs[o.path] == src
  {
    AttemptsInjective(root, rec);
    Probe(fs, Attempts(root, rec), src)
  }

  /**
   Where a filed photo lands: under its folder `<root>\<year>\<make>`, in a
   file whose name starts with the photo's stamp.
   */
  lemma PlacedInFolder(fs: FileSystem, root: string, rec: ImageRecord, src: Content)
    ensures var o := Place(fs, root, rec, src);
            var folder := Folder(root, rec.date, rec.make) + Glue(Folder(root, rec.date, rec.make));
            && folder <= o.path
            && o.path[|folder|..][..StampLength] == StampName(rec.date)
  {
    var o := Place(fs, root, rec, src);
    var names := Attempts(root, rec);
    PlacementPath(fs, names, src, o);
    var k: nat :| o.path == names(k);
    CandidateInFolder(root, rec, k);
  }

  /**
   `copy_to_library` as written: the `while True` loop over `copy_count`,
   building each candidate name and testing it against the library.
   */
  method CopyToLibrary(fs: FileSystem, root: string, rec: ImageRecord, src: Content)
    returns (outcome: Outcome, fs': FileSystem)
    ensures IsPlacement(fs, Attempts(root, rec), src, outcome)
    ensures outcome == Place(fs, root, rec, src)
    ensures outcome.Copied? ==> outcome.path !in fs && fs' == Copy(fs, outcome.path, src)
    ensures outcome.Duplicate? ==> outcome.path in fs && fs[outcome.path] == src && fs' == fs
  {
    ghost var names := Attempts(root, rec);
    AttemptsInjective(root, rec);
    var destFolder := Folder(root, rec.date, rec.make);
    var copyCount: nat := 0;
    var destPath: string;
    while true
      invariant EarlierOccupied(fs, names, src, copyCount)
      invariant copyCount <= |fs|
      decreases |fs| - copyCount
    {
      var file := Basename(rec.source);
      var destName := StampName(rec.date) + AttemptSuffix(copyCount) + OriginalPart(file);
      destPath := Join(destFolder, destName);
      CandidateSpelled(root, rec, copyCount);
      assert destPath == names(copyCount);
      if destPath in fs {
        if fs[destPath] == src {
          outcome := Duplicate(destPath);
          fs' := fs;
          assert StopsAt(fs, names, src, copyCount);
          PlacementUnique(fs, names, src, outcome, Place(fs, root, rec, src));
          return;
        }
        OccupiedStep(fs, names, src, copyCount);
        copyCount := copyCount + 1;
        ProbeBound(fs, names, src, copyCount);
      } else {
        break;
      }
    }
    outcome := Copied(destPath);
    fs' := Copy(fs, destPath, src);
    assert StopsAt(fs, names, src, copyCount);
    PlacementUnique(fs, names, src, outcome, Place(fs, root, rec, src));
  }

  /** A photo's processing result and the library after it. */
  datatype Step = Step(outcome: Outcome, fs: FileSystem)

  /**
   `add_to_library` after the tags and the modification time are read: resolve
   the date and the make, then probe and copy. The date is never missing, so
   the `ValueError` branch is never taken; the library only grows.
   */
  function AddToLibrary(fs: FileSystem, root: string, source: string, src: Content,
                        tags: Tags, osTime: DateTime): (r: Step)
    ensures !r.outcome.DateNotFound?
    ensures r.outcome == Place(fs, root, ImageRecord(source, ImageDate(tags, osTime).value, CameraMake(tags)), src)
    ensures r.outcome.Copied? ==> r.outcome.path !in fs && r.fs == Copy(fs, r.outcome.path, src)
    ensures r.outcome.Duplicate? ==> r.fs == fs
  {
    var imageDate := ImageDate(tags, osTime);
    var imageMake := CameraMake(tags);
    if imageDate.Some? then
      var o := Place(fs, root, ImageRecord(source, imageDate.value, imageMake), src);
      Step(o, Commit(fs, o, src))
    else
      Step(DateNotFound(source), fs)
  }

  /** Processing the same file twice: the second time is a duplicate and adds nothing. */
  lemma AddTwiceIsDuplicate(fs: FileSystem, root: string, source: string, src: Content,
                            tags: Tags, osTime: DateTime)
    ensures var r1 := AddToLibrary(fs, root, source, src, tags, osTime);
            var r2 := AddToLibrary(r1.fs, root, source, src, tags, osTime);
            r2 == Step(Duplicate(r1.outcome.path), r1.fs)
  {
    var rec := ImageRecord(source, ImageDate(tags, osTime).value, CameraMake(tags));
    AttemptsInjective(root, rec);
    SecondProbeIsDuplicate(fs, Attempts(root, rec), src);
  }

  /** One run of the organiser over the same photo, as a change of the library. */
  function AddStep(root: string, source: string, src: Content, tags: Tags, osTime: DateTime)
    : FileSystem -> FileSystem
  {
    fs => AddToLibrary(fs, root, source, src, tags, osTime).fs
  }

  /** The library after `n` runs of `step`. */
  function Iterate(step: FileSystem -> FileSystem, fs: FileSystem, n: nat): FileSystem
    decreases n
  {
    if n == 0 then fs else Iterate(step, step(fs), n - 1)
  }

  lemma {:induction false} IterateFixpoint(step: FileSystem -> FileSystem, fs: FileSystem, n: nat)
    requires step(fs) == fs
    ensures Iterate(step, fs, n) == fs
    decreases n
  {
    if n > 0 {
      IterateFixpoint(step, fs, n - 1);
    }
  }

  /** A step that the library reaches in one run and then keeps: every later run changes nothing. */
  lemma {:induction false} IterateSettles(step: FileSystem -> FileSystem, fs: FileSystem, n: nat)
    requires n >= 1
    requires step(step(fs)) == step(fs)
    ensures Iterate(step, fs, n) == step(fs)
  {
    IterateFixpoint(step, step(fs), n - 1);
  }

  /** After any number of runs on the same file the library holds what one run left. */
  lemma RepeatedRunsAddOnce(fs: FileSystem, root: string, source: string, src: Content,
                            tags: Tags, osTime: DateTime, n: nat)
    requires n >= 1
    ensures Iterate(AddStep(root, source, src, tags, osTime), fs, n)
            == AddToLibrary(fs, root, source, src, tags, osTime).fs
  {
    var step := AddStep(root, source, src, tags, osTime);
    assert step(step(fs)) == step(fs) by {
      AddTwiceIsDuplicate(fs, root, source, src, tags, osTime);
    }
    IterateSettles(step, fs, n);
  }
}
