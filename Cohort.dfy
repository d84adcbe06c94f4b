/**
 * Importing a cohort of label-map files: every file is recorded under its name,
 * every file that loads gets a segmentation, and every file whose closed
 * surfaces are created must agree with the cohort's label range.
 */
module Cohort {
  import opened Wrappers
  import opened Scene

  /** The part of the logic's state that an import reads and writes. */
  datatype ImportState = ImportState(
    testCases: map<string, Option<LabelMap>>,
    segmentations: map<string, Segmentation>,
    cohort: LabelRange)

  /** A file that loads and whose closed surfaces are created takes part in the range check. */
  predicate Accepted(f: HostFile) {
    f.volume.Some? && f.volume.value.surfacesCreated
  }

  function RangeOf(f: HostFile): LabelRange
    requires Accepted(f)
  {
    f.volume.value.scalarRange
  }

  /**
   * The segmentation created for a loaded label map. It is kept, and later
   * queried label by label, even when creating its closed surfaces failed.
   */
  function SegmentationOf(v: LabelMap): Segmentation {
    Segmentation(v.closedSurfaces)
  }

  /**
   * One file of an import, from state `s`: whether the import goes on, and the
   * state after the file. The file is recorded under its name whatever happens;
   * a loaded file gets its segmentation; a file whose closed surfaces are
   * created either stops the import, when a range is in force and its own range
   * differs, or makes its range the cohort's.
   */
  function ImportStep(s: ImportState, f: HostFile): (bool, ImportState) {
    var loaded := s.(testCases := s.testCases[f.name := f.volume]);
    match f.volume
    case None => (true, loaded)
    case Some(v) =>
      var segmented := loaded.(segmentations := loaded.segmentations[f.name := SegmentationOf(v)]);
      if !v.surfacesCreated then (true, segmented)
      else if segmented.cohort != NoRange && v.scalarRange != segmented.cohort then (false, segmented)
      else (true, segmented.(cohort := v.scalarRange))
  }

  /**
   * The outcome of importing `files` in order from state `s`: whether the import
   * succeeds, and the state it leaves (on failure, the state at the moment the
   * mismatching file is seen, which is already recorded).
   */
  function ImportFold(s: ImportState, files: seq<HostFile>): (bool, ImportState)
    decreases |files|
  {
    if files == [] then (true, s)
    else
      var step := ImportStep(s, files[0]);
      if step.0 then ImportFold(step.1, files[1..]) else step
  }

  /**
   * Independent description of a successful import: every accepted file has the
   * range already in force (when one is), and every accepted file agrees with each
   * earlier accepted file whose range is not the "no range" marker.
   */
  ghost predicate CohortAgrees(c: LabelRange, files: seq<HostFile>) {
    && (forall i :: 0 <= i < |files| && Accepted(files[i]) && c != NoRange ==> RangeOf(files[i]) == c)
    && (forall i, j :: 0 <= i < j < |files| && Accepted(files[i]) && Accepted(files[j]) && RangeOf(files[i]) != NoRange ==>
          RangeOf(files[j]) == RangeOf(files[i]))
  }

  lemma AgreesUnfold(c: LabelRange, files: seq<HostFile>)
    requires |files| > 0
    ensures Accepted(files[0]) ==>
      (CohortAgrees(c, files) <==> (c == NoRange || RangeOf(files[0]) == c) && CohortAgrees(RangeOf(files[0]), files[1..]))
    ensures !Accepted(files[0]) ==> (CohortAgrees(c, files) <==> CohortAgrees(c, files[1..]))
  {
    var rest := files[1..];
    assert forall i :: 0 <= i < |rest| ==> rest[i] == files[i + 1];
    if CohortAgrees(c, files) {
      forall i, j | 0 <= i < j < |rest| && Accepted(rest[i]) && Accepted(rest[j]) && RangeOf(rest[i]) != NoRange
        ensures RangeOf(rest[j]) == RangeOf(rest[i])
      {
        assert files[i + 1] == rest[i] && files[j + 1] == rest[j];
      }
    }
    if Accepted(files[0]) && (c == NoRange || RangeOf(files[0]) == c) && CohortAgrees(RangeOf(files[0]), rest) {
      forall i, j | 0 <= i < j < |files| && Accepted(files[i]) && Accepted(files[j]) && RangeOf(files[i]) != NoRange
        ensures RangeOf(files[j]) == RangeOf(files[i])
      {
        assert files[j] == rest[j - 1];
        if i > 0 { assert files[i] == rest[i - 1]; }
      }
      forall i | 0 <= i < |files| && Accepted(files[i]) && c != NoRange
        ensures RangeOf(files[i]) == c
      {
        if i > 0 { assert files[i] == rest[i - 1]; }
      }
    }
    if !Accepted(files[0]) && CohortAgrees(c, rest) {
      forall i, j | 0 <= i < j < |files| && Accepted(files[i]) && Accepted(files[j]) && RangeOf(files[i]) != NoRange
        ensures RangeOf(files[j]) == RangeOf(files[i])
      {
        assert i > 0;
        assert files[i] == rest[i - 1] && files[j] == rest[j - 1];
      }
      forall i | 0 <= i < |files| && Accepted(files[i]) && c != NoRange
        ensures RangeOf(files[i]) == c
      {
        assert files[i] == rest[i - 1];
      }
    }
  }

  /** An import succeeds exactly when the accepted files agree on the cohort's range. */
  lemma {:induction false} ImportSucceedsIffCohortAgrees(s: ImportState, files: seq<HostFile>)
    ensures ImportFold(s, files).0 <==> CohortAgrees(s.cohort, files)
    decreases |files|
  {
    if files != [] {
      AgreesUnfold(s.cohort, files);
      var step := ImportStep(s, files[0]);
      if step.0 {
        ImportSucceedsIffCohortAgrees(step.1, files[1..]);
      }
    }
  }

  /**
   * After a successful import the cohort's range is the range of the last accepted
   * file, or the range held before when no file was accepted.
   */
  lemma {:induction false} ImportKeepsLastAcceptedRange(s: ImportState, files: seq<HostFile>)
    ensures ImportFold(s, files).0 && (forall i :: 0 <= i < |files| ==> !Accepted(files[i])) ==>
      ImportFold(s, files).1.cohort == s.cohort
    ensures ImportFold(s, files).0 ==>
      forall i :: 0 <= i < |files| && Accepted(files[i]) && (forall j :: i < j < |files| ==> !Accepted(files[j])) ==>
        ImportFold(s, files).1.cohort == RangeOf(files[i])
    decreases |files|
  {
    if files != [] && ImportFold(s, files).0 {
      var rest := files[1..];
      var step := ImportStep(s, files[0]);
      assert step.0 && step.1.cohort == if Accepted(files[0]) then RangeOf(files[0]) else s.cohort;
      ImportKeepsLastAcceptedRange(step.1, rest);
      forall i | 0 <= i < |files| && Accepted(files[i]) && (forall j :: i < j < |files| ==> !Accepted(files[j]))
        ensures ImportFold(s, files).1.cohort == RangeOf(files[i])
      {
        forall j | i <= j < |rest| ensures !Accepted(rest[j]) { assert rest[j] == files[j + 1]; }
        if i > 0 {
          assert rest[i - 1] == files[i];
        }
      }
      if forall i :: 0 <= i < |files| ==> !Accepted(files[i]) {
        assert !Accepted(files[0]);
        forall j | 0 <= j < |rest| ensures !Accepted(rest[j]) { assert rest[j] == files[j + 1]; }
      }
    }
  }

  /** The names of a sequence of files. */
  function Names(files: seq<HostFile>): set<string> {
    set f | f in files :: f.name
  }

  lemma NamesUnfold(files: seq<HostFile>)
    requires files != []
    ensures Names(files) == {files[0].name} + Names(files[1..])
  {
    assert files == [files[0]] + files[1..];
  }

  /**
   * Every file is recorded under its name, including a file that fails to load
   * (recorded as `None`), and the last file with a given name decides its entry.
   * Names recorded before are kept.
   */
  lemma {:induction false} ImportRecordsEveryFile(s: ImportState, files: seq<HostFile>)
    ensures s.testCases.Keys <= ImportFold(s, files).1.testCases.Keys <= s.testCases.Keys + Names(files)
    ensures ImportFold(s, files).0 ==> ImportFold(s, files).1.testCases.Keys == s.testCases.Keys + Names(files)
    ensures ImportFold(s, files).0 ==>
      forall i :: 0 <= i < |files| && (forall j :: i < j < |files| ==> files[j].name != files[i].name) ==>
        ImportFold(s, files).1.testCases[files[i].name] == files[i].volume
    decreases |files|
  {
    if files != [] {
      var f := files[0];
      var rest := files[1..];
      NamesUnfold(files);
      var step := ImportStep(s, f);
      assert step.1.testCases == s.testCases[f.name := f.volume];
      if step.0 {
        ImportRecordsEveryFile(step.1, rest);
        if ImportFold(s, files).0 {
          forall i | 0 <= i < |files| && (forall j :: i < j < |files| ==> files[j].name != files[i].name)
            ensures ImportFold(s, files).1.testCases[files[i].name] == files[i].volume
          {
            if i == 0 {
              assert f.name !in Names(rest) by {
                forall g | g in rest ensures g.name != f.name {
                  var j :| 0 <= j < |rest| && rest[j] == g;
                  assert files[j + 1] == g;
                }
              }
              NotNamedKeepsEntry(step.1, rest, f.name);
            } else {
              assert rest[i - 1] == files[i];
              forall j | i - 1 < j < |rest| ensures rest[j].name != rest[i - 1].name { assert rest[j] == files[j + 1]; }
            }
          }
        }
      }
    }
  }

  /** A name that no file carries keeps its test-case entry and its segmentation, or its lack of one. */
  lemma {:induction false} NotNamedKeepsEntry(s: ImportState, files: seq<HostFile>, name: string)
    requires name in s.testCases && name !in Names(files)
    ensures name in ImportFold(s, files).1.testCases
    ensures ImportFold(s, files).1.testCases[name] == s.testCases[name]
    ensures name in s.segmentations ==>
      (name in ImportFold(s, files).1.segmentations && ImportFold(s, files).1.segmentations[name] == s.segmentations[name])
    ensures name !in s.segmentations ==> name !in ImportFold(s, files).1.segmentations
    decreases |files|
  {
    if files != [] {
      NamesUnfold(files);
      var step := ImportStep(s, files[0]);
      if step.0 {
        NotNamedKeepsEntry(step.1, files[1..], name);
      }
    }
  }

  /** A name none of whose files loads keeps its segmentation, or its lack of one. */
  lemma {:induction false} UnloadedNameKeepsSegmentation(s: ImportState, files: seq<HostFile>, name: string)
    requires forall i :: 0 <= i < |files| && files[i].name == name ==> files[i].volume.None?
    ensures name in ImportFold(s, files).1.segmentations <==> name in s.segmentations
    ensures name in s.segmentations ==> ImportFold(s, files).1.segmentations[name] == s.segmentations[name]
    decreases |files|
  {
    if files != [] {
      var step := ImportStep(s, files[0]);
      if step.0 {
        forall i | 0 <= i < |files| - 1 && files[1..][i].name == name ensures files[1..][i].volume.None? {
          assert files[1..][i] == files[i + 1];
        }
        UnloadedNameKeepsSegmentation(step.1, files[1..], name);
      }
    }
  }

  /**
   * After a successful import, every name whose file loaded holds the segmentation
   * of the last file with that name that loaded; later files with the name that
   * fail to load leave it in place.
   */
  lemma {:induction false} ImportRecordsSegmentations(s: ImportState, files: seq<HostFile>)
    ensures ImportFold(s, files).0 ==>
      forall i :: (0 <= i < |files| && files[i].volume.Some? &&
                   (forall j :: i < j < |files| && files[j].name == files[i].name ==> files[j].volume.None?)) ==>
        && files[i].name in ImportFold(s, files).1.segmentations
        && ImportFold(s, files).1.segmentations[files[i].name] == SegmentationOf(files[i].volume.value)
    decreases |files|
  {
    if files != [] && ImportFold(s, files).0 {
      var rest := files[1..];
      var step := ImportStep(s, files[0]);
      assert step.0;
      ImportRecordsSegmentations(step.1, rest);
      forall i | 0 <= i < |files| && files[i].volume.Some? &&
          (forall j :: i < j < |files| && files[j].name == files[i].name ==> files[j].volume.None?)
        ensures files[i].name in ImportFold(s, files).1.segmentations
        ensures ImportFold(s, files).1.segmentations[files[i].name] == SegmentationOf(files[i].volume.value)
      {
        if i == 0 {
          forall j | 0 <= j < |rest| && rest[j].name == files[0].name ensures rest[j].volume.None? {
            assert rest[j] == files[j + 1];
          }
          UnloadedNameKeepsSegmentation(step.1, rest, files[0].name);
        } else {
          assert rest[i - 1] == files[i];
          forall j | i - 1 < j < |rest| && rest[j].name == rest[i - 1].name ensures rest[j].volume.None? {
            assert rest[j] == files[j + 1];
          }
        }
      }
    }
  }

  /**
   * The import of `files` stops at file `j`: the files before it import
   * successfully, `j` is accepted and its step fails, and the import's outcome is
   * that failed step.
   */
  predicate StopsAt(s: ImportState, files: seq<HostFile>, j: int)
    requires 0 <= j < |files|
  {
    var before := ImportFold(s, files[..j]);
    && before.0 && Accepted(files[j])
    && !ImportStep(before.1, files[j]).0
    && ImportFold(s, files) == ImportStep(before.1, files[j])
  }

  lemma {:induction false} FailureHasStop(s: ImportState, files: seq<HostFile>)
    requires !ImportFold(s, files).0
    ensures exists j :: 0 <= j < |files| && StopsAt(s, files, j)
    decreases |files|
  {
    var step := ImportStep(s, files[0]);
    if !step.0 {
      assert files[..0] == [];
      assert StopsAt(s, files, 0);
    } else {
      var rest := files[1..];
      FailureHasStop(step.1, rest);
      var k :| 0 <= k < |rest| && StopsAt(step.1, rest, k);
      assert files[..k + 1][1..] == rest[..k];
      assert files[k + 1] == rest[k];
      assert StopsAt(s, files, k + 1);
    }
  }

  lemma StoppedKeys(s: ImportState, files: seq<HostFile>, j: int)
    requires 0 <= j < |files| && StopsAt(s, files, j)
    ensures ImportFold(s, files).1.testCases.Keys == s.testCases.Keys + Names(files[..j + 1])
  {
    ImportRecordsEveryFile(s, files[..j]);
    assert files[..j + 1] == files[..j] + [files[j]];
    assert Names(files[..j + 1]) == Names(files[..j]) + {files[j].name};
  }

  /**
   * A failed import stops at the first accepted file whose range mismatches: the
   * files before it import successfully, the state left is the one after its
   * step, and only the names up to it are recorded; no later file is.
   */
  lemma ImportStopsAtMismatch(s: ImportState, files: seq<HostFile>)
    ensures !ImportFold(s, files).0 ==>
      exists j :: 0 <= j < |files| && StopsAt(s, files, j) &&
        ImportFold(s, files).1.testCases.Keys == s.testCases.Keys + Names(files[..j + 1])
  {
    if !ImportFold(s, files).0 {
      FailureHasStop(s, files);
      var j :| 0 <= j < |files| && StopsAt(s, files, j);
      StoppedKeys(s, files, j);
    }
  }
}
