/**
 * The importer's logic object: name-keyed tables of the subjects of a cohort,
 * their segmentations, their topology and the cohort-wide consistency of it.
 */
module DataImporterLogic {
  import opened Wrappers
  import opened Scene
  import opened Cohort
  import opened Topology

  lemma MergeThenUpdate<K, V>(a: map<K, V>, b: map<K, V>, k: K, v: V)
    ensures (a + b)[k := v] == a + b[k := v]
  {
  }

  /** One subject of the topology pass, as the tables and the tracker see it. */
  lemma PassStep(topology: map<string, map<int, int>>, polyData: map<string, map<int, ClosedSurface>>,
                 segmentations: map<string, Segmentation>, order: seq<string>, i: int, lo: int, hi: int)
    requires 0 <= i < |order|
    ensures var n := order[i];
      (topology + TopologyTable(segmentations, SetOf(order[..i]), lo, hi))[n := TopologyRow(SurfacesOf(segmentations, n), lo, hi)] ==
        topology + TopologyTable(segmentations, SetOf(order[..i + 1]), lo, hi)
    ensures var n := order[i];
      (polyData + SurfaceTable(segmentations, SetOf(order[..i]), lo, hi))[n := SurfaceRow(SurfacesOf(segmentations, n), lo, hi)] ==
        polyData + SurfaceTable(segmentations, SetOf(order[..i + 1]), lo, hi)
    ensures ObserveAll(ObserveAll(NoObservations, Observations(segmentations, order[..i], lo, hi)),
                       LabelObservations(SurfacesOf(segmentations, order[i]), lo, hi)) ==
            ObserveAll(NoObservations, Observations(segmentations, order[..i + 1], lo, hi))
  {
    var n := order[i];
    SubjectStep(segmentations, order, i, lo, hi);
    ObserveAllAppend(NoObservations, Observations(segmentations, order[..i], lo, hi), LabelObservations(SurfacesOf(segmentations, n), lo, hi));
    TableInsert(segmentations, SetOf(order[..i]), n, lo, hi);
    MergeThenUpdate(topology, TopologyTable(segmentations, SetOf(order[..i]), lo, hi), n, TopologyRow(SurfacesOf(segmentations, n), lo, hi));
    MergeThenUpdate(polyData, SurfaceTable(segmentations, SetOf(order[..i]), lo, hi), n, SurfaceRow(SurfacesOf(segmentations, n), lo, hi));
  }

  /** After all subjects: the pass's tables replace the old rows, and the flags summarise the table. */
  lemma PassEnd(topology: map<string, map<int, int>>, polyData: map<string, map<int, ClosedSurface>>,
                segmentations: map<string, Segmentation>, names: set<string>, order: seq<string>, lo: int, hi: int)
    requires topology.Keys <= names && polyData.Keys <= names
    requires forall n :: n in order <==> n in names
    ensures topology + TopologyTable(segmentations, SetOf(order[..|order|]), lo, hi) == TopologyTable(segmentations, names, lo, hi)
    ensures polyData + SurfaceTable(segmentations, SetOf(order[..|order|]), lo, hi) == SurfaceTable(segmentations, names, lo, hi)
    ensures order[..|order|] == order
    ensures FlagsDescribeTable(TopologyTable(segmentations, names, lo, hi),
                               ObserveAll(NoObservations, Observations(segmentations, order, lo, hi)).flags)
    ensures var t, s := TopologyTable(segmentations, names, lo, hi), SurfaceTable(segmentations, names, lo, hi);
      && t.Keys == s.Keys
      && (forall n :: n in t ==> t[n].Keys == s[n].Keys)
      && (forall n, k :: n in t && k in t[n] ==> t[n][k] == EulerCharacteristic(s[n][k]))
  {
    assert order[..|order|] == order;
    assert SetOf(order) == names;
    PassFlagsDescribeTable(segmentations, order, lo, hi);
    TablesAgree(segmentations, names, lo, hi);
  }

  /**
   * The closed surfaces of a subject as the pass in the source looks them up:
   * `None` stands for the KeyError raised when the subject has no segmentation.
   */
  function ClosedSurfacesAsWritten(segmentations: map<string, Segmentation>, nodeName: string): (r: Option<map<int, ClosedSurface>>)
    ensures r.None? <==> nodeName !in segmentations
    ensures r.Some? ==> r.value == SurfacesOf(segmentations, nodeName)
  {
    if nodeName in segmentations then Some(segmentations[nodeName].closedSurfaces) else None
  }

  /**
   * A cohort whose first file fails to load imports successfully, yet the failed
   * file is a test case without a segmentation while its label range reaches the
   * non-background label 1, so the lookup in the source raises. A later cleanup
   * raises as well: some test case has no segmentation to remove.
   */
  lemma LoadFailureReachesMissingSegmentation()
    ensures var tetrahedron := ClosedSurface(4, 6, 4);
      var good := LabelMap(LabelRange(0, 1), true, map[1 := tetrahedron]);
      var files := [HostFile("a.nrrd", None), HostFile("b.nrrd", Some(good))];
      var r := ImportFold(ImportState(map[], map[], NoRange), files);
      && r.0
      && r.1.cohort == LabelRange(0, 1)
      && "a.nrrd" in r.1.testCases && r.1.testCases["a.nrrd"] == None
      && ClosedSurfacesAsWritten(r.1.segmentations, "a.nrrd") == None
      && !(r.1.testCases.Keys <= r.1.segmentations.Keys)
  {
    var tetrahedron := ClosedSurface(4, 6, 4);
    var good := LabelMap(LabelRange(0, 1), true, map[1 := tetrahedron]);
    var files := [HostFile("a.nrrd", None), HostFile("b.nrrd", Some(good))];
    var s0 := ImportState(map[], map[], NoRange);
    var s1 := ImportStep(s0, files[0]).1;
    var s2 := ImportStep(s1, files[1]).1;
    assert files[1..][1..] == [];
    assert ImportFold(s0, files) == ImportFold(s1, files[1..]) == (true, s2);
    assert "a.nrrd" != "b.nrrd";
  }

  /**
   * With the lookup corrected, a subject none of whose files loaded contributes
   * an empty topology row and no observation to the consistency flags.
   */
  lemma {:induction false} FailedLoadContributesNothing(s: ImportState, files: seq<HostFile>, name: string, lo: int, hi: int)
    requires name !in s.segmentations
    requires forall f :: f in files && f.name == name ==> f.volume.None?
    ensures name !in ImportFold(s, files).1.segmentations
    ensures TopologyRow(SurfacesOf(ImportFold(s, files).1.segmentations, name), lo, hi) == map[]
    ensures LabelObservations(SurfacesOf(ImportFold(s, files).1.segmentations, name), lo, hi) == []
    decreases |files|
  {
    if files != [] && ImportStep(s, files[0]).0 {
      var step := ImportStep(s, files[0]);
      assert name !in step.1.segmentations;
      assert forall f :: f in files[1..] ==> f in files;
      FailedLoadContributesNothing(step.1, files[1..], name, lo, hi);
    } else {
      NoSurfacesNoObservations(lo, hi);
    }
  }

  /**
   * A file that loads but whose closed-surface creation fails leaves the range
   * alone, yet its segmentation is kept, so the topology pass still reads the
   * surfaces that segmentation answers for each label.
   */
  lemma SurfaceCreationFailureStillQueried(s: ImportState, f: HostFile, lo: int, hi: int)
    requires f.volume.Some? && !f.volume.value.surfacesCreated
    ensures ImportStep(s, f).0 && ImportStep(s, f).1.cohort == s.cohort
    ensures SurfacesOf(ImportStep(s, f).1.segmentations, f.name) == f.volume.value.closedSurfaces
    ensures TopologyRow(SurfacesOf(ImportStep(s, f).1.segmentations, f.name), lo, hi) ==
      TopologyRow(f.volume.value.closedSurfaces, lo, hi)
  {
  }

  class DataImporterLogic {
    /** File name to loaded label map, `None` for a file that failed to load. */
    var testCases: map<string, Option<LabelMap>>
    /** File name to the segmentation created from its label map. */
    var segmentations: map<string, Segmentation>
    /** File name to (label to Euler characteristic). */
    var topology: map<string, map<int, int>>
    /** Label to "Consistent" or "InConsistent". */
    var consistency: map<int, string>
    /** File name to (label to the surface kept for display). */
    var polyData: map<string, map<int, ClosedSurface>>
    /** The label range shared by the cohort, `NoRange` before a file sets it. */
    var cohortRange: LabelRange

    /**
     * The tables agree with each other: topology rows exist only for imported
     * subjects, every topology entry is the characteristic of the surface kept for
     * it, and every consistency flag is one of the two flag strings.
     */
    ghost predicate Valid()
      reads this
    {
      && topology.Keys <= testCases.Keys
      && polyData.Keys == topology.Keys
      && (forall n :: n in topology ==> topology[n].Keys == polyData[n].Keys)
      && (forall n, k :: n in topology && k in topology[n] ==> topology[n][k] == EulerCharacteristic(polyData[n][k]))
      && (forall k :: k in consistency ==> consistency[k] == Consistent || consistency[k] == InConsistent)
    }

    constructor ()
      ensures Valid()
      ensures testCases == map[] && segmentations == map[]
      ensures topology == map[] && consistency == map[] && polyData == map[]
      ensures cohortRange == NoRange
    {
      testCases, segmentations := map[], map[];
      topology, consistency, polyData := map[], map[], map[];
      cohortRange := NoRange;
    }

    /**
     * Resets the range and the topology, consistency and display tables. The
     * test-case and segmentation tables keep their entries. This is the corrected
     * cleanup: the source first removes each test case's segmentation node by
     * looking the name up among the segmentations, and raises, leaving everything
     * unreset, when a test case has none (see `LoadFailureReachesMissingSegmentation`).
     */
    method Cleanup()
      modifies this
      ensures Valid()
      ensures cohortRange == NoRange
      ensures topology == map[] && consistency == map[] && polyData == map[]
      ensures testCases == old(testCases) && segmentations == old(segmentations)
    {
      cohortRange := NoRange;
      topology := map[];
      consistency := map[];
      polyData := map[];
    }

    /** Imports the files in order; false as soon as an accepted file disagrees on the range. */
    method ImportFiles(files: seq<HostFile>) returns (ok: bool)
      requires Valid()
      modifies this
      ensures Valid()
      ensures (ok, ImportState(testCases, segmentations, cohortRange)) ==
              ImportFold(ImportState(old(testCases), old(segmentations), old(cohortRange)), files)
      ensures topology == old(topology) && consistency == old(consistency) && polyData == old(polyData)
    {
      ghost var start := ImportState(testCases, segmentations, cohortRange);
      var i := 0;
      while i < |files|
        invariant 0 <= i <= |files|
        invariant ImportFold(ImportState(testCases, segmentations, cohortRange), files[i..]) == ImportFold(start, files)
        invariant old(testCases).Keys <= testCases.Keys
        invariant topology == old(topology) && consistency == old(consistency) && polyData == old(polyData)
      {
        ghost var before := ImportState(testCases, segmentations, cohortRange);
        assert files[i..][0] == files[i] && files[i..][1..] == files[i + 1..];
        var f := files[i];
        testCases := testCases[f.name := f.volume];
        if f.volume.Some? {
          var v := f.volume.value;
          segmentations := segmentations[f.name := SegmentationOf(v)];
          if v.surfacesCreated {
            if cohortRange != NoRange && v.scalarRange != cohortRange {
              assert ImportStep(before, f) == (false, ImportState(testCases, segmentations, cohortRange));
              return false;
            }
            cohortRange := v.scalarRange;
          }
        }
        assert ImportStep(before, f) == (true, ImportState(testCases, segmentations, cohortRange));
        i := i + 1;
      }
      return true;
    }

    /**
     * The topology pass over the subjects, in `order` (an enumeration of the
     * test-case names). Every subject gets a fresh row holding the characteristic
     * of each recorded label, and every label's flag ends up summarising that
     * table, whatever the order. A subject without a segmentation is read through
     * the corrected lookup `SurfacesOf` and gets an empty row, where the source's
     * lookup fails (see `ClosedSurfacesAsWritten`).
     */
    method PopulateTopologyDictionary(order: seq<string>)
      requires Valid()
      requires consistency == map[]
      requires forall n :: n in order <==> n in testCases
      modifies this
      ensures Valid()
      ensures testCases == old(testCases) && segmentations == old(segmentations) && cohortRange == old(cohortRange)
      ensures topology == TopologyTable(segmentations, testCases.Keys, cohortRange.lo, cohortRange.hi)
      ensures polyData == SurfaceTable(segmentations, testCases.Keys, cohortRange.lo, cohortRange.hi)
      ensures consistency == ObserveAll(NoObservations, Observations(segmentations, order, cohortRange.lo, cohortRange.hi)).flags
      ensures FlagsDescribeTable(topology, consistency)
    {
      var lo, hi := cohortRange.lo, cohortRange.hi;
      var firstValue: map<int, int> := map[];
      var i := 0;
      while i < |order|
        invariant 0 <= i <= |order|
        invariant testCases == old(testCases) && segmentations == old(segmentations) && cohortRange == old(cohortRange)
        invariant topology == old(topology) + TopologyTable(segmentations, SetOf(order[..i]), lo, hi)
        invariant polyData == old(polyData) + SurfaceTable(segmentations, SetOf(order[..i]), lo, hi)
        invariant Tracker(consistency, firstValue) == ObserveAll(NoObservations, Observations(segmentations, order[..i], lo, hi))
      {
        PassStep(old(topology), old(polyData), segmentations, order, i, lo, hi);
        firstValue := RecordSubject(order[i], lo, hi, firstValue);
        i := i + 1;
      }
      PassEnd(old(topology), old(polyData), segmentations, testCases.Keys, order, lo, hi);
    }

    /**
     * The body of the topology pass for one subject: a fresh row, then labels
     * lo..hi in turn, skipping the background 0 and labels without a surface,
     * each recorded label updating its consistency flag. `firstValue` is the
     * baseline of every label already flagged.
     */
    method RecordSubject(nodeName: string, lo: int, hi: int, firstValue: map<int, int>) returns (firstValue': map<int, int>)
      requires Tracker(consistency, firstValue).Valid()
      modifies this`topology, this`polyData, this`consistency
      ensures topology == old(topology)[nodeName := TopologyRow(SurfacesOf(segmentations, nodeName), lo, hi)]
      ensures polyData == old(polyData)[nodeName := SurfaceRow(SurfacesOf(segmentations, nodeName), lo, hi)]
      ensures Tracker(consistency, firstValue') ==
              ObserveAll(Tracker(old(consistency), firstValue), LabelObservations(SurfacesOf(segmentations, nodeName), lo, hi))
    {
      ghost var start := Tracker(consistency, firstValue);
      var surfaces := SurfacesOf(segmentations, nodeName);
      var row: map<int, int> := map[];
      var kept: map<int, ClosedSurface> := map[];
      firstValue' := firstValue;
      var k := lo;
      while k <= hi
        invariant lo <= k && (k <= hi + 1 || k == lo)
        invariant topology == old(topology) && polyData == old(polyData)
        invariant row == TopologyRow(surfaces, lo, k - 1) && kept == SurfaceRow(surfaces, lo, k - 1)
        invariant Tracker(consistency, firstValue') == ObserveAll(start, LabelObservations(surfaces, lo, k - 1))
      {
        RowStep(surfaces, lo, k);
        if k != 0 && k in surfaces {
          var chi := EulerCharacteristic(surfaces[k]);
          row := row[k := chi];
          kept := kept[k := surfaces[k]];
          ghost var tracked := Tracker(consistency, firstValue');
          if k !in consistency {
            consistency := consistency[k := Consistent];
            firstValue' := firstValue'[k := chi];
          } else if firstValue'[k] != chi && consistency[k] == Consistent {
            consistency := consistency[k := InConsistent];
          }
          assert Tracker(consistency, firstValue') == Observe(tracked, Observation(k, chi));
          ObserveAllSnoc(start, LabelObservations(surfaces, lo, k - 1), Observation(k, chi));
        }
        k := k + 1;
      }
      if hi < lo {
        EmptyRange(surfaces, lo, hi, k - 1);
      }
      assert row == TopologyRow(surfaces, lo, hi) && kept == SurfaceRow(surfaces, lo, hi);
      topology := topology[nodeName := row];
      polyData := polyData[nodeName := kept];
    }

    /**
     * The two strings shown for a subject and label: the name of its recorded
     * characteristic ("n/a" when nothing is recorded or the characteristic has no
     * name), and the label's cohort flag ("n/a" when the label has none). The
     * flag does not depend on the subject.
     */
    function TopologyAndConsistencyStrings(nodeName: string, segment: int): (r: (string, string))
      reads this
      ensures r.0 != NotAvailable <==>
        nodeName in topology && segment in topology[nodeName] && topology[nodeName][segment] in TopologyNames
      ensures r.0 != NotAvailable ==> r.0 == TopologyNames[topology[nodeName][segment]]
      ensures r.0 == NotAvailable || r.0 in TopologyNames.Values
      ensures segment in consistency ==> r.1 == consistency[segment]
      ensures segment !in consistency ==> r.1 == NotAvailable
      ensures Valid() ==> (r.1 == NotAvailable <==> segment !in consistency)
      ensures Valid() && r.0 != NotAvailable ==> r.0 == TopologyName(EulerCharacteristic(polyData[nodeName][segment]))
    {
      var topologyString :=
        if nodeName in topology && segment in topology[nodeName] then TopologyName(topology[nodeName][segment])
        else NotAvailable;
      var consistentTopologyString := if segment in consistency then consistency[segment] else NotAvailable;
      (topologyString, consistentTopologyString)
    }
  }
}
