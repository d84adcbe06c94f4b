/**
 * The topology bookkeeping of the data importer: the Euler characteristic of each
 * segment's surface, the per-subject topology rows, the per-label consistency
 * tracker that runs across subjects, and the names given to characteristics.
 */
module Topology {
  import opened Scene

  const Consistent := "Consistent"
  const InConsistent := "InConsistent"
  const NotAvailable := "n/a"

  /** V - E + F of the cleaned largest component of a closed surface. */
  function EulerCharacteristic(s: ClosedSurface): int {
    s.points - s.edgeLines + s.polys
  }

  /**
   * The closed surfaces of a subject as the topology pass reads them: none for a
   * subject that has no segmentation (its file did not load). This is the
   * corrected lookup; `DataImporterLogic.ClosedSurfacesAsWritten` is the lookup
   * as the source writes it, which fails for such a subject.
   */
  function SurfacesOf(segmentations: map<string, Segmentation>, name: string): map<int, ClosedSurface> {
    if name in segmentations then segmentations[name].closedSurfaces else map[]
  }

  /** A label the topology pass records: within lo..hi, not the background 0, with a surface. */
  predicate Recorded(surfaces: map<int, ClosedSurface>, lo: int, hi: int, k: int) {
    lo <= k <= hi && k != 0 && k in surfaces
  }

  /** The topology row of one subject: the characteristic of every recorded label. */
  function TopologyRow(surfaces: map<int, ClosedSurface>, lo: int, hi: int): map<int, int> {
    map k | k in surfaces && Recorded(surfaces, lo, hi, k) :: EulerCharacteristic(surfaces[k])
  }

  /** The surfaces kept for display: one for every recorded label. */
  function SurfaceRow(surfaces: map<int, ClosedSurface>, lo: int, hi: int): map<int, ClosedSurface> {
    map k | k in surfaces && Recorded(surfaces, lo, hi, k) :: surfaces[k]
  }

  /** One recorded (label, characteristic) pair, as the consistency check sees it. */
  datatype Observation = Observation(segment: int, characteristic: int)

  /**
   * The observations one subject contributes, in increasing label order over lo..hi:
   * exactly the entries of its topology row.
   */
  function LabelObservations(surfaces: map<int, ClosedSurface>, lo: int, hi: int): (obs: seq<Observation>)
    ensures forall o :: o in obs ==>
      Recorded(surfaces, lo, hi, o.segment) && o.characteristic == EulerCharacteristic(surfaces[o.segment])
    ensures forall k :: Recorded(surfaces, lo, hi, k) ==> Observation(k, EulerCharacteristic(surfaces[k])) in obs
    ensures forall i, j :: 0 <= i < j < |obs| ==> obs[i].segment < obs[j].segment
    decreases if hi < lo then 0 else hi - lo + 1
  {
    if hi < lo then []
    else
      LabelObservations(surfaces, lo, hi - 1) +
      (if Recorded(surfaces, lo, hi, hi) then [Observation(hi, EulerCharacteristic(surfaces[hi]))] else [])
  }

  /** A subject without surfaces contributes no observation. */
  lemma NoSurfacesNoObservations(lo: int, hi: int)
    ensures LabelObservations(map[], lo, hi) == []
    decreases if hi < lo then 0 else hi - lo + 1
  {
    if lo <= hi {
      NoSurfacesNoObservations(lo, hi - 1);
    }
  }

  /** The observations of a whole pass over the subjects, in the given subject order. */
  function Observations(segmentations: map<string, Segmentation>, order: seq<string>, lo: int, hi: int): seq<Observation>
    decreases |order|
  {
    if order == [] then []
    else
      Observations(segmentations, order[..|order| - 1], lo, hi) +
      LabelObservations(SurfacesOf(segmentations, order[|order| - 1]), lo, hi)
  }

  /**
   * Whether `o` is an entry of the topology row of some subject in `names`:
   * the order of the subjects plays no part in it.
   */
  ghost predicate InSomeRow(segmentations: map<string, Segmentation>, names: set<string>, lo: int, hi: int, o: Observation) {
    exists n :: n in names &&
      o.segment in TopologyRow(SurfacesOf(segmentations, n), lo, hi) &&
      TopologyRow(SurfacesOf(segmentations, n), lo, hi)[o.segment] == o.characteristic
  }

  function SetOf(order: seq<string>): set<string> {
    set n | n in order
  }

  /** The observations of a pass are exactly the entries of the subjects' topology rows. */
  lemma {:induction false} ObservationsMatchRows(segmentations: map<string, Segmentation>, order: seq<string>, lo: int, hi: int)
    ensures forall o :: o in Observations(segmentations, order, lo, hi) <==> InSomeRow(segmentations, SetOf(order), lo, hi, o)
    decreases |order|
  {
    if order != [] {
      var front := order[..|order| - 1];
      var last := order[|order| - 1];
      assert order == front + [last];
      assert SetOf(order) == SetOf(front) + {last};
      ObservationsMatchRows(segmentations, front, lo, hi);
      var lastObs := LabelObservations(SurfacesOf(segmentations, last), lo, hi);
      forall o ensures o in Observations(segmentations, order, lo, hi) <==> InSomeRow(segmentations, SetOf(order), lo, hi, o) {
        if InSomeRow(segmentations, SetOf(order), lo, hi, o) {
          var n :| n in SetOf(order) &&
            o.segment in TopologyRow(SurfacesOf(segmentations, n), lo, hi) &&
            TopologyRow(SurfacesOf(segmentations, n), lo, hi)[o.segment] == o.characteristic;
          if n == last {
            assert o in lastObs;
          } else {
            assert InSomeRow(segmentations, SetOf(front), lo, hi, o);
          }
        }
      }
    }
  }

  /**
   * The consistency tracker: the flag of every label seen so far, and the first
   * characteristic seen for it (the baseline).
   */
  datatype Tracker = Tracker(flags: map<int, string>, baseline: map<int, int>) {
    predicate Valid() {
      flags.Keys == baseline.Keys
    }
  }

  /** The tracker before any subject has been looked at. */
  const NoObservations := Tracker(map[], map[])

  /**
   * One step of the tracker: a new label starts Consistent with the value as its
   * baseline; a value differing from the baseline turns a Consistent label
   * InConsistent; anything else changes nothing.
   */
  function Observe(t: Tracker, o: Observation): (r: Tracker)
    requires t.Valid()
    ensures r.Valid()
    ensures r.flags.Keys == t.flags.Keys + {o.segment}
    ensures forall k :: k in t.flags ==> r.baseline[k] == t.baseline[k]
    ensures forall k :: k in t.flags && k != o.segment ==> r.flags[k] == t.flags[k]
    ensures o.segment !in t.flags ==> r.flags[o.segment] == Consistent && r.baseline[o.segment] == o.characteristic
    ensures o.segment in t.flags && t.flags[o.segment] == Consistent && t.baseline[o.segment] != o.characteristic ==>
      r.flags[o.segment] == InConsistent
    ensures o.segment in t.flags && (t.flags[o.segment] != Consistent || t.baseline[o.segment] == o.characteristic) ==>
      r.flags[o.segment] == t.flags[o.segment]
  {
    if o.segment !in t.flags then
      Tracker(t.flags[o.segment := Consistent], t.baseline[o.segment := o.characteristic])
    else if t.baseline[o.segment] != o.characteristic && t.flags[o.segment] == Consistent then
      t.(flags := t.flags[o.segment := InConsistent])
    else
      t
  }

  /** The tracker after a sequence of observations, taken in order. */
  function ObserveAll(t: Tracker, obs: seq<Observation>): (r: Tracker)
    requires t.Valid()
    ensures r.Valid()
    decreases |obs|
  {
    if obs == [] then t else Observe(ObserveAll(t, obs[..|obs| - 1]), obs[|obs| - 1])
  }

  lemma ObserveAllSnoc(t: Tracker, obs: seq<Observation>, o: Observation)
    requires t.Valid()
    ensures ObserveAll(t, obs + [o]) == Observe(ObserveAll(t, obs), o)
  {
    assert (obs + [o])[..|obs|] == obs;
  }

  lemma {:induction false} ObserveAllAppend(t: Tracker, a: seq<Observation>, b: seq<Observation>)
    requires t.Valid()
    ensures ObserveAll(t, a + b) == ObserveAll(ObserveAll(t, a), b)
    decreases |b|
  {
    if b == [] {
      assert a + b == a;
    } else {
      var front := b[..|b| - 1];
      assert a + b == (a + front) + [b[|b| - 1]];
      ObserveAllSnoc(t, a + front, b[|b| - 1]);
      ObserveAllAppend(t, a, front);
    }
  }

  /** Once a label is InConsistent, no later observation makes it Consistent again. */
  lemma {:induction false} InconsistentIsPermanent(t: Tracker, obs: seq<Observation>, k: int)
    requires t.Valid() && k in t.flags && t.flags[k] == InConsistent
    ensures k in ObserveAll(t, obs).flags && ObserveAll(t, obs).flags[k] == InConsistent
    decreases |obs|
  {
    if obs != [] {
      InconsistentIsPermanent(t, obs[..|obs| - 1], k);
    }
  }

  /** Every characteristic observed for label `k` is the same. */
  ghost predicate AllAgree(obs: seq<Observation>, k: int) {
    forall o1, o2 :: o1 in obs && o2 in obs && o1.segment == k && o2.segment == k ==> o1.characteristic == o2.characteristic
  }

  /** What the tracker holds after `obs`, taken from no observations. */
  ghost predicate Describes(t: Tracker, obs: seq<Observation>) {
    && t.Valid()
    && (forall k :: k in t.flags <==> exists o :: o in obs && o.segment == k)
    && (forall k :: k in t.flags ==> Observation(k, t.baseline[k]) in obs)
    && (forall k :: k in t.flags ==> t.flags[k] == Consistent || t.flags[k] == InConsistent)
    && (forall k :: k in t.flags ==>
          (t.flags[k] == Consistent <==> forall o :: o in obs && o.segment == k ==> o.characteristic == t.baseline[k]))
  }

  lemma DescribesStep(t: Tracker, front: seq<Observation>, o: Observation)
    requires Describes(t, front)
    ensures Describes(Observe(t, o), front + [o])
  {
    var obs := front + [o];
    var r := Observe(t, o);
    assert forall p :: p in obs <==> p in front || p == o;
    forall k ensures k in r.flags <==> exists p :: p in obs && p.segment == k {
      if k in t.flags {
        var p :| p in front && p.segment == k;
        assert p in obs;
      }
    }
    forall k | k in r.flags
      ensures Observation(k, r.baseline[k]) in obs
      ensures r.flags[k] == Consistent || r.flags[k] == InConsistent
      ensures r.flags[k] == Consistent <==> forall p :: p in obs && p.segment == k ==> p.characteristic == r.baseline[k]
    {
      if k != o.segment {
        assert forall p :: p in obs && p.segment == k ==> p in front;
      } else if k !in t.flags {
        assert forall p :: p in obs && p.segment == k ==> p == o;
      }
    }
  }

  lemma {:induction false} ObserveAllDescribes(obs: seq<Observation>)
    ensures Describes(ObserveAll(NoObservations, obs), obs)
    decreases |obs|
  {
    if obs != [] {
      var front := obs[..|obs| - 1];
      var o := obs[|obs| - 1];
      assert obs == front + [o];
      ObserveAllDescribes(front);
      DescribesStep(ObserveAll(NoObservations, front), front, o);
    }
  }

  /**
   * After a pass, a label has a flag exactly when some subject recorded it, and
   * the flag is Consistent exactly when every recorded characteristic for it is
   * the same; otherwise it is InConsistent.
   */
  lemma FlagMeansAllAgree(obs: seq<Observation>)
    ensures forall k :: k in ObserveAll(NoObservations, obs).flags <==> exists o :: o in obs && o.segment == k
    ensures forall k :: k in ObserveAll(NoObservations, obs).flags ==>
      ObserveAll(NoObservations, obs).flags[k] == Consistent || ObserveAll(NoObservations, obs).flags[k] == InConsistent
    ensures forall k :: k in ObserveAll(NoObservations, obs).flags ==>
      (ObserveAll(NoObservations, obs).flags[k] == Consistent <==> AllAgree(obs, k))
  {
    ObserveAllDescribes(obs);
  }

  /** The flags depend only on which observations were made, not on their order or repetition. */
  lemma FlagsDependOnlyOnObservations(obs1: seq<Observation>, obs2: seq<Observation>)
    requires forall o :: o in obs1 <==> o in obs2
    ensures ObserveAll(NoObservations, obs1).flags == ObserveAll(NoObservations, obs2).flags
  {
    FlagMeansAllAgree(obs1);
    FlagMeansAllAgree(obs2);
    var f1, f2 := ObserveAll(NoObservations, obs1).flags, ObserveAll(NoObservations, obs2).flags;
    forall k | k in f1 ensures k in f2 && f1[k] == f2[k] {
      assert AllAgree(obs1, k) == AllAgree(obs2, k);
    }
  }

  /** Two passes over the same subjects, in any two orders, leave the same flags. */
  lemma FlagsIndependentOfSubjectOrder(segmentations: map<string, Segmentation>, order1: seq<string>, order2: seq<string>, lo: int, hi: int)
    requires forall n :: n in order1 <==> n in order2
    ensures ObserveAll(NoObservations, Observations(segmentations, order1, lo, hi)).flags ==
            ObserveAll(NoObservations, Observations(segmentations, order2, lo, hi)).flags
  {
    ObservationsMatchRows(segmentations, order1, lo, hi);
    ObservationsMatchRows(segmentations, order2, lo, hi);
    assert SetOf(order1) == SetOf(order2);
    FlagsDependOnlyOnObservations(Observations(segmentations, order1, lo, hi), Observations(segmentations, order2, lo, hi));
  }

  /** The topology table of a pass: the row of every subject in `names`. */
  function TopologyTable(segmentations: map<string, Segmentation>, names: set<string>, lo: int, hi: int): map<string, map<int, int>> {
    map n | n in names :: TopologyRow(SurfacesOf(segmentations, n), lo, hi)
  }

  /** The surfaces kept for display by a pass, per subject in `names`. */
  function SurfaceTable(segmentations: map<string, Segmentation>, names: set<string>, lo: int, hi: int): map<string, map<int, ClosedSurface>> {
    map n | n in names :: SurfaceRow(SurfacesOf(segmentations, n), lo, hi)
  }

  /**
   * The consistency flags summarise the topology table: a label has a flag
   * exactly when some subject's row records it, and the flag is Consistent
   * exactly when all the subjects that record it give the same characteristic.
   */
  ghost predicate FlagsDescribeTable(table: map<string, map<int, int>>, flags: map<int, string>) {
    && (forall k :: k in flags <==> exists n :: n in table && k in table[n])
    && (forall k :: k in flags ==> flags[k] == Consistent || flags[k] == InConsistent)
    && (forall k :: k in flags ==>
          (flags[k] == Consistent <==>
           forall n1, n2 :: n1 in table && n2 in table && k in table[n1] && k in table[n2] ==> table[n1][k] == table[n2][k]))
  }

  /** Whether `o` is an entry of some row of `table`. */
  ghost predicate TableEntry(table: map<string, map<int, int>>, o: Observation) {
    exists n :: n in table && o.segment in table[n] && table[n][o.segment] == o.characteristic
  }

  lemma TableEntriesAreRowEntries(segmentations: map<string, Segmentation>, names: set<string>, lo: int, hi: int)
    ensures forall o :: TableEntry(TopologyTable(segmentations, names, lo, hi), o) <==> InSomeRow(segmentations, names, lo, hi, o)
  {
    var table := TopologyTable(segmentations, names, lo, hi);
    forall o ensures TableEntry(table, o) <==> InSomeRow(segmentations, names, lo, hi, o) {
      if TableEntry(table, o) {
        var n :| n in table && o.segment in table[n] && table[n][o.segment] == o.characteristic;
        assert n in names;
      }
      if InSomeRow(segmentations, names, lo, hi, o) {
        var n :| n in names &&
          o.segment in TopologyRow(SurfacesOf(segmentations, n), lo, hi) &&
          TopologyRow(SurfacesOf(segmentations, n), lo, hi)[o.segment] == o.characteristic;
        assert n in table && table[n] == TopologyRow(SurfacesOf(segmentations, n), lo, hi);
      }
    }
  }

  /** Flags built from exactly the entries of a table summarise that table. */
  lemma FlagsOfEntriesDescribeTable(table: map<string, map<int, int>>, obs: seq<Observation>)
    requires forall o :: o in obs <==> TableEntry(table, o)
    ensures FlagsDescribeTable(table, ObserveAll(NoObservations, obs).flags)
  {
    var flags := ObserveAll(NoObservations, obs).flags;
    FlagMeansAllAgree(obs);
    forall k ensures k in flags <==> exists n :: n in table && k in table[n] {
      if n :| n in table && k in table[n] {
        assert TableEntry(table, Observation(k, table[n][k]));
      }
      if k in flags {
        var o :| o in obs && o.segment == k;
        assert TableEntry(table, o);
        var n :| n in table && o.segment in table[n] && table[n][o.segment] == o.characteristic;
      }
    }
    forall k | k in flags
      ensures flags[k] == Consistent <==>
        forall n1, n2 :: n1 in table && n2 in table && k in table[n1] && k in table[n2] ==> table[n1][k] == table[n2][k]
    {
      if forall n1, n2 :: n1 in table && n2 in table && k in table[n1] && k in table[n2] ==> table[n1][k] == table[n2][k] {
        forall o1, o2 | o1 in obs && o2 in obs && o1.segment == k && o2.segment == k
          ensures o1.characteristic == o2.characteristic
        {
          assert TableEntry(table, o1) && TableEntry(table, o2);
        }
      }
      if AllAgree(obs, k) {
        forall n1, n2 | n1 in table && n2 in table && k in table[n1] && k in table[n2] ensures table[n1][k] == table[n2][k] {
          assert TableEntry(table, Observation(k, table[n1][k])) && TableEntry(table, Observation(k, table[n2][k]));
        }
      }
    }
  }

  /** Whatever the subject order, the flags a pass leaves summarise the table it builds. */
  lemma PassFlagsDescribeTable(segmentations: map<string, Segmentation>, order: seq<string>, lo: int, hi: int)
    ensures FlagsDescribeTable(TopologyTable(segmentations, SetOf(order), lo, hi),
                               ObserveAll(NoObservations, Observations(segmentations, order, lo, hi)).flags)
  {
    ObservationsMatchRows(segmentations, order, lo, hi);
    TableEntriesAreRowEntries(segmentations, SetOf(order), lo, hi);
    FlagsOfEntriesDescribeTable(TopologyTable(segmentations, SetOf(order), lo, hi), Observations(segmentations, order, lo, hi));
  }

  /** Extending a pass over lo..k-1 by label k. */
  lemma RowStep(surfaces: map<int, ClosedSurface>, lo: int, k: int)
    requires lo <= k
    ensures Recorded(surfaces, lo, k, k) ==>
      TopologyRow(surfaces, lo, k) == TopologyRow(surfaces, lo, k - 1)[k := EulerCharacteristic(surfaces[k])] &&
      SurfaceRow(surfaces, lo, k) == SurfaceRow(surfaces, lo, k - 1)[k := surfaces[k]] &&
      LabelObservations(surfaces, lo, k) == LabelObservations(surfaces, lo, k - 1) + [Observation(k, EulerCharacteristic(surfaces[k]))]
    ensures !Recorded(surfaces, lo, k, k) ==>
      TopologyRow(surfaces, lo, k) == TopologyRow(surfaces, lo, k - 1) &&
      SurfaceRow(surfaces, lo, k) == SurfaceRow(surfaces, lo, k - 1) &&
      LabelObservations(surfaces, lo, k) == LabelObservations(surfaces, lo, k - 1)
  {
  }

  /** A pass over an empty label range records nothing. */
  lemma EmptyRange(surfaces: map<int, ClosedSurface>, lo: int, hi: int, hi': int)
    requires hi < lo && hi' < lo
    ensures TopologyRow(surfaces, lo, hi) == TopologyRow(surfaces, lo, hi')
    ensures SurfaceRow(surfaces, lo, hi) == SurfaceRow(surfaces, lo, hi')
    ensures LabelObservations(surfaces, lo, hi) == LabelObservations(surfaces, lo, hi')
  {
  }

  /** Adding one subject to the names adds its row to each table. */
  lemma TableInsert(segmentations: map<string, Segmentation>, names: set<string>, n: string, lo: int, hi: int)
    ensures TopologyTable(segmentations, names + {n}, lo, hi) ==
      TopologyTable(segmentations, names, lo, hi)[n := TopologyRow(SurfacesOf(segmentations, n), lo, hi)]
    ensures SurfaceTable(segmentations, names + {n}, lo, hi) ==
      SurfaceTable(segmentations, names, lo, hi)[n := SurfaceRow(SurfacesOf(segmentations, n), lo, hi)]
  {
    var t1 := TopologyTable(segmentations, names + {n}, lo, hi);
    var t2 := TopologyTable(segmentations, names, lo, hi)[n := TopologyRow(SurfacesOf(segmentations, n), lo, hi)];
    assert t1.Keys == t2.Keys;
    assert forall m :: m in t1 ==> t1[m] == t2[m];
    var s1 := SurfaceTable(segmentations, names + {n}, lo, hi);
    var s2 := SurfaceTable(segmentations, names, lo, hi)[n := SurfaceRow(SurfacesOf(segmentations, n), lo, hi)];
    assert s1.Keys == s2.Keys;
    assert forall m :: m in s1 ==> s1[m] == s2[m];
  }

  /** Extending a pass over order[..i] by subject order[i]. */
  lemma SubjectStep(segmentations: map<string, Segmentation>, order: seq<string>, i: int, lo: int, hi: int)
    requires 0 <= i < |order|
    ensures SetOf(order[..i + 1]) == SetOf(order[..i]) + {order[i]}
    ensures Observations(segmentations, order[..i + 1], lo, hi) ==
      Observations(segmentations, order[..i], lo, hi) + LabelObservations(SurfacesOf(segmentations, order[i]), lo, hi)
  {
    assert order[..i + 1] == order[..i] + [order[i]];
    assert order[..i + 1][..i] == order[..i];
  }

  /** The two tables of a pass agree entry by entry. */
  lemma TablesAgree(segmentations: map<string, Segmentation>, names: set<string>, lo: int, hi: int)
    ensures var t, s := TopologyTable(segmentations, names, lo, hi), SurfaceTable(segmentations, names, lo, hi);
      && t.Keys == s.Keys
      && (forall n :: n in t ==> t[n].Keys == s[n].Keys)
      && (forall n, k :: n in t && k in t[n] ==> t[n][k] == EulerCharacteristic(s[n][k]))
  {
  }

  /** The names the importer gives to Euler characteristics. */
  const TopologyNames: map<int, string> := map[
    1 := "Disk",
    0 := "Circle/Torus/Mobius Strip",
    2 := "Sphere",
    -2 := "Double Torus",
    -4 := "Triple Torus"]

  /** The name of a characteristic, or "n/a" for one outside the table. */
  function TopologyName(chi: int): (name: string)
    ensures name != NotAvailable <==> chi in {2, 1, 0, -2, -4}
    ensures chi == 2 <==> name == "Sphere"
    ensures chi == 1 <==> name == "Disk"
    ensures chi == 0 <==> name == "Circle/Torus/Mobius Strip"
    ensures chi == -2 <==> name == "Double Torus"
    ensures chi == -4 <==> name == "Triple Torus"
  {
    if chi in TopologyNames then TopologyNames[chi] else NotAvailable
  }

  /** A name other than "n/a" determines the characteristic it was given for. */
  lemma TopologyNameDeterminesCharacteristic(a: int, b: int)
    requires TopologyName(a) == TopologyName(b) != NotAvailable
    ensures a == b
  {
  }
}
