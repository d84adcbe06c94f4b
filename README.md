# DataImporter: cohort import, topology estimation and consistency

SlicerSALT's Data Importer module loads a cohort of label-map volumes. Each volume is a
segmentation whose voxels carry integer labels. The module turns every label into a
closed surface and estimates each surface's topology from its Euler characteristic,
points − edges + polygons. It then reports, per label, whether every subject of
the cohort has the same topology.

This project models the bookkeeping core of `DataImporterLogic` and proves what it computes:

- **Importing files** (`importFiles`). Each file is recorded under its file name. A file
  that loads gets a segmentation, kept even when creating its closed surfaces fails. A
  file whose closed surfaces can be built contributes its scalar label range; one whose
  creation fails contributes no range, but the topology pass still queries its
  segmentation label by label. The import fails as soon as an accepted file's range differs
  from the cohort's range so far. It succeeds exactly when each accepted file's range
  equals the range of every earlier accepted file whose range is not (-1, -1), and equals
  the range the cohort already had, if one was set (`Cohort`). A range of (-1, -1) is the
  "no range yet" marker, so a file with that range constrains no later file.
- **Populating the topology dictionary** (`populateTopologyDictionary`). For every
  subject and every label of the cohort range except the background label 0, the
  model records the Euler characteristic of the label's closed surface together with
  the surface itself. A consistency flag is kept per label: it is `Consistent` at the
  label's first observation and turns `InConsistent` for good at the first value that
  differs from that first one (`Topology`, `DataImporterLogic`).
- **Looking up a row.** `getTopologyAndConsistencyString` names a characteristic (Sphere,
  Disk, …) and returns the label's flag. Either part is `n/a` when it is unknown.
- **Cleanup.** This resets the range, the tables and the flags. The model is the corrected
  cleanup; the source's raises when a test case has no segmentation (see "## Findings").
- **The widget's computations** (`DataImporterWidget`):
  - `findWidget`, a pre-order search of the widget tree by object name;
  - the reading of the CSV file's rows into the list of files to import.

The scene, VTK and file system are represented by values:

- a `HostFile` is the outcome of loading one file;
- a `LabelMap` is the loaded volume: its scalar range, whether creating its closed
  surfaces succeeded, and the closed surface its segmentation answers for each label;
- a `ClosedSurface` is the point, edge-line and polygon counts of a cleaned surface.

The iteration order of Python 2 dictionaries is arbitrary. So `PopulateTopologyDictionary`
takes the order as a parameter (any enumeration of the subjects), and
`Topology.FlagsIndependentOfSubjectOrder` proves the flags do not depend on it.

`Cleanup` keeps the subject and segmentation dictionaries, as the source does
(`DataImporter.py:58-73` removes the scene nodes but never empties the dictionaries).
Subjects from an earlier import therefore take part in the next topology pass. The model
keeps this behaviour. In the same way, a file that fails to load under a name whose
earlier file did load leaves that earlier segmentation in place (lines 83-90). The subject's
test case is then `None`, yet the topology pass still gives it a row
(`Cohort.ImportRecordsSegmentations`).

## Model

| member | source | states |
|---|---|---|
| Cohort.ImportSucceedsIffCohortAgrees | Modules/Scripted/ShapeAnalysisToolBox/DataImporter.py:75-112 | the import returns True exactly when each accepted file's label range equals the range of every earlier accepted file whose range is not (-1, -1), and equals the cohort range already set (if one is set) |
| Cohort.ImportKeepsLastAcceptedRange | Modules/Scripted/ShapeAnalysisToolBox/DataImporter.py:101-111 | after a successful import the cohort range is the last accepted file's range, or is unchanged when no file was accepted |
| Cohort.ImportRecordsEveryFile | Modules/Scripted/ShapeAnalysisToolBox/DataImporter.py:77-87 | the subject dictionary only grows, by the imported names; after success it holds every file's name, mapped to the last load outcome under that name, failed loads included |
| Cohort.ImportStopsAtMismatch | Modules/Scripted/ShapeAnalysisToolBox/DataImporter.py:101-105 | a failed import stops at a file before which every file imported successfully, which is accepted and whose step fails; the state left is the one after that step, and the subject dictionary holds only the old names and the names up to that file |
| Cohort.UnloadedNameKeepsSegmentation | Modules/Scripted/ShapeAnalysisToolBox/DataImporter.py:83-93 | a name none of whose imported files loads keeps its segmentation entry, or its lack of one |
| Cohort.ImportRecordsSegmentations | Modules/Scripted/ShapeAnalysisToolBox/DataImporter.py:83-93 | after a successful import, a name with a file that loaded holds the segmentation of the last such file; later files with that name that fail to load leave it in place |
| DataImporterLogic.SurfaceCreationFailureStillQueried | Modules/Scripted/ShapeAnalysisToolBox/DataImporter.py:90-138 | a file that loads but whose closed-surface creation fails keeps the import going and the range unchanged, and its segmentation stays, so the pass reads its per-label surfaces |
| Cohort.NotNamedKeepsEntry | Modules/Scripted/ShapeAnalysisToolBox/DataImporter.py:83-93 | a subject not named by any imported file keeps its loaded volume and its segmentation (or its lack of one) |
| Topology.LabelObservations | Modules/Scripted/ShapeAnalysisToolBox/DataImporter.py:130-172 | one subject's observations are exactly the labels in range, other than 0, that have a closed surface, each with that surface's Euler characteristic, in increasing label order |
| Topology.ObservationsMatchRows | Modules/Scripted/ShapeAnalysisToolBox/DataImporter.py:126-172 | the observations of a whole pass are exactly the entries of the subjects' topology rows |
| Topology.NoSurfacesNoObservations | Modules/Scripted/ShapeAnalysisToolBox/DataImporter.py:135-138 | a subject with no closed surface contributes no observation |
| Topology.Observe | Modules/Scripted/ShapeAnalysisToolBox/DataImporter.py:183-189 | one observation adds its label to the flags, keeps every known label's first value, and leaves every other label's flag alone; a new label becomes Consistent with the value as its first value; a Consistent label whose first value differs becomes InConsistent; otherwise the label's flag is unchanged |
| Topology.ObserveAll | Modules/Scripted/ShapeAnalysisToolBox/DataImporter.py:126-189 | running the consistency check over any observations keeps flags and first values on the same labels |
| Topology.ObserveAllAppend | Modules/Scripted/ShapeAnalysisToolBox/DataImporter.py:126-189 | the consistency state after two successive groups of observations is the state after their concatenation, so subject after subject is one pass |
| Topology.InconsistentIsPermanent | Modules/Scripted/ShapeAnalysisToolBox/DataImporter.py:187-189 | once a label is InConsistent, no later observation changes it back |
| Topology.ObserveAllDescribes | Modules/Scripted/ShapeAnalysisToolBox/DataImporter.py:182-189 | after a pass every observed label has a flag; its first value is one of its observations; it is Consistent exactly when all its observations equal that first value |
| Topology.FlagMeansAllAgree | Modules/Scripted/ShapeAnalysisToolBox/DataImporter.py:182-189 | a label has a flag exactly when it was observed; its flag is Consistent or InConsistent; it is Consistent exactly when all its observations agree |
| Topology.FlagsDependOnlyOnObservations | Modules/Scripted/ShapeAnalysisToolBox/DataImporter.py:182-189 | the flags depend only on the set of observations, not on their order or repetition |
| Topology.FlagsIndependentOfSubjectOrder | Modules/Scripted/ShapeAnalysisToolBox/DataImporter.py:126 | the flags are the same for every order in which the subject dictionary is enumerated |
| Topology.PassFlagsDescribeTable | Modules/Scripted/ShapeAnalysisToolBox/DataImporter.py:120-190 | after a pass, a label is Consistent exactly when all subjects' table entries for it are equal, and has a flag exactly when some subject has an entry for it |
| Topology.TablesAgree | Modules/Scripted/ShapeAnalysisToolBox/DataImporter.py:172-176 | the topology table and the surface table have the same subjects and labels, and each topology entry is the Euler characteristic of the kept surface |
| Topology.TopologyName | Modules/Scripted/ShapeAnalysisToolBox/DataImporter.py:232-238 | the name is n/a exactly when the characteristic is not 2, 1, 0, -2 or -4; each of those five gets its own name (Sphere, Disk, Circle/Torus/Mobius Strip, Double Torus, Triple Torus) |
| Topology.TopologyNameDeterminesCharacteristic | Modules/Scripted/ShapeAnalysisToolBox/DataImporter.py:232-238 | two characteristics with the same name other than n/a are equal |
| DataImporterLogic.DataImporterLogic.constructor | Modules/Scripted/ShapeAnalysisToolBox/DataImporter.py:33-45 | a new logic has empty dictionaries, the range unset as (-1, -1), and satisfies the table invariant |
| DataImporterLogic.DataImporterLogic.Cleanup | Modules/Scripted/ShapeAnalysisToolBox/DataImporter.py:58-73 | the range is reset to (-1, -1) and the topology, consistency and surface dictionaries are emptied; the subject and segmentation dictionaries are kept |
| DataImporterLogic.DataImporterLogic.ImportFiles | Modules/Scripted/ShapeAnalysisToolBox/DataImporter.py:75-112 | the result, the new subject and segmentation dictionaries and the new range are those of the import fold over the files; the tables are untouched |
| DataImporterLogic.DataImporterLogic.PopulateTopologyDictionary | Modules/Scripted/ShapeAnalysisToolBox/DataImporter.py:120-190 | after the pass every subject's row holds the Euler characteristic of each surfaced label in range other than 0, with the surfaces kept alongside; the flags are the consistency check over the pass and describe the table |
| DataImporterLogic.DataImporterLogic.RecordSubject | Modules/Scripted/ShapeAnalysisToolBox/DataImporter.py:128-189 | one subject's row and surface row are stored, and the flags and first values advance by that subject's observations |
| DataImporterLogic.DataImporterLogic.TopologyAndConsistencyStrings | Modules/Scripted/ShapeAnalysisToolBox/DataImporter.py:226-243 | the topology string is n/a exactly when there is no entry or its characteristic has no name, and otherwise it is that name; the second string is the label's flag, or n/a when the label has none (exactly then, under the table invariant) |
| DataImporterLogic.ClosedSurfacesAsWritten | Modules/Scripted/ShapeAnalysisToolBox/DataImporter.py:135 | the lookup as the code writes it fails exactly when the subject has no segmentation |
| DataImporterLogic.LoadFailureReachesMissingSegmentation | Modules/Scripted/ShapeAnalysisToolBox/DataImporter.py:83-87 | an import of a failed file and a good file succeeds, yet leaves a subject whose segmentation lookup fails, and a test case without a segmentation, so a later cleanup fails too |
| DataImporterLogic.FailedLoadContributesNothing | Modules/Scripted/ShapeAnalysisToolBox/DataImporter.py:83-87 | with the corrected lookup, a subject that only failed to load has no segmentation, an empty row and no observations |
| DataImporterWidget.FindWidget | Modules/Scripted/ShapeAnalysisToolBox/DataImporter.py:326-334 | a widget found has the requested object name |
| DataImporterWidget.FindWidgetIsFirstInPreOrder | Modules/Scripted/ShapeAnalysisToolBox/DataImporter.py:326-334 | the search returns the first widget of the tree, in pre-order, with the requested name |
| DataImporterWidget.FindWidgetNoneIffAbsent | Modules/Scripted/ShapeAnalysisToolBox/DataImporter.py:326-334 | the search returns nothing exactly when no widget of the tree has the name; what it returns is a widget of the tree |
| DataImporterWidget.FirstFieldsMembers | Modules/Scripted/ShapeAnalysisToolBox/DataImporter.py:391-393 | a name is in the list exactly when some non-empty row has it as its first field |
| DataImporterWidget.FirstFieldsAppend | Modules/Scripted/ShapeAnalysisToolBox/DataImporter.py:391-393 | the list from two runs of rows is the two lists one after the other, so order follows the file |
| DataImporterWidget.ImportListFromRows | Modules/Scripted/ShapeAnalysisToolBox/DataImporter.py:386-393 | the list of files to import is the first field of every non-empty row after the header, in order |

## Left out

- Scene handling is a host effect and is not modelled: creating and removing MRML
  nodes, turning a label map into a segmentation node, display visibility, the single
  displayed segmentation (`createSingleDisplaySegmentModelNode`, the node deletion in
  `cleanup`), `displaySegment` and `reset3dView`. Only the dictionaries are modelled.
- The VTK pipeline (cleaning, largest connected component, edge extraction) is foreign
  code. Its result enters as the point, edge-line and polygon counts of a `ClosedSurface`.
- The choice between the cleaned and the raw surface for the surface dictionary is left
  out. The model always keeps the label's `ClosedSurface` value. The source tests a
  `saveCleanData` attribute that only the widget's setup sets, while the logic's
  constructor sets `saveCleanedData`. With one surface value per label the two branches
  cannot be told apart here.
- The error and progress messages (`print` at lines 59, 62, 85, 96, 104, 109 and 137)
  are console output and are not modelled.
- `os.path.split` and file loading is host I/O. A `HostFile` carries the file name
  and the load outcome.
- CSV tokenisation is left out: the rows arrive already split into fields.
- The range's `float`-to-`int` conversion is the identity, because label ranges are
  integers in the model. The segment id's `str`/`int` round trip is the identity too.
- `getLabelRangeInCohort` is a plain getter and is the `cohortRange` field.
- The rest of the user interface is not part of this model: the Qt widgets and tables
  of `DataImporterWidget`, the widget's own `importFiles`, the callbacks, `Home.py` and
  the empty test class.
- DataImporterLogic.DataImporterLogic.PopulateTopologyDictionary requires an empty
  consistency dictionary. Without a preceding cleanup, observing a label that already
  has a flag makes the source raise `KeyError` at line 187: the local first-value
  dictionary has no entry for that label. The method's only caller runs `cleanup` first.
- DataImporterLogic.DataImporterLogic.PopulateTopologyDictionary reads a subject's
  surfaces through the corrected lookup `Topology.SurfacesOf`, which gives a subject
  without a segmentation no surfaces. The source raises `KeyError` at line 135 instead,
  as the row in "## Findings" describes.
- DataImporterLogic.DataImporterLogic.PopulateTopologyDictionary builds each
  subject's rows in locals and stores them once per subject. The source updates the
  nested dictionaries entry by entry; the final state is the same.
- DataImporterLogic.DataImporterLogic.Cleanup is the corrected cleanup and resets from
  every state. The source's cleanup first removes each test case's segmentation node
  (line 64). When a test case has no segmentation, as after a failed load, it raises
  `KeyError` there, before lines 70-73, and so resets nothing (see "## Findings").
- DataImporterLogic.DataImporterLogic.RecordSubject models the `is 'Consistent'` identity
  test at line 188 as string equality. The only strings stored in the consistency
  dictionary are the literals `'Consistent'` (line 184) and `'InConsistent'` (line 189), and
  line 188 compares against the same `'Consistent'` constant line 184 stores, so `is`
  agrees with `==` there.

## Findings

| source | as written | input that shows it | evidently intended | confidence | as-written member | corrected member |
|---|---|---|---|---|---|---|
| Modules/Scripted/ShapeAnalysisToolBox/DataImporter.py:83-87, 135 | a file that fails to load stays in the subject dictionary as None; when no earlier file of that name loaded, it has no segmentation; the topology pass then looks its segmentation up and raises KeyError (as does cleanup at line 64) | import `a.nrrd` (load fails) and `b.nrrd` (range 0..1, one closed surface for label 1): the import returns True, then the pass looks up the missing segmentation of `a.nrrd` | a subject without a segmentation contributes no topology row entries and no observations | not executed | DataImporterLogic.LoadFailureReachesMissingSegmentation | DataImporterLogic.FailedLoadContributesNothing |
| Modules/Scripted/ShapeAnalysisToolBox/DataImporter.py:60-64, 70-73 | cleanup removes each test case's segmentation node by looking it up, and raises KeyError at line 64 when a test case has no segmentation, before any of the resets at lines 70-73 | the same import of `a.nrrd` (load fails) and `b.nrrd`, then cleanup: `a.nrrd` is a test case but not a segmentation | cleanup skips a test case without a segmentation and resets the range and tables | not executed | DataImporterLogic.LoadFailureReachesMissingSegmentation | DataImporterLogic.DataImporterLogic.Cleanup |
