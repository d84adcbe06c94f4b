/**
 * What the host application's scene and the geometry library hand to the
 * data importer, reduced to the values its bookkeeping looks at.
 */
module Scene {
  import opened Wrappers

  /** The scalar range of a label-map volume: its lowest and highest label. */
  datatype LabelRange = LabelRange(lo: int, hi: int)

  /** The range the logic holds before any file has set the cohort's range. */
  const NoRange := LabelRange(-1, -1)

  /**
   * The closed surface of one segment, seen through what the geometry filters
   * report about its cleaned largest connected component: the number of points,
   * the number of lines the edge extraction yields and the number of polygons.
   */
  datatype ClosedSurface = ClosedSurface(points: nat, edgeLines: nat, polys: nat)

  /**
   * A label map the host loaded. `surfacesCreated` says whether creating the
   * closed-surface representation of its segmentation succeeded; `closedSurfaces`
   * is what the segmentation then answers for each label (whatever the outcome of
   * that creation): the label's closed surface, for each label that has one.
   */
  datatype LabelMap = LabelMap(scalarRange: LabelRange, surfacesCreated: bool, closedSurfaces: map<int, ClosedSurface>)

  /**
   * One input file: its name (the last path component) and the label map the
   * host loads from it, `None` when loading fails.
   */
  datatype HostFile = HostFile(name: string, volume: Option<LabelMap>)

  /** A segmentation node: the closed surface of every label that has one. */
  datatype Segmentation = Segmentation(closedSurfaces: map<int, ClosedSurface>)
}
