/**
 * The resize policy: the orientation of the decoded image, the default
 * target size for each orientation, and whether the image is resized at all.
 */
module Dimensions {
  import opened Options

  /** The two display orientations; a square image counts as landscape. */
  datatype Orientation = Portrait | Landscape

  /** Portrait exactly when the image is strictly taller than wide. */
  function FromDimensions(width: nat, height: nat): (o: Orientation)
    ensures o == Portrait <==> width < height
    ensures o == Landscape <==> height <= width
  {
    if width < height then Portrait else Landscape
  }

  /** The default target: 240 by 320 for portrait, 320 by 240 for landscape. */
  function DefaultSize(o: Orientation): (size: (nat, nat))
    ensures FromDimensions(size.0, size.1) == o
    ensures o == Portrait ==> size == (240, 320)
    ensures o == Landscape ==> size == (320, 240)
  {
    match o
    case Portrait => (240, 320)
    case Landscape => (320, 240)
  }

  /**
   * The target size: each given override is used as is, and each missing
   * one is taken from the default for the orientation.
   */
  function TargetSize(o: Orientation, width: Option<nat>, height: Option<nat>): (size: (nat, nat))
    ensures width.Some? ==> size.0 == width.value
    ensures height.Some? ==> size.1 == height.value
    ensures width.None? ==> size.0 == DefaultSize(o).0
    ensures height.None? ==> size.1 == DefaultSize(o).1
  {
    (width.UnwrapOr(DefaultSize(o).0), height.UnwrapOr(DefaultSize(o).1))
  }

  /** The target width does not depend on the height override, nor the height on the width override. */
  lemma OverridesIndependent(o: Orientation, width: Option<nat>, height: Option<nat>, width': Option<nat>, height': Option<nat>)
    ensures TargetSize(o, width, height).0 == TargetSize(o, width, height').0
    ensures TargetSize(o, width, height).1 == TargetSize(o, width', height).1
  {
  }

  /** Without overrides the target keeps the orientation it was chosen for. */
  lemma DefaultTargetKeepsOrientation(o: Orientation)
    ensures FromDimensions(TargetSize(o, None, None).0, TargetSize(o, None, None).1) == o
  {
  }

  /** With both overrides given the orientation plays no part. */
  lemma BothOverridesIgnoreOrientation(width: nat, height: nat)
    ensures TargetSize(Portrait, Some(width), Some(height)) == (width, height)
    ensures TargetSize(Landscape, Some(width), Some(height)) == (width, height)
  {
  }

  /** The image is resized exactly when a width or a height was given. */
  predicate MustResize(width: Option<nat>, height: Option<nat>)
  {
    width.Some? || height.Some?
  }

  /** Without either override there is no resize; either one alone is enough for one. */
  lemma MustResizeCases(width: Option<nat>, height: Option<nat>)
    ensures !MustResize(None, None)
    ensures width.Some? ==> MustResize(width, height)
    ensures height.Some? ==> MustResize(width, height)
    ensures MustResize(width, height) ==> width.Some? || height.Some?
  {
  }
}
