/** The two fit modes and the two view modes, and how each toggle moves between them. */
module Fit {

  /** `Normal` shows the image at its own size when it fits; `Fit` scales it to the area. */
  datatype FitMode = Normal | Fit

  /** The toggle bound to the fit key. */
  function Next(m: FitMode): (r: FitMode)
    ensures r != m
  {
    match m
    case Normal => Fit
    case Fit => Normal
  }

  /** Toggling twice restores the mode. */
  lemma NextInvolution(m: FitMode)
    ensures Next(Next(m)) == m
  {
  }

  /** The toggle visits both modes: each mode is the successor of exactly the other one. */
  lemma NextBijective(a: FitMode, b: FitMode)
    ensures Next(a) == b <==> a != b
  {
  }

  datatype ViewMode = Single | Tile

  /** The derived default view mode. */
  function DefaultViewMode(): (r: ViewMode)
    ensures r.Single?
  {
    Single
  }
}
