/** The crate-wide constants of the game. */
module Config {
  /** The window size in pixels. */
  const WIDTH: nat := 800
  const HEIGHT: nat := 600

  /** The number of rays of the sight cone. */
  const RAYS: nat := 360

  /** The double-precision value of pi, taken as an exact real. */
  const PI: real := 3.141592653589793
}
