/** `FilterValues`: the thresholds one run of the filter pipeline uses. */
module FilterConfig {

  datatype FilterValues = FilterValues(
    /** The orientation test on a pixel's gradient (gx, gy): whether
        `atan2(gy, gx)` lies strictly between `-ThetaTheshold` and
        `ThetaTheshold`. */
    orientationAccepts: (int, int) -> bool,
    /** A pixel is red-dominant when `(r + 1) / (max(g, b) + 1)` exceeds this. */
    redMinRatio: real,
    /** A pixel is green-dominant when `(g + 1) / (max(r, b) + 1)` exceeds this. */
    greenMinRatio: real,
    /** How many vertical blur rounds run; none when not positive. */
    blurRounds: int,
    /** Grey levels above this become white in the high-pass stage. */
    whiteThreshold: int,
    /** Half-width of the horizontal averaging window of the scanline stage. */
    scanlineInterpolationWidth: int)
}
