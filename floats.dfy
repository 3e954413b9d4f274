/** IEEE doubles as read from an ARGO NetCDF file: a finite double is
    exact, so it is modelled by its rational value; NaN and the two
    infinities are separate cases because comparisons treat them apart. */
module Floats {

  datatype Double = Finite(v: real) | NaN | PosInf | NegInf

  /** The fill value of LATITUDE, LONGITUDE, PRES, TEMP and PSAL. */
  const FillValue: real := 99999.0

  /** The fill value of JULD. */
  const JuldFillValue: real := 999999.0

  /** `x == c` for a finite constant c (never true of NaN or an infinity). */
  predicate Eq(x: Double, c: real) {
    x.Finite? && x.v == c
  }

  /** `x >= c` for a finite constant c (true of +inf, false of NaN and -inf). */
  predicate AtLeast(x: Double, c: real) {
    (x.Finite? && x.v >= c) || x.PosInf?
  }
}
