/** Residues by repeated subtraction or addition of the modulus, and their agreement with the remainder of a division.
    */
module Residues {
  import opened Digits

  /** The number in [0, m) that differs from v by a multiple of m. */
  function Residue(v: int, m: int): (r: int)
    requires m > 0
    ensures 0 <= r < m
    decreases if v < 0 then 2 * m - v else v
  {
    if v < 0 then Residue(v + m, m)
    else if v < m then v
    else Residue(v - m, m)
  }

  lemma {:induction false} ResidueIsMod(v: int, m: int)
    requires m > 0
    ensures Residue(v, m) == v % m
    decreases if v < 0 then 2 * m - v else v
  {
    DivModEq(v, m);
    if v < 0 {
      ResidueIsMod(v + m, m);
      assert (v / m + 1) * m == v / m * m + m;
      DivModUnique(v + m, m, v / m + 1, v % m);
    } else if v < m {
      DivModUnique(v, m, 0, v);
    } else {
      ResidueIsMod(v - m, m);
      assert (v / m - 1) * m == v / m * m - m;
      DivModUnique(v - m, m, v / m - 1, v % m);
    }
  }
}
