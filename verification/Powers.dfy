/** Powers of a number base. */
module Powers {

  function Pow(b: nat, k: nat): nat { if k == 0 then 1 else b * Pow(b, k - 1) }

  lemma {:induction false} PowGrows(b: nat, j: nat, k: nat)
    requires b > 0 && j <= k
    ensures 1 <= Pow(b, j) <= Pow(b, k)
    decreases k
  {
    if j < k {
      PowGrows(b, j, k - 1);
    } else if j > 0 {
      PowGrows(b, j - 1, j - 1);
    }
  }
}
