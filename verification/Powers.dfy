module Powers {
  function PowerOfTwo(k: nat): nat {
    if k == 0 then 1 else 2 * PowerOfTwo(k - 1)
  }

  lemma {:induction false} PowerGrows(j: nat, k: nat)
    requires j < k
    ensures 2 * PowerOfTwo(j) <= PowerOfTwo(k)
    decreases k
  {
    if j < k - 1 {
      PowerGrows(j, k - 1);
    }
  }
}
