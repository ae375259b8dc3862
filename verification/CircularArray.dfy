/** Index arithmetic of a circular array, shared by the descriptor rings and the byte ring. */
module CircularArray {

  /** The index reached from `i` after `j` single steps around an array of `n` slots. */
  function At(i: nat, j: nat, n: nat): (k: nat)
    requires i < n && j <= n
    ensures k < n
  {
    if i + j < n then i + j else i + j - n
  }

  /** One step, in the form every driver loop uses: go to the start after the last slot. */
  function Next(i: nat, n: nat): (k: nat)
    requires i < n
    ensures k == At(i, 1, n)
  {
    if i + 1 == n then 0 else i + 1
  }
}
