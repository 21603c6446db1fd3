/** Declarations shared by several components. */
module Common {

  datatype Option<+T> = None | Some(value: T)

  /** The return values of the library. */
  datatype Status = MV_OK | MV_FAIL

  /** The bits of a byte lane. */
  const BITS: nat := 8

  lemma Multiples(n: nat, i: nat, j: nat)
    requires i < j
    ensures i * n + n <= j * n
  {
    var k := j - i - 1;
    assert j * n == i * n + k * n + n;
  }

  /** Two digits below n are determined by their number to the base n. */
  lemma DigitsAreUnique(n: nat, i: nat, s: nat, i': nat, s': nat)
    requires s < n && s' < n && i * n + s == i' * n + s'
    ensures i == i' && s == s'
  {
    if i < i' {
      Multiples(n, i, i');
    } else if i' < i {
      Multiples(n, i', i);
    }
  }
}
