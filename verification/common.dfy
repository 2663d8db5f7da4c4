/** What several modules share. */
module Common {

  /** A value that may be missing. */
  datatype Option<T> = None | Some(value: T)

  lemma TimesAtLeast(a: nat, n: nat)
    requires a > 0
    ensures a * n >= n
  {
    assert a * n == (a - 1) * n + n;
  }
}
