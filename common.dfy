/** Small helpers shared by the extractor's modules. */
module Common {

  /** A value that may be missing, as Python's `None` or a dictionary `get` miss. */
  datatype Option<T> = None | Some(value: T)

  /** `s.startswith(p)` on strings. */
  predicate StartsWith(s: string, p: string)
  {
    |p| <= |s| && s[..|p|] == p
  }

  lemma ConcatAssociative(a: string, b: string, c: string)
    ensures (a + b) + c == a + (b + c)
  {
  }

  lemma StartsWithAppend(x: string, y: string)
    ensures StartsWith(x + y, x)
  {
    assert (x + y)[..|x|] == x;
  }
}
