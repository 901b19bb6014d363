/** The buffer writes of xml.c: `memcpy` into a freshly allocated `char` buffer. */
module Memory {

  /**
   * `memcpy(r + at, src, |src|)`: writes `src` at offset `at` and leaves every
   * other cell of `r` as it was.  Writing past the end of `r` is ruled out by
   * the precondition, so every caller has to prove its write index in bounds.
   */
  method Copy(r: array<char>, at: nat, src: string)
    requires at + |src| <= r.Length
    modifies r
    ensures r[..at + |src|] == old(r[..at]) + src
    ensures forall k :: at + |src| <= k < r.Length ==> r[k] == old(r[k])
  {
    var i := 0;
    while i < |src|
      invariant 0 <= i <= |src|
      invariant r[..at] == old(r[..at])
      invariant r[at..at + i] == src[..i]
      invariant forall k :: at + |src| <= k < r.Length ==> r[k] == old(r[k])
    {
      r[at + i] := src[i];
      i := i + 1;
    }
    assert r[..at + |src|] == r[..at] + r[at..at + |src|];
  }

  /** `r[at] = c`, the single-character store written `r[ri++] = c` in the source. */
  method Store(r: array<char>, at: nat, c: char)
    requires at < r.Length
    modifies r
    ensures r[..at + 1] == old(r[..at]) + [c]
    ensures forall k :: at + 1 <= k < r.Length ==> r[k] == old(r[k])
  {
    r[at] := c;
    assert r[..at + 1] == r[..at] + [c];
  }

  /** Concatenation is associative; the buffer proofs regroup what they have written with it. */
  lemma Assoc<T>(p: seq<T>, a: seq<T>, b: seq<T>)
    ensures (p + a) + b == p + (a + b)
  {
  }
}
