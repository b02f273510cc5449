/** Stepping over one UTF-8 encoded character (section 3 of RFC 3629). */
module Utf8 {
  import opened Bytes

  /**
   * `next_utf8_character`: from position `p`, move at least one byte forward
   * and then past every continuation byte. The C loop relies on the NUL
   * terminator to stop; here `At` yields NUL past the end, so the scan never
   * goes beyond `|t|` unless it started there.
   */
  method NextCharacter(t: Bytes, p: int) returns (q: int)
    ensures p < q
    ensures forall j :: p < j < q ==> IsContinuation(At(t, j))
    ensures !IsContinuation(At(t, q))
    ensures p < |t| ==> q <= |t|
    ensures p >= |t| ==> q == p + 1
  {
    q := p + 1;
    while IsContinuation(At(t, q))
      invariant p < q
      invariant forall j :: p < j < q ==> IsContinuation(At(t, j))
      invariant p < |t| ==> q <= |t|
      invariant p >= |t| ==> q == p + 1
      decreases |t| - q
    {
      q := q + 1;
    }
  }

  /** The contract of `NextCharacter` determines its result. */
  lemma NextCharacterUnique(t: Bytes, p: int, q1: int, q2: int)
    requires p < q1 && (forall j :: p < j < q1 ==> IsContinuation(At(t, j))) && !IsContinuation(At(t, q1))
    requires p < q2 && (forall j :: p < j < q2 ==> IsContinuation(At(t, j))) && !IsContinuation(At(t, q2))
    ensures q1 == q2
  {
  }
}
