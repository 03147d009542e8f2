/** UTF-8 text as bytes: characters of one to four bytes (section 3 of RFC 3629), and where
    a string may be cut. */
module Utf8 {

  newtype Byte = b: int | 0 <= b < 0x100
  type Bytes = seq<Byte>

  predicate Continuation(b: Byte) {
    0x80 <= b < 0xC0
  }

  /** Length of the character a leading byte opens. */
  function Width(lead: Byte): (w: nat)
    ensures 1 <= w <= 4
  {
    if lead < 0x80 then 1 else if lead < 0xE0 then 2 else if lead < 0xF0 then 3 else 4
  }

  /** `str::is_char_boundary`. */
  predicate Boundary(s: Bytes, i: nat) {
    i == 0 || i == |s| || (i < |s| && !Continuation(s[i]))
  }

  /** A whole character stands at `i`, and a boundary follows it. */
  ghost predicate CharAt(s: Bytes, i: nat)
    requires i < |s|
  {
    var w := Width(s[i]);
    && i + w <= |s|
    && (forall k | i < k < i + w :: Continuation(s[k]))
    && Boundary(s, i + w)
  }

  /** A sequence of whole characters. */
  ghost predicate Valid(s: Bytes) {
    && (s != [] ==> !Continuation(s[0]))
    && forall i {:trigger CharAt(s, i)} | 0 <= i < |s| && !Continuation(s[i]) :: CharAt(s, i)
  }

  predicate OccursAt(s: Bytes, sep: Bytes, i: nat) {
    i + |sep| <= |s| && forall k | 0 <= k < |sep| :: s[i + k] == sep[k]
  }

  /** Boundaries of `sep` are boundaries of the text it occurs in. */
  lemma {:induction false} BoundaryInOccurrence(s: Bytes, sep: Bytes, i: nat, k: nat)
    requires Valid(s) && Valid(sep) && sep != [] && OccursAt(s, sep, i)
    requires k <= |sep| && Boundary(sep, k)
    ensures Boundary(s, i + k)
    decreases k
  {
    if k == 0 {
      assert s[i + 0] == sep[0];
    } else if k < |sep| {
      assert s[i + k] == sep[k];
    } else {
      var j := LastCharOf(sep);
      BoundaryInOccurrence(s, sep, i, j);
      assert s[i + j] == sep[j];
      assert CharAt(s, i + j) && CharAt(sep, j);
    }
  }

  /** Where the last character of a valid text starts. */
  lemma {:induction false} LastCharOf(s: Bytes) returns (j: nat)
    requires Valid(s) && s != []
    ensures j < |s| && !Continuation(s[j]) && j + Width(s[j]) == |s|
  {
    j := 0;
    while j + Width(s[j]) < |s|
      invariant j < |s| && !Continuation(s[j])
      decreases |s| - j
    {
      assert CharAt(s, j);
      j := j + Width(s[j]);
    }
    assert CharAt(s, j);
  }

  /** The greatest boundary at or below `idx`. */
  function PrevBoundary(s: Bytes, idx: nat): (b: nat)
    ensures b <= idx && Boundary(s, b)
  {
    if idx == 0 || Boundary(s, idx) then idx else PrevBoundary(s, idx - 1)
  }

  lemma {:induction false} PrevBoundaryIsGreatest(s: Bytes, idx: nat, b: nat)
    requires b <= idx && Boundary(s, b)
    ensures b <= PrevBoundary(s, idx)
  {
    if !(idx == 0 || Boundary(s, idx)) {
      PrevBoundaryIsGreatest(s, idx - 1, b);
    }
  }

  /** `prev_char_boundary`. */
  method PrevCharBoundary(s: Bytes, idx0: nat) returns (idx: nat)
    ensures idx == PrevBoundary(s, idx0)
  {
    idx := idx0;
    while idx > 0 && !Boundary(s, idx)
      invariant PrevBoundary(s, idx) == PrevBoundary(s, idx0)
    {
      idx := idx - 1;
    }
  }
}
