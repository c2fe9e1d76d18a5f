/** Copying into slices of byte arrays. */
module Slices {
  import opened Bits

  /** `dst[at..][..s.len()].copy_from_slice(s)`. */
  method CopyFromSlice(dst: array<u8>, at: nat, s: bytes)
    requires at + |s| <= dst.Length
    modifies dst
    ensures dst[..at] == old(dst[..at])
    ensures dst[at..at + |s|] == s
    ensures dst[at + |s|..] == old(dst[at + |s|..])
  {
    for i := 0 to |s|
      invariant dst[..at] == old(dst[..at])
      invariant dst[at..at + i] == s[..i]
      invariant dst[at + |s|..] == old(dst[at + |s|..])
    {
      dst[at + i] := s[i];
    }
  }

  /** A write to `[at, to)` leaves the slices around it alone. */
  lemma Untouched(before: bytes, after: bytes, at: nat, to: nat, lo: nat, end: nat)
    requires |before| == |after| && lo <= at <= to <= end <= |before|
    requires after[..at] == before[..at] && after[to..] == before[to..]
    ensures after[..lo] == before[..lo] && after[end..] == before[end..] && after[lo..at] == before[lo..at]
    ensures after[lo..to] == before[lo..at] + after[at..to]
  {
    assert after[..lo] == after[..at][..lo];
    assert after[lo..at] == after[..at][lo..];
    assert after[end..] == after[to..][end - to..];
  }

  /** Appending at `at` to the data that starts at `start`. */
  lemma AppendOutput(before: bytes, after: bytes, start: nat, at: nat, added: bytes)
    requires |before| == |after| && start <= at && at + |added| <= |after|
    requires after[..at] == before[..at] && after[at..at + |added|] == added
    ensures after[..start] == before[..start]
    ensures after[start..at + |added|] == before[start..at] + added
  {
    assert after[..start] == after[..at][..start];
    assert after[start..at] == after[..at][start..];
  }
}
