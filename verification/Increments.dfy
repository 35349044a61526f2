/** Which part of a file is new: the detector that remembers a length and a checksum, against the one that
    remembers the whole last snapshot. */
module Increments {
  import opened Crc

  function CrcOf(s: Bytes): bv32 {
    Wide(Checksum(s))
  }

  // What getNewObsPart hands over.
  function NewPart(offset: int, crc: bv32, obs: Bytes): Bytes {
    if 0 < offset <= |obs| && CrcOf(obs[..offset]) == crc then obs[offset..] else obs
  }

  // What it should: whatever was appended to the last snapshot, or all of a file that is not an extension of it.
  function AppendedPart(last: Bytes, obs: Bytes): Bytes {
    if last <= obs then obs[|last|..] else obs
  }

  // Two different beginnings of the same length with one checksum.
  predicate Collision(last: Bytes, obs: Bytes) {
    |last| <= |obs| && obs[..|last|] != last && Checksum(obs[..|last|]) == Checksum(last)
  }

  lemma WideInjective(a: bv16, b: bv16)
    requires Wide(a) == Wide(b)
    ensures a == b
  {
  }

  // One step: the two detectors agree exactly when there is no collision.
  lemma PartsAgree(last: Bytes, obs: Bytes)
    ensures NewPart(|last|, CrcOf(last), obs) == AppendedPart(last, obs) <==> !Collision(last, obs)
  {
    hide Checksum, Wide;
    if |last| <= |obs| {
      var head := obs[..|last|];
      assert last <= obs <==> head == last;
      if CrcOf(head) == CrcOf(last) {
        WideInjective(Checksum(head), Checksum(last));
      }
      if last == [] {
        assert obs[0..] == obs;
      } else {
        assert |obs[|last|..]| != |obs|;
      }
    }
  }

  // ----- Whole histories -----

  function Parts(offset: int, crc: bv32, snapshots: seq<Bytes>): seq<Bytes>
    decreases snapshots
  {
    if snapshots == [] then [] else
      [NewPart(offset, crc, snapshots[0])] + Parts(|snapshots[0]|, CrcOf(snapshots[0]), snapshots[1..])
  }

  function AppendedParts(last: Bytes, snapshots: seq<Bytes>): seq<Bytes>
    decreases snapshots
  {
    if snapshots == [] then [] else
      [AppendedPart(last, snapshots[0])] + AppendedParts(snapshots[0], snapshots[1..])
  }

  predicate CollisionFree(last: Bytes, snapshots: seq<Bytes>)
    decreases snapshots
  {
    snapshots == [] || (!Collision(last, snapshots[0]) && CollisionFree(snapshots[0], snapshots[1..]))
  }

  // Over any sequence of appended, overwritten or truncated snapshots both detectors hand over the same
  // parts exactly when no snapshot collides with the one before it.
  lemma {:induction false} DetectorsAgree(last: Bytes, snapshots: seq<Bytes>)
    ensures Parts(|last|, CrcOf(last), snapshots) == AppendedParts(last, snapshots) <==> CollisionFree(last, snapshots)
    decreases snapshots
  {
    hide NewPart, AppendedPart, Collision, CrcOf;
    if snapshots != [] {
      var s, rest := snapshots[0], snapshots[1..];
      PartsAgree(last, s);
      DetectorsAgree(s, rest);
      var fast, slow := Parts(|last|, CrcOf(last), snapshots), AppendedParts(last, snapshots);
      assert fast[0] == NewPart(|last|, CrcOf(last), s) && fast[1..] == Parts(|s|, CrcOf(s), rest);
      assert slow[0] == AppendedPart(last, s) && slow[1..] == AppendedParts(s, rest);
    }
  }

  // Appending, truncating, overwriting within two adjacent bytes and flipping an odd number of bits never
  // collide.
  lemma NoCollision(last: Bytes, obs: Bytes)
    requires
      || last <= obs
      || |obs| < |last|
      || (exists k: nat :: WithinTwoBytes(last, obs, k))
      || OddBits(Diff(Bits(obs[..|last|]), Bits(last)))
    ensures !Collision(last, obs)
  {
    if |last| <= |obs| && obs[..|last|] != last {
      var head := obs[..|last|];
      if k: nat :| WithinTwoBytes(last, obs, k) {
        TwoByteOverwriteDetected(head, last, k);
      } else {
        OddOverwriteDetected(head, last);
      }
    }
  }

  predicate WithinTwoBytes(last: Bytes, obs: Bytes, k: nat) {
    |last| <= |obs| && forall j: nat | j < |last| && obs[j] != last[j] :: k <= j <= k + 1
  }

  // ----- Append-only files -----

  function Concat(parts: seq<Bytes>): Bytes {
    if parts == [] then [] else parts[0] + Concat(parts[1..])
  }

  predicate Growing(last: Bytes, snapshots: seq<Bytes>)
    decreases snapshots
  {
    snapshots == [] || (last <= snapshots[0] && Growing(snapshots[0], snapshots[1..]))
  }

  lemma Regroup(a: Bytes, b: Bytes, c: Bytes)
    ensures a + (b + c) == (a + b) + c
  {
  }

  // Of a file that only grows, the parts put together are what came after the first snapshot: no byte
  // twice, none left out.
  lemma {:induction false} GrowingOnce(last: Bytes, snapshots: seq<Bytes>)
    requires Growing(last, snapshots)
    ensures last + Concat(Parts(|last|, CrcOf(last), snapshots)) ==
            if snapshots == [] then last else snapshots[|snapshots| - 1]
    decreases snapshots
  {
    hide NewPart, CrcOf;
    if snapshots != [] {
      var s := snapshots[0];
      NoCollision(last, s);
      PartsAgree(last, s);
      var part := AppendedPart(last, s);
      assert last + part == s;
      GrowingOnce(s, snapshots[1..]);
      var parts := Parts(|last|, CrcOf(last), snapshots);
      assert parts[0] == part && parts[1..] == Parts(|s|, CrcOf(s), snapshots[1..]);
      Regroup(last, part, Concat(parts[1..]));
    }
  }
}
