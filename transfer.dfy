/** Transfer of the missing commits (`transfer_commits`): each commit is
    exported as a numbered patch and that patch is cleaned up for the
    destination repository. The export (`git format-patch`) is a parameter:
    given a hash and a patch number it yields the lines of the written
    patch file, or `None` where the git call fails and the script stops. */
module Transfer {
  import opened ByteStrings
  import opened Patches

  /** The accepted and the replacing prefix for one direction: towards the
      standalone repository the Blender paths "intern/cycles" become "src",
      towards Blender the reverse. */
  function PrefixesFor(dstIsCycles: bool): (r: (Bytes, Bytes))
    ensures RelativePrefix(r.0) && RelativePrefix(r.1)
  {
    if dstIsCycles then ("intern/cycles", "src") else ("src", "intern/cycles")
  }

  /** The two directions are mirror images of each other. */
  lemma DirectionsMirror()
    ensures PrefixesFor(true).0 == PrefixesFor(false).1
    ensures PrefixesFor(true).1 == PrefixesFor(false).0
  {
  }

  /** A path token moved to the other repository and back is unchanged. */
  lemma TokenRoundTrip(t: Bytes, dstIsCycles: bool)
    requires var (accept, _) := PrefixesFor(dstIsCycles); "a/" + accept <= t || "b/" + accept <= t
    ensures var (accept, replace) := PrefixesFor(dstIsCycles);
      var back := PrefixesFor(!dstIsCycles);
      back == (replace, accept) &&
      RewriteToken(RewriteToken(t, accept, replace), back.0, back.1) == t
  {
    var (accept, replace) := PrefixesFor(dstIsCycles);
    RewriteTokenRoundTrip(t, accept, replace);
  }

  /** A patch file written to the destination repository. */
  datatype PatchFile = PatchFile(number: nat, hash: Bytes, lines: seq<Bytes>)

  /** The patch the script leaves for the `i`-th hash (numbered from 1). */
  function Exported(hash: Bytes, number: nat, exported: seq<Bytes>, dstIsCycles: bool): PatchFile {
    var (accept, replace) := PrefixesFor(dstIsCycles);
    PatchFile(number, hash, Cleanup(exported, accept, replace))
  }

  /** The patches written for `hashes` and whether a git call failed. The
      loop stops at the first failure, so exactly the patches before it
      exist, numbered 1, 2, ... in the order of `hashes`. */
  function Transferred(hashes: seq<Bytes>, dstIsCycles: bool, formatPatch: (Bytes, nat) -> Option<seq<Bytes>>): (r: (seq<PatchFile>, bool))
    ensures |r.0| <= |hashes|
    ensures r.1 <==> |r.0| < |hashes|
    ensures r.1 ==> formatPatch(hashes[|r.0|], |r.0| + 1).None?
    ensures forall i :: 0 <= i < |r.0| ==>
      && formatPatch(hashes[i], i + 1).Some?
      && r.0[i] == Exported(hashes[i], i + 1, formatPatch(hashes[i], i + 1).value, dstIsCycles)
  {
    if hashes == [] then ([], false)
    else
      var n := |hashes| - 1;
      var (written, failed) := Transferred(hashes[..n], dstIsCycles, formatPatch);
      if failed then (written, true)
      else match formatPatch(hashes[n], n + 1)
        case None => (written, true)
        case Some(exported) => (written + [Exported(hashes[n], n + 1, exported, dstIsCycles)], false)
  }

  /** Nothing is written after a failure: the patches of a longer list of
      hashes extend those of a shorter one only while no call failed. */
  lemma {:induction false} TransferredPrefix(hashes: seq<Bytes>, k: nat, dstIsCycles: bool, formatPatch: (Bytes, nat) -> Option<seq<Bytes>>)
    requires k <= |hashes|
    ensures var (short, failedShort) := Transferred(hashes[..k], dstIsCycles, formatPatch);
      var (long, _) := Transferred(hashes, dstIsCycles, formatPatch);
      && short <= long
      && (failedShort ==> long == short)
    decreases |hashes| - k
  {
    if k < |hashes| {
      TransferredPrefix(hashes, k + 1, dstIsCycles, formatPatch);
      assert hashes[..k + 1][..k] == hashes[..k];
    } else {
      assert hashes[..k] == hashes;
    }
  }

  /** One more hash after a run without failure: its export either fails
      or adds one patch with the next number. */
  lemma TransferredSnoc(hashes: seq<Bytes>, i: nat, dstIsCycles: bool, formatPatch: (Bytes, nat) -> Option<seq<Bytes>>)
    requires i < |hashes| && !Transferred(hashes[..i], dstIsCycles, formatPatch).1
    ensures var written := Transferred(hashes[..i], dstIsCycles, formatPatch).0;
      Transferred(hashes[..i + 1], dstIsCycles, formatPatch) ==
        match formatPatch(hashes[i], i + 1)
        case None => (written, true)
        case Some(exported) => (written + [Exported(hashes[i], i + 1, exported, dstIsCycles)], false)
  {
    assert hashes[..i + 1][..i] == hashes[..i];
  }

  /** `transfer_commits`: export each hash with the next patch number and
      clean the patch up for the destination; a failing export ends the run. */
  method TransferCommits(hashes: seq<Bytes>, dstIsCycles: bool, formatPatch: (Bytes, nat) -> Option<seq<Bytes>>)
    returns (written: seq<PatchFile>, failed: bool)
    ensures (written, failed) == Transferred(hashes, dstIsCycles, formatPatch)
  {
    written := [];
    failed := false;
    var patchIndex := 1;
    for i := 0 to |hashes|
      invariant (written, false) == Transferred(hashes[..i], dstIsCycles, formatPatch)
      invariant patchIndex == i + 1
    {
      TransferredSnoc(hashes, i, dstIsCycles, formatPatch);
      var exported := formatPatch(hashes[i], patchIndex);
      if exported.None? {
        failed := true;
        TransferredPrefix(hashes, i + 1, dstIsCycles, formatPatch);
        return;
      }
      var lines: seq<Bytes>;
      if dstIsCycles {
        lines := CleanupPatch(exported.value, "intern/cycles", "src");
      } else {
        lines := CleanupPatch(exported.value, "src", "intern/cycles");
      }
      written := written + [PatchFile(patchIndex, hashes[i], lines)];
      patchIndex := patchIndex + 1;
    }
    assert hashes[..|hashes|] == hashes;
  }
}
