/** update_flash.c: DoMtdUpdate over all partitions of a command line. */
module UpdateRun {
  import opened Checksum
  import opened MtdLayout
  import opened UpdateFlash

  /** No partition is named twice. */
  ghost predicate Distinct(parts: seq<MtdPartition>) {
    forall i, j :: 0 <= i < j < |parts| ==> parts[i] != parts[j] && parts[i].dev.flash != parts[j].dev.flash
  }

  /** The loop over MtdPartCopyFile or MtdPartVerifyFile. */
  method PrepareAll(parts: seq<MtdPartition>, files: seq<seq<byte>>, hasChecksum: bool, useTmp: bool, noTypeCheck: bool)
    returns (ok: bool, images: seq<seq<byte>>)
    requires |parts| == |files| && Distinct(parts)
    requires forall i :: 0 <= i < |parts| ==> parts[i].Parsed(files[i], hasChecksum)
    modifies parts
    ensures ok <==> (hasChecksum ==> forall i :: 0 <= i < |parts| ==> old(parts[i].uiCRC32) == Crc(0, files[i]))
    ensures ok ==> images == files && forall i :: 0 <= i < |parts| ==> parts[i].Due(files[i], hasChecksum)
  {
    hide *;
    DistinctParts(parts);
    images := [];
    var i := 0;
    while i < |parts|
      invariant 0 <= i <= |parts| && images == files[..i]
      invariant forall k :: 0 <= k < i ==> parts[k].Due(files[k], hasChecksum)
      invariant forall k :: 0 <= k < i ==> (hasChecksum ==> old(parts[k].uiCRC32) == Crc(0, files[k]))
      invariant forall k :: i <= k < |parts| ==> parts[k].Parsed(files[k], hasChecksum) && parts[k].uiCRC32 == old(parts[k].uiCRC32)
    {
      var image;
      ok, image := parts[i].Prepare(files[i], hasChecksum, useTmp, noTypeCheck);
      if !ok { return; }
      images := images + [image];
      i := i + 1;
    }
    ok := true;
  }

  lemma DistinctParts(parts: seq<MtdPartition>)
    requires Distinct(parts)
    ensures forall i, j :: 0 <= i < j < |parts| ==> parts[i] != parts[j]
  {}

  /** The partition reads back as its file, and bad blocks and blocks without file bytes (unless
      all are erased) hold what they held. */
  ghost predicate Stored(part: MtdPartition, file: seq<byte>, c: seq<byte>)
    reads part, part.dev.flash
  {
    && part.Ready() && file <= part.Good() && part.uiCRC32 == Crc(0, file) && part.dev.flash.Length == |c|
    && forall x :: 0 <= x < |c| ==>
      (part.dev.layout.GoodAt(x) && (part.cEraseAll || part.dev.layout.Logical(part.dev.layout.BlockBase(x)) < |file|))
      || part.dev.flash[x] == c[x]
  }

  /** DoMtdUpdate. All files are checked before the first partition is erased: a wrong checksum
      of any file leaves every partition as it was. Otherwise all of them are written. */
  method DoMtdUpdate(parts: seq<MtdPartition>, files: seq<seq<byte>>, hasChecksum: bool, useTmp: bool, noTypeCheck: bool, verify: bool)
    returns (ok: bool)
    requires |parts| == |files| && Distinct(parts)
    requires forall i :: 0 <= i < |parts| ==> parts[i].Parsed(files[i], hasChecksum)
    modifies parts, set i | 0 <= i < |parts| :: parts[i].dev.flash
    ensures ok <==> (hasChecksum ==> forall i :: 0 <= i < |parts| ==> old(parts[i].uiCRC32) == Crc(0, files[i]))
    ensures !ok ==> forall i :: 0 <= i < |parts| ==> parts[i].dev.flash[..] == old(parts[i].dev.flash[..])
    ensures ok ==> forall i :: 0 <= i < |parts| ==> parts[i].Done(files[i], old(parts[i].dev.flash[..]))
    ensures ok ==> forall i :: 0 <= i < |parts| ==> parts[i].Ready() && files[i] <= parts[i].Good()
    ensures ok ==> forall i :: 0 <= i < |parts| ==> Stored(parts[i], files[i], old(parts[i].dev.flash[..]))
  {
    hide Crc, MtdPartition.Parsed, MtdPartition.Due, MtdPartition.Done;
    var images;
    ok, images := PrepareAll(parts, files, hasChecksum, useTmp, noTypeCheck);
    if !ok { return; }
    var i := 0;
    while i < |parts|
      invariant 0 <= i <= |parts|
      invariant forall k :: 0 <= k < i ==> parts[k].Done(files[k], old(parts[k].dev.flash[..]))
      invariant forall k :: i <= k < |parts| ==> parts[k].Due(files[k], hasChecksum)
      invariant forall k :: i <= k < |parts| ==> parts[k].dev.flash[..] == old(parts[k].dev.flash[..])
    {
      ok := parts[i].Flash(images[i], hasChecksum, verify);
      i := i + 1;
    }
    forall k | 0 <= k < |parts|
      ensures Stored(parts[k], files[k], old(parts[k].dev.flash[..]))
    {
      parts[k].DoneMeans(files[k], old(parts[k].dev.flash[..]));
    }
    ok := true;
  }
}
