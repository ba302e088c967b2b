/** The longs under a volume: each block of the device as it is laid out, and why reading the blocks gives
    exactly what the objects of the volume hold. */
module DeviceImages {
  import opened Bytes
  import Device
  import BlockCodec
  import VolumeState
  import VolumeLookup
  import VolumeFacts
  import VolumeSteps
  import Volumes

  type Image = map<nat, seq<long>>

  /** Every block of the device, `n` longs each, laid out by its writer. */
  ghost predicate IsImage(image: Image, disk: map<nat, Device.Block>, n: nat) {
    image.Keys == disk.Keys && forall b :: b in disk ==> |image[b]| == n && BlockCodec.Encodes(image[b], disk[b])
  }

  /** A sound device can be laid out in full. */
  method MakeImage(dev: Device.BlockDevice) returns (image: Image)
    requires dev.Sound()
    ensures IsImage(image, dev.blks, dev.g.blockLongs)
  {
    hide BlockCodec.Encodes, Device.Storable, Device.KeyOk;
    image := map[];
    var left := dev.blks.Keys;
    while left != {}
      invariant left <= dev.blks.Keys && image.Keys == dev.blks.Keys - left
      invariant forall b :: b in image ==> |image[b]| == dev.g.blockLongs && BlockCodec.Encodes(image[b], dev.blks[b])
      decreases left
    {
      var b :| b in left;
      var s := BlockCodec.Encode(dev.blks[b], dev.g.blockLongs);
      image := image[b := s];
      left := left - {b};
    }
  }

  /** Reading any block of the image gives the record of the device. */
  lemma ImageDecodes(image: Image, disk: map<nat, Device.Block>, n: nat, b: nat)
    requires IsImage(image, disk, n) && Device.DiskSound(disk, n) && b in disk && n > 56
    ensures b in image && |image[b]| == n && BlockCodec.DecodeAs(disk[b], image[b], b) == BlockCodec.Good(disk[b])
  {
    hide BlockCodec.Encodes, Device.Storable, Device.KeyOk, BlockCodec.DecodeAs;
    assert b in image.Keys;
    BlockCodec.AnyBack(image[b], disk[b], b);
  }

  /** What `open` reads for a node of a volume is the block the node holds, its kind found in the block. */
  lemma NodeDecodes(v: Volumes.Volume, image: Image, id: nat)
    requires v.Valid() && IsImage(image, v.dev.blks, v.dev.g.blockLongs) && id in v.nodes
    ensures id in image && |image[id]| > 56
    ensures id == v.root ==> BlockCodec.DecodeRoot(image[id]) == BlockCodec.Good(v.nodes[id].block)
    ensures id != v.root ==> BlockCodec.DecodeEntry(image[id], id) == BlockCodec.Good(v.nodes[id].block)
  {
    hide VolumeState.Inv, BlockCodec.Encodes, Device.Storable, Device.KeyOk, BlockCodec.DecodeEntry;
    hide BlockCodec.DecodeRoot, BlockCodec.DecodeUserDir, BlockCodec.DecodeFileHeader;
    var s := v.State();
    VolumeSteps.HeaderOwned(v.c, s, v.x, id);
    VolumeFacts.NodeFits(v.c, s, v.x, id);
    ImageDecodes(image, v.dev.blks, v.dev.g.blockLongs, id);
    if id == v.root {
      VolumeLookup.RootPath(v.c, s, v.x);
    } else {
      VolumeFacts.HeaderKind(v.c, s, v.x, id);
      BlockCodec.DirEntryBack(image[id], v.nodes[id].block, id);
    }
  }
}
