/** The opened device and its block arithmetic. */
module BlockDevice {
  import opened Bytes

  const PAGE := 4096

  datatype RawDevice = Device(bytes: seq<Byte>, blockSize: nat)

  /** The opened device; its block size is one of the four that Device::open accepts. */
  type Device = d: RawDevice | d.blockSize == 512 || d.blockSize == 1024 || d.blockSize == 2048 || d.blockSize == 4096
    witness Device([], 4096)

  /** block << log2blocksize, before any overflow. */
  function Scaled(dev: Device, block: int): int {
    if dev.blockSize == 512 then block * 512
    else if dev.blockSize == 1024 then block * 1024
    else if dev.blockSize == 2048 then block * 2048
    else block * 4096
  }

  function InBlocks(dev: Device, n: nat): nat {
    if dev.blockSize == 512 then n / 512
    else if dev.blockSize == 1024 then n / 1024
    else if dev.blockSize == 2048 then n / 2048
    else n / 4096
  }

  /** Shifting by log2blocksize multiplies and divides by the block size. */
  lemma InBytes(dev: Device, n: nat)
    ensures Scaled(dev, n) == n * dev.blockSize && InBlocks(dev, n) == n / dev.blockSize
  {
    if dev.blockSize == 512 {
    } else if dev.blockSize == 1024 {
    } else if dev.blockSize == 2048 {
    }
  }

  /** Device::get_size_blocks. */
  function SizeBlocks(dev: Device): nat {
    InBlocks(dev, |dev.bytes|)
  }

  /** A page read at this offset is read in full. */
  predicate Whole(dev: Device, offset: int) {
    0 <= offset && offset + PAGE <= |dev.bytes|
  }
}
