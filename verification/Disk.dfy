/**
The block device under the environment: 512-byte sectors, two fixed regions of 128 sectors, and
writes of which any subset of sectors can reach the medium.
*/
module Disk {
  import opened Bytes
  import opened Environment

  const SECTOR_SIZE := 512
  const ENV_BLOCKS := 128

  type Sector = s: seq<Byte> | |s| == SECTOR_SIZE witness Zeros(SECTOR_SIZE)

  type Medium = seq<Sector>

  /** Where a board keeps the two copies, and whether its device has a volatile write cache. */
  datatype Board = Board(first: nat, second: nat, cached: bool) {
    function Base(slot: int): (b: nat)
      requires slot == 0 || slot == 1
    {
      if slot == 0 then first else second
    }

    /** The two regions are disjoint and lie on the medium. */
    predicate Fits(medium: Medium) {
      && first + ENV_BLOCKS <= |medium| && second + ENV_BLOCKS <= |medium|
      && (first + ENV_BLOCKS <= second || second + ENV_BLOCKS <= first)
    }
  }

  /** eMMC behind a write cache, flushed after the write. */
  const CX3576 := Board(32768, 34816, true)

  /** SD, whose writes complete synchronously. */
  const S905X5M := Board(245760, 253952, false)

  /** The bytes of the copy that starts at a block. */
  function CopyAt(medium: Medium, base: nat): (copy: Copy)
    requires base + ENV_BLOCKS <= |medium|
  {
    seq(ENV_SIZE, k requires 0 <= k < ENV_SIZE => medium[base + k / SECTOR_SIZE][k % SECTOR_SIZE])
  }

  function SectorOf(copy: Copy, i: int): (s: Sector)
    requires 0 <= i < ENV_BLOCKS
  {
    copy[SECTOR_SIZE * i..SECTOR_SIZE * i + SECTOR_SIZE]
  }

  /** The medium after a write of which exactly these sectors arrived. */
  function Landed(medium: Medium, base: nat, copy: Copy, which: set<int>): (after: Medium)
    requires base + ENV_BLOCKS <= |medium|
    ensures |after| == |medium|
    ensures forall i :: 0 <= i < |medium| && !(base <= i < base + ENV_BLOCKS) ==> after[i] == medium[i]
  {
    seq<Sector>(|medium|, i requires 0 <= i < |medium| => SectorAfter(medium, base, copy, which, i))
  }

  function SectorAfter(medium: Medium, base: nat, copy: Copy, which: set<int>, i: int): (s: Sector)
    requires base + ENV_BLOCKS <= |medium| && 0 <= i < |medium|
  {
    if base <= i < base + ENV_BLOCKS && i - base in which then SectorOf(copy, i - base) else medium[i]
  }

  /** Where each byte of a copy is: 128 sectors of 512 bytes, in order. */
  lemma CopyBytes(medium: Medium, base: nat, i: nat, j: nat)
    requires base + 128 <= |medium| && i < 128 && j < 512
    ensures CopyAt(medium, base)[512 * i + j] == medium[base + i][j]
  {
  }

  /** What a partly written region holds, sector by sector. */
  lemma LandedSectors(medium: Medium, base: nat, copy: Copy, which: set<int>, i: nat)
    requires base + 128 <= |medium| && i < 128
    ensures Landed(medium, base, copy, which)[base + i]
         == if i in which then copy[512 * i..512 * i + 512] else medium[base + i]
  {
  }

  /** The blocks of both boards' regions. */
  lemma BoardBlocks(medium: Medium, k: nat)
    requires k < 65536
    ensures |medium| >= 34944 ==>
      && CX3576.Fits(medium) && CX3576.cached
      && CopyAt(medium, CX3576.Base(0))[k] == medium[32768 + k / 512][k % 512]
      && CopyAt(medium, CX3576.Base(1))[k] == medium[34816 + k / 512][k % 512]
    ensures |medium| >= 254080 ==>
      && S905X5M.Fits(medium) && !S905X5M.cached
      && CopyAt(medium, S905X5M.Base(0))[k] == medium[245760 + k / 512][k % 512]
      && CopyAt(medium, S905X5M.Base(1))[k] == medium[253952 + k / 512][k % 512]
  {
  }

  /** Each byte of a partly written copy is the new one or the old one, as its sector arrived or not. */
  lemma LandedByte(medium: Medium, base: nat, copy: Copy, which: set<int>, k: nat)
    requires base + ENV_BLOCKS <= |medium| && k < ENV_SIZE
    ensures CopyAt(Landed(medium, base, copy, which), base)[k] ==
            if k / SECTOR_SIZE in which then copy[k] else CopyAt(medium, base)[k]
  {
  }

  /** Once every sector arrived, the copy reads back as written. */
  lemma LandedAll(medium: Medium, base: nat, copy: Copy, which: set<int>)
    requires base + ENV_BLOCKS <= |medium|
    requires forall i :: 0 <= i < ENV_BLOCKS ==> i in which
    ensures CopyAt(Landed(medium, base, copy, which), base) == copy
  {
  }

  /** Between two copies that are zero past their first sector, that sector alone decides: the write is atomic. */
  lemma TornCopy(medium: Medium, base: nat, copy: Copy, which: set<int>)
    requires base + ENV_BLOCKS <= |medium|
    requires Tidy(CopyAt(medium, base)) && Tidy(copy)
    ensures CopyAt(Landed(medium, base, copy, which), base) == if 0 in which then copy else CopyAt(medium, base)
  {
    var before, after := CopyAt(medium, base), CopyAt(Landed(medium, base, copy, which), base);
    forall k | 0 <= k < ENV_SIZE
      ensures after[k] == if 0 in which then copy[k] else before[k]
    {
      LandedByte(medium, base, copy, which, k);
      if k >= SECTOR_SIZE {
        assert copy[k] == copy[512..][k - 512] == 0;
        assert before[k] == before[512..][k - 512] == 0;
      }
    }
  }

  /** The other region keeps its bytes. */
  lemma LandedElsewhere(board: Board, medium: Medium, slot: int, copy: Copy, which: set<int>)
    requires board.Fits(medium) && (slot == 0 || slot == 1)
    ensures CopyAt(Landed(medium, board.Base(1 - slot), copy, which), board.Base(slot))
         == CopyAt(medium, board.Base(slot))
  {
  }
}
