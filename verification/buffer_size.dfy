/** How the variants choose their transfer-buffer size. */
module BufferSize {
  import opened Bits

  /** The buffer size mycat5.c uses, whatever the page and block sizes. */
  const TunedSize: nat := 32768
  /** The buffer size mycat6.c uses, whatever the page and block sizes. */
  const AdvisedSize: nat := 65536

  /** The `MAX` macro of mycat4.c. */
  function Max(a: nat, b: nat): nat {
    if a > b then a else b
  }

  /** mycat4.c's buffer size: the larger of the page size and the file
      system's block size, rounded up to a whole number of pages. */
  function BlockAlignedSize(page: nat, blksize: nat): (size: nat)
    requires page > 0
    ensures size % page == 0
    ensures size >= page && size >= blksize
    ensures size < Max(page, blksize) + page
    ensures Max(page, blksize) % page == 0 ==> size == Max(page, blksize)
  {
    var base := Max(page, blksize);
    if base % page != 0 then
      var rounded := (base / page + 1) * page;
      assert base == page * (base / page) + base % page;
      DivModUnique(rounded, page, base / page + 1, 0);
      rounded
    else
      base
  }

  /** No smaller multiple of the page size covers both the page size and the
      block size: the rounding goes up to the nearest page boundary. */
  lemma BlockAlignedSizeIsLeast(page: nat, blksize: nat, k: nat)
    requires page > 0
    requires k * page >= page && k * page >= blksize
    ensures BlockAlignedSize(page, blksize) <= k * page
  {
    var base := Max(page, blksize);
    if base % page != 0 {
      var q := base / page;
      assert base == page * q + base % page;
      if k <= q {
        MulMonotone(page, k, q);
        assert false;
      }
      MulMonotone(page, q + 1, k);
    }
  }

  /** Rounding an already rounded size changes nothing. */
  lemma BlockAlignedSizeIdempotent(page: nat, blksize: nat)
    requires page > 0
    ensures var size := BlockAlignedSize(page, blksize);
      BlockAlignedSize(page, size) == size
  {
  }
}
