# mycat in Dafny

A model of six versions of a single-file `cat`: `mycat1` to `mycat6` open the
file named by their one argument, copy it to standard output through a
read/write loop, and exit with status 0, or with failure at the first error.
They differ in the transfer buffer:

- mycat1 reads and writes one byte at a time;
- mycat2 reads one page at a time into a plain `malloc` buffer;
- mycat3 does the same into a page-aligned buffer from `align_alloc`;
- mycat4 sizes the aligned buffer as the larger of the page size and the file
  system's block size, rounded up to whole pages;
- mycat5 and mycat6 use fixed 32 KiB and 64 KiB aligned buffers, and mycat6
  first hints sequential access with `posix_fadvise`.

The model has three parts.

- **Aligned allocation** (`bits.dfy`, `aligned_alloc.dfy`). `align_alloc`
  asks `malloc` for `size + page_size` bytes. It computes
  `(orig + page_size) & ~(page_size - 1)` on 64-bit addresses. It stores the
  original pointer in the word just below the aligned address. `align_free`
  reads that word back and frees it. Addresses are naturals below 2^64 and
  `&` is a bit-by-bit AND on naturals. The memory words the allocator writes
  are a map from address to stored pointer. The four copies of these two
  functions (mycat3.c:11-59, mycat4.c:16-64, mycat5.c:12-47,
  mycat6.c:16-63) are identical. They are modelled once, and the table cites
  the mycat4.c copy.
- **Buffer sizing** (`buffer_size.dfy`): the mycat4 rounding and the
  constants of mycat5 and mycat6.
- **The transfer loop and the programs** (`syscalls.dfy`, `transfer.dfy`,
  `mycat1.dfy` … `mycat6.dfy`). Everything outside the program is a `World`
  value:
  - the argument count and the file's bytes;
  - whether `open` succeeds;
  - the two `sysconf(_SC_PAGESIZE)` answers, one in `main` and one inside
    `align_alloc`;
  - the `fstat` block size and the block `malloc` returns;
  - the replies to the i-th `read` and the i-th `write`.

  A `read` reply delivers between 1 and `min(limit, remaining)` bytes, 0 at
  end of file, or -1. A `write` reply takes up to the number of bytes
  offered, or returns -1. A run is an exit status plus the trace of calls it
  made: open, advise, malloc, read, write, free, close. Standard output is
  the concatenation of what each write accepted.

In mycat1 a failed `read` ends the loop just as end of file does, and the
program returns 0. mycat2 to mycat6 treat a failed `read` as fatal
(mycat2.c:47-52) and exit with failure. The model follows each program's code.
`Mycat1.ReadErrorTruncatesOutput` shows a mycat1 run that exits with status 0
and prints nothing of a one-byte file.

In mycat3 to mycat6, only `align_alloc` falls back to a 4096-byte page when
`sysconf` fails. When `main`'s own `sysconf` fails, the program closes the
file and exits with failure. The model keeps both behaviours.

## Model

| member | source | states |
|---|---|---|
| `Bits.AndClearsLowBits` | mycat4.c:35 | ANDing a value below 2^n with the mask whose bits k..n-1 are set rounds it down to a multiple of 2^k. So `&= ~(page_size - 1)` on a 64-bit address subtracts `addr % page_size`. |
| `Bits.MaskRoundsDown` | mycat4.c:35 | For any power of two `p` that fits in n bits, ANDing an n-bit value with `2^n - p` rounds it down to a multiple of `p`. |
| `Bits.Log2` | mycat4.c:35 | Every power-of-two page size is 2^k for a k that `AndClearsLowBits` can use. |
| `AlignedAlloc.MaskedAddressRoundsDown` | mycat4.c:33-35 | On 64-bit addresses, `(orig + page) & ~(page - 1)` equals `orig + page` minus its offset within the page. |
| `AlignedAlloc.MaskedAddressBounds` | mycat4.c:33-35 | For a power-of-two page, `(orig + page) & ~(page - 1)` is a multiple of the page, strictly above `orig` and at most `orig + page`. The same code is at mycat3.c:29-30, mycat5.c:24-25 and mycat6.c:33-34. |
| `AlignedAlloc.SafeguardNeverFires` | mycat4.c:37-41 | The "aligned address below the original pointer" test is never true, so its adjustment never runs. |
| `AlignedAlloc.AlignUp` | mycat4.c:33-41 | The address `align_alloc` returns, safeguard included, is page-aligned and lies in `(orig, orig + page]`. |
| `AlignedAlloc.PageOrDefault` | mycat4.c:17-23 | A failed `sysconf` makes `align_alloc` use 4096, and a successful one makes it use exactly the reported size. The page size in use is always a valid power of two. |
| `AlignedAlloc.SlotInsideBlock` | mycat4.c:43-47 | If `malloc` returns a pointer-aligned block, the hidden slot `[aligned - 8, aligned)` starts at or after the block's start. |
| `AlignedAlloc.AlignAlloc` | mycat4.c:16-50 | A NULL from `malloc` gives NULL and leaves memory alone. Otherwise the result is page-aligned and in `(orig, orig + page]`, and `[aligned, aligned + size)` and the slot both lie inside the `size + page` block. The slot holds `orig`. Every other memory word is unchanged, and the slot is the only word added. |
| `AlignedAlloc.AlignFree` | mycat4.c:53-64 | `align_free(NULL)` frees nothing. Any other pointer frees exactly one address. |
| `AlignedAlloc.AlignFreeRecoversBlock` | mycat4.c:46-63 | `align_free` applied to what `align_alloc` returned frees exactly the pointer `malloc` returned. |
| `BufferSize.BlockAlignedSize` | mycat4.c:101-106 | The buffer size is a multiple of the page size and at least both the page size and `st_blksize`. It is below `max(page, st_blksize) + page`. A max that is already a multiple of the page is returned unchanged. |
| `BufferSize.BlockAlignedSizeIsLeast` | mycat4.c:104-106 | Every multiple `k * page` that covers both the page size and `st_blksize` is at least the buffer size, so the rounding goes to the nearest page boundary above. |
| `BufferSize.BlockAlignedSizeIdempotent` | mycat4.c:104-106 | Rounding a rounded size changes nothing. |
| `Transfer.Stream` | mycat4.c:118-126 | The loop never reads past the file. When it ends at end of file, it has consumed the whole file. |
| `Transfer.StreamCalls` | mycat4.c:119-120 | The loop only reads and writes. Each write offers exactly the bytes the read just before it returned. Each read asks for the buffer size and gets no more. |
| `Transfer.StreamOutput` | mycat4.c:118-126 | Standard output is always a prefix of the file. It is exactly the bytes read unless the last write was short, and it is the whole file at end of file. |
| `Transfer.StreamStops` | mycat2.c:38-45 | The loop stops at the first read of 0, the first read of -1 or the first short write, and its last call says which. |
| `Transfer.CooperativeStream` | mycat2.c:38-45 | If every read delivers all it may and every write takes everything, the loop reaches end of file after `Chunks(n, S)` reads that return data, each followed by its write, and one final read. |
| `Transfer.ChunksIsCeiling` | mycat2.c:38-45 | `Chunks(n, S)`, counted one read of up to `S` bytes at a time, equals `ceil(n / S)` computed as `(n + S - 1) / S`. |
| `Transfer.StreamThenRelease` | mycat4.c:118-137 | After the setup calls comes the loop: only reads and writes, none of which is a read of 0, a read of -1 or a short write except the last. All three loop exits then free the buffer and close the file, and nothing else is freed or closed. End of file exits 0 with the whole file written. A read of -1 and a short write exit with failure. |
| `Transfer.ReleaseIgnoresSetup` | mycat2.c:37-56 | The exit status and standard output of the loop and its exits depend neither on the calls made before the loop nor on the address passed to `free`. |
| `AlignedBuffer.AllocateCopyRelease` | mycat4.c:110-137 | A NULL from `align_alloc` closes the file and fails right after the allocation. Otherwise the calls after the allocation are the loop, which reads `size` bytes at a time and stops at its first read of 0, read of -1 or short write. Every exit frees exactly the block `malloc` returned, then closes the file. |
| `AlignedBuffer.CopyThenAlignFree` | mycat4.c:118-137 | The loop followed by `align_free(buffer)`: only reads and writes follow the setup, the loop stops at its first read of 0, read of -1 or short write, and every exit passes the pointer stored in the slot below `buffer` to `free`, then closes the file. |
| `AlignedBuffer.SameAsPlainBuffer` | mycat4.c:110-137 | Once `malloc` succeeds, the aligned-buffer run is the plain-buffer run of mycat2.c on the same buffer size, with `free` receiving the block `malloc` returned. |
| `Mycat1.Execute` | mycat1.c:6-30 | A wrong argument count fails before any call. A failed open fails after the open only. Otherwise only reads and writes follow the open, each read asks for one byte and each write echoes it, and the loop ends at its first read of 0, read of -1 or short write. A short write closes and fails. End of file closes and exits 0 with the whole file written. A read error also closes and exits 0. Nothing is allocated or freed. |
| `Mycat1.ReadErrorTruncatesOutput` | mycat1.c:20-29 | A read error on a non-empty file still exits 0, with output that is only a prefix of the file. |
| `Mycat1.ThreeBytesOneAtATime` | mycat1.c:19-29 | Three bytes "ABC" under a cooperative kernel: exit 0, output "ABC", and three read/write pairs plus a final read between open and close. |
| `Mycat2.Execute` | mycat2.c:8-57 | Usage and open failures happen before any allocation. A failed `sysconf` closes and fails. A failed `malloc(page_size)` closes and fails. Otherwise only reads and writes follow the allocation, up to the first read of 0, read of -1 or short write. Every read asks for one page and every exit frees the buffer, then closes. |
| `Mycat3.Execute` | mycat3.c:61-110 | As mycat2, except the buffer comes from `align_alloc(page_size)`. The allocation asks for `page_size` plus `align_alloc`'s page, each read asks for `page_size`, and the block `free` receives is the one `malloc` returned. |
| `Mycat3.SameCopyAsMycat2` | mycat3.c:61-110 | For the same environment, mycat3 and mycat2 exit with the same status and write the same bytes to standard output. Only the size of the `malloc` request differs. |
| `Mycat4.Execute` | mycat4.c:66-138 | As mycat3, plus a failed `fstat` closes and fails. The buffer is the rounded block size, for the allocation and for every read. |
| `Mycat4.SmallBlocksAsMycat3` | mycat4.c:95-106 | When `st_blksize` is at most the page size, the buffer is exactly one page and mycat4 runs exactly as mycat3 does. |
| `Mycat5.Execute` | mycat5.c:49-111 | As mycat4 with a 32768-byte buffer, for the allocation and for every read. |
| `Mycat5.SizeIgnoresQueries` | mycat5.c:62-81 | Once `sysconf` and `fstat` succeed, their values do not affect the run. |
| `Mycat6.Execute` | mycat6.c:65-136 | As mycat5 with a 65536-byte buffer, and a sequential-access hint right after the open. |
| `Mycat6.AdviceIgnored` | mycat6.c:78-85 | The return value of `posix_fadvise` never changes the run. |
| `Mycat6.SizeIgnoresQueries` | mycat6.c:87-106 | The buffer is 65536 bytes whatever the page size and block size are. `fs_block_size` is never used. |

## Left out

- System calls are not performed. `open`, `read`, `write`, `fstat`, `sysconf`, `posix_fadvise`, `malloc`, `free` and `close` are oracle answers in `World` or events in the trace.
- The diagnostics of `perror` and `fprintf` are left out. An exit is reduced to `Success` or `Failure(cause)`, where the cause names the failed step.
- `posix_fadvise` affects only performance. It is an `Advise` event, and its return value is an input that the program compares with 0 and then ignores.
- Heap memory beyond the words `align_alloc` writes is not modelled. `malloc` is trusted to return NULL, or a block aligned to `sizeof(void *)` that lies below 2^64 together with the requested bytes. That excludes wrap-around of `size + page_size` and of `orig + page_size`.
- Page sizes are assumed to be powers of two of at least `sizeof(void *)`, which is 8. The alignment arithmetic needs this, and the hidden pointer slot needs the lower bound.
- A negative `st_blksize` is not modelled: the block size is a natural number. Integer overflow of mycat4's rounding is not modelled either.
- The value `close` returns is ignored by all six programs and is not modelled.
- A read is assumed to return between 1 and `min(limit, remaining)` bytes before end of file. A regular file never returns 0 early, and interrupted calls are reported as -1 like any other error.
