# lichenscript-fs: the streaming file layer of `fs.c`, modelled in Dafny

`fs.c` is the native side of a small file module for the LichenScript runtime. It has
three entry points: read a whole file as text, write text to a file, and delete a path.
Each returns the runtime's two-variant `Result`: variant 0 is Ok with a payload, and
variant 1 is Err carrying an `IOError` whose `code` is the C `errno`. Reading drains the
descriptor in 8192-byte chunks into a heap buffer that grows one block at a time.
Writing sends the content in chunks of at most 8192 bytes.

The model treats every syscall as an oracle. A `Trace.Reply` records what one call
returned (`ret`) and the code it leaves in `errno` when it fails. The read and write
loops consume a sequence of replies. The bytes a descriptor yields are a parameter
(`stream`). The model never says what the operating system would answer.

- `trace.dfy` (module `Trace`): byte type, `LC_FS_BLOCK_SIZE`, replies, the errno rule,
  and the index and byte total of a loop's run of calls.
- `read_loop.dfy` (module `ReadLoop`): `lc_fs_read_file_into_buffer` as a method over an
  `array` that grows by reallocation. It is proved against `Drain`, a definition of the
  result that uses no buffer.
- `write_loop.dfy` (module `WriteLoop`): `lc_write_file_content` as a loop. Its contract
  gives the byte range handed to every `write` and the value it returns.
- `facade.dfy` (module `Facade`): the result shape, the effect of a write on file
  content (no `O_TRUNC`), and a `Process` class. The class holds `errno`, the descriptors
  held, close calls, the live and freed UTF-8 copies, and a ghost count of heap blocks held. Its three entry points follow
  the `goto fail` control flow of the source.

Assumptions on the oracles. A `read` never returns more than the 8192 bytes it asks
for, nor more than the stream holds (`ReadLoop.ReadsFit`). A `write` never reports
more bytes than it was handed (`WriteLoop.WritesFit`). Each trace contains the reply
that ends its loop. A failing call sets `errno` and a successful one leaves it alone
(`Trace.ErrnoAfter`).

Three behaviours of the code are easy to misread, and the model follows the code in each:

- Writes open the file with `O_WRONLY | O_CREAT` and no `O_TRUNC` (fs.c:150). Writing
  shorter content over a longer file leaves the old tail in place, so the file is not
  cut to the new length. `Facade.OverwriteShape` and `Facade.ReadBackAfterOverwrite`
  state this.
- The fail blocks read `errno` after `close(fd)` has already run (fs.c:95 then 114;
  fs.c:161 then 173). When that `close` fails, the error carries close's code, not
  the code of the failing `read` or `write`.
- A `write` returning 0 while bytes remain ends the loop with status 0. The entry point
  then reports Ok for a partial write (fs.c:132-133, 141).

## Model

| member | source | states |
|---|---|---|
| `Trace.StopAt` | fs.c:54-64 | the loop ends at the first reply that is not positive; every reply before it transferred bytes |
| `ReadLoop.ReadFileIntoBuffer` | fs.c:48-80 | on end of file the buffer's first `size` bytes are the drained content, and its capacity is exactly the one reached from 2×8192 by adding 8192 whenever less than a block of room remains, so a full block is free and at most two are unused; on a negative read the block is freed, NULL is returned and `size` is that value; one heap block is held on success and none on failure; every chunk lands inside the buffer (no overrun) |
| `ReadLoop.GrownCapacityIsLeast` | fs.c:49-73 | the capacity reached by growing one block at a time keeps a whole block of room and is a multiple of 8192 of at least 2×8192, and no smaller capacity does |
| `ReadLoop.GrownCapacitySlack` | fs.c:69-73 | the capacity never exceeds the bytes stored by more than two blocks |
| `ReadLoop.GrowStep` | fs.c:66-73 | after one chunk, the growth check (add a block when less than one is free) lands exactly on the capacity for the new byte count |
| `ReadLoop.Realloc` | fs.c:69-73 | growing gives a block of the new capacity that holds every byte of the old one |
| `ReadLoop.DrainFirstChunk` | fs.c:55-66 | the content is the in-order concatenation of the chunks: the first chunk followed by the drain of the rest, and a later failure is the same failure |
| `ReadLoop.EmptySource` | fs.c:56-57 | an immediately empty source gives end of file with zero bytes, not an error |
| `ReadLoop.FailureIsFirstNegative` | fs.c:58-63 | the first negative read, after only positive ones, is the outcome and its value is reported |
| `WriteLoop.WriteFileContent` | fs.c:124-142 | each request is `min(len, 8192)` bytes and continues the prefix accepted so far; the result is the first negative `write` value unchanged, otherwise 0 |
| `WriteLoop.AcceptedWithin` | fs.c:130-138 | every positive return advances the position within the content, never past its end |
| `WriteLoop.Accepted` | fs.c:137-138 | the bytes accepted before the loop stops never exceed the content length |
| `WriteLoop.Status` | fs.c:131-141 | the loop's return value is never positive, and is negative exactly when the stopping `write` failed |
| `WriteLoop.ZeroWriteIsSuccess` | fs.c:132-133 | a `write` returning 0 ends the loop with status 0, however many bytes are left |
| `WriteLoop.ShortWriteReportsSuccess` | fs.c:132-141 | for example, one byte of content and a first `write` returning 0: nothing is accepted and the loop still reports 0 |
| `WriteLoop.DeliveredIsAcceptedPrefix` | fs.c:130-138 | the accepted part of each request, joined in call order, is exactly the first `Accepted` bytes of the content: no gap, no repeat |
| `Facade.NewIOError` | fs.c:36-41 | a new IOError carries code 0 |
| `Facade.FsResult.Tag` | fs.c:108 | Ok is variant 0 and Err is variant 1 |
| `Facade.Overwrite` | fs.c:150 | after writing at offset 0 without truncation, the file is as long as the longer of the old content and the written bytes |
| `Facade.OverwriteShape` | fs.c:150 | shorter data leaves the old tail after it; data at least as long as the old content replaces it |
| `Facade.ReadBackAfterOverwrite` | fs.c:150 | reading the whole file back gives exactly the written bytes if and only if the old content was no longer |
| `Facade.Process.Open` | fs.c:87 | a non-negative result is a descriptor now held; a failing `open` sets errno |
| `Facade.Process.Close` | fs.c:95 | the descriptor is released and one close is counted; a failing `close` still overwrites errno |
| `Facade.Process.Syscall` | fs.c:187 | the call's result is returned; a failure sets errno, a success leaves it |
| `Facade.Process.ToUtf8` | fs.c:85 | one more live UTF-8 copy |
| `Facade.Process.FreeUtf8` | fs.c:104 | one live UTF-8 copy fewer, one more free, counted against the path copy or the content copy as the call names it |
| `Facade.Process.FreeBuffer` | fs.c:106 | a held block is released; `free(NULL)` changes nothing |
| `Facade.Process.Fail` | fs.c:111-116 | the fail block's result is Err with the code set from errno |
| `Facade.Process.FsReadFileContent` | fs.c:82-122 | tag 0 exactly when open succeeded and the reads ended at end of file, with the drained bytes as payload; otherwise Err with open's errno, or the failing read's errno unless the close before the fail block failed; the path string freed once, the descriptor closed once exactly when opened, none left open, no heap block left held; on Ok errno is what the final close left |
| `Facade.Process.FsWriteFileContent` | fs.c:144-181 | tag 0 exactly when open succeeded and no write failed (a zero write counts as success); the file holds the accepted prefix written over the old bytes, also after a failed write; Err carries open's errno, or the failing write's unless close failed; the path copy freed exactly once and the content copy freed exactly once when it was acquired (after a successful open) and never otherwise, each counted on its own; descriptor closed once exactly when opened; on Ok errno is what the close left |
| `Facade.Process.FsUnlink` | fs.c:183-205 | tag 0 exactly when unlink succeeded, otherwise Err with unlink's errno; the path string freed exactly once, before the result is chosen; on Ok errno is unchanged |

## Left out

- `fs.js` (the Node.js version of the module) and `fs.h` (declarations only).
- `FSIOError_toString` (fs.c:26-30) calls the C library's `strerror`, a foreign call; the message text is not modelled.
- `lc_fs_init` and the runtime plumbing: class registration, `LCNewUnionObject`, `LCFreeUTF8`, `LCRelease`, `lc_malloc` and `LCNewStringFromCStringLen`. Of these, only the variant tag that `LCNewUnionObject` gives the result and the release that `LCFreeUTF8` performs are modelled. `LCRelease` of the error and of the payload string (fs.c:109, 118, 177, 202), the `lc_malloc` of a new IOError (fs.c:37) and the runtime string built from the buffer (fs.c:102) have no counterpart in `Process`: reference counts and runtime allocations are not modelled. All of these calls are assumed not to touch `errno`. `LCFreeUTF8` runs between a failing call and the `errno` read (fs.c:160 before 173, fs.c:189 before 199), so the error codes stated for the write and unlink paths rest on this.
- UTF-8 conversion: text is modelled as its UTF-8 bytes, and `LCToUTF8`/`LCToUTF8Len` only as acquisitions.
- `malloc`/`realloc` failure (unchecked at fs.c:50 and fs.c:71): allocation always succeeds.
- The heap is modelled only as a count of blocks held. `realloc` counts as obtaining the new block and freeing the old one, and the addresses themselves are not modelled.
- ReadLoop.ReadFileIntoBuffer: integers are unbounded. The C `int` capacity and `int` size overflow for files of 2 GiB or more, and that is not modelled. The `if (size)` guards are always taken, because the only caller passes `&size`.
- WriteLoop.WriteFileContent: the `size_t` arithmetic on `len` is unbounded in the model. It cannot wrap because `write` never reports more than it was handed (`WritesFit`).
- Facade.Process.FsReadFileContent: the errno of the `read` that ended the loop is applied once the loop returns. Only `free` runs in between, and it does not touch errno.
- Facade.Process.FsWriteFileContent: the file's previous content is a ghost parameter, empty when `open` creates the file. The file receives the accepted parts of the requests in order (`WriteLoop.Delivered`), applied at once through `Overwrite` rather than call by call at advancing file offsets.
- File system state: which paths exist and what `unlink` removes are decided by the oracles. Concurrent callers on the same path are not modelled.
