/** The native entry points of fs.c: `lc_fs_read_file_content`,
    `lc_fs_write_file_content` and `lc_fs_unlink`. Each acquires its resources in
    order, jumps to a single `fail` block on the first failing step, and returns a
    two-variant result whose error carries the `errno` read in that block. */
module Facade {
  import opened Trace
  import ReadLoop
  import WriteLoop

  /** FSIOError: a runtime object carrying an OS error code. */
  datatype IOError = IOError(code: int)

  /** `LCC_IOError_init`: a new error object, its code not yet set. */
  function NewIOError(): (e: IOError)
    ensures e.code == 0
  {
    IOError(0)
  }

  /** The runtime's Result union: variant 0 is Ok with its payload, variant 1 is Err
      with an IOError. */
  datatype FsResult<T> = Ok(value: T) | Err(error: IOError) {
    function Tag(): (t: nat)
      ensures t == 0 <==> Ok?
      ensures t == 1 <==> Err?
    {
      if Ok? then 0 else 1
    }
  }

  /** The file's bytes after `data` is written at offset 0 of a file that held
      `before`, opened without O_TRUNC: position by position, written bytes replace
      old ones and old bytes past the written range stay. */
  function Overwrite(before: seq<byte>, data: seq<byte>): (after: seq<byte>)
    ensures |after| == if |data| < |before| then |before| else |data|
  {
    seq(if |data| < |before| then |before| else |data|,
        i requires 0 <= i < (if |data| < |before| then |before| else |data|) =>
          if i < |data| then data[i] else before[i])
  }

  /** No truncation: a shorter write leaves the old tail after the new bytes, and only a
      write at least as long as the old content replaces it outright. */
  lemma {:induction false} OverwriteShape(before: seq<byte>, data: seq<byte>)
    ensures |data| < |before| ==> Overwrite(before, data) == data + before[|data|..]
    ensures |before| <= |data| ==> Overwrite(before, data) == data
  {
    var after := Overwrite(before, data);
    if |data| < |before| {
      assert forall i :: 0 <= i < |after| ==> after[i] == (data + before[|data|..])[i];
    } else {
      assert forall i :: 0 <= i < |after| ==> after[i] == data[i];
    }
  }

  /** Reading the whole file back after a complete write yields exactly the written
      content if and only if the old content was no longer than it. */
  lemma {:induction false} ReadBackAfterOverwrite(before: seq<byte>, data: seq<byte>, rs: seq<Reply>)
    requires ReadLoop.ReadsFit(rs, |Overwrite(before, data)|)
    requires ReadLoop.Drain(rs, Overwrite(before, data)).Eof?
    requires Sum(rs[..StopAt(rs)]) == |Overwrite(before, data)|
    ensures ReadLoop.Drain(rs, Overwrite(before, data)).content == data <==> |before| <= |data|
  {
    OverwriteShape(before, data);
    var after := Overwrite(before, data);
    SumGrows(rs, 0, StopAt(rs));
    assert ReadLoop.Drain(rs, after).content == after;
    if |data| < |before| {
      assert |after| != |data|;
    }
  }

  /** The state of the calling process that the entry points touch: `errno`, the
      descriptors it holds, the UTF-8 copies of runtime strings it holds (`LCToUTF8`,
      `LCToUTF8Len`), with counts of the releases issued, and the heap blocks it holds
      (`malloc`/`realloc` less `free`). */
  class Process {
    var errno: int
    var fdsOpen: nat
    var closeCalls: nat
    var utf8Live: nat
    var utf8Frees: nat
    ghost var pathFrees: nat
    ghost var contentFrees: nat
    ghost var blocksLive: nat

    constructor ()
      ensures errno == 0 && fdsOpen == 0 && closeCalls == 0 && utf8Live == 0 && utf8Frees == 0
      ensures pathFrees == 0 && contentFrees == 0 && blocksLive == 0
    {
      errno, fdsOpen, closeCalls, utf8Live, utf8Frees := 0, 0, 0, 0, 0;
      pathFrees, contentFrees, blocksLive := 0, 0, 0;
    }

    /** `open`: a non-negative result is a new descriptor held by the process. */
    method Open(r: Reply) returns (fd: int)
      modifies this`errno, this`fdsOpen
      ensures fd == r.ret && errno == ErrnoAfter(old(errno), r)
      ensures fdsOpen == old(fdsOpen) + (if fd >= 0 then 1 else 0)
    {
      fd := r.ret;
      errno := ErrnoAfter(errno, r);
      if fd >= 0 {
        fdsOpen := fdsOpen + 1;
      }
    }

    /** `close`: the descriptor is released whatever `close` returns; a failing
      `close` still overwrites `errno`. */
    method Close(fd: int, r: Reply)
      requires fd >= 0 && fdsOpen > 0
      modifies this`errno, this`fdsOpen, this`closeCalls
      ensures errno == ErrnoAfter(old(errno), r)
      ensures fdsOpen == old(fdsOpen) - 1 && closeCalls == old(closeCalls) + 1
    {
      errno := ErrnoAfter(errno, r);
      fdsOpen := fdsOpen - 1;
      closeCalls := closeCalls + 1;
    }

    /** A syscall that holds no resource (`unlink`, or the reads and writes of the
      loops): only its effect on `errno`. */
    method Syscall(r: Reply) returns (ret: int)
      modifies this`errno
      ensures ret == r.ret && errno == ErrnoAfter(old(errno), r)
    {
      ret := r.ret;
      errno := ErrnoAfter(errno, r);
    }

    /** `LCToUTF8` / `LCToUTF8Len`: a UTF-8 copy the caller must free. */
    method ToUtf8()
      modifies this`utf8Live
      ensures utf8Live == old(utf8Live) + 1
    {
      utf8Live := utf8Live + 1;
    }

    /** `LCFreeUTF8`; `isPath` tells which copy is released, the path (`u8str`) or
      the content (`u8content`), so that each one's frees are counted apart. */
    method FreeUtf8(ghost isPath: bool)
      requires utf8Live > 0
      modifies this`utf8Live, this`utf8Frees, this`pathFrees, this`contentFrees
      ensures utf8Live == old(utf8Live) - 1 && utf8Frees == old(utf8Frees) + 1
      ensures pathFrees == old(pathFrees) + (if isPath then 1 else 0)
      ensures contentFrees == old(contentFrees) + (if isPath then 0 else 1)
    {
      utf8Live := utf8Live - 1;
      utf8Frees := utf8Frees + 1;
      if isPath {
        pathFrees := pathFrees + 1;
      } else {
        contentFrees := contentFrees + 1;
      }
    }

    /** `free`: releases a held heap block; `free(NULL)` does nothing. */
    method FreeBuffer(buffer: array?<byte>)
      requires buffer != null ==> blocksLive > 0
      modifies this`blocksLive
      ensures blocksLive == old(blocksLive) - (if buffer != null then 1 else 0)
    {
      if buffer != null {
        blocksLive := blocksLive - 1;
      }
    }

    /** The `fail` block's result: a new IOError whose code is then set from `errno`,
      wrapped as variant 1. */
    method Fail<T>() returns (r: FsResult<T>)
      ensures r.Err? && r.error.code == errno
    {
      var err := NewIOError();
      err := err.(code := errno);
      r := Err(err);
    }

    /** `lc_fs_read_file_content`: open read-only, drain the descriptor into a buffer,
      close, and return the bytes; `stream` is what the descriptor yields, `readReplies` what
      each `read` returned. Ok exactly when `open` succeeded and the reads ended at end
      of file. The error code is `errno` as the fail block reads it: from `open` when
      that failed, otherwise from the failing `read` unless the `close` that runs before
      the fail block failed too; on Ok, errno is what the final `close` left. Whatever
      the path, the path string is freed once, a descriptor is closed once exactly when
      `open` produced one, and no heap block stays held. */
    method FsReadFileContent(path: string, openR: Reply, readReplies: seq<Reply>, closeR: Reply, stream: seq<byte>)
      returns (r: FsResult<seq<byte>>)
      requires openR.ret >= 0 ==> ReadLoop.ReadsFit(readReplies, |stream|)
      modifies this`errno, this`fdsOpen, this`closeCalls, this`utf8Live, this`utf8Frees
      modifies this`pathFrees, this`contentFrees, this`blocksLive
      ensures r.Tag() == 0 <==> openR.ret >= 0 && readReplies[StopAt(readReplies)].ret == 0
      ensures r.Ok? ==> r.value == ReadLoop.Drain(readReplies, stream).content
      ensures openR.ret < 0 ==> r == Err(IOError(openR.errno))
      ensures openR.ret >= 0 && r.Err? ==> r.error.code == ErrnoAfter(readReplies[StopAt(readReplies)].errno, closeR)
      ensures r.Err? ==> r.error.code == errno
      ensures r.Ok? ==> errno == ErrnoAfter(old(errno), closeR)
      ensures fdsOpen == old(fdsOpen)
      ensures closeCalls == old(closeCalls) + (if openR.ret >= 0 then 1 else 0)
      ensures utf8Live == old(utf8Live) && utf8Frees == old(utf8Frees) + 1
      ensures pathFrees == old(pathFrees) + 1 && contentFrees == old(contentFrees)
      ensures blocksLive == old(blocksLive)
    {
      ToUtf8();
      var fd := Open(openR);
      if fd < 0 {
        r := Fail();
        FreeUtf8(true);
        return;
      }
      var buffer, size, allocs, frees := ReadLoop.ReadFileIntoBuffer(readReplies, stream);
      blocksLive := blocksLive + allocs - frees;
      // every read before the last returned bytes and left errno alone; the last one
      // ended the loop and, if it failed, stored its code
      var _ := Syscall(readReplies[StopAt(readReplies)]);
      Close(fd, closeR);
      if size < 0 {
        FreeBuffer(buffer);
        r := Fail();
        FreeUtf8(true);
        return;
      }
      var text := buffer[..size];
      FreeUtf8(true);
      FreeBuffer(buffer);
      r := Ok(text);
    }

    /** `lc_fs_write_file_content`: open write-only with O_CREAT and no O_TRUNC, write
      the UTF-8 bytes of `content` in chunks, close. `existing` is the file's content
      before the call (empty when `open` creates it) and `after` its content when the
      call returns. Ok exactly when `open` succeeded and no `write` failed: a `write`
      that returned 0 with bytes left still gives Ok. The file holds the accepted prefix
      of `content` written over the old bytes, with no truncation and no rollback of a
      partial write. The error code is `errno` from `open`, or from the failing `write`
      unless the `close` before the fail block failed too; on Ok, errno is what the
      `close` left. The path string is freed
      once, the content string once exactly when it was acquired (after a successful
      `open`), and a descriptor closed once exactly when `open` produced one. */
    method FsWriteFileContent(path: string, content: seq<byte>, openR: Reply, writeReplies: seq<Reply>, closeR: Reply,
                              ghost existing: seq<byte>)
      returns (r: FsResult<()>, ghost after: seq<byte>)
      requires openR.ret >= 0 ==> WriteLoop.WritesFit(writeReplies, |content|)
      modifies this`errno, this`fdsOpen, this`closeCalls, this`utf8Live, this`utf8Frees
      modifies this`pathFrees, this`contentFrees
      ensures r.Tag() == 0 <==> openR.ret >= 0 && writeReplies[StopAt(writeReplies)].ret >= 0
      ensures openR.ret < 0 ==> r == Err(IOError(openR.errno)) && after == existing
      ensures openR.ret >= 0 ==> after == Overwrite(existing, content[..WriteLoop.Accepted(writeReplies, |content|)])
      ensures openR.ret >= 0 && r.Err? ==> r.error.code == ErrnoAfter(writeReplies[StopAt(writeReplies)].errno, closeR)
      ensures r.Err? ==> r.error.code == errno
      ensures r.Ok? ==> errno == ErrnoAfter(old(errno), closeR)
      ensures fdsOpen == old(fdsOpen)
      ensures closeCalls == old(closeCalls) + (if openR.ret >= 0 then 1 else 0)
      ensures utf8Live == old(utf8Live) && utf8Frees == old(utf8Frees) + (if openR.ret >= 0 then 2 else 1)
      ensures pathFrees == old(pathFrees) + 1
      ensures contentFrees == old(contentFrees) + (if openR.ret >= 0 then 1 else 0)
    {
      ToUtf8();
      var fd := Open(openR);
      if fd < 0 {
        after := existing;
        r := Fail();
        FreeUtf8(true);
        return;
      }
      ToUtf8();
      var ec, requests := WriteLoop.WriteFileContent(writeReplies, content);
      // the file receives the accepted part of each request, in call order
      WriteLoop.DeliveredIsAcceptedPrefix(writeReplies, content, requests, StopAt(writeReplies));
      after := Overwrite(existing, WriteLoop.Delivered(requests, writeReplies, StopAt(writeReplies)));
      // as in the read path, only the call that ended the loop can have set errno
      var _ := Syscall(writeReplies[StopAt(writeReplies)]);
      if ec < 0 {
        FreeUtf8(false);
        Close(fd, closeR);
        r := Fail();
        FreeUtf8(true);
        return;
      }
      FreeUtf8(false);
      Close(fd, closeR);
      FreeUtf8(true);
      r := Ok(());
    }

    /** `lc_fs_unlink`: the path string is freed right after `unlink`, before the
      result is chosen, so the fail block does not free it again. Ok exactly when
      `unlink` succeeded, leaving errno as it was; otherwise the error carries its
      errno. */
    method FsUnlink(path: string, unlinkR: Reply) returns (r: FsResult<()>)
      modifies this`errno, this`utf8Live, this`utf8Frees, this`pathFrees, this`contentFrees
      ensures r.Tag() == 0 <==> unlinkR.ret >= 0
      ensures r.Err? ==> r.error.code == unlinkR.errno && r.error.code == errno
      ensures r.Ok? ==> errno == old(errno)
      ensures utf8Live == old(utf8Live) && utf8Frees == old(utf8Frees) + 1
      ensures pathFrees == old(pathFrees) + 1 && contentFrees == old(contentFrees)
    {
      ToUtf8();
      var ec := Syscall(unlinkR);
      FreeUtf8(true);
      if ec < 0 {
        r := Fail();
        return;
      }
      r := Ok(());
    }
  }
}
