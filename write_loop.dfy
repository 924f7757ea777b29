/** The chunked write loop of fs.c (`lc_write_file_content`). `rs` holds what each
    successive `write(fd, p, written_len)` returned. */
module WriteLoop {
  import opened Trace

  /** What a well-behaved `write` can answer: the loop ends within the trace and no
      call reports more bytes than it was asked to write. */
  predicate WritesFit(rs: seq<Reply>, len: nat) {
    Stops(rs)
    && forall i :: 0 <= i < StopAt(rs) ==> rs[i].ret <= Min(len - Sum(rs[..i]), BLOCK_SIZE)
  }

  /** Before every call of a well-behaved trace, the bytes accepted so far lie within
      the content. */
  lemma {:induction false} AcceptedWithin(rs: seq<Reply>, len: nat, i: nat)
    requires WritesFit(rs, len) && i <= StopAt(rs)
    ensures 0 <= Sum(rs[..i]) <= len
  {
    if i > 0 {
      AcceptedWithin(rs, len, i - 1);
      SumSnoc(rs, i - 1);
    }
  }

  /** Number of bytes the file accepted before the loop stopped. */
  function Accepted(rs: seq<Reply>, len: nat): (n: nat)
    requires WritesFit(rs, len)
    ensures n <= len
  {
    AcceptedWithin(rs, len, StopAt(rs));
    Sum(rs[..StopAt(rs)])
  }

  /** The value the loop returns: the first negative `write` result unchanged, and 0
      when the loop ends on a `write` that returned 0. */
  function Status(rs: seq<Reply>): (ec: int)
    requires Stops(rs)
    ensures ec <= 0
    ensures ec < 0 <==> rs[StopAt(rs)].ret < 0
  {
    var last := rs[StopAt(rs)].ret;
    if last < 0 then last else 0
  }

  /** The byte ranges handed to the successive `write` calls of a loop that stopped
      at `StopAt(rs)`: one per call, each `min(len, LC_FS_BLOCK_SIZE)` bytes long and
      continuing the prefix of `content` accepted before it. */
  ghost predicate HandedOut(rs: seq<Reply>, content: seq<byte>, requests: seq<seq<byte>>)
    requires Stops(rs)
  {
    |requests| == StopAt(rs) + 1
    && forall i :: 0 <= i < |requests| ==> Handed(rs, content, requests[i], i)
  }

  /** The request of call `i`: `min(len, LC_FS_BLOCK_SIZE)` bytes continuing the
      prefix accepted by the calls before it. */
  ghost predicate Handed(rs: seq<Reply>, content: seq<byte>, request: seq<byte>, i: nat)
    requires i <= |rs|
  {
    0 <= Sum(rs[..i]) <= |content|
    && |request| == Min(|content| - Sum(rs[..i]), BLOCK_SIZE)
    && content[..Sum(rs[..i])] + request <= content
  }

  /** Writes `content` in requests of at most LC_FS_BLOCK_SIZE bytes, each one
      starting where the bytes accepted so far end. `requests` are the byte ranges
      handed to the successive `write` calls: each is `min(len, LC_FS_BLOCK_SIZE)`
      bytes long and continues the accepted prefix of `content`. */
  method WriteFileContent(rs: seq<Reply>, content: seq<byte>) returns (ec: int, ghost requests: seq<seq<byte>>)
    requires WritesFit(rs, |content|)
    ensures ec == Status(rs)
    ensures HandedOut(rs, content, requests)
  {
    var len: nat := |content|;
    var p: nat := 0;
    var i: nat := 0;
    requests := [];
    while true
      invariant i <= StopAt(rs)
      invariant p == Sum(rs[..i]) && p + len == |content|
      invariant |requests| == i
      invariant forall t :: 0 <= t < i ==> Handed(rs, content, requests[t], t)
      decreases StopAt(rs) - i
    {
      var writtenLen := Min(len, BLOCK_SIZE);
      requests := requests + [content[p..p + writtenLen]];
      assert content[..p] + content[p..p + writtenLen] == content[..p + writtenLen];
      assert Handed(rs, content, requests[i], i);
      ec := rs[i].ret;
      if ec == 0 {
        break;
      } else if ec < 0 {
        return;
      }
      SumSnoc(rs, i);
      p := p + ec;
      len := len - ec;
      i := i + 1;
    }
    return 0, requests;
  }

  /** The bytes the file received: the accepted part of each of the first `n`
      requests, in order. */
  ghost function Delivered(requests: seq<seq<byte>>, rs: seq<Reply>, n: nat): seq<byte>
    requires n <= |requests| && n <= |rs|
    requires forall i :: 0 <= i < n ==> 0 <= rs[i].ret <= |requests[i]|
  {
    if n == 0 then [] else Delivered(requests, rs, n - 1) + requests[n - 1][..rs[n - 1].ret]
  }

  /** No rollback, no gap: the accepted parts of the requests, joined in call order,
      are exactly the first `Accepted` bytes of the content. */
  lemma {:induction false} DeliveredIsAcceptedPrefix(rs: seq<Reply>, content: seq<byte>,
                                                     requests: seq<seq<byte>>, n: nat)
    requires WritesFit(rs, |content|) && HandedOut(rs, content, requests) && n <= StopAt(rs)
    ensures forall i :: 0 <= i < n ==> 0 <= rs[i].ret <= |requests[i]|
    ensures 0 <= Sum(rs[..n]) <= |content|
    ensures Delivered(requests, rs, n) == content[..Sum(rs[..n])]
  {
    AcceptedWithin(rs, |content|, n);
    if n > 0 {
      DeliveredIsAcceptedPrefix(rs, content, requests, n - 1);
      assert Handed(rs, content, requests[n - 1], n - 1);
      SumSnoc(rs, n - 1);
      var off, got := Sum(rs[..n - 1]), rs[n - 1].ret;
      assert content[..off] + requests[n - 1] <= content;
      assert requests[n - 1][..got] == content[off..off + got];
      assert content[..off] + content[off..off + got] == content[..off + got];
    }
  }

  /** A `write` that returns 0 ends the loop with status 0, whatever is left unwritten. */
  lemma ZeroWriteIsSuccess(rs: seq<Reply>)
    requires Stops(rs) && rs[StopAt(rs)].ret == 0
    ensures Status(rs) == 0
  {
  }

  /** A `write` that returns 0 ends the loop with success even when bytes are left
      unwritten: with one byte of content, a first `write` answering 0 accepts nothing
      and the loop still reports 0. */
  lemma ShortWriteReportsSuccess()
    ensures WritesFit([Reply(0, 0)], 1)
    ensures Status([Reply(0, 0)]) == 0 && Accepted([Reply(0, 0)], 1) == 0
  {
    assert StopAt([Reply(0, 0)]) == 0;
  }
}
