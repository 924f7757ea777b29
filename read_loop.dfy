/** The growable read buffer of fs.c (`lc_fs_read_file_into_buffer`).
    The descriptor is modelled by `stream`, the bytes it yields in order, and by
    `rs`, what each successive `read(fd, p, LC_FS_BLOCK_SIZE)` returned. */
module ReadLoop {
  import opened Trace

  /** What a well-behaved `read` can answer: the loop ends within the trace, every
      chunk before the end is at most the requested LC_FS_BLOCK_SIZE, and the
      chunks together do not exceed what the descriptor holds. */
  predicate ReadsFit(rs: seq<Reply>, avail: nat) {
    Stops(rs)
    && (forall i :: 0 <= i < StopAt(rs) ==> rs[i].ret <= BLOCK_SIZE)
    && Sum(rs[..StopAt(rs)]) <= avail
  }

  /** How draining a descriptor ends. */
  datatype Drained = Eof(content: seq<byte>) | Failed(code: int)

  /** Reference behaviour, stated without any buffer: a zero read ends the loop with
      everything read so far, which is the prefix of the stream as long as all chunks
      together; a negative read ends it with that negative value. */
  function Drain(rs: seq<Reply>, stream: seq<byte>): Drained
    requires ReadsFit(rs, |stream|)
  {
    var k := StopAt(rs);
    SumGrows(rs, 0, k);
    if rs[k].ret == 0 then Eof(stream[..Sum(rs[..k])]) else Failed(rs[k].ret)
  }

  /** Room left for the next chunk: the capacity is at least two blocks, a whole
      number of blocks, and leaves a whole block after the bytes already stored. */
  predicate Roomy(cap: int, used: int) {
    cap >= 2 * BLOCK_SIZE && cap % BLOCK_SIZE == 0 && cap - used >= BLOCK_SIZE
  }

  /** The capacity the buffer has once `used` bytes are stored: two blocks at first,
      then one more block each time fewer than a block of room remains. */
  function GrownCapacity(used: nat): nat {
    if used <= BLOCK_SIZE then 2 * BLOCK_SIZE else GrownCapacity(used - BLOCK_SIZE) + BLOCK_SIZE
  }

  /** Two different multiples of a block are at least a block apart. */
  lemma BlocksApart(x: int, y: int)
    requires x % BLOCK_SIZE == 0 && y % BLOCK_SIZE == 0 && x < y
    ensures x + BLOCK_SIZE <= y
  {
    var a, b := x / BLOCK_SIZE, y / BLOCK_SIZE;
    assert x == a * BLOCK_SIZE && y == b * BLOCK_SIZE;
    assert a < b;
  }

  /** Growing one block at a time never overshoots: the capacity reached is the least
      one that keeps the room invariant. */
  lemma {:induction false} GrownCapacityIsLeast(used: nat, cap: int)
    ensures Roomy(GrownCapacity(used), used)
    ensures Roomy(cap, used) ==> GrownCapacity(used) <= cap
  {
    if used > BLOCK_SIZE {
      GrownCapacityIsLeast(used - BLOCK_SIZE, cap - BLOCK_SIZE);
      var g := GrownCapacity(used - BLOCK_SIZE);
      assert (g + BLOCK_SIZE) % BLOCK_SIZE == g % BLOCK_SIZE;
      if Roomy(cap, used) {
        BlocksApart(2 * BLOCK_SIZE, cap);
        assert (cap - BLOCK_SIZE) % BLOCK_SIZE == cap % BLOCK_SIZE;
      }
    }
  }

  /** The buffer never holds more than two blocks of unused room. */
  lemma {:induction false} GrownCapacitySlack(used: nat)
    ensures GrownCapacity(used) - used <= 2 * BLOCK_SIZE
  {
    if used > BLOCK_SIZE {
      GrownCapacitySlack(used - BLOCK_SIZE);
    }
  }

  /** One chunk of `n` bytes followed by the growth check keeps the capacity at the
      least one for the new byte count. */
  lemma GrowStep(p: nat, n: int)
    requires 0 < n <= BLOCK_SIZE
    ensures GrownCapacity(p + n) ==
      if GrownCapacity(p) - (p + n) < BLOCK_SIZE then GrownCapacity(p) + BLOCK_SIZE else GrownCapacity(p)
  {
    var c, g := GrownCapacity(p), GrownCapacity(p + n);
    GrownCapacityIsLeast(p, g);
    GrownCapacityIsLeast(p + n, c);
    GrownCapacityIsLeast(p + n, c + BLOCK_SIZE);
    assert (c + BLOCK_SIZE) % BLOCK_SIZE == c % BLOCK_SIZE;
    if c - (p + n) < BLOCK_SIZE {
      BlocksApart(c, g);
    }
  }

  /** `realloc`: a larger block holding every byte of the old one. */
  method Realloc(block: array<byte>, newCap: nat) returns (grown: array<byte>)
    requires block.Length <= newCap
    ensures fresh(grown) && grown.Length == newCap
    ensures grown[..block.Length] == block[..]
  {
    grown := new byte[newCap];
    forall j | 0 <= j < block.Length {
      grown[j] := block[j];
    }
  }

  /** Reads chunks until a zero or negative `read`. On end of file the returned buffer
      holds exactly the drained content in its first `size` bytes, and its capacity is
      the one reached by growing one block at a time from two; on failure the block is
      freed, NULL is returned and `size` carries the negative return value.
      `allocs` and `frees` count the heap blocks obtained (`malloc`, `realloc`) and
      given back (`realloc`, `free`): exactly one block is still held on success and
      none on failure. */
  method ReadFileIntoBuffer(rs: seq<Reply>, stream: seq<byte>)
    returns (buffer: array?<byte>, size: int, ghost allocs: nat, ghost frees: nat)
    requires ReadsFit(rs, |stream|)
    ensures Drain(rs, stream).Eof? ==>
      buffer != null && size == |Drain(rs, stream).content| && size <= buffer.Length
      && buffer[..size] == Drain(rs, stream).content
      && buffer.Length == GrownCapacity(size) && Roomy(buffer.Length, size)
      && buffer.Length - size <= 2 * BLOCK_SIZE
      && allocs == frees + 1
    ensures Drain(rs, stream).Failed? ==>
      buffer == null && size == Drain(rs, stream).code && size < 0 && allocs == frees
  {
    ghost var k := StopAt(rs);
    var cap: nat := 2 * BLOCK_SIZE;
    var block := new byte[cap];
    allocs, frees := 1, 0;
    var p: nat := 0;
    var i: nat := 0;
    while true
      invariant i <= k
      invariant p == Sum(rs[..i]) && p <= |stream|
      invariant fresh(block) && block.Length == cap && cap == GrownCapacity(p) && Roomy(cap, p)
      invariant block[..p] == stream[..p]
      invariant allocs == frees + 1
      decreases k - i
    {
      // read(fd, p, LC_FS_BLOCK_SIZE): the next bytes of the stream land at offset p
      var readBytes := rs[i].ret;
      if readBytes == 0 {
        break;
      } else if readBytes < 0 {
        // free(buffer); return NULL
        frees := frees + 1;
        return null, readBytes, allocs, frees;
      }
      SumSnoc(rs, i);
      SumGrows(rs, i + 1, k);
      forall j | p <= j < p + readBytes {
        block[j] := stream[j];
      }
      assert block[..p + readBytes] == stream[..p + readBytes] by {
        assert forall j :: 0 <= j < p ==> block[..p][j] == stream[..p][j];
      }
      GrowStep(p, readBytes);
      p := p + readBytes;
      i := i + 1;
      var s := p;
      if cap - s < BLOCK_SIZE {
        cap := cap + BLOCK_SIZE;
        ghost var kept := block[..];
        block := Realloc(block, cap);
        allocs, frees := allocs + 1, frees + 1;
        assert block[..s] == kept[..s] by {
          assert block[..|kept|][..s] == block[..s];
        }
      }
    }
    GrownCapacitySlack(p);
    return block, p, allocs, frees;
  }

  /** The drained content is the in-order concatenation of the chunks: peeling off the
      first chunk of `n` bytes leaves the drain of the rest of the trace over the rest
      of the stream, and a failure later on is the same failure. */
  lemma {:induction false} DrainFirstChunk(rs: seq<Reply>, stream: seq<byte>)
    requires ReadsFit(rs, |stream|) && rs[0].ret > 0
    ensures rs[0].ret <= |stream|
    ensures ReadsFit(rs[1..], |stream| - rs[0].ret)
    ensures Drain(rs, stream).Eof? == Drain(rs[1..], stream[rs[0].ret..]).Eof?
    ensures Drain(rs, stream).Eof? ==>
      Drain(rs, stream).content == stream[..rs[0].ret] + Drain(rs[1..], stream[rs[0].ret..]).content
    ensures Drain(rs, stream).Failed? ==> Drain(rs, stream).code == Drain(rs[1..], stream[rs[0].ret..]).code
  {
    var n := rs[0].ret;
    var k := StopAt(rs);
    var tail := rs[1..];
    assert k == 1 + StopAt(tail);
    assert rs[..k][1..] == tail[..k - 1];
    assert Sum(rs[..k]) == n + Sum(tail[..k - 1]);
    SumGrows(tail, 0, k - 1);
    assert forall i :: 0 <= i < k - 1 ==> tail[i].ret <= BLOCK_SIZE by {
      forall i | 0 <= i < k - 1 ensures tail[i].ret <= BLOCK_SIZE {
        assert tail[i] == rs[i + 1];
      }
    }
    var m := Sum(tail[..k - 1]);
    assert stream[..n + m] == stream[..n] + stream[n..][..m];
  }

  /** An immediately empty source is end of file with nothing read, not an error. */
  lemma EmptySource(rs: seq<Reply>, stream: seq<byte>)
    requires |rs| > 0 && rs[0].ret == 0
    ensures ReadsFit(rs, |stream|) && Drain(rs, stream) == Eof([])
  {
    assert StopAt(rs) == 0;
  }

  /** A negative read aborts at once: everything before it was a positive chunk and the
      outcome carries that negative value. */
  lemma FailureIsFirstNegative(rs: seq<Reply>, stream: seq<byte>, i: nat)
    requires ReadsFit(rs, |stream|) && i < |rs| && rs[i].ret < 0
    requires forall t :: 0 <= t < i ==> rs[t].ret > 0
    ensures Drain(rs, stream) == Failed(rs[i].ret)
  {
    assert StopAt(rs) == i;
  }
}
