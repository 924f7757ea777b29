/** Syscall outcomes as seen by the file layer.
    Every `open`, `read`, `write`, `close` and `unlink` is an oracle: the model is
    handed what the call returned, never what the operating system would do. */
module Trace {

  /** One byte of file content (a C `char` used as raw storage). */
  newtype byte = b: int | 0 <= b < 0x100

  /** LC_FS_BLOCK_SIZE: the chunk size of every read and write request. */
  const BLOCK_SIZE: nat := 8 * 1024

  /** What one syscall returned: `ret` is its return value, `errno` the code it
      leaves in `errno` when it fails (`ret < 0`). */
  datatype Reply = Reply(ret: int, errno: int)

  /** errno after a call: a failing call stores its code, a successful one leaves
      the previous value in place. */
  function ErrnoAfter(before: int, r: Reply): (e: int)
    ensures r.ret >= 0 ==> e == before
  {
    if r.ret < 0 then r.errno else before
  }

  function Min(a: int, b: int): (m: int)
    ensures m <= a && m <= b && (m == a || m == b)
  {
    if a < b then a else b
  }

  /** The loops of fs.c stop at the first reply that is not positive
      (0 = end of file / no progress, negative = failure); a trace has one. */
  predicate Stops(rs: seq<Reply>) {
    exists i :: 0 <= i < |rs| && rs[i].ret <= 0
  }

  /** Index of the call that ends a loop: the first non-positive reply. */
  function StopAt(rs: seq<Reply>): (k: nat)
    requires Stops(rs)
    ensures k < |rs| && rs[k].ret <= 0
    ensures forall i :: 0 <= i < k ==> rs[i].ret > 0
  {
    if rs[0].ret <= 0 then 0
    else
      assert Stops(rs[1..]) by {
        var i :| 0 <= i < |rs| && rs[i].ret <= 0;
        assert i > 0 && rs[1..][i - 1] == rs[i];
      }
      1 + StopAt(rs[1..])
  }

  /** Sum of the return values of a run of calls: bytes transferred by them. */
  function Sum(rs: seq<Reply>): int {
    if rs == [] then 0 else rs[0].ret + Sum(rs[1..])
  }

  lemma {:induction false} SumSnoc(rs: seq<Reply>, i: nat)
    requires i < |rs|
    ensures Sum(rs[..i + 1]) == Sum(rs[..i]) + rs[i].ret
  {
    if i > 0 {
      assert rs[..i + 1][1..] == rs[1..][..i];
      assert rs[..i][1..] == rs[1..][..i - 1];
      SumSnoc(rs[1..], i - 1);
    }
  }

  /** Calls that all transferred bytes transfer a total that only grows. */
  lemma {:induction false} SumGrows(rs: seq<Reply>, i: nat, j: nat)
    requires i <= j <= |rs|
    requires forall t :: i <= t < j ==> rs[t].ret > 0
    ensures Sum(rs[..i]) <= Sum(rs[..j])
    ensures i < j ==> Sum(rs[..i]) < Sum(rs[..j])
    decreases j - i
  {
    if i < j {
      SumSnoc(rs, j - 1);
      SumGrows(rs, i, j - 1);
    }
  }
}
