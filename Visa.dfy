/**
 * The slice of the VISA transport that the player depends on: the two
 * status codes it tests, the size of its shared transfer buffer, and an
 * abstract model of what successive `viRead` calls deliver.
 */
module Visa {
  import opened Ascii

  /** The receive filled the buffer; more of the message is pending. */
  const VI_SUCCESS_MAX_CNT: int := 0x3FFF0006
  /** The receive timed out (0xBFFF0015 as a signed 32-bit value). */
  const VI_ERROR_TMO: int := -1073807339

  /** Capacity of the shared transfer buffer, in bytes. */
  const BufferSize: nat := 0x10000

  /** What one `viRead` call reports: its status and the `retCount` bytes it stored. */
  datatype ReadResult = ReadResult(status: int, chunk: seq<byte>)

  /** A transport never stores more than the buffer can hold. */
  predicate WellFormed(rs: seq<ReadResult>) {
    forall i :: 0 <= i < |rs| ==> |rs[i].chunk| <= BufferSize
  }

  /** The answer of an instrument that has nothing more to say. */
  const Silence := ReadResult(VI_ERROR_TMO, [])

  /** The result of the i-th receive, given the instrument's answers `rs`. */
  function Receive(rs: seq<ReadResult>, i: nat): (r: ReadResult)
    ensures i < |rs| ==> r == rs[i]
    ensures i >= |rs| ==> r == Silence
  {
    if i < |rs| then rs[i] else Silence
  }

  /** Every receive fits the buffer. */
  lemma ReceiveFits(rs: seq<ReadResult>, i: nat)
    requires WellFormed(rs)
    ensures |Receive(rs, i).chunk| <= BufferSize
  {
  }

  /** The answers still pending after `n` receives. */
  function Drop(rs: seq<ReadResult>, n: nat): (rest: seq<ReadResult>)
    ensures |rest| == if n <= |rs| then |rs| - n else 0
    ensures WellFormed(rs) ==> WellFormed(rest)
  {
    if n <= |rs| then rs[n..] else []
  }

  /** Receiving from what is left after `n` receives is receiving further along the original answers. */
  lemma ReceiveDrop(rs: seq<ReadResult>, n: nat, i: nat)
    ensures Receive(Drop(rs, n), i) == Receive(rs, n + i)
  {
  }

  /** A receive of `chunk` into `buf`: the first |chunk| bytes are replaced, the rest kept. */
  function Overlay(buf: seq<byte>, chunk: seq<byte>): (r: seq<byte>)
    requires |chunk| <= |buf|
    ensures |r| == |buf|
    ensures r[..|chunk|] == chunk && r[|chunk|..] == buf[|chunk|..]
  {
    chunk + buf[|chunk|..]
  }

  /** Dropping twice is dropping the sum. */
  lemma DropDrop(rs: seq<ReadResult>, a: nat, b: nat)
    ensures Drop(Drop(rs, a), b) == Drop(rs, a + b)
  {
  }
}
