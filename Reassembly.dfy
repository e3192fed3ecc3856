/**
 * What one `Read` of the player delivers, stated over the instrument's
 * answers `rs` independently of the loop that computes it: how many
 * receives are made, which status stops them, and which bytes make up the
 * response.
 */
module Reassembly {
  import opened Wrappers
  import opened Ascii
  import opened Visa

  /** Index of the first receive that does not report VI_SUCCESS_MAX_CNT. */
  function StopIndex(rs: seq<ReadResult>): (k: nat)
    ensures k <= |rs|
    ensures Receive(rs, k).status != VI_SUCCESS_MAX_CNT
    ensures forall i :: 0 <= i < k ==> Receive(rs, i).status == VI_SUCCESS_MAX_CNT
    decreases |rs|
  {
    if |rs| > 0 && rs[0].status == VI_SUCCESS_MAX_CNT then
      var k := 1 + StopIndex(rs[1..]);
      assert forall i :: 1 <= i < k ==> Receive(rs, i) == Receive(rs[1..], i - 1);
      k
    else
      0
  }

  /** The stopping receive is the only one with a status other than VI_SUCCESS_MAX_CNT among the first k + 1. */
  lemma StopIndexUnique(rs: seq<ReadResult>, k: nat)
    requires forall i :: 0 <= i < k ==> Receive(rs, i).status == VI_SUCCESS_MAX_CNT
    requires Receive(rs, k).status != VI_SUCCESS_MAX_CNT
    ensures StopIndex(rs) == k
  {
  }

  /** Number of `viRead` calls one `Read` makes: the leading run of VI_SUCCESS_MAX_CNT, plus one. */
  function Receives(rs: seq<ReadResult>): nat {
    StopIndex(rs) + 1
  }

  /** The chunk of the receive that ends a `Read`. */
  function LastChunk(rs: seq<ReadResult>): seq<byte> {
    Receive(rs, StopIndex(rs)).chunk
  }

  /** Sum of the byte counts of the first `n` receives. */
  function TotalCount(rs: seq<ReadResult>, n: nat): nat {
    if n == 0 then 0 else TotalCount(rs, n - 1) + |Receive(rs, n - 1).chunk|
  }

  /** The chunks of the first `n` receives, concatenated in order. */
  function Assembled(rs: seq<ReadResult>, n: nat): (bytes: seq<byte>)
    ensures |bytes| == TotalCount(rs, n)
  {
    if n == 0 then [] else Assembled(rs, n - 1) + Receive(rs, n - 1).chunk
  }

  /** The text `Read` returns: none on a first-receive timeout, else the decoded assembly. */
  function ReadReply(rs: seq<ReadResult>): Option<string> {
    if Receive(rs, 0).status == VI_ERROR_TMO then None
    else Some(Decode(Assembled(rs, Receives(rs))))
  }

  /** Receive i occupies bytes TotalCount(rs, i) up to TotalCount(rs, i + 1) of the assembly. */
  lemma {:induction false} AssembledInOrder(rs: seq<ReadResult>, n: nat, i: nat)
    requires i < n
    ensures TotalCount(rs, i + 1) <= TotalCount(rs, n)
    ensures Assembled(rs, n)[TotalCount(rs, i)..TotalCount(rs, i + 1)] == Receive(rs, i).chunk
  {
    if i == n - 1 {
      assert Assembled(rs, n) == Assembled(rs, n - 1) + Receive(rs, n - 1).chunk;
    } else {
      AssembledInOrder(rs, n - 1, i);
      var a := Assembled(rs, n - 1);
      assert Assembled(rs, n) == a + Receive(rs, n - 1).chunk;
      assert (a + Receive(rs, n - 1).chunk)[TotalCount(rs, i)..TotalCount(rs, i + 1)]
          == a[TotalCount(rs, i)..TotalCount(rs, i + 1)];
    }
  }

  /** The assembly of a longer run extends the assembly of a shorter one. */
  lemma {:induction false} AssembledPrefix(rs: seq<ReadResult>, m: nat, n: nat)
    requires m <= n
    ensures TotalCount(rs, m) <= TotalCount(rs, n)
    ensures Assembled(rs, n)[..TotalCount(rs, m)] == Assembled(rs, m)
  {
    if m < n {
      AssembledPrefix(rs, m, n - 1);
      var a := Assembled(rs, n - 1);
      assert Assembled(rs, n) == a + Receive(rs, n - 1).chunk;
      assert (a + Receive(rs, n - 1).chunk)[..TotalCount(rs, m)] == a[..TotalCount(rs, m)];
    }
  }

  /** After a first receive that fills the buffer, `Read` makes one more run of receives on what is left. */
  lemma ReceivesAfterFull(rs: seq<ReadResult>)
    requires Receive(rs, 0).status == VI_SUCCESS_MAX_CNT
    ensures |rs| > 0
    ensures Receives(rs) == 1 + Receives(Drop(rs, 1))
  {
  }

  /** The assembly of n + 1 receives is the first chunk followed by the assembly of the next n. */
  lemma {:induction false} AssembledAfterFirst(rs: seq<ReadResult>, n: nat)
    ensures Assembled(rs, n + 1) == Receive(rs, 0).chunk + Assembled(Drop(rs, 1), n)
  {
    if n > 0 {
      AssembledAfterFirst(rs, n - 1);
      ReceiveDrop(rs, 1, n - 1);
      assert Assembled(rs, n + 1)
          == (Receive(rs, 0).chunk + Assembled(Drop(rs, 1), n - 1)) + Receive(Drop(rs, 1), n - 1).chunk;
    }
  }

  /**
   * After a first receive that fills the buffer, the rest of the read is a
   * read of the remaining answers: one receive fewer, the same last chunk and
   * leftover answers, and the first chunk in front of the rest's assembly.
   */
  lemma ContinuedRead(rs: seq<ReadResult>)
    requires Receive(rs, 0).status == VI_SUCCESS_MAX_CNT
    ensures Receives(rs) == 1 + Receives(Drop(rs, 1))
    ensures Drop(rs, Receives(rs)) == Drop(Drop(rs, 1), Receives(Drop(rs, 1)))
    ensures LastChunk(rs) == LastChunk(Drop(rs, 1))
    ensures Assembled(rs, Receives(rs)) == Receive(rs, 0).chunk + Assembled(Drop(rs, 1), Receives(Drop(rs, 1)))
  {
    var n := Receives(Drop(rs, 1));
    ReceivesAfterFull(rs);
    AssembledAfterFirst(rs, n);
    ReceiveDrop(rs, 1, StopIndex(Drop(rs, 1)));
    DropDrop(rs, 1, n);
  }

  /** A timeout on the first receive, and only that, makes `Read` report no response; it then receives once. */
  lemma ReadTimesOut(rs: seq<ReadResult>)
    ensures ReadReply(rs).None? <==> Receive(rs, 0).status == VI_ERROR_TMO
    ensures ReadReply(rs).None? ==> Receives(rs) == 1
  {
  }

  /** A first receive that neither times out nor fills the buffer is the whole response. */
  lemma SingleReceive(rs: seq<ReadResult>)
    requires Receive(rs, 0).status != VI_ERROR_TMO
    requires Receive(rs, 0).status != VI_SUCCESS_MAX_CNT
    ensures Receives(rs) == 1
    ensures ReadReply(rs) == Some(Decode(Receive(rs, 0).chunk))
  {
    StopIndexUnique(rs, 0);
    assert Assembled(rs, 1) == Assembled(rs, 0) + Receive(rs, 0).chunk;
    assert Assembled(rs, Receives(rs)) == Receive(rs, 0).chunk;
  }

  /**
   * A first receive that fills the buffer starts a run of receives that lasts
   * while each reports VI_SUCCESS_MAX_CNT; the receive that stops it, even a
   * timeout, contributes its bytes and is not reported as a timeout.
   */
  lemma TruncatedRead(rs: seq<ReadResult>)
    requires Receive(rs, 0).status == VI_SUCCESS_MAX_CNT
    ensures Receives(rs) >= 2
    ensures forall i :: 0 <= i < Receives(rs) - 1 ==> Receive(rs, i).status == VI_SUCCESS_MAX_CNT
    ensures Receive(rs, Receives(rs) - 1).status != VI_SUCCESS_MAX_CNT
    ensures ReadReply(rs).Some?
    ensures var last := Receive(rs, Receives(rs) - 1).chunk;
            ReadReply(rs).value == Decode(Assembled(rs, Receives(rs) - 1)) + Decode(last)
  {
    DecodeAppend(Assembled(rs, Receives(rs) - 1), Receive(rs, Receives(rs) - 1).chunk);
  }

  /**
   * The answers of a transport that splits `msg` into buffer-sized pieces:
   * VI_SUCCESS_MAX_CNT for each full piece, then status `last` for the
   * remainder, which is empty when |msg| is a multiple of the buffer size.
   */
  function Chunked(msg: seq<byte>, last: int): (rs: seq<ReadResult>)
    ensures WellFormed(rs) && |rs| == |msg| / BufferSize + 1
    decreases |msg|
  {
    if |msg| < BufferSize then [ReadResult(last, msg)]
    else [ReadResult(VI_SUCCESS_MAX_CNT, msg[..BufferSize])] + Chunked(msg[BufferSize..], last)
  }

  /**
   * Reassembly round trip: a message delivered in buffer-sized pieces takes
   * |msg| / BufferSize + 1 receives (one extra, empty receive when the length
   * is an exact multiple) and is reconstructed exactly.
   */
  lemma {:induction false} ChunkedRoundTrip(msg: seq<byte>, last: int)
    requires last != VI_SUCCESS_MAX_CNT && last != VI_ERROR_TMO
    ensures Receives(Chunked(msg, last)) == |msg| / BufferSize + 1
    ensures Assembled(Chunked(msg, last), Receives(Chunked(msg, last))) == msg
    ensures ReadReply(Chunked(msg, last)) == Some(Decode(msg))
  {
    var rs := Chunked(msg, last);
    if |msg| < BufferSize {
      assert StopIndex(rs) == 0;
      assert Assembled(rs, 1) == [] + msg;
    } else {
      var head, tail := ReadResult(VI_SUCCESS_MAX_CNT, msg[..BufferSize]), Chunked(msg[BufferSize..], last);
      ChunkedRoundTrip(msg[BufferSize..], last);
      assert rs[1..] == tail && Drop(rs, 1) == tail;
      assert StopIndex(rs) == 1 + StopIndex(tail);
      AssembledAfterFirst(rs, Receives(tail));
      assert msg == msg[..BufferSize] + msg[BufferSize..];
    }
  }
}
