/**
 * The script player itself: the process-wide transfer buffer shared by
 * every write and read, the two transport calls it relies on, and the
 * `Write`, `Read` and directive-loop routines built on them.
 */
module Vp {
  import opened Wrappers
  import opened Ascii
  import opened Visa
  import opened Reassembly
  import opened Script

  /** `Array.Resize`: an array of length `n` holding the common prefix of `a`. */
  method Resize(a: array<byte>, n: nat) returns (b: array<byte>)
    ensures fresh(b) && b.Length == n
    ensures var m := if a.Length < n then a.Length else n; b[..m] == a[..m]
  {
    b := new byte[n];
    var m := if a.Length < n then a.Length else n;
    forall i | 0 <= i < m {
      b[i] := a[i];
    }
  }

  /**
   * `Array.Resize` of `response` to `totalCount + count` followed by
   * `Array.Copy` of the first `count` bytes of `source` to its end.
   */
  method Append(response: array<byte>, totalCount: nat, source: array<byte>, count: nat)
    returns (grown: array<byte>)
    requires totalCount <= response.Length && count <= source.Length
    ensures fresh(grown) && grown.Length == totalCount + count
    ensures grown[..] == response[..totalCount] + source[..count]
  {
    grown := Resize(response, totalCount + count);
    forall i | 0 <= i < count {
      grown[totalCount + i] := source[i];
    }
    assert grown[..] == grown[..totalCount] + grown[totalCount..];
  }

  class Program {
    /** The shared transfer buffer of 0x10000 bytes. */
    const buffer: array<byte>
    /** What the instrument will answer to the coming `viRead` calls. */
    var pending: seq<ReadResult>
    /** Every byte sequence handed to `viWrite`, in order. */
    var sent: seq<seq<byte>>
    /** Number of `viRead` calls made so far. */
    var receives: nat

    ghost predicate Valid()
      reads this
    {
      buffer.Length == BufferSize && WellFormed(pending)
    }

    constructor (answers: seq<ReadResult>)
      requires WellFormed(answers)
      ensures Valid() && fresh(buffer)
      ensures pending == answers && sent == [] && receives == 0
    {
      buffer := new byte[BufferSize];
      pending, sent, receives := answers, [], 0;
    }

    /** `viWrite`: records the first `count` bytes of the buffer as sent. */
    method ViWrite(count: nat)
      requires count <= buffer.Length
      modifies this`sent
      ensures sent == old(sent) + [buffer[..count]]
    {
      sent := sent + [buffer[..count]];
    }

    /** `viRead`: the next answer's bytes land at the front of the buffer. */
    method ViRead() returns (status: int, retCount: nat)
      requires Valid()
      modifies this`pending, this`receives, buffer
      ensures Valid()
      ensures status == Receive(old(pending), 0).status
      ensures retCount == |Receive(old(pending), 0).chunk| <= buffer.Length
      ensures pending == Drop(old(pending), 1)
      ensures receives == old(receives) + 1
      ensures buffer[..] == Overlay(old(buffer[..]), Receive(old(pending), 0).chunk)
    {
      var r := Receive(pending, 0);
      ReceiveFits(pending, 0);
      forall i | 0 <= i < |r.chunk| {
        buffer[i] := r.chunk[i];
      }
      assert buffer[..] == Overlay(old(buffer[..]), r.chunk) by {
        assert buffer[..][..|r.chunk|] == r.chunk;
        assert buffer[..][|r.chunk|..] == old(buffer[..])[|r.chunk|..];
        assert buffer[..] == buffer[..][..|r.chunk|] + buffer[..][|r.chunk|..];
      }
      pending := Drop(pending, 1);
      receives := receives + 1;
      status, retCount := r.status, |r.chunk|;
    }

    /** `GetBytes`: encodes `s` into the front of the buffer and returns the byte count. */
    method GetBytes(s: string) returns (nBytes: nat)
      requires IsAscii(s) && |s| <= buffer.Length
      modifies buffer
      ensures nBytes == |s|
      ensures buffer[..] == Encode(s) + old(buffer[..])[|s|..]
    {
      forall i | 0 <= i < |s| {
        buffer[i] := EncodeChar(s[i]);
      }
      assert buffer[..][..|s|] == Encode(s);
      assert buffer[..][|s|..] == old(buffer[..])[|s|..];
      assert buffer[..] == buffer[..][..|s|] + buffer[..][|s|..];
      nBytes := |s|;
    }

    /** Sends `directive` followed by one line feed through the shared buffer. */
    method Write(directive: string)
      requires Valid() && Sendable(directive)
      modifies this`sent, buffer
      ensures Valid()
      ensures sent == old(sent) + [Frame(directive)]
      ensures buffer[..] == Frame(directive) + old(buffer[..])[|directive| + 1..]
    {
      var line := Terminated(directive);
      assert IsAscii(line) by {
        forall i | 0 <= i < |line| ensures line[i] as int < 0x80 {
          if i < |directive| { assert line[i] == directive[i]; }
        }
      }
      var nBytes := GetBytes(line);
      assert Encode(line) == Frame(directive);
      ViWrite(nBytes);
    }

    /**
     * Reads one response: none when the first receive times out; otherwise
     * the chunks of every receive up to and including the first one that
     * does not fill the buffer, concatenated and decoded.
     */
    method Read() returns (text: Option<string>)
      requires Valid()
      modifies this`pending, this`receives, buffer
      ensures Valid()
      ensures receives == old(receives) + Receives(old(pending))
      ensures pending == Drop(old(pending), Receives(old(pending)))
      ensures buffer[..|LastChunk(old(pending))|] == LastChunk(old(pending))
      ensures text.None? <==> Receive(old(pending), 0).status == VI_ERROR_TMO
      ensures text.Some? ==> text.value == Decode(Assembled(old(pending), Receives(old(pending))))
    {
      ghost var rs := pending;
      var status, retCount := ViRead();
      if status == VI_ERROR_TMO {
        StopIndexUnique(rs, 0);
        return None;
      }
      var response: array<byte>;
      var totalCount: nat;
      if status == VI_SUCCESS_MAX_CNT {
        response := new byte[buffer.Length];
        forall i | 0 <= i < retCount {
          response[i] := buffer[i];
        }
        totalCount := retCount;
        assert response[..totalCount] == Receive(rs, 0).chunk;
        response, totalCount := ReceiveRemainder(response, totalCount);
        ContinuedRead(rs);
      } else {
        response := buffer;
        totalCount := retCount;
        assert response[..totalCount] == Assembled(rs, 1) by {
          assert Assembled(rs, 1) == Assembled(rs, 0) + Receive(rs, 0).chunk;
        }
        StopIndexUnique(rs, 0);
      }
      text := Some(Decode(response[..totalCount]));
    }

    /**
     * The continuation loop of `Read`: receives until a status other than
     * VI_SUCCESS_MAX_CNT and appends every chunk, the last one included, to
     * the first `totalCount` bytes of `response`. The source tests the status
     * in the loop condition and appends the last chunk after the loop; here
     * each iteration receives and appends, which makes the same calls in the
     * same order.
     */
    method ReceiveRemainder(response: array<byte>, totalCount: nat) returns (assembled: array<byte>, total: nat)
      requires Valid() && totalCount <= response.Length && response != buffer
      modifies this`pending, this`receives, buffer
      ensures Valid()
      ensures receives == old(receives) + Receives(old(pending))
      ensures pending == Drop(old(pending), Receives(old(pending)))
      ensures buffer[..|LastChunk(old(pending))|] == LastChunk(old(pending))
      ensures total == assembled.Length == totalCount + TotalCount(old(pending), Receives(old(pending)))
      ensures assembled[..total] == old(response[..totalCount]) + Assembled(old(pending), Receives(old(pending)))
    {
      ghost var rs, prefix := pending, response[..totalCount];
      assembled, total := response, totalCount;
      var more := true;
      ghost var k: nat := 0;
      while more
        invariant Valid()
        invariant receives == old(receives) + k
        invariant pending == Drop(rs, k)
        invariant forall i :: 0 <= i < k - 1 ==> Receive(rs, i).status == VI_SUCCESS_MAX_CNT
        invariant more <==> k == 0 || Receive(rs, k - 1).status == VI_SUCCESS_MAX_CNT
        invariant k > 0 ==> buffer[..|Receive(rs, k - 1).chunk|] == Receive(rs, k - 1).chunk
        invariant assembled != buffer && total <= assembled.Length
        invariant k > 0 ==> total == assembled.Length
        invariant assembled[..total] == prefix + Assembled(rs, k)
        decreases |pending| + (if more then 1 else 0)
      {
        ReceiveDrop(rs, k, 0);
        var status;
        status, assembled, total := ReceiveOnto(assembled, total);
        k := k + 1;
        more := status == VI_SUCCESS_MAX_CNT;
      }
      StopIndexUnique(rs, k - 1);
    }

    /** One `viRead` whose bytes are appended to the first `total` bytes of `response`. */
    method ReceiveOnto(response: array<byte>, total: nat) returns (status: int, grown: array<byte>, grownTotal: nat)
      requires Valid() && total <= response.Length && response != buffer
      modifies this`pending, this`receives, buffer
      ensures Valid()
      ensures status == Receive(old(pending), 0).status
      ensures receives == old(receives) + 1
      ensures pending == Drop(old(pending), 1)
      ensures buffer[..|Receive(old(pending), 0).chunk|] == Receive(old(pending), 0).chunk
      ensures grown != buffer && grownTotal == grown.Length
      ensures buffer[..] == Overlay(old(buffer[..]), Receive(old(pending), 0).chunk)
      ensures grown[..grownTotal] == old(response[..total]) + Receive(old(pending), 0).chunk
    {
      var retCount;
      status, retCount := ViRead();
      grown := Append(response, total, buffer, retCount);
      grownTotal := total + retCount;
    }

    /**
     * The body of the directive loop for a present line: writes the
     * directive and, when it is a query, reads the response.
     */
    method Perform(directive: string, number: nat) returns (logged: seq<Event>)
      requires Valid() && Sendable(directive)
      modifies this`pending, this`receives, this`sent, buffer
      ensures Valid()
      ensures logged == Step(Some(directive), number, old(pending)).events
      ensures pending == Step(Some(directive), number, old(pending)).rest
      ensures receives == old(receives) + Step(Some(directive), number, old(pending)).received
      ensures sent == old(sent) + [Frame(directive)]
      ensures !IsQuery(directive) ==> buffer[..|directive| + 1] == Frame(directive)
      ensures IsQuery(directive) ==> buffer[..|LastChunk(old(pending))|] == LastChunk(old(pending))
    {
      Write(directive);
      logged := [Wrote(number, directive)];
      if IsQuery(directive) {
        var response := Read();
        assert response == ReadReply(old(pending));
        logged := logged + [ReadBack(response)];
      }
    }

    /**
     * The directive loop: numbers every line, skips absent ones, writes each
     * present directive and reads a response after each query.
     */
    method Run(lines: seq<Option<string>>) returns (count: nat, trace: seq<Event>)
      requires Valid() && SendableScript(lines)
      modifies this`pending, this`receives, this`sent, buffer
      ensures Valid()
      ensures count == |lines|
      ensures trace == Drive(lines, 0, old(pending)).events
      ensures pending == Drive(lines, 0, old(pending)).rest
      ensures receives == old(receives) + Drive(lines, 0, old(pending)).received
      ensures sent == old(sent) + Frames(lines)
    {
      count := 0;
      trace := [];
      var i := 0;
      assert lines[0..] == lines;
      while i < |lines|
        invariant 0 <= i <= |lines| && count == i
        invariant Valid()
        invariant trace + Drive(lines[i..], i, pending).events == Drive(lines, 0, old(pending)).events
        invariant Drive(lines[i..], i, pending).rest == Drive(lines, 0, old(pending)).rest
        invariant receives + Drive(lines[i..], i, pending).received == old(receives) + Drive(lines, 0, old(pending)).received
        invariant sent + Frames(lines[i..]) == old(sent) + Frames(lines)
      {
        DriveAdvance(lines, i, pending, trace, Drive(lines, 0, old(pending)), receives, old(receives) + Drive(lines, 0, old(pending)).received);
        FramesFrom(lines, i);
        var directive := lines[i];
        i := i + 1;
        count := count + 1;
        if directive.None? {
          continue;
        }
        var logged := Perform(directive.value, count);
        trace := trace + logged;
      }
    }
  }
}
