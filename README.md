# vp — a VISA instrument script player, modelled in Dafny

`vp` reads a script file line by line and sends each line, a *directive*, to a
measurement instrument over a VISA session. Every directive goes out with one
line feed appended, through a shared transfer buffer of 0x10000 bytes. A
directive that contains `?` is a query: after writing it, the player reads the
instrument's response. The transport delivers at most one buffer's worth of
bytes per `viRead`. A receive reporting `VI_SUCCESS_MAX_CNT` means more bytes
follow, so the player keeps receiving and concatenates the chunks until some
receive reports another status.

The model covers the three routines of `vp/Program.cs` that carry this logic:
`Write`, `Read` and the directive loop of `Main`.

- `Wrappers.dfy` — `Option`.
- `Ascii.dfy` — bytes, ASCII encoding and decoding. Decoding maps every byte
  of 0x80 or above to `?`, as the ASCII encoding's replacement fallback does.
- `Visa.dfy` — the status constants and the transport as an oracle. The oracle
  is the sequence of `(status, chunk)` answers the instrument gives to
  successive `viRead` calls. Once the sequence is used up, every receive
  answers `VI_ERROR_TMO` with no bytes (a silent instrument).
- `Reassembly.dfy` — what one `Read` does to a sequence of answers, as
  functions:
  - `StopIndex`: the first receive that does not report `VI_SUCCESS_MAX_CNT`;
  - `Receives`: how many receives one read makes;
  - `Assembled`: the in-order concatenation of the chunks;
  - `ReadReply`: the reply;
  - and the lemmas about them.
- `Script.dfy` — query classification, framing of a directive, and the
  directive loop as functions:
  - `Step`: one line;
  - `Drive`: the whole script, producing a log of `Wrote(line, directive)`
    and `ReadBack(response)` events and the answers left over;
  - and the parity and numbering lemmas about that log.
- `Program.dfy` — class `Program` holds the shared `buffer` array, the pending
  answers, the frames sent so far and the number of receives. `Write`, `Read`
  and `Run` are imperative methods proved against the functions above.
  `Read` keeps the source's two paths:
  - a single receive whose bytes are decoded straight from the buffer;
  - a fresh `response` array that is resized and appended to on every
    further receive.

## Model

| member | source | states |
|---|---|---|
| Ascii.Encode | vp/Program.cs:75 | an ASCII string becomes one byte per character, each byte the character's code |
| Ascii.Decode | vp/Program.cs:115 | decoding keeps the length, yields ASCII text, and decodes each byte on its own |
| Ascii.DecodeEncode | vp/Program.cs:121 | decoding the encoding of an ASCII string gives the string back |
| Ascii.DecodeAppend | vp/Program.cs:115 | decoding a concatenation is the concatenation of the decodings |
| Visa.Receive | vp/Program.cs:84 | the i-th receive gets the i-th answer, or a timeout with no bytes once the instrument has no more to say |
| Visa.ReceiveFits | vp/Program.cs:84 | no receive delivers more bytes than the buffer length it is given |
| Visa.Drop | vp/Program.cs:84 | consuming n answers leaves the rest, and keeps every chunk within the buffer size |
| Visa.Overlay | vp/Program.cs:84 | a receive writes its chunk over the front of the buffer and leaves the remaining bytes as they were |
| Reassembly.Receives | vp/Program.cs:84-107 | definition: a read makes one receive more than its run of leading VI_SUCCESS_MAX_CNT answers |
| Reassembly.ReadReply | vp/Program.cs:84-115 | definition: no reply when the first receive times out, otherwise the decoding of the chunks of all receives the read makes |
| Reassembly.StopIndex | vp/Program.cs:99 | the receive that ends a read is the first whose status is not VI_SUCCESS_MAX_CNT; every earlier one reports VI_SUCCESS_MAX_CNT |
| Reassembly.StopIndexUnique | vp/Program.cs:99 | any position with only VI_SUCCESS_MAX_CNT before it and another status at it is the stopping receive |
| Reassembly.Assembled | vp/Program.cs:98-107 | the assembled length is the sum of the chunk counts |
| Reassembly.AssembledInOrder | vp/Program.cs:99-107 | each chunk sits in the assembled bytes at the offset given by the counts before it |
| Reassembly.AssembledPrefix | vp/Program.cs:99-107 | assembling fewer receives gives a prefix of assembling more |
| Reassembly.ReceivesAfterFull | vp/Program.cs:94-99 | after a first receive reporting VI_SUCCESS_MAX_CNT, the read makes one receive more than a read of the remaining answers |
| Reassembly.AssembledAfterFirst | vp/Program.cs:96-107 | the assembly starts with the first chunk, followed by the assembly of the following receives |
| Reassembly.ContinuedRead | vp/Program.cs:94-107 | after a full first receive, the rest of the read is a read of the remaining answers: one receive fewer, the same leftovers and last chunk, the first chunk in front |
| Reassembly.ReadTimesOut | vp/Program.cs:84-91 | the reply is absent exactly when the first receive times out, and then there is exactly one receive |
| Reassembly.SingleReceive | vp/Program.cs:109-115 | a first receive that neither times out nor fills the buffer is the only receive, and the reply decodes its bytes |
| Reassembly.TruncatedRead | vp/Program.cs:94-115 | after a full first receive there are at least two receives, all but the last report VI_SUCCESS_MAX_CNT, the last does not (a timeout included, and it is not reported), and the reply decodes all chunks, the last one included |
| Reassembly.Chunked | vp/Program.cs:84 | a message split into buffer-sized answers is within the buffer size and takes length div 0x10000 plus one answers |
| Reassembly.ChunkedRoundTrip | vp/Program.cs:94-115 | a message delivered in buffer-sized pieces is reassembled exactly, in length div 0x10000 plus one receives |
| Script.IsQuery | vp/Program.cs:54 | definition: a directive is a query when it contains `?` |
| Script.Terminated | vp/Program.cs:74 | the terminated line is the directive followed by exactly one line feed |
| Script.Frame | vp/Program.cs:74-76 | the bytes sent are one more than the directive's length: each character's code in order, then one line feed; they decode to the directive followed by the line feed |
| Script.Frames | vp/Program.cs:49-53 | definition: the frames a script sends, one per present line, in line order |
| Script.Step | vp/Program.cs:47-63 | definition: an absent line does nothing; a present one logs its numbered write, and a query also logs the reply to a read and consumes and counts that read's receives |
| Script.Drive | vp/Program.cs:45-64 | definition: the lines processed in order from the first, numbered from 1, each against the answers the previous ones left |
| Script.DriveFrom | vp/Program.cs:45-64 | the script from line i on is line i, numbered i + 1, then the script from line i + 1 on |
| Script.DriveAdvance | vp/Program.cs:45-64 | processing line i carries the log, the leftover answers and the receive count from line i to line i + 1 |
| Script.FramesFrom | vp/Program.cs:49-53 | the frames from line i on are line i's frame, if the line is present, followed by the frames from line i + 1 on |
| Script.StepShape | vp/Program.cs:49-63 | an absent line logs nothing; a present line logs its write with its number, followed by a read exactly when it is a query |
| Script.WritesAndReads | vp/Program.cs:47-63 | a script logs one write per present line and one read per query line |
| Script.ReadFollowsQuery | vp/Program.cs:53-63 | the log starts with a write; a write is directly followed by a read exactly when its directive contains `?`; every read directly follows such a write |
| Script.ReceivesPerQuery | vp/Program.cs:53-57 | a script makes at least one receive per query, and none when it has no query |
| Script.Numbering | vp/Program.cs:47-50 | every write carries the 1-based position of a present line holding its directive, absent lines counted too, and numbers strictly increase |
| Vp.Resize | vp/Program.cs:101 | the resized array has the new length and holds the common prefix |
| Vp.Append | vp/Program.cs:101-102 | growing `response` by `count` bytes of the buffer gives the old first `totalCount` bytes followed by those bytes |
| Vp.Program.constructor | vp/Program.cs:123 | the player starts with a fresh 0x10000-byte buffer, nothing sent and no receive made |
| Vp.Program.ViWrite | vp/Program.cs:76 | `viWrite` records the first `count` bytes of the buffer as sent |
| Vp.Program.ViRead | vp/Program.cs:84 | `viRead` returns the next answer's status and byte count, consumes that answer and overlays the chunk on the buffer front |
| Vp.Program.GetBytes | vp/Program.cs:75 | encoding writes the encoded text at the buffer front, leaves the rest of the buffer alone and returns the text's length |
| Vp.Program.Write | vp/Program.cs:71-77 | exactly one frame goes out, the directive followed by one line feed, and the buffer front holds it |
| Vp.Program.Read | vp/Program.cs:79-116 | the reply is absent exactly when the first receive times out; otherwise it decodes the in-order chunks of every receive up to the first that does not report VI_SUCCESS_MAX_CNT; exactly those receives are made and consumed |
| Vp.Program.ReceiveRemainder | vp/Program.cs:96-107 | the continuation receives stop at the first status other than VI_SUCCESS_MAX_CNT; every chunk, the last included, is appended in order; the final count equals the response's length |
| Vp.Program.ReceiveOnto | vp/Program.cs:99-103 | one receive consumes one answer, overlays its chunk on the buffer front, and appends the chunk to the response so far, whose length then equals the count |
| Vp.Program.Perform | vp/Program.cs:52-63 | a present directive is written, and read back exactly when it is a query, consuming and counting the receives one step of the script makes; the buffer front then holds the frame for a command and the last chunk for a query |
| Vp.Program.Run | vp/Program.cs:42-64 | the counter ends at the number of lines; the log, the leftover answers and the number of receives are those of the script; the frames sent are one per present line, in order |

## Left out

- The VISA session lifecycle is not modelled: opening the resource manager and the session, setting attributes, and closing (vp/Program.cs:26-40, 67-68). These calls are foreign. The resource manager is not closed when `viOpen` fails, and the model claims nothing about release.
- The foreign VISA functions themselves are not modelled. `viRead` is an oracle over a sequence of answers, and `viWrite` records the bytes it is given.
- Vp.Program.ViWrite: the status `viWrite` returns is not modelled; the source ignores it.
- The argument check and the file I/O are not modelled (`File.Exists`, `StreamReader`). The script is a sequence of lines, where `None` stands for a line the reader returns as null.
- The `Debug` and `Console` output is not modelled, including the `D7` line-number format and the `Timeout` message. It is diagnostic text only; the log of `Wrote`/`ReadBack` events stands for what is printed.
- The trimming of the response before it is printed is not modelled; it only affects diagnostic output.
- The 3000 ms timeout value is not modelled; it is passed to the transport without any logic around it.
- Vp.Program.Write: requires ASCII text whose framed length fits the 0x10000-byte buffer. For longer text the source's `GetBytes` throws an exception nothing catches. Non-ASCII characters would be replaced, and the model does not encode them.
- Vp.Program.Read: states only the front of the buffer after the call (the last chunk received), not the stale bytes beyond it.
- Vp.Program.ReceiveRemainder: states only the front of the buffer after the call, as for `Read`. The source tests each status in the loop condition and appends the last chunk after the loop; the method receives and appends in each iteration instead, which makes the same calls in the same order.
- Vp.Program.Run: does not state the buffer contents after the script.
- Integer widths are not modelled. The source keeps `count` and `totalCount` in 32-bit `int`, and a byte array holds fewer than 2^31 elements. So a response of 2 GiB or more makes `Array.Resize` throw, and line numbers wrap after 2^31 - 1 lines. The model's counts are unbounded, so `Reassembly.ChunkedRoundTrip`, `Vp.Program.Read` and `Vp.Program.ReceiveRemainder` hold for responses of every length, and `Script.Numbering` and `Vp.Program.Run` for scripts of every length.
- Vp.Program.ReceiveRemainder: the answers are a finite sequence, after which every receive times out, so the continuation loop always ends. An instrument that answers VI_SUCCESS_MAX_CNT without end is not modelled. The source's loop at vp/Program.cs:99 has no bound of its own. With such an instrument it would run until `Array.Resize` fails, or forever if the chunks are empty. The termination of `Vp.Program.Read`, `Vp.Program.Perform` and `Vp.Program.Run` rests on this abstraction.
- Reading past the end of the instrument's answers is modelled as a timeout with no bytes. A real transport would block for the timeout and then report `VI_ERROR_TMO` in the same way.
