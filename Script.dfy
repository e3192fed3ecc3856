/**
 * The directive script as the player's main loop consumes it: how a
 * directive is classified and framed, and the sequence of logged events a
 * whole script produces.
 */
module Script {
  import opened Wrappers
  import opened Ascii
  import opened Visa
  import opened Reassembly

  /** A directive is a query when it contains a question mark. */
  predicate IsQuery(directive: string) {
    '?' in directive
  }

  /** The directive with its line terminator appended. */
  function Terminated(directive: string): (line: string)
    ensures |line| == |directive| + 1 && line[..|directive|] == directive && line[|directive|] == '\n'
  {
    directive + "\n"
  }

  /** A directive the player can send: ASCII text whose framed form fits the transfer buffer. */
  predicate Sendable(directive: string) {
    IsAscii(directive) && |directive| + 1 <= BufferSize
  }

  /** The bytes `Write` hands to `viWrite`: the directive, then exactly one line feed. */
  function Frame(directive: string): (bytes: seq<byte>)
    requires IsAscii(directive)
    ensures |bytes| == |directive| + 1
    ensures forall i :: 0 <= i < |directive| ==> bytes[i] as int == directive[i] as int
    ensures bytes[|directive|] == LF
    ensures Decode(bytes[..|directive|]) == directive
    ensures Decode(bytes) == directive + "\n"
  {
    var line := Terminated(directive);
    assert IsAscii(line) by {
      forall i | 0 <= i < |line| ensures line[i] as int < 0x80 {
        if i < |directive| { assert line[i] == directive[i]; }
      }
    }
    var bytes := Encode(line);
    DecodeEncode(line);
    assert bytes[..|directive|] == Encode(directive);
    DecodeEncode(directive);
    bytes
  }

  /** Every present line of the script can be sent. */
  predicate SendableScript(lines: seq<Option<string>>) {
    forall i :: 0 <= i < |lines| && lines[i].Some? ==> Sendable(lines[i].value)
  }

  /** The frames written for a script, one per present line, in order. */
  function Frames(lines: seq<Option<string>>): (frames: seq<seq<byte>>)
    requires SendableScript(lines)
  {
    if lines == [] then []
    else
      assert SendableScript(lines[1..]) by {
        forall i | 0 <= i < |lines[1..]| && lines[1..][i].Some? ensures Sendable(lines[1..][i].value) {
          assert lines[1..][i] == lines[i + 1];
        }
      }
      (if lines[0].Some? then [Frame(lines[0].value)] else []) + Frames(lines[1..])
  }

  /** What the main loop logs: a directive with its line number, or the response of a read. */
  datatype Event = Wrote(line: nat, directive: string) | ReadBack(response: Option<string>)

  /**
   * The events of a run, the instrument answers left unconsumed and the
   * number of receives made.
   */
  datatype Outcome = Outcome(events: seq<Event>, rest: seq<ReadResult>, received: nat)

  /** One script line, numbered `number`, processed against the answers `rs`. */
  function Step(line: Option<string>, number: nat, rs: seq<ReadResult>): Outcome {
    match line
    case None => Outcome([], rs, 0)
    case Some(d) =>
      if IsQuery(d) then Outcome([Wrote(number, d), ReadBack(ReadReply(rs))], Drop(rs, Receives(rs)), Receives(rs))
      else Outcome([Wrote(number, d)], rs, 0)
  }

  /** The lines of a script, the first numbered start + 1, processed in order. */
  function Drive(lines: seq<Option<string>>, start: nat, rs: seq<ReadResult>): Outcome
    decreases |lines|
  {
    if lines == [] then Outcome([], rs, 0)
    else
      var s := Step(lines[0], start + 1, rs);
      var t := Drive(lines[1..], start + 1, s.rest);
      Outcome(s.events + t.events, t.rest, s.received + t.received)
  }

  /** The script from line i on is line i, numbered i + 1, followed by the script from line i + 1 on. */
  lemma DriveFrom(lines: seq<Option<string>>, i: nat, rs: seq<ReadResult>)
    requires i < |lines|
    ensures var s := Step(lines[i], i + 1, rs);
            var t := Drive(lines[i + 1..], i + 1, s.rest);
            Drive(lines[i..], i, rs) == Outcome(s.events + t.events, t.rest, s.received + t.received)
  {
    assert lines[i..][1..] == lines[i + 1..];
  }

  /** Processing line i carries a run from line i on to a run from line i + 1 on. */
  lemma DriveAdvance(lines: seq<Option<string>>, i: nat, rs: seq<ReadResult>, done: seq<Event>, whole: Outcome, made: nat, total: nat)
    requires i < |lines|
    requires done + Drive(lines[i..], i, rs).events == whole.events
    requires Drive(lines[i..], i, rs).rest == whole.rest
    requires made + Drive(lines[i..], i, rs).received == total
    ensures var s := Step(lines[i], i + 1, rs);
            (done + s.events) + Drive(lines[i + 1..], i + 1, s.rest).events == whole.events &&
            Drive(lines[i + 1..], i + 1, s.rest).rest == whole.rest &&
            (made + s.received) + Drive(lines[i + 1..], i + 1, s.rest).received == total
  {
    DriveFrom(lines, i, rs);
    var s := Step(lines[i], i + 1, rs);
    assert (done + s.events) + Drive(lines[i + 1..], i + 1, s.rest).events
        == done + (s.events + Drive(lines[i + 1..], i + 1, s.rest).events);
  }

  /** The frames from line i on are those of line i followed by those from line i + 1 on. */
  lemma FramesFrom(lines: seq<Option<string>>, i: nat)
    requires i < |lines| && SendableScript(lines)
    ensures SendableScript(lines[i..]) && SendableScript(lines[i + 1..])
    ensures Frames(lines[i..]) == (if lines[i].Some? then [Frame(lines[i].value)] else []) + Frames(lines[i + 1..])
  {
    assert lines[i..][1..] == lines[i + 1..];
  }

  /** Number of present lines. */
  function Present(lines: seq<Option<string>>): nat {
    if lines == [] then 0 else (if lines[0].Some? then 1 else 0) + Present(lines[1..])
  }

  /** Number of present lines that are queries. */
  function Queries(lines: seq<Option<string>>): nat {
    if lines == [] then 0
    else (if lines[0].Some? && IsQuery(lines[0].value) then 1 else 0) + Queries(lines[1..])
  }

  /** Number of events that are writes (`writes` true) or reads (`writes` false). */
  function Count(events: seq<Event>, writes: bool): nat {
    if events == [] then 0 else (if events[0].Wrote? == writes then 1 else 0) + Count(events[1..], writes)
  }

  lemma {:induction false} CountAppend(a: seq<Event>, b: seq<Event>, writes: bool)
    ensures Count(a + b, writes) == Count(a, writes) + Count(b, writes)
  {
    if a == [] {
      assert a + b == b;
    } else {
      assert (a + b)[0] == a[0];
      assert (a + b)[1..] == a[1..] + b;
      CountAppend(a[1..], b, writes);
    }
  }

  /** One write per present line, one read per query; absent lines produce neither. */
  lemma {:induction false} WritesAndReads(lines: seq<Option<string>>, start: nat, rs: seq<ReadResult>)
    ensures Count(Drive(lines, start, rs).events, true) == Present(lines)
    ensures Count(Drive(lines, start, rs).events, false) == Queries(lines)
    decreases |lines|
  {
    if lines != [] {
      var s := Step(lines[0], start + 1, rs);
      WritesAndReads(lines[1..], start + 1, s.rest);
      CountAppend(s.events, Drive(lines[1..], start + 1, s.rest).events, true);
      CountAppend(s.events, Drive(lines[1..], start + 1, s.rest).events, false);
    }
  }

  /**
   * Every query makes at least one receive and nothing else receives: a script
   * makes at least as many receives as it has queries, and none without one.
   */
  lemma {:induction false} ReceivesPerQuery(lines: seq<Option<string>>, start: nat, rs: seq<ReadResult>)
    ensures Queries(lines) <= Drive(lines, start, rs).received
    ensures Queries(lines) == 0 ==> Drive(lines, start, rs).received == 0
    decreases |lines|
  {
    if lines != [] {
      var s := Step(lines[0], start + 1, rs);
      ReceivesPerQuery(lines[1..], start + 1, s.rest);
    }
  }

  /** The events one line produces: nothing for an absent line, else its write, then a read for a query. */
  ghost predicate StepShaped(line: Option<string>, number: nat, evs: seq<Event>) {
    match line
    case None => evs == []
    case Some(d) =>
      (if IsQuery(d) then |evs| == 2 && evs[1].ReadBack? else |evs| == 1) &&
      evs[0] == Wrote(number, d)
  }

  lemma StepShape(line: Option<string>, number: nat, rs: seq<ReadResult>)
    ensures StepShaped(line, number, Step(line, number, rs).events)
  {
  }

  /** Each write carries the 1-based number of a present line holding its directive. */
  ghost predicate NumberedFrom(lines: seq<Option<string>>, start: nat, evs: seq<Event>) {
    forall j :: 0 <= j < |evs| && evs[j].Wrote? ==>
      start < evs[j].line <= start + |lines| && lines[evs[j].line - start - 1] == Some(evs[j].directive)
  }

  /** Line numbers of writes strictly increase along the log. */
  ghost predicate Increasing(evs: seq<Event>) {
    forall j, j' :: 0 <= j < j' < |evs| && evs[j].Wrote? && evs[j'].Wrote? ==> evs[j].line < evs[j'].line
  }

  /**
   * A log starts with a write; a write is directly followed by a read exactly
   * when its directive is a query; a read directly follows the write of a query.
   */
  ghost predicate QueriesAnswered(evs: seq<Event>) {
    (|evs| > 0 ==> evs[0].Wrote?) &&
    (forall j :: 0 <= j < |evs| && evs[j].Wrote? ==> (ReadAfter(evs, j) <==> IsQuery(evs[j].directive))) &&
    (forall j :: 0 <= j < |evs| && evs[j].ReadBack? ==> QueryBefore(evs, j))
  }

  /** Event j is directly followed by a read. */
  ghost predicate ReadAfter(evs: seq<Event>, j: nat) {
    j + 1 < |evs| && evs[j + 1].ReadBack?
  }

  /** Event j directly follows the write of a query. */
  ghost predicate QueryBefore(evs: seq<Event>, j: nat) {
    0 < j <= |evs| && evs[j - 1].Wrote? && IsQuery(evs[j - 1].directive)
  }

  lemma AnsweredAppend(line: Option<string>, number: nat, se: seq<Event>, te: seq<Event>)
    requires StepShaped(line, number, se) && QueriesAnswered(te)
    ensures QueriesAnswered(se + te)
  {
    var evs := se + te;
    if line.Some? {
      forall j | 0 <= j < |evs| && evs[j].Wrote?
        ensures ReadAfter(evs, j) <==> IsQuery(evs[j].directive)
      {
        if j >= |se| {
          var k := j - |se|;
          assert evs[j] == te[k];
          assert ReadAfter(te, k) <==> IsQuery(te[k].directive);
          if j + 1 < |evs| { assert evs[j + 1] == te[k + 1]; }
        } else if j + 1 == |se| && j + 1 < |evs| {
          assert evs[j + 1] == te[0];
        }
      }
      forall j | 0 <= j < |evs| && evs[j].ReadBack?
        ensures QueryBefore(evs, j)
      {
        if j >= |se| {
          var k := j - |se|;
          assert evs[j] == te[k];
          assert QueryBefore(te, k);
          assert evs[j - 1] == te[k - 1];
        }
      }
    } else {
      assert evs == te;
    }
  }

  lemma NumberedAppend(lines: seq<Option<string>>, start: nat, se: seq<Event>, te: seq<Event>)
    requires lines != [] && StepShaped(lines[0], start + 1, se) && NumberedFrom(lines[1..], start + 1, te)
    ensures NumberedFrom(lines, start, se + te)
  {
    var evs := se + te;
    forall j | 0 <= j < |evs| && evs[j].Wrote?
      ensures start < evs[j].line <= start + |lines| && lines[evs[j].line - start - 1] == Some(evs[j].directive)
    {
      if j >= |se| {
        assert evs[j] == te[j - |se|];
        assert lines[1..][evs[j].line - start - 2] == lines[evs[j].line - start - 1];
      }
    }
  }

  lemma IncreasingAppend(lines: seq<Option<string>>, start: nat, se: seq<Event>, te: seq<Event>)
    requires lines != [] && StepShaped(lines[0], start + 1, se)
    requires NumberedFrom(lines[1..], start + 1, te) && Increasing(te)
    ensures Increasing(se + te)
  {
    var evs := se + te;
    forall j, j' | 0 <= j < j' < |evs| && evs[j].Wrote? && evs[j'].Wrote?
      ensures evs[j].line < evs[j'].line
    {
      if j' >= |se| {
        assert evs[j'] == te[j' - |se|];
        if j >= |se| {
          assert evs[j] == te[j - |se|];
        }
      }
    }
  }

  /** Every write is followed by a read exactly when its directive is a query. */
  lemma {:induction false} ReadFollowsQuery(lines: seq<Option<string>>, start: nat, rs: seq<ReadResult>)
    ensures QueriesAnswered(Drive(lines, start, rs).events)
    decreases |lines|
  {
    if lines != [] {
      var s := Step(lines[0], start + 1, rs);
      ReadFollowsQuery(lines[1..], start + 1, s.rest);
      StepShape(lines[0], start + 1, rs);
      AnsweredAppend(lines[0], start + 1, s.events, Drive(lines[1..], start + 1, s.rest).events);
    }
  }

  /**
   * Line numbers count every line, absent ones included: each write carries
   * the 1-based position of its line, and numbers increase along the log.
   */
  lemma {:induction false} Numbering(lines: seq<Option<string>>, start: nat, rs: seq<ReadResult>)
    ensures NumberedFrom(lines, start, Drive(lines, start, rs).events)
    ensures Increasing(Drive(lines, start, rs).events)
    decreases |lines|
  {
    if lines != [] {
      var s := Step(lines[0], start + 1, rs);
      var t := Drive(lines[1..], start + 1, s.rest);
      Numbering(lines[1..], start + 1, s.rest);
      StepShape(lines[0], start + 1, rs);
      NumberedAppend(lines, start, s.events, t.events);
      IncreasingAppend(lines, start, s.events, t.events);
    }
  }
}
