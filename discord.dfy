/**
 * The Discord publisher's message splitting: content is packed line by line
 * into chunks of at most 1900 characters, over-long lines are cut, and each
 * chunk is sent with a page suffix and, on the first, the tag.
 */
module Discord {
  import opened Wrappers
  import opened Text

  /** The chunk ceiling, kept below Discord's 2000-character limit. */
  const MaxMessageLength: nat := 1900

  /**
   * The budget of the first chunk as the publisher computes it: it takes
   * `len(tag) - 1` off, although the tag and its line break need `len(tag) + 1`.
   */
  function FirstMaxAsWritten(tag: string): (r: int)
    ensures |tag| > 0 ==> r == MaxMessageLength + 1 - |tag|
    ensures |tag| == 0 ==> r == MaxMessageLength
    ensures r <= MaxMessageLength
  {
    if |tag| > 0 then MaxMessageLength - (|tag| - 1) else MaxMessageLength
  }

  /** The budget of the first chunk: the tag and its line break come off it. */
  function FirstMax(tag: string): (r: int)
    ensures r <= MaxMessageLength
    ensures |tag| == 0 ==> r == MaxMessageLength
  {
    if |tag| > 0 then MaxMessageLength - (|tag| + 1) else MaxMessageLength
  }

  function Concat(parts: seq<string>): string {
    if |parts| == 0 then "" else parts[0] + Concat(parts[1..])
  }

  /** An over-long line cut every 1900 characters: non-empty pieces that put together give the line back. */
  function Pieces(line: string): (r: seq<string>)
    ensures forall k :: 0 <= k < |r| ==> 0 < |r[k]| <= MaxMessageLength
    ensures Concat(r) == line
    decreases |line|
  {
    if |line| == 0 then []
    else if |line| <= MaxMessageLength then [line]
    else
      var rest := Pieces(line[MaxMessageLength..]);
      assert ([line[..MaxMessageLength]] + rest)[1..] == rest;
      [line[..MaxMessageLength]] + rest
  }

  /** Where a chunk comes from: a run of whole lines, or an over-long line cut into pieces. */
  datatype Out = Group(lines: seq<string>) | Long(line: string)

  function RenderOne(o: Out): seq<string> {
    match o
    case Group(ls) => [Join(ls, "\n")]
    case Long(l) => Pieces(l)
  }

  /** The chunks the plan produces. */
  function Render(outs: seq<Out>): seq<string> {
    if |outs| == 0 then [] else Render(outs[..|outs| - 1]) + RenderOne(outs[|outs| - 1])
  }

  /** The lines one part of the plan consumes. */
  function LinesOf(o: Out): seq<string> {
    match o
    case Group(ls) => ls
    case Long(l) => [l]
  }

  /** The lines the plan consumes. */
  function Flatten(outs: seq<Out>): seq<string> {
    if |outs| == 0 then [] else Flatten(outs[..|outs| - 1]) + LinesOf(outs[|outs| - 1])
  }

  lemma RenderSnoc(outs: seq<Out>, o: Out)
    ensures Render(outs + [o]) == Render(outs) + RenderOne(o)
    ensures Flatten(outs + [o]) == Flatten(outs) + LinesOf(o)
  {
    assert (outs + [o])[..|outs|] == outs;
  }

  /**
   * The state of the packing loop of `_split_message`: the chunks so far
   * (`done`), the open chunk `cur` and its running length `curLen`. The
   * running length counts the line break after each line added to the open
   * chunk but not after a line that opened it on overflow.
   */
  datatype State = State(done: seq<Out>, cur: seq<string>, curLen: int)

  /** The open chunk closed: it becomes a group if it has lines. */
  function Close(st: State): seq<Out> {
    if |st.cur| > 0 then st.done + [Group(st.cur)] else st.done
  }

  /** One turn of the packing loop. */
  function Step(st: State, line: string, firstMax: int): State {
    if |line| > MaxMessageLength then
      if |st.cur| > 0 then State(Close(st) + [Long(line)], [], 0)
      else State(st.done + [Long(line)], st.cur, st.curLen)
    else
      var maxLength := if |Render(st.done)| == 0 then firstMax else MaxMessageLength;
      if st.curLen + |line| + 1 > maxLength then State(st.done + [Group(st.cur)], [line], |line|)
      else State(st.done, st.cur + [line], st.curLen + |line| + 1)
  }

  /** The packing loop from line `i` on. */
  function Pack(lines: seq<string>, i: nat, firstMax: int, st: State): seq<Out>
    requires i <= |lines|
    decreases |lines| - i
  {
    if i == |lines| then Close(st) else Pack(lines, i + 1, firstMax, Step(st, lines[i], firstMax))
  }

  /** The packing plan for content that does not fit the first chunk. */
  function Plan(content: string, firstMax: int): seq<Out> {
    Pack(Split(content, '\n'), 0, firstMax, State([], [], 0))
  }

  /** `_split_message` once the first chunk's budget `firstMax` is known. */
  function ChunksWithin(content: string, firstMax: int): (r: seq<string>)
    ensures |r| >= 1
    ensures |content| <= firstMax ==> r == [content]
  {
    if |content| <= firstMax then [content]
    else
      var chunks := Render(Plan(content, firstMax));
      if |chunks| > 0 then chunks else [Take(content, MaxMessageLength)]
  }

  /** `_split_message` with the corrected budget. */
  function Chunks(content: string, tag: string): (r: seq<string>)
    ensures |r| >= 1
    ensures |content| <= FirstMax(tag) ==> r == [content]
  {
    ChunksWithin(content, FirstMax(tag))
  }

  /** `_split_message` with the budget as written. */
  function ChunksAsWritten(content: string, tag: string): (r: seq<string>)
    ensures |r| >= 1
    ensures |content| <= FirstMaxAsWritten(tag) ==> r == [content]
  {
    ChunksWithin(content, FirstMaxAsWritten(tag))
  }

  // ----- What the packing guarantees -------------------------------------

  predicate Bounded(chunks: seq<string>) {
    forall k :: 0 <= k < |chunks| ==> |chunks[k]| <= MaxMessageLength
  }

  /** Finished chunks are within the ceiling; the open chunk is no longer than its running length, which is too. */
  predicate Inv(st: State) {
    && Bounded(Render(st.done))
    && (|st.cur| == 0 ==> st.curLen == 0)
    && (|st.cur| > 0 ==> |Join(st.cur, "\n")| <= st.curLen <= MaxMessageLength)
  }

  lemma RenderBounded(outs: seq<Out>, o: Out)
    requires Bounded(Render(outs))
    requires o.Group? ==> |Join(o.lines, "\n")| <= MaxMessageLength
    ensures Bounded(Render(outs + [o]))
  {
    RenderSnoc(outs, o);
  }

  lemma CloseBounded(st: State)
    requires Inv(st)
    ensures Bounded(Render(Close(st)))
  {
    if |st.cur| > 0 {
      RenderBounded(st.done, Group(st.cur));
    }
  }

  lemma StepKeeps(st: State, line: string, firstMax: int)
    requires Inv(st) && firstMax <= MaxMessageLength
    ensures Inv(Step(st, line, firstMax))
  {
    if |line| > MaxMessageLength {
      CloseBounded(st);
      RenderBounded(Close(st), Long(line));
    } else {
      var maxLength := if |Render(st.done)| == 0 then firstMax else MaxMessageLength;
      if st.curLen + |line| + 1 > maxLength {
        RenderBounded(st.done, Group(st.cur));
        assert Join([line], "\n") == line;
      } else {
        JoinSnoc(st.cur, line, "\n");
      }
    }
  }

  lemma {:induction false} PackBounded(lines: seq<string>, i: nat, firstMax: int, st: State)
    requires i <= |lines| && firstMax <= MaxMessageLength && Inv(st)
    ensures Bounded(Render(Pack(lines, i, firstMax, st)))
    decreases |lines| - i
  {
    if i == |lines| {
      CloseBounded(st);
    } else {
      StepKeeps(st, lines[i], firstMax);
      PackBounded(lines, i + 1, firstMax, Step(st, lines[i], firstMax));
    }
  }

  /** Every chunk is at most 1900 characters long, whichever of the two budgets is used. */
  lemma ChunksBounded(content: string, tag: string)
    ensures Bounded(Chunks(content, tag))
    ensures Bounded(ChunksAsWritten(content, tag))
  {
    ChunksWithinBounded(content, FirstMax(tag));
    ChunksWithinBounded(content, FirstMaxAsWritten(tag));
  }

  lemma ChunksWithinBounded(content: string, firstMax: int)
    requires firstMax <= MaxMessageLength
    ensures Bounded(ChunksWithin(content, firstMax))
  {
    if |content| > firstMax {
      PackBounded(Split(content, '\n'), 0, firstMax, State([], [], 0));
    }
  }

  /** The lines a state has taken in. */
  function Taken(st: State): seq<string> {
    Flatten(st.done) + st.cur
  }

  lemma StepTakes(st: State, line: string, firstMax: int)
    ensures Taken(Step(st, line, firstMax)) == Taken(st) + [line]
  {
    if |line| > MaxMessageLength {
      CloseTakes(st);
      RenderSnoc(Close(st), Long(line));
      if |st.cur| > 0 {
        assert Step(st, line, firstMax) == State(Close(st) + [Long(line)], [], 0);
      } else {
        assert Step(st, line, firstMax) == State(st.done + [Long(line)], st.cur, st.curLen);
      }
    } else {
      var maxLength := if |Render(st.done)| == 0 then firstMax else MaxMessageLength;
      if st.curLen + |line| + 1 > maxLength {
        RenderSnoc(st.done, Group(st.cur));
        assert Step(st, line, firstMax) == State(st.done + [Group(st.cur)], [line], |line|);
      } else {
        assert Step(st, line, firstMax) == State(st.done, st.cur + [line], st.curLen + |line| + 1);
      }
    }
  }

  /** Closing the open chunk loses no line. */
  lemma CloseTakes(st: State)
    ensures Flatten(Close(st)) == Taken(st)
  {
    if |st.cur| > 0 {
      RenderSnoc(st.done, Group(st.cur));
    }
  }

  /** The plan consumes every line once, in order. */
  lemma {:induction false} PackFlattens(lines: seq<string>, i: nat, firstMax: int, st: State)
    requires i <= |lines|
    ensures Flatten(Pack(lines, i, firstMax, st)) == Taken(st) + lines[i..]
    decreases |lines| - i
  {
    if i == |lines| {
      CloseTakes(st);
    } else {
      StepTakes(st, lines[i], firstMax);
      PackFlattens(lines, i + 1, firstMax, Step(st, lines[i], firstMax));
      assert lines[i..] == [lines[i]] + lines[i + 1..];
    }
  }

  /** After a turn, some chunk is finished or open. */
  lemma StepNonEmpty(st: State, line: string, firstMax: int)
    ensures |Render(Step(st, line, firstMax).done)| > 0 || |Step(st, line, firstMax).cur| > 0
  {
    if |line| > MaxMessageLength {
      RenderSnoc(Close(st), Long(line));
    } else {
      var maxLength := if |Render(st.done)| == 0 then firstMax else MaxMessageLength;
      if st.curLen + |line| + 1 > maxLength {
        RenderSnoc(st.done, Group(st.cur));
      }
    }
  }

  lemma {:induction false} PackNonEmpty(lines: seq<string>, i: nat, firstMax: int, st: State)
    requires i <= |lines| && (i < |lines| || |st.cur| > 0 || |Render(st.done)| > 0)
    ensures |Render(Pack(lines, i, firstMax, st))| > 0
    decreases |lines| - i
  {
    if i == |lines| {
      if |st.cur| > 0 {
        RenderSnoc(st.done, Group(st.cur));
      }
    } else {
      StepNonEmpty(st, lines[i], firstMax);
      PackNonEmpty(lines, i + 1, firstMax, Step(st, lines[i], firstMax));
    }
  }

  /**
   * Content that does not fit the first chunk is sent as the chunks of a
   * plan whose groups and cut lines, joined back with line breaks, are the
   * content: no line is lost, altered or moved.
   */
  lemma ChunksCover(content: string, firstMax: int)
    requires |content| > firstMax
    ensures ChunksWithin(content, firstMax) == Render(Plan(content, firstMax))
    ensures Join(Flatten(Plan(content, firstMax)), "\n") == content
  {
    var lines := Split(content, '\n');
    PackFlattens(lines, 0, firstMax, State([], [], 0));
    assert lines[0..] == lines;
    assert Taken(State([], [], 0)) == [];
    assert Flatten(Plan(content, firstMax)) == lines;
    JoinSplit(content, '\n');
    PackNonEmpty(lines, 0, firstMax, State([], [], 0));
  }

  // ----- The messages publish sends --------------------------------------

  /** The page suffix `"\n\n(i/n)"`. */
  function Suffix(idx: nat, n: nat): string {
    "\n\n(" + NatToString(idx) + "/" + NatToString(n) + ")"
  }

  /** Chunk `k` with its page suffix when there are several chunks and it fits. */
  function Paged(chunks: seq<string>, k: nat): string
    requires k < |chunks|
  {
    var suffix := Suffix(k + 1, |chunks|);
    if |chunks| > 1 && |chunks[k]| + |suffix| <= MaxMessageLength then chunks[k] + suffix else chunks[k]
  }

  /** The message sent for chunk `k`: the tag and a line break go in front of the first only. */
  function Message(chunks: seq<string>, k: nat, tag: string): string
    requires k < |chunks|
  {
    if k == 0 && |tag| > 0 then tag + "\n" + Paged(chunks, k) else Paged(chunks, k)
  }

  /**
   * Each message is the tag (first message only), the chunk, and possibly
   * the page suffix; the suffix is there exactly when there are several
   * chunks and it fits; a message without the tag stays within 1900
   * characters when its chunk does.
   */
  lemma MessageShape(chunks: seq<string>, k: nat, tag: string)
    requires k < |chunks|
    ensures var head := if k == 0 && |tag| > 0 then tag + "\n" else "";
      var suffix := Suffix(k + 1, |chunks|);
      var fits := |chunks| > 1 && |chunks[k]| + |suffix| <= MaxMessageLength;
      && Message(chunks, k, tag) == head + chunks[k] + (if fits then suffix else "")
      && (|chunks[k]| <= MaxMessageLength && |head| == 0 ==> |Message(chunks, k, tag)| <= MaxMessageLength)
  {
  }

  /** Every message but a tagged first one stays within the 1900-character ceiling. */
  lemma MessagesBounded(content: string, tag: string, k: nat)
    requires k < |Chunks(content, tag)| && (k > 0 || |tag| == 0)
    ensures |Message(Chunks(content, tag), k, tag)| <= MaxMessageLength
  {
    ChunksBounded(content, tag);
    MessageShape(Chunks(content, tag), k, tag);
  }

  /**
   * With the budget as written, a tagged content that just fits it is sent
   * as one message two characters over the ceiling; the corrected budget
   * would not have sent it whole.
   */
  lemma TaggedMessageOverflows(content: string, tag: string)
    requires |tag| > 0 && |content| == FirstMaxAsWritten(tag)
    ensures ChunksAsWritten(content, tag) == [content]
    ensures |Message(ChunksAsWritten(content, tag), 0, tag)| == MaxMessageLength + 2
    ensures |content| > FirstMax(tag)
  {
  }

  /** With the intended budget, a content sent as one tagged message stays within the ceiling. */
  lemma TaggedMessageFits(content: string, tag: string)
    requires |content| <= FirstMax(tag)
    ensures Chunks(content, tag) == [content]
    ensures |Message(Chunks(content, tag), 0, tag)| <= MaxMessageLength
  {
  }

  // ----- The loops as the publisher runs them ----------------------------

  /** The loop over the pieces of an over-long line. */
  method AppendPieces(chunks: seq<string>, line: string) returns (chunks': seq<string>)
    ensures chunks' == chunks + Pieces(line)
  {
    chunks' := chunks;
    var j := 0;
    while j < |line|
      invariant j <= |line| && chunks + Pieces(line) == chunks' + Pieces(line[j..])
      decreases |line| - j
    {
      var end := if j + MaxMessageLength <= |line| then j + MaxMessageLength else |line|;
      PiecesHead(line, j, end);
      chunks' := chunks' + [line[j..end]];
      j := end;
    }
    assert line[j..] == [];
  }

  lemma PiecesHead(line: string, j: nat, end: nat)
    requires j < |line| && end == (if j + MaxMessageLength <= |line| then j + MaxMessageLength else |line|)
    ensures Pieces(line[j..]) == [line[j..end]] + Pieces(line[end..])
  {
    if end < |line| {
      assert line[j..][MaxMessageLength..] == line[end..];
      assert line[j..][..MaxMessageLength] == line[j..end];
    } else {
      assert line[end..] == [] && line[j..end] == line[j..];
      assert Pieces(line[j..]) == [line[j..]];
    }
  }

  /**
   * `_split_message` from the first chunk's budget on, with its packing
   * loop and its loop over the pieces of an over-long line.
   */
  method SplitMessage(content: string, firstMax: int) returns (chunks: seq<string>)
    ensures chunks == ChunksWithin(content, firstMax)
  {
    if |content| <= firstMax {
      return [content];
    }
    var lines := Split(content, '\n');
    chunks := [];
    ghost var done: seq<Out> := [];
    var cur: seq<string> := [];
    var curLen := 0;
    for i := 0 to |lines|
      invariant chunks == Render(done)
      invariant Pack(lines, i, firstMax, State(done, cur, curLen)) == Plan(content, firstMax)
    {
      ghost var st := State(done, cur, curLen);
      var line := lines[i];
      if |line| > MaxMessageLength {
        if |cur| > 0 {
          RenderSnoc(done, Group(cur));
          chunks := chunks + [Join(cur, "\n")];
          done := done + [Group(cur)];
          cur := [];
          curLen := 0;
        }
        RenderSnoc(done, Long(line));
        chunks := AppendPieces(chunks, line);
        done := done + [Long(line)];
      } else {
        var lineLength := |line| + 1;
        var maxLength := if |chunks| == 0 then firstMax else MaxMessageLength;
        if curLen + lineLength > maxLength {
          RenderSnoc(done, Group(cur));
          chunks := chunks + [Join(cur, "\n")];
          done := done + [Group(cur)];
          cur := [line];
          curLen := |line|;
        } else {
          cur := cur + [line];
          curLen := curLen + lineLength;
        }
      }
      assert State(done, cur, curLen) == Step(st, line, firstMax);
    }
    if |cur| > 0 {
      RenderSnoc(done, Group(cur));
      chunks := chunks + [Join(cur, "\n")];
    }
    if |chunks| == 0 {
      chunks := [Take(content, MaxMessageLength)];
    }
  }

  /**
   * `publish` without the webhook posts: nothing is sent without a webhook
   * URL; otherwise the messages, one per chunk, in order.
   */
  method Publish(webhookUrl: string, content: string, tag: string) returns (sent: Option<seq<string>>)
    ensures |webhookUrl| == 0 <==> sent.None?
    ensures sent.Some? ==> var chunks := Chunks(content, tag);
      |sent.value| == |chunks| && forall k :: 0 <= k < |chunks| ==> sent.value[k] == Message(chunks, k, tag)
  {
    if |webhookUrl| == 0 {
      return None;
    }
    var chunks := SplitMessage(content, FirstMax(tag));
    var messages: seq<string> := [];
    for idx := 1 to |chunks| + 1
      invariant |messages| == idx - 1
      invariant forall k :: 0 <= k < idx - 1 ==> messages[k] == Message(chunks, k, tag)
    {
      var chunk := chunks[idx - 1];
      if |chunks| > 1 {
        var suffix := Suffix(idx, |chunks|);
        if |chunk| + |suffix| <= MaxMessageLength {
          chunk := chunk + suffix;
        }
      }
      assert chunk == Paged(chunks, idx - 1);
      var message;
      if idx == 1 && |tag| > 0 {
        message := tag + "\n" + chunk;
      } else {
        message := chunk;
      }
      messages := messages + [message];
    }
    return Some(messages);
  }
}
