/** The exec probe's reader task as a loop over shared mutable state, refining
    the reader side of the output protocol. */
module ExecReader {
  import opened Common
  import opened TextMatch
  import opened Capture
  import opened ExecProtocol

  function Concat(chunks: seq<Bytes>): (all: Bytes) {
    if chunks == [] then [] else Concat(chunks[..|chunks| - 1]) + chunks[|chunks| - 1]
  }

  /** The child's end of a pipe: the pieces that its reads return, then the end of the stream or an error. */
  class Pipe {
    const pieces: seq<Bytes>
    const broken: bool
    var position: nat

    ghost predicate Valid()
      reads this
    {
      position <= |pieces| && forall i | 0 <= i < |pieces| :: 0 < |pieces[i]| <= READ_SIZE
    }

    constructor (pieces: seq<Bytes>, broken: bool)
      requires forall i | 0 <= i < |pieces| :: 0 < |pieces[i]| <= READ_SIZE
      ensures Valid() && this.pieces == pieces && this.broken == broken && position == 0
    {
      this.pieces, this.broken, position := pieces, broken, 0;
    }

    /** An empty piece is the end of the stream. */
    method Read() returns (r: Result<Bytes, TaskResult>)
      requires Valid()
      modifies this
      ensures Valid()
      ensures old(position) < |pieces| ==> r == Ok(pieces[old(position)]) && position == old(position) + 1
      ensures old(position) == |pieces| ==> position == old(position) && r == if broken then Err(ReadFailed) else Ok([])
      ensures r.Ok? && r.value != [] ==> Concat(pieces[..position]) == Concat(pieces[..old(position)]) + r.value
    {
      if position < |pieces| {
        r := Ok(pieces[position]);
        position := position + 1;
        assert pieces[..position][..position - 1] == pieces[..position - 1];
      } else {
        r := if broken then Err(ReadFailed) else Ok([]);
      }
    }
  }

  /** The output both tasks see; every access holds its lock. */
  class SharedOutput {
    const content: CaptureBuffer
    var matched: bool
    var limitReached: bool
    var complete: bool

    constructor ()
      ensures View() == EMPTY_OUTPUT && fresh(content)
    {
      content := new CaptureBuffer();
      matched, limitReached, complete := false, false, false;
    }

    ghost function View(): BufferedOutput
      reads this, content
    {
      BufferedOutput(content.bytes, content.incomplete, matched, limitReached, complete)
    }

    /** One chunk, under the lock: what the protocol's chunk step does to the shared output. */
    method Append(c: Config, matcher: TextMatcher, chunk: Bytes) returns (current: Progress)
      requires matcher.needles == c.needles && matcher.Tracks(content.bytes)
      modifies this, content, matcher
      ensures View() == AppendChunk(c, old(View()), chunk)
      ensures current == ProgressOf(View())
      ensures matcher.Tracks(content.bytes)
    {
      var previousLen := content.AppendLimited(chunk, c.limit);
      matcher.ObserveAppended(content.bytes, previousLen);
      var all := matcher.AllMatched(content.bytes);
      matched := c.needles != [] && all;
      limitReached := c.needles != [] && |content.bytes| == c.limit;
      complete := false;
      current := Progress(content.incomplete, matched, limitReached);
    }
  }

  /** The sending half of the watch channel. */
  class WatchSender {
    var value: Progress
    var version: nat
    ghost var history: seq<Progress>

    constructor (initial: Progress)
      ensures value == initial && version == 0 && history == [initial]
    {
      value, version := initial, 0;
      history := [initial];
    }

    method Send(progress: Progress)
      modifies this
      ensures value == progress && version == old(version) + 1 && history == old(history) + [progress]
    {
      value, version := progress, version + 1;
      history := history + [progress];
    }
  }

  /** The protocol state that a sequence of reader steps leads to, if each can be taken. */
  ghost function Replay(c: Config, events: seq<ReaderEvent>): Option<Producer> {
    if events == [] then Some(Init().p)
    else
      var last := events[|events| - 1];
      match Replay(c, events[..|events| - 1])
      case None => None
      case Some(p) => if ReaderCan(p, false, last) then Some(ReaderStep(c, p, last)) else None
  }

  lemma ReplayOneMore(c: Config, events: seq<ReaderEvent>, e: ReaderEvent)
    requires Replay(c, events).Some? && ReaderCan(Replay(c, events).value, false, e)
    ensures Replay(c, events + [e]) == Some(ReaderStep(c, Replay(c, events).value, e))
  {
    assert (events + [e])[..|events|] == events;
  }

  /** The task's memory is the reader side of the protocol after `events`, at its suspension point. */
  ghost predicate InStep(c: Config, events: seq<ReaderEvent>, output: SharedOutput, progress: WatchSender, read: Bytes)
    reads output, output.content, progress
  {
    && Replay(c, events).Some?
    && var p := Replay(c, events).value;
    && p.reader.AtRead? && p.read == read && !p.eof
    && p.shared == output.View() == OutputOf(c, read)
    && p.value == progress.value && p.version == progress.version
  }

  /** One turn of the reading loop: a chunk step and its publication. */
  method TakePiece(piece: Bytes, c: Config, matcher: TextMatcher, output: SharedOutput, progress: WatchSender,
                   ghost read: Bytes, ghost events: seq<ReaderEvent>)
    returns (ghost events': seq<ReaderEvent>)
    requires ValidConfig(c) && 0 < |piece| <= READ_SIZE
    requires InStep(c, events, output, progress, read)
    requires matcher.needles == c.needles && matcher.Tracks(output.content.bytes)
    modifies matcher, output, output.content, progress
    ensures events' == events + [Chunk(piece), Publish]
    ensures InStep(c, events', output, progress, read + piece)
    ensures matcher.Tracks(output.content.bytes)
    ensures progress.history == old(progress.history) + [ProgressOf(OutputOf(c, read + piece))]
  {
    AppendChunkIsOutputOf(c, read, piece, false);
    ReplayOneMore(c, events, Chunk(piece));
    ReplayOneMore(c, events + [Chunk(piece)], Publish);
    events' := events + [Chunk(piece)] + [Publish];
    var current := output.Append(c, matcher, piece);
    progress.Send(current);
    assert events' == events + [Chunk(piece), Publish];
  }

  /** After the end of the stream: mark the output complete, copy it, publish. */
  method AnnounceEnd(c: Config, output: SharedOutput, progress: WatchSender,
                     ghost read: Bytes, ghost events: seq<ReaderEvent>)
    returns (copy: BufferedOutput, ghost events': seq<ReaderEvent>)
    requires InStep(c, events, output, progress, read)
    modifies output, progress
    ensures copy == output.View() == OutputOf(c, read).(complete := true)
    ensures Replay(c, events').Some?
    ensures var p := Replay(c, events').value;
            && p.reader == Leaving(Output(copy)) && p.read == read
            && p.shared == output.View() && p.value == progress.value && p.version == progress.version
    ensures progress.history == old(progress.history) + [ProgressOf(copy)]
  {
    ReplayOneMore(c, events, EndOfStream);
    ReplayOneMore(c, events + [EndOfStream], Publish);
    events' := events + [EndOfStream] + [Publish];
    output.complete := true;
    copy := BufferedOutput(output.content.bytes, output.content.incomplete,
                           output.matched, output.limitReached, output.complete);
    progress.Send(Progress(copy.incomplete, copy.matched, copy.limitReached));
  }

  /** The reader task takes only steps of the protocol, in order; what it returns,
      shares and published is what a plain look at the stream gives. */
  method ReadLimitedWithSnapshots(reader: Pipe, c: Config, output: SharedOutput, progress: WatchSender)
    returns (r: Result<BufferedOutput, TaskResult>, ghost events: seq<ReaderEvent>)
    requires ValidConfig(c)
    requires reader.Valid() && reader.position == 0
    requires output.View() == EMPTY_OUTPUT
    requires progress.value == ProgressOf(EMPTY_OUTPUT) && progress.version == 0 && progress.history == [progress.value]
    modifies reader, output, output.content, progress
    ensures Replay(c, events).Some?
    ensures var p := Replay(c, events).value;
            && p.reader == Leaving(if r.Ok? then Output(r.value) else r.error) && p.read == Concat(reader.pieces)
            && p.shared == output.View() && p.value == progress.value && p.version == progress.version
    ensures r == if reader.broken then Err(ReadFailed) else Ok(OutputOf(c, Concat(reader.pieces)).(complete := true))
    ensures |progress.history| == |reader.pieces| + (if reader.broken then 1 else 2)
    ensures forall k | 0 <= k <= |reader.pieces| ::
              progress.history[k] == ProgressOf(OutputOf(c, Concat(reader.pieces[..k])))
  {
    var matcher := new TextMatcher(c.needles);
    events := [];
    InitInvariant(c);
    while true
      invariant reader.Valid()
      invariant InStep(c, events, output, progress, Concat(reader.pieces[..reader.position]))
      invariant matcher.needles == c.needles && matcher.Tracks(output.content.bytes)
      invariant |progress.history| == reader.position + 1
      invariant forall k | 0 <= k <= reader.position ::
                  progress.history[k] == ProgressOf(OutputOf(c, Concat(reader.pieces[..k])))
      decreases |reader.pieces| - reader.position
    {
      ghost var before := Concat(reader.pieces[..reader.position]);
      var read := reader.Read();
      if read.Err? {
        assert reader.pieces[..reader.position] == reader.pieces;
        ReplayOneMore(c, events, ReadError);
        return Err(read.error), events + [ReadError];
      }
      if read.value == [] {
        break;
      }
      events := TakePiece(read.value, c, matcher, output, progress, before, events);
    }
    assert reader.pieces[..reader.position] == reader.pieces;
    var copy;
    copy, events := AnnounceEnd(c, output, progress, Concat(reader.pieces), events);
    return Ok(copy), events;
  }
}
