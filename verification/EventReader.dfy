/** `sse_frames` as a pull stream: a byte source, a line buffer, a frame under
    construction and a stack of completed frames. */
module EventReader {
  import opened Basics
  import opened EventStream
  import opened Utf8
  import opened WhiteSpace

  /** What the source yields: bytes, or a transport error. */
  datatype Chunk = Bytes(bs: seq<Byte>) | Broken

  datatype Item = Event(frame: Frame) | TransportError | NotUtf8

  /** The text of a chunk, decoded by itself. */
  function TextOf(c: Chunk): Option<string> { if c.Bytes? then Decode(c.bs) else None }

  function ErrorOf(c: Chunk): Item { if c.Bytes? then NotUtf8 else TransportError }

  function Events(fs: seq<Frame>): (r: seq<Item>)
    ensures |r| == |fs|
    ensures forall i :: 0 <= i < |fs| ==> r[i] == Event(fs[i])
  {
    seq(|fs|, i requires 0 <= i < |fs| => Event(fs[i]))
  }

  /** Everything the stream still yields from this state. */
  function Output(source: seq<Chunk>, buf: string, cur: Frame, pending: seq<Frame>): seq<Item>
    decreases |source|
  {
    Events(Reverse(pending)) +
    if source == [] then (if HasContent(cur) then [Event(cur)] else [])
    else match TextOf(source[0])
         case None => [ErrorOf(source[0])] + Output(source[1..], buf, cur, [])
         case Some(t) =>
           var now := Scan(buf + t, cur);
           Output(source[1..], now.buf, now.cur, now.frames)
  }

  lemma EventsPop(pending: seq<Frame>)
    requires pending != []
    ensures var n := |pending| - 1;
            Events(Reverse(pending)) == [Event(pending[n])] + Events(Reverse(pending[..n]))
  {
    hide Reverse, Events;
    var front, last := pending[..|pending| - 1], pending[|pending| - 1];
    assert pending == front + [last];
    ReverseSnoc(front, last);
    EventsConcat([last], Reverse(front));
    EventsOne(last);
  }

  lemma EventsOne(f: Frame)
    ensures Events([f]) == [Event(f)]
  {
  }

  lemma EventsConcat(a: seq<Frame>, b: seq<Frame>)
    ensures Events(a) + Events(b) == Events(a + b)
  {
  }

  lemma NoPending(source: seq<Chunk>, buf: string, cur: Frame, pending: seq<Frame>)
    ensures Output(source, buf, cur, pending) == Events(Reverse(pending)) + Output(source, buf, cur, [])
    ensures Reverse([]) == [] && Events([]) == []
  {
    hide Scan, TextOf;
    assert Events(Reverse([])) == [];
  }

  lemma PopPending(source: seq<Chunk>, buf: string, cur: Frame, pending: seq<Frame>)
    requires pending != []
    ensures var n := |pending| - 1;
            Output(source, buf, cur, pending) == [Event(pending[n])] + Output(source, buf, cur, pending[..n])
  {
    hide Output, Events, Reverse;
    NoPending(source, buf, cur, pending);
    NoPending(source, buf, cur, pending[..|pending| - 1]);
    EventsPop(pending);
  }

  lemma AtEnd(buf: string, cur: Frame)
    ensures Output([], buf, cur, []) == if HasContent(cur) then [Event(cur)] else []
  {
    assert Events(Reverse([])) == [];
  }

  lemma AtChunk(source: seq<Chunk>, buf: string, cur: Frame)
    requires source != []
    ensures TextOf(source[0]).None? ==> Output(source, buf, cur, []) == [ErrorOf(source[0])] + Output(source[1..], buf, cur, [])
    ensures TextOf(source[0]).Some? ==>
              var now := Scan(buf + TextOf(source[0]).value, cur);
              Output(source, buf, cur, []) == Output(source[1..], now.buf, now.cur, now.frames)
  {
    hide Scan, TextOf;
    assert Events(Reverse([])) == [];
  }

  // -------------------------------------------------- the stream as a whole

  function Trailing(cur: Frame): seq<Frame> { if HasContent(cur) then [cur] else [] }

  /** The texts of the chunks that could be read and decoded. */
  function Accepted(source: seq<Chunk>): seq<string> {
    if source == [] then []
    else
      var front, t := Accepted(source[..|source| - 1]), TextOf(source[|source| - 1]);
      if t.Some? then front + [t.value] else front
  }

  function FramesIn(items: seq<Item>): seq<Frame> {
    if items == [] then []
    else (if items[0].Event? then [items[0].frame] else []) + FramesIn(items[1..])
  }

  lemma {:induction false} FramesInConcat(a: seq<Item>, b: seq<Item>)
    ensures FramesIn(a + b) == FramesIn(a) + FramesIn(b)
  {
    if a == [] {
      assert a + b == b;
    } else {
      FramesInConcat(a[1..], b);
      assert (a + b)[1..] == a[1..] + b;
    }
  }

  lemma {:induction false} FramesInEvents(fs: seq<Frame>)
    ensures FramesIn(Events(fs)) == fs
  {
    if fs != [] {
      FramesInEvents(fs[1..]);
      assert Events(fs)[1..] == Events(fs[1..]);
    }
  }

  lemma FramesInError(e: Item, rest: seq<Item>)
    requires !e.Event?
    ensures FramesIn([e] + rest) == FramesIn(rest)
  {
    assert ([e] + rest)[1..] == rest;
  }

  lemma HandOutSnoc(cs: seq<string>, t: string)
    ensures var s := AfterChunks(cs); var now := Scan(s.buf + t, s.cur);
            && AfterChunks(cs + [t]).buf == now.buf && AfterChunks(cs + [t]).cur == now.cur
            && HandedOut(cs + [t]) == HandedOut(cs) + Reverse(now.frames)
  {
    hide Scan, Reverse;
    assert (cs + [t])[..|cs|] == cs;
  }

  /** The frames of the output of one readable chunk and what follows. */
  lemma FramesOfChunk(source: seq<Chunk>, buf: string, cur: Frame)
    requires source != [] && TextOf(source[0]).Some?
    ensures var now := Scan(buf + TextOf(source[0]).value, cur);
            FramesIn(Output(source, buf, cur, [])) == Reverse(now.frames) + FramesIn(Output(source[1..], now.buf, now.cur, []))
  {
    hide *;
    var now := Scan(buf + TextOf(source[0]).value, cur);
    AtChunk(source, buf, cur);
    NoPending(source[1..], now.buf, now.cur, now.frames);
    FramesInConcat(Events(Reverse(now.frames)), Output(source[1..], now.buf, now.cur, []));
    FramesInEvents(Reverse(now.frames));
  }

  lemma AcceptedSnoc(source: seq<Chunk>, k: nat)
    requires k < |source|
    ensures Accepted(source[..k + 1]) ==
            if TextOf(source[k]).Some? then Accepted(source[..k]) + [TextOf(source[k]).value] else Accepted(source[..k])
  {
    hide TextOf;
    assert source[..k + 1][..k] == source[..k];
  }

  lemma FramesAtEnd(buf: string, cur: Frame)
    ensures FramesIn(Output([], buf, cur, [])) == Trailing(cur)
  {
    AtEnd(buf, cur);
    hide Output;
    FramesInEvents(Trailing(cur));
    assert Events(Trailing(cur)) == if HasContent(cur) then [Event(cur)] else [];
  }

  /** The reader has taken the first `k` chunks. */
  lemma {:induction false} FramesFrom(source: seq<Chunk>, k: nat)
    requires k <= |source|
    ensures var cs, all := Accepted(source[..k]), Accepted(source);
            var s := AfterChunks(cs);
            HandedOut(cs) + FramesIn(Output(source[k..], s.buf, s.cur, [])) == HandedOut(all) + Trailing(AfterChunks(all).cur)
    decreases |source| - k
  {
    hide *;
    var cs := Accepted(source[..k]);
    var s := AfterChunks(cs);
    if k == |source| {
      assert source[..k] == source && source[k..] == [];
      FramesAtEnd(s.buf, s.cur);
    } else {
      FramesFrom(source, k + 1);
      AcceptedSnoc(source, k);
      var tail := source[k..];
      assert tail[0] == source[k] && tail[1..] == source[k + 1..];
      if TextOf(source[k]).Some? {
        FramesOfChunk(tail, s.buf, s.cur);
        HandOutSnoc(cs, TextOf(source[k]).value);
      } else {
        AtChunk(tail, s.buf, s.cur);
        ErrorIsNoEvent(source[k]);
        FramesInError(ErrorOf(source[k]), Output(source[k + 1..], s.buf, s.cur, []));
      }
    }
  }

  lemma ErrorIsNoEvent(c: Chunk)
    ensures !ErrorOf(c).Event?
  {
  }

  /** Whatever the source yields, the frames that come out are: for each chunk
      that could be read and decoded, the frames it completed newest first, then
      the frame left open at the end, if it has content. */
  lemma StreamIsPerChunkReversal(source: seq<Chunk>)
    ensures var texts := Accepted(source);
            FramesIn(Output(source, "", BLANK, [])) == HandedOut(texts) + Trailing(Scan(Concat(texts), BLANK).cur)
  {
    hide Scan, HandedOut, Output, AfterChunks, FramesIn;
    FramesFrom(source, 0);
    ChunkingIndependent(Accepted(source));
    assert source[..0] == [] && source[0..] == source;
    NothingYet();
  }

  lemma NothingYet()
    ensures AfterChunks([]) == Scanned("", BLANK, []) && HandedOut([]) == [] && Accepted([]) == []
  {
  }

  /** A chunk that cannot be read or decoded yields an error in its place, and
      its bytes are gone; the line and the frame under construction survive. */
  lemma ErrorsAreTransparent(source: seq<Chunk>, c: Chunk, buf: string, cur: Frame)
    requires TextOf(c).None?
    ensures Output([c] + source, buf, cur, []) == [if c.Broken? then TransportError else NotUtf8] + Output(source, buf, cur, [])
  {
    hide Output;
    assert ([c] + source)[1..] == source;
    AtChunk([c] + source, buf, cur);
  }

  /** Text behind the last newline is never handed out, not even at the end. */
  lemma UnterminatedLineIsDropped(buf: string, cur: Frame, tail: seq<Byte>)
    requires Valid(tail) && NewlineAt(buf + Decode(tail).value) == |buf + Decode(tail).value|
    ensures Output([Bytes(tail)], buf, cur, []) == Output([], buf, cur, [])
  {
    hide Output, NewlineAt;
    ScanNone(buf + Decode(tail).value, cur);
    AtChunk([Bytes(tail)], buf, cur);
    assert [Bytes(tail)][1..] == [];
    AtEnd(buf, cur);
    AtEnd(buf + Decode(tail).value, cur);
  }

  // ---------------------------------------------------------- cutting the bytes

  function AllBytes(cs: seq<seq<Byte>>): seq<Chunk> {
    seq(|cs|, i requires 0 <= i < |cs| => Bytes(cs[i]))
  }

  lemma {:induction false} AcceptedIsTaken(cs: seq<seq<Byte>>)
    ensures Concat(Accepted(AllBytes(cs))) == TextTaken(cs)
  {
    hide Decode;
    if cs != [] {
      var n := |cs| - 1;
      AcceptedIsTaken(cs[..n]);
      assert AllBytes(cs)[..n] == AllBytes(cs[..n]) && cs == cs[..n] + [cs[n]];
      TextTakenSnoc(cs[..n], cs[n]);
      var texts := Accepted(AllBytes(cs[..n]));
      if Valid(cs[n]) {
        assert (texts + [Decode(cs[n]).value])[..|texts|] == texts;
      }
    }
  }

  /** For every cutting of a stream of valid UTF-8, the reader gets hold of the
      whole text exactly when no chunk begins inside a character. */
  lemma WholeTextIff(cs: seq<seq<Byte>>)
    requires Valid(Joined(cs))
    ensures Concat(Accepted(AllBytes(cs))) == Decode(Joined(cs)).value <==> NoneBeginsInside(cs)
  {
    hide Decode, Concat, Accepted;
    AcceptedIsTaken(cs);
    TakenWholeIff(cs);
  }

  /** Then the completed frames, the open frame and the open line are those of
      the whole text, so they do not depend on the cutting. */
  lemma ByteChunkingIndependent(cs: seq<seq<Byte>>)
    requires Valid(Joined(cs)) && NoneBeginsInside(cs)
    ensures AfterChunks(Accepted(AllBytes(cs))) == Scan(Decode(Joined(cs)).value, BLANK)
  {
    hide Decode, Concat, Accepted, AfterChunks, Scan;
    WholeTextIff(cs);
    ChunkingIndependent(Accepted(AllBytes(cs)));
  }

  lemma SameBytesSameFrames(cs: seq<seq<Byte>>, ds: seq<seq<Byte>>)
    requires Joined(cs) == Joined(ds) && Valid(Joined(cs)) && NoneBeginsInside(cs) && NoneBeginsInside(ds)
    ensures AfterChunks(Accepted(AllBytes(cs))) == AfterChunks(Accepted(AllBytes(ds)))
  {
    ByteChunkingIndependent(cs);
    ByteChunkingIndependent(ds);
  }

  /** A cut inside a character fails both chunks and loses the text of both. */
  lemma CutInsideLosesBoth(a: seq<Byte>, b: seq<Byte>)
    requires Valid(a + b) && b != [] && IsContinuation(b[0])
    ensures Output([Bytes(a), Bytes(b)], "", BLANK, []) == [NotUtf8, NotUtf8]
  {
    hide Output, Decode;
    CutIff(a, b);
    var source := [Bytes(a), Bytes(b)];
    AtChunk(source, "", BLANK);
    assert source[1..] == [Bytes(b)];
    AtChunk([Bytes(b)], "", BLANK);
    assert [Bytes(b)][1..] == [];
    AtEnd("", BLANK);
  }

  const E_ACUTE: string := "\U{E9}"

  /** The bytes of a frame whose data is that letter, cut between its two bytes. */
  lemma EAcuteBytes()
    ensures Encode(Block(E_ACUTE)) == (Encode("data:") + [0xC3]) + ([0xA9] + Encode("\n\n"))
    ensures IsContinuation(0xA9) && Plain(E_ACUTE)
  {
    EncodeConcat("data:" + E_ACUTE, "\n\n");
    EncodeConcat("data:", E_ACUTE);
    assert EncodeChar(E_ACUTE[0]) == [0xC3, 0xA9];
    assert Encode(E_ACUTE) == [0xC3, 0xA9] by {
      assert E_ACUTE[1..] == [];
    }
  }

  /** One frame with a non-ASCII letter: whole it is an event, cut between the two
      bytes of the letter it is two errors and no event. */
  lemma CutLetterLosesFrame()
    ensures var a, b := Encode("data:") + [0xC3], [0xA9] + Encode("\n\n");
            && Output([Bytes(a + b)], "", BLANK, []) == [Event(Frame("", E_ACUTE))]
            && Output([Bytes(a), Bytes(b)], "", BLANK, []) == [NotUtf8, NotUtf8]
  {
    hide Output, Decode, Encode, Scan, Block;
    var a, b := Encode("data:") + [0xC3], [0xA9] + Encode("\n\n");
    EAcuteBytes();
    DecodeEncode(Block(E_ACUTE));
    CutInsideLosesBoth(a, b);
    OneFrame(a + b, E_ACUTE);
  }

  lemma OneFrame(bs: seq<Byte>, x: string)
    requires Decode(bs) == Some(Block(x)) && Plain(x)
    ensures Output([Bytes(bs)], "", BLANK, []) == [Event(Frame("", x))]
  {
    hide Output, Decode, Scan, Block, Plain, Reverse;
    var f := Frame("", x);
    AtChunk([Bytes(bs)], "", BLANK);
    assert [Bytes(bs)][1..] == [] && "" + Block(x) == Block(x) && Block(x) + "" == Block(x);
    BlockScans(x, "");
    ScanNone("", BLANK);
    assert [f] + [] == [f];
    PopPending([], "", BLANK, [f]);
    AtEnd("", BLANK);
    assert [f][..0] == [];
  }

  // --------------------------------------------------------------- the reader

  class Reader {
    var source: seq<Chunk>
    var buf: string
    var cur: Frame
    var pending: seq<Frame>

    constructor (chunks: seq<Chunk>)
      ensures source == chunks && buf == "" && cur == BLANK && pending == []
    {
      source, buf, cur, pending := chunks, "", BLANK, [];
    }

    ghost function Rest(): seq<Item>
      reads this
    {
      Output(source, buf, cur, pending)
    }

    /** One `poll` of the stream. */
    method Next() returns (item: Option<Item>)
      modifies this
      ensures item.None? ==> old(Rest()) == [] && Rest() == []
      ensures item.Some? ==> old(Rest()) == [item.value] + Rest()
    {
      hide Scan, Output, Decode;
      while true
        invariant Rest() == old(Rest())
        decreases |source|
      {
        if pending != [] {
          PopPending(source, buf, cur, pending);
          var f := pending[|pending| - 1];
          pending := pending[..|pending| - 1];
          return Some(Event(f));
        }
        if source == [] {
          AtEnd(buf, cur);
          if HasContent(cur) {
            var f := cur;
            cur := BLANK;
            AtEnd(buf, cur);
            return Some(Event(f));
          }
          return None;
        }
        AtChunk(source, buf, cur);
        var chunk := source[0];
        source := source[1..];
        if chunk.Broken? {
          return Some(TransportError);
        }
        var text := Decode(chunk.bs);
        if text.None? {
          return Some(NotUtf8);
        }
        TakeText(text.value);
      }
    }

    /** Append a chunk and consume its complete lines. */
    method TakeText(text: string)
      requires pending == []
      modifies this`buf, this`cur, this`pending
      ensures Scanned(buf, cur, pending) == Scan(old(buf) + text, old(cur))
    {
      hide AfterLine, Scan, NewlineAt, Completes;
      buf := buf + text;
      ghost var whole, start := buf, cur;
      var i := NewlineAt(buf);
      while i < |buf|
        invariant i == NewlineAt(buf)
        invariant Scan(whole, start) == Scan(buf, cur).(frames := pending + Scan(buf, cur).frames)
        decreases |buf|
      {
        ScanStep(buf, cur, i);
        var line := buf[..i];
        buf := buf[i + 1..];
        TakeLine(line);
        i := NewlineAt(buf);
      }
      ScanNone(buf, cur);
    }

    /** One line: a blank one completes the frame under construction. */
    method TakeLine(raw: string)
      modifies this`cur, this`pending
      ensures cur == AfterLine(old(cur), raw)
      ensures pending == old(pending) + Completes(old(cur), raw)
    {
      var line := TrimCr(raw);
      if line == [] {
        if HasContent(cur) {
          pending := pending + [cur];
          cur := BLANK;
        }
      } else if HasPrefix(line, "event:") {
        cur := cur.(event := Trim(line[6..]));
      } else if HasPrefix(line, "data:") {
        var data := cur.data;
        if data != [] {
          data := data + "\n";
        }
        cur := cur.(data := data + TrimStart(line[5..]));
      }
    }
  }
}
