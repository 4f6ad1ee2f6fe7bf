/** Framing of the daemon's Server-Sent Events (`sse_frames` in
    crates/fetchit-chat/src/events.rs): lines and frames over arbitrary chunks,
    and the stack through which completed frames are handed out. */
module EventStream {
  import opened WhiteSpace

  datatype Frame = Frame(event: string, data: string)

  const BLANK := Frame("", "")

  predicate HasContent(f: Frame) { f.event != [] || f.data != [] }

  // ------------------------------------------------------------------- lines

  /** Position of the first newline, or the length when there is none. */
  function NewlineAt(s: string): (i: nat)
    ensures i <= |s|
    ensures forall k :: 0 <= k < i ==> s[k] != '\n'
    ensures i < |s| ==> s[i] == '\n'
  {
    if s == [] || s[0] == '\n' then 0 else NewlineAt(s[1..]) + 1
  }

  function TrimCr(s: string): string {
    if s != [] && s[|s| - 1] == '\r' then TrimCr(s[..|s| - 1]) else s
  }

  predicate HasPrefix(s: string, p: string) { |p| <= |s| && s[..|p|] == p }

  /** The frame under construction after one line. */
  function AfterLine(cur: Frame, raw: string): Frame {
    var line := TrimCr(raw);
    if line == [] then BLANK
    else if HasPrefix(line, "event:") then cur.(event := Trim(line[6..]))
    else if HasPrefix(line, "data:") then
      cur.(data := (if cur.data != [] then cur.data + "\n" else cur.data) + TrimStart(line[5..]))
    else cur
  }

  /** The frame a line completes, if any. */
  function Completes(cur: Frame, raw: string): seq<Frame> {
    if TrimCr(raw) == [] && HasContent(cur) then [cur] else []
  }

  // ----------------------------------------------------------------- scanning

  datatype Scanned = Scanned(buf: string, cur: Frame, frames: seq<Frame>)

  /** Consume every complete line of `s`. */
  function Scan(s: string, cur: Frame): Scanned
    decreases |s|
  {
    var i := NewlineAt(s);
    if i == |s| then Scanned(s, cur, [])
    else
      var rest := Scan(s[i + 1..], AfterLine(cur, s[..i]));
      rest.(frames := Completes(cur, s[..i]) + rest.frames)
  }

  lemma ScanStep(s: string, cur: Frame, i: nat)
    requires i < |s| && s[i] == '\n' && forall k :: 0 <= k < i ==> s[k] != '\n'
    ensures var rest := Scan(s[i + 1..], AfterLine(cur, s[..i]));
            Scan(s, cur) == rest.(frames := Completes(cur, s[..i]) + rest.frames)
  {
    assert NewlineAt(s) == i;
  }

  lemma ScanNone(s: string, cur: Frame)
    requires NewlineAt(s) == |s|
    ensures Scan(s, cur) == Scanned(s, cur, [])
  {
  }

  /** Cutting the text anywhere changes nothing but when frames complete. */
  lemma {:induction false} ScanConcat(a: string, b: string, cur: Frame)
    ensures var first := Scan(a, cur); var second := Scan(first.buf + b, first.cur);
            Scan(a + b, cur) == second.(frames := first.frames + second.frames)
    decreases |a|
  {
    hide Scan, AfterLine, Completes;
    var i := NewlineAt(a);
    if i == |a| {
      ScanNone(a, cur);
      assert [] + Scan(a + b, cur).frames == Scan(a + b, cur).frames;
    } else {
      var next := AfterLine(cur, a[..i]);
      ScanConcat(a[i + 1..], b, next);
      assert (a + b)[i + 1..] == a[i + 1..] + b && (a + b)[..i] == a[..i];
      ScanStep(a + b, cur, i);
      ScanStep(a, cur, i);
    }
  }

  // ------------------------------------------------- reference: line by line

  /** The complete lines of a text. */
  function Lines(s: string): seq<string>
    decreases |s|
  {
    var i := NewlineAt(s);
    if i == |s| then [] else [s[..i]] + Lines(s[i + 1..])
  }

  /** What follows the last newline. */
  function Unfinished(s: string): string
    decreases |s|
  {
    var i := NewlineAt(s);
    if i == |s| then s else Unfinished(s[i + 1..])
  }

  function FrameAfter(cur: Frame, lines: seq<string>): Frame {
    if lines == [] then cur else AfterLine(FrameAfter(cur, lines[..|lines| - 1]), lines[|lines| - 1])
  }

  function FramesOf(cur: Frame, lines: seq<string>): seq<Frame> {
    if lines == [] then []
    else FramesOf(cur, lines[..|lines| - 1]) + Completes(FrameAfter(cur, lines[..|lines| - 1]), lines[|lines| - 1])
  }

  lemma {:induction false} FoldCons(cur: Frame, line: string, lines: seq<string>)
    ensures FrameAfter(cur, [line] + lines) == FrameAfter(AfterLine(cur, line), lines)
    ensures FramesOf(cur, [line] + lines) == Completes(cur, line) + FramesOf(AfterLine(cur, line), lines)
  {
    hide AfterLine, Completes;
    var all := [line] + lines;
    if lines == [] {
      assert all == [line] && all[..0] == [];
      assert FrameAfter(cur, all[..0]) == cur;
    } else {
      var n := |lines| - 1;
      assert all[..|all| - 1] == [line] + lines[..n] && all[|all| - 1] == lines[n];
      FoldCons(cur, line, lines[..n]);
    }
  }

  /** Scanning is splitting into lines and folding the lines into frames. */
  lemma {:induction false} ScanIsLineFold(s: string, cur: Frame)
    ensures Scan(s, cur) == Scanned(Unfinished(s), FrameAfter(cur, Lines(s)), FramesOf(cur, Lines(s)))
    decreases |s|
  {
    var i := NewlineAt(s);
    if i < |s| {
      ScanIsLineFold(s[i + 1..], AfterLine(cur, s[..i]));
      FoldCons(cur, s[..i], Lines(s[i + 1..]));
    }
  }

  // ------------------------------------------------------------------ chunks

  function Concat(cs: seq<string>): string {
    if cs == [] then "" else Concat(cs[..|cs| - 1]) + cs[|cs| - 1]
  }

  /** The reader after the chunks, with the frames completed so far in order. */
  function AfterChunks(cs: seq<string>): Scanned {
    if cs == [] then Scanned("", BLANK, [])
    else
      var before := AfterChunks(cs[..|cs| - 1]);
      var now := Scan(before.buf + cs[|cs| - 1], before.cur);
      now.(frames := before.frames + now.frames)
  }

  /** Completed frames and final state depend only on the text received, not on
      how it was cut. */
  lemma {:induction false} ChunkingIndependent(cs: seq<string>)
    ensures AfterChunks(cs) == Scan(Concat(cs), BLANK)
  {
    if cs != [] {
      ChunkingIndependent(cs[..|cs| - 1]);
      ScanConcat(Concat(cs[..|cs| - 1]), cs[|cs| - 1], BLANK);
    }
  }

  lemma SameTextSameFrames(cs: seq<string>, ds: seq<string>)
    requires Concat(cs) == Concat(ds)
    ensures AfterChunks(cs) == AfterChunks(ds)
  {
    ChunkingIndependent(cs);
    ChunkingIndependent(ds);
  }

  // --------------------------------------------------------------- hand-out

  function Reverse(s: seq<Frame>): (r: seq<Frame>)
    ensures |r| == |s|
  {
    if s == [] then [] else Reverse(s[1..]) + [s[0]]
  }

  lemma {:induction false} ReverseAt(s: seq<Frame>, i: nat)
    requires i < |s|
    ensures Reverse(s)[i] == s[|s| - 1 - i]
  {
    if i < |s| - 1 {
      ReverseAt(s[1..], i);
    }
  }

  lemma {:induction false} ReverseSnoc(s: seq<Frame>, f: Frame)
    ensures Reverse(s + [f]) == [f] + Reverse(s)
  {
    if s != [] {
      ReverseSnoc(s[1..], f);
      assert (s + [f])[1..] == s[1..] + [f];
    }
  }

  /** Frames completed by the last of these chunks. */
  function ByLastChunk(cs: seq<string>): seq<Frame>
    requires cs != []
  {
    var before := AfterChunks(cs[..|cs| - 1]);
    Scan(before.buf + cs[|cs| - 1], before.cur).frames
  }

  /** The stream as handed out: within each chunk, newest frame first. */
  function HandedOut(cs: seq<string>): seq<Frame> {
    if cs == [] then [] else HandedOut(cs[..|cs| - 1]) + Reverse(ByLastChunk(cs))
  }

  lemma {:induction false} ReversePermutes(s: seq<Frame>)
    ensures multiset(Reverse(s)) == multiset(s)
  {
    if s != [] {
      ReversePermutes(s[1..]);
      assert s == [s[0]] + s[1..];
    }
  }

  /** No frame is lost, added or doubled by the hand-out. */
  lemma {:induction false} HandOutPermutes(cs: seq<string>)
    ensures multiset(HandedOut(cs)) == multiset(AfterChunks(cs).frames)
    ensures |HandedOut(cs)| == |AfterChunks(cs).frames|
  {
    if cs != [] {
      HandOutPermutes(cs[..|cs| - 1]);
      ReversePermutes(ByLastChunk(cs));
      assert AfterChunks(cs).frames == AfterChunks(cs[..|cs| - 1]).frames + ByLastChunk(cs);
    }
  }

  /** Every chunk's completed frames read the same backwards. */
  ghost predicate EachChunkSymmetric(cs: seq<string>) {
    forall k :: 0 < k <= |cs| ==> Reverse(ByLastChunk(cs[..k])) == ByLastChunk(cs[..k])
  }

  /** Frames come out in arrival order exactly when each chunk's frames read the
      same backwards, as they do when no chunk completes two. */
  lemma {:induction false} InOrderIff(cs: seq<string>)
    ensures HandedOut(cs) == AfterChunks(cs).frames <==> EachChunkSymmetric(cs)
  {
    if cs != [] {
      var n := |cs| - 1;
      var front := cs[..n];
      InOrderIff(front);
      HandOutPermutes(front);
      assert cs[..|cs|] == cs;
      SymmetricSnoc(cs);
      var a, b := HandedOut(front), Reverse(ByLastChunk(cs));
      var c, d := AfterChunks(front).frames, ByLastChunk(cs);
      SplitEqual(a, b, c, d);
    }
  }

  lemma SymmetricSnoc(cs: seq<string>)
    requires cs != []
    ensures EachChunkSymmetric(cs) <==> EachChunkSymmetric(cs[..|cs| - 1]) && Reverse(ByLastChunk(cs)) == ByLastChunk(cs)
  {
    hide ByLastChunk, Reverse;
    var front := cs[..|cs| - 1];
    assert cs[..|cs|] == cs;
    assert forall k :: 0 < k <= |front| ==> front[..k] == cs[..k];
  }

  lemma SplitEqual(a: seq<Frame>, b: seq<Frame>, c: seq<Frame>, d: seq<Frame>)
    requires |a| == |c|
    ensures a + b == c + d <==> a == c && b == d
  {
    if a + b == c + d {
      assert a == (a + b)[..|a|] && c == (c + d)[..|c|];
      assert b == (a + b)[|a|..] && d == (c + d)[|c|..];
    }
  }

  /** When some chunk's first and last completed frames differ, order is lost. */
  lemma DifferentEndsReorder(cs: seq<string>, k: nat)
    requires 0 < k <= |cs|
    requires var fs := ByLastChunk(cs[..k]); fs != [] && fs[0] != fs[|fs| - 1]
    ensures HandedOut(cs) != AfterChunks(cs).frames
  {
    hide ByLastChunk, HandedOut, AfterChunks;
    InOrderIff(cs);
    var fs := ByLastChunk(cs[..k]);
    ReverseAt(fs, 0);
    assert Reverse(fs) != fs;
  }

  lemma AtMostOnePerChunk(cs: seq<string>)
    requires forall k :: 0 < k <= |cs| ==> |ByLastChunk(cs[..k])| <= 1
    ensures HandedOut(cs) == AfterChunks(cs).frames
  {
    forall k | 0 < k <= |cs| ensures Reverse(ByLastChunk(cs[..k])) == ByLastChunk(cs[..k]) {
      var fs := ByLastChunk(cs[..k]);
      assert |fs| <= 1;
      if |fs| == 1 {
        ReverseAt(fs, 0);
        assert Reverse(fs) == fs;
      }
    }
    InOrderIff(cs);
  }

  // -------------------------------------------------- a condition on the text

  /** Blank lines among the complete lines of a text. */
  function BlankLines(s: string): nat
    decreases |s|
  {
    var i := NewlineAt(s);
    if i == |s| then 0 else (if TrimCr(s[..i]) == [] then 1 else 0) + BlankLines(s[i + 1..])
  }

  /** Only a blank line completes a frame. */
  lemma {:induction false} FramesNeedBlanks(s: string, cur: Frame)
    ensures |Scan(s, cur).frames| <= BlankLines(s)
    decreases |s|
  {
    hide AfterLine, TrimCr;
    var i := NewlineAt(s);
    if i < |s| {
      FramesNeedBlanks(s[i + 1..], AfterLine(cur, s[..i]));
    }
  }

  lemma {:induction false} TrimCrTail(a: string, b: string)
    requires TrimCr(a + b) == []
    ensures TrimCr(b) == []
    decreases |b|
  {
    if b != [] {
      assert (a + b)[..|a + b| - 1] == a + b[..|b| - 1];
      TrimCrTail(a, b[..|b| - 1]);
    }
  }

  lemma NewlineBehind(buf: string, s: string)
    requires NewlineAt(buf) == |buf|
    ensures NewlineAt(buf + s) == |buf| + NewlineAt(s)
  {
    var i := NewlineAt(buf + s);
    assert forall k :: 0 <= k < |s| ==> (buf + s)[|buf| + k] == s[k];
    assert i >= |buf|;
    assert |buf| + NewlineAt(s) < |buf + s| ==> (buf + s)[|buf| + NewlineAt(s)] == '\n';
  }

  /** What was left of an earlier line adds no blank line to a chunk. */
  lemma BufferAddsNoBlank(buf: string, s: string)
    requires NewlineAt(buf) == |buf|
    ensures BlankLines(buf + s) <= BlankLines(s)
  {
    hide NewlineAt, TrimCr;
    NewlineBehind(buf, s);
    var i := NewlineAt(s);
    if i < |s| {
      assert (buf + s)[..|buf| + i] == buf + s[..i] && (buf + s)[|buf| + i + 1..] == s[i + 1..];
      if TrimCr(buf + s[..i]) == [] {
        TrimCrTail(buf, s[..i]);
      }
    }
  }

  lemma {:induction false} ScanLeavesNoNewline(s: string, cur: Frame)
    ensures NewlineAt(Scan(s, cur).buf) == |Scan(s, cur).buf|
    decreases |s|
  {
    hide AfterLine, Completes;
    var i := NewlineAt(s);
    if i < |s| {
      ScanLeavesNoNewline(s[i + 1..], AfterLine(cur, s[..i]));
    }
  }

  lemma BufferHasNoNewline(cs: seq<string>)
    ensures NewlineAt(AfterChunks(cs).buf) == |AfterChunks(cs).buf|
  {
    if cs != [] {
      var before := AfterChunks(cs[..|cs| - 1]);
      ScanLeavesNoNewline(before.buf + cs[|cs| - 1], before.cur);
    }
  }

  lemma ChunkCompletesFew(cs: seq<string>)
    requires cs != []
    ensures |ByLastChunk(cs)| <= BlankLines(cs[|cs| - 1])
  {
    hide Scan, AfterChunks;
    var before := AfterChunks(cs[..|cs| - 1]);
    BufferHasNoNewline(cs[..|cs| - 1]);
    FramesNeedBlanks(before.buf + cs[|cs| - 1], before.cur);
    BufferAddsNoBlank(before.buf, cs[|cs| - 1]);
  }

  /** If no chunk's own text has two blank lines, frames come out in order. */
  lemma FewBlanksKeepOrder(cs: seq<string>)
    requires forall i :: 0 <= i < |cs| ==> BlankLines(cs[i]) <= 1
    ensures HandedOut(cs) == AfterChunks(cs).frames
  {
    hide ByLastChunk, HandedOut, AfterChunks, BlankLines;
    forall k | 0 < k <= |cs| ensures |ByLastChunk(cs[..k])| <= 1 {
      ChunkCompletesFew(cs[..k]);
      assert cs[..k][k - 1] == cs[k - 1];
    }
    AtMostOnePerChunk(cs);
  }

  // ------------------------------------------------------------ simple frames

  /** Data that a line carries unchanged. */
  predicate Plain(x: string) { x != [] && '\n' !in x && x[|x| - 1] != '\r' && !IsWhite(x[0]) }

  /** A frame with one data line. */
  function Block(x: string): string { "data:" + x + "\n\n" }

  lemma PlainLine(x: string)
    requires Plain(x)
    ensures AfterLine(BLANK, "data:" + x) == Frame("", x) && Completes(BLANK, "data:" + x) == []
  {
    var line := "data:" + x;
    assert line[|line| - 1] == x[|x| - 1];
    assert TrimCr(line) == line && line[..5] == "data:" && line[5..] == x && line[0] == 'd';
    assert !HasPrefix(line, "event:");
    assert TrimStart(x) == x;
    assert "" + x == x;
  }

  lemma BlockScans(x: string, rest: string)
    requires Plain(x)
    ensures Scan(Block(x) + rest, BLANK) == Scan(rest, BLANK).(frames := [Frame("", x)] + Scan(rest, BLANK).frames)
  {
    hide Scan, AfterLine, Completes;
    var s := Block(x) + rest;
    var n := 5 + |x|;
    assert s[..n] == "data:" + x && s[n] == '\n' && s[n + 1..] == "\n" + rest;
    forall k | 0 <= k < n ensures s[k] != '\n' {
      assert s[k] == if k < 5 then "data:"[k] else x[k - 5];
    }
    ScanStep(s, BLANK, n);
    PlainLine(x);
    var s' := "\n" + rest;
    assert s'[..0] == [] && s'[1..] == rest;
    ScanStep(s', Frame("", x), 0);
    BlankLine(Frame("", x));
  }

  lemma BlankLine(f: Frame)
    requires HasContent(f)
    ensures AfterLine(f, []) == BLANK && Completes(f, []) == [f]
  {
  }

  /** Two frames in one chunk come out in the wrong order. */
  lemma TwoInOneChunk(x: string, y: string)
    requires Plain(x) && Plain(y)
    ensures AfterChunks([Block(x) + Block(y)]).frames == [Frame("", x), Frame("", y)]
    ensures HandedOut([Block(x) + Block(y)]) == [Frame("", y), Frame("", x)]
  {
    hide Scan, Block;
    var cs := [Block(x) + Block(y)];
    BlockScans(x, Block(y));
    BlockScans(y, "");
    assert Block(y) + "" == Block(y);
    ScanNone("", BLANK);
    assert cs[..0] == [];
    var fs := ByLastChunk(cs);
    assert "" + cs[0] == cs[0];
    assert fs == [Frame("", x), Frame("", y)];
    ReverseAt(fs, 0);
    ReverseAt(fs, 1);
    assert Reverse(fs) == [Frame("", y), Frame("", x)];
  }
}
