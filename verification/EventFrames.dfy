/** What a block of lines up to a blank one says, and that the reader hands out
    exactly that (`sse_frames` in crates/fetchit-chat/src/events.rs). */
module EventFrames {
  import opened EventStream
  import opened WhiteSpace

  // ------------------------------------------------- what the lines of a block say

  /** The text behind the last `event:` line, trimmed; empty without one. */
  function EventText(ls: seq<string>): string {
    if ls == [] then ""
    else
      var line := TrimCr(ls[|ls| - 1]);
      if HasPrefix(line, "event:") then Trim(line[6..]) else EventText(ls[..|ls| - 1])
  }

  /** The texts behind the `data:` lines, trimmed in front. */
  function DataTexts(ls: seq<string>): seq<string> {
    if ls == [] then []
    else
      var front, line := DataTexts(ls[..|ls| - 1]), TrimCr(ls[|ls| - 1]);
      if HasPrefix(line, "data:") then front + [TrimStart(line[5..])] else front
  }

  /** Texts with a newline between each two. */
  function Joined(ts: seq<string>): string {
    if ts == [] then ""
    else if |ts| == 1 then ts[0]
    else Joined(ts[..|ts| - 1]) + "\n" + ts[|ts| - 1]
  }

  /** Empty texts in front leave no trace. */
  function FromFirstText(ts: seq<string>): seq<string> {
    if ts != [] && ts[0] == "" then FromFirstText(ts[1..]) else ts
  }

  function FrameOf(ls: seq<string>): Frame { Frame(EventText(ls), Joined(FromFirstText(DataTexts(ls)))) }

  /** A complete line that is not blank. */
  predicate Solid(l: string) { '\n' !in l && TrimCr(l) != [] }

  predicate BlankOne(l: string) { '\n' !in l && TrimCr(l) == [] }

  /** The lines, each with its newline. */
  function Lined(ls: seq<string>): string { if ls == [] then "" else ls[0] + "\n" + Lined(ls[1..]) }

  /** Trimming carriage returns takes off those at the end, all of them and
      nothing else. */
  lemma {:induction false} TrimCrParts(s: string) returns (b: string)
    ensures s == TrimCr(s) + b && forall i :: 0 <= i < |b| ==> b[i] == '\r'
    ensures TrimCr(s) != [] ==> TrimCr(s)[|TrimCr(s)| - 1] != '\r'
  {
    if s != [] && s[|s| - 1] == '\r' {
      var rest := TrimCrParts(s[..|s| - 1]);
      b := rest + ['\r'];
    } else {
      b := [];
    }
  }

  // -------------------------------------------------------- the fold over the lines

  lemma {:induction false} FromFirstSnoc(ts: seq<string>, x: string)
    ensures FromFirstText(ts) == [] ==> FromFirstText(ts + [x]) == if x == "" then [] else [x]
    ensures FromFirstText(ts) != [] ==> FromFirstText(ts + [x]) == FromFirstText(ts) + [x]
    ensures FromFirstText(ts) != [] ==> FromFirstText(ts)[0] != ""
  {
    if ts != [] && ts[0] == "" {
      FromFirstSnoc(ts[1..], x);
      assert (ts + [x])[1..] == ts[1..] + [x];
    } else if ts == [] {
      assert ts + [x] == [x] && [x][1..] == [];
    }
  }

  lemma {:induction false} JoinedNotEmpty(ts: seq<string>)
    requires ts != [] && ts[0] != ""
    ensures Joined(ts) != ""
  {
  }

  lemma JoinedSnoc(ts: seq<string>, x: string)
    requires ts != []
    ensures Joined(ts + [x]) == Joined(ts) + "\n" + x
  {
    assert (ts + [x])[..|ts|] == ts;
  }

  /** One more data text. */
  lemma DataGrows(ts: seq<string>, x: string)
    ensures var d := Joined(FromFirstText(ts));
            Joined(FromFirstText(ts + [x])) == (if d != [] then d + "\n" else d) + x
  {
    hide Joined, FromFirstText;
    FromFirstSnoc(ts, x);
    var us := FromFirstText(ts);
    JoinedFew(x);
    if us != [] {
      JoinedNotEmpty(us);
      JoinedSnoc(us, x);
    }
  }

  lemma JoinedFew(x: string)
    ensures Joined([]) == "" && Joined([x]) == x
  {
  }

  lemma NotBoth(line: string)
    requires HasPrefix(line, "event:")
    ensures !HasPrefix(line, "data:")
  {
    assert line[..6][0] == line[0] && line[..5][0] == line[0];
  }

  lemma {:induction false} LinesSay(ls: seq<string>)
    requires forall i :: 0 <= i < |ls| ==> Solid(ls[i])
    ensures FrameAfter(BLANK, ls) == FrameOf(ls) && FramesOf(BLANK, ls) == []
  {
    hide Joined, FromFirstText, TrimCr, Trim, TrimStart;
    if ls == [] {
      NothingSaid();
    } else {
      var front, line := ls[..|ls| - 1], TrimCr(ls[|ls| - 1]);
      LinesSay(front);
      assert Solid(ls[|ls| - 1]);
      if HasPrefix(line, "event:") {
        NotBoth(line);
      } else if HasPrefix(line, "data:") {
        DataGrows(DataTexts(front), TrimStart(line[5..]));
      }
    }
  }

  lemma NothingSaid()
    ensures Joined(FromFirstText([])) == ""
  {
  }

  lemma {:induction false} ScanLines(ls: seq<string>, cur: Frame, rest: string)
    requires forall i :: 0 <= i < |ls| ==> '\n' !in ls[i]
    ensures var s := Scan(rest, FrameAfter(cur, ls));
            Scan(Lined(ls) + rest, cur) == s.(frames := FramesOf(cur, ls) + s.frames)
  {
    hide Scan, AfterLine, Completes;
    if ls == [] {
      assert Lined(ls) + rest == rest;
      assert FramesOf(cur, ls) == [];
    } else {
      var text, n := Lined(ls) + rest, |ls[0]|;
      assert text[..n] == ls[0] && text[n] == '\n' && text[n + 1..] == Lined(ls[1..]) + rest;
      forall k | 0 <= k < n ensures text[k] != '\n' {
        assert text[k] == ls[0][k];
      }
      ScanStep(text, cur, n);
      ScanLines(ls[1..], AfterLine(cur, ls[0]), rest);
      FoldCons(cur, ls[0], ls[1..]);
      assert ls == [ls[0]] + ls[1..];
    }
  }

  /** A block of lines and the blank line that ends it complete one frame: its event
      is the trimmed text behind the last `event:` line, its data the texts behind
      the `data:` lines joined by newlines from the first that is not empty, and
      other lines add nothing. A block that says nothing completes none. */
  lemma BlockFrame(ls: seq<string>, blank: string, rest: string)
    requires (forall i :: 0 <= i < |ls| ==> Solid(ls[i])) && BlankOne(blank)
    ensures var f, s := FrameOf(ls), Scan(rest, BLANK);
            Scan(Lined(ls) + (blank + "\n" + rest), BLANK) == s.(frames := (if HasContent(f) then [f] else []) + s.frames)
  {
    hide Scan, FrameOf, Lined, FramesOf, FrameAfter;
    var f, tail := FrameOf(ls), blank + "\n" + rest;
    ScanLines(ls, BLANK, tail);
    LinesSay(ls);
    assert tail[..|blank|] == blank && tail[|blank| + 1..] == rest;
    forall k | 0 <= k < |blank| ensures tail[k] != '\n' {
      assert tail[k] == blank[k];
    }
    ScanStep(tail, f, |blank|);
  }

  // --------------------------------------------------- the join, exactly when

  function Lengths(ts: seq<string>): nat { if ts == [] then 0 else |ts[0]| + 1 + Lengths(ts[1..]) }

  lemma {:induction false} LengthsSnoc(ts: seq<string>, x: string)
    ensures Lengths(ts + [x]) == Lengths(ts) + |x| + 1
  {
    if ts == [] {
      assert ts + [x] == [x] && [x][1..] == [];
    } else {
      LengthsSnoc(ts[1..], x);
      assert (ts + [x])[1..] == ts[1..] + [x];
    }
  }

  lemma {:induction false} JoinedLength(ts: seq<string>)
    ensures ts != [] ==> |Joined(ts)| + 1 == Lengths(ts)
  {
    if ts != [] {
      var front, last := ts[..|ts| - 1], ts[|ts| - 1];
      assert ts == front + [last];
      LengthsSnoc(front, last);
      JoinedLength(front);
      assert front == [] ==> Lengths(front) == 0;
    }
  }

  lemma {:induction false} DroppedLength(ts: seq<string>)
    ensures Lengths(FromFirstText(ts)) <= Lengths(ts)
    ensures FromFirstText(ts) == [] || Lengths(FromFirstText(ts)) == Lengths(ts) <==> (ts == [] || ts[0] != "" || FromFirstText(ts) == [])
    ensures FromFirstText(ts) == [] ==> Lengths(ts) == |ts|
  {
    if ts != [] && ts[0] == "" {
      DroppedLength(ts[1..]);
    }
  }

  /** The data is the plain join of all data texts exactly when there is at most one
      or the first is not empty. */
  lemma PlainJoinIff(ts: seq<string>)
    ensures Joined(FromFirstText(ts)) == Joined(ts) <==> |ts| <= 1 || ts[0] != ""
  {
    JoinedLength(ts);
    JoinedLength(FromFirstText(ts));
    DroppedLength(ts);
    if |ts| == 1 && ts[0] == "" {
      assert ts[1..] == [] && FromFirstText(ts) == [];
    }
  }
}
