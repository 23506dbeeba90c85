/** The reader of ffmpeg's "-progress pipe:1" output: the bytes of every read
    are appended to a buffer, each complete '\n'-terminated line is taken
    off the front, and "out_time_ms=<n>" lines become progress callbacks
    (seconds done, total seconds). The callback is recorded as the sequence
    of its calls; strconv.ParseFloat is the parameter `parse`. */
module ProgressReader {
  import opened Wrappers
  import opened Text

  /** One onProgress(done, total) call. */
  datatype Call = Call(done: real, total: real)

  const ProgressKey: string := "out_time_ms="
  const MicrosPerSecond: real := 1000000.0

  /** No character of s before position n is c. */
  predicate LacksBefore(s: string, c: char, n: int) {
    forall k :: 0 <= k < n && k < |s| ==> s[k] != c
  }

  /** strings.IndexByte: the first position of c in s, or -1. */
  function IndexOf(s: string, c: char): (i: int)
    ensures -1 <= i < |s|
    ensures i >= 0 ==> s[i] == c && LacksBefore(s, c, i)
    ensures i < 0 ==> LacksBefore(s, c, |s|)
  {
    if s == [] then -1
    else if s[0] == c then 0
    else
      var j := IndexOf(s[1..], c);
      if j < 0 then -1 else j + 1
  }

  /** The complete lines of s, without their '\n', in order. */
  function Lines(s: string): (ls: seq<string>)
    decreases |s|
  {
    var i := IndexOf(s, '\n');
    if i < 0 then [] else [s[..i]] + Lines(s[i + 1..])
  }

  /** What is left of s after its last '\n': the partial line kept in the
      buffer for the next read. */
  function Tail(s: string): (t: string)
    ensures LacksBefore(t, '\n', |t|)
    decreases |s|
  {
    var i := IndexOf(s, '\n');
    if i < 0 then s else Tail(s[i + 1..])
  }

  /** The lines written back with their terminators. */
  function Join(ls: seq<string>): string {
    if ls == [] then [] else ls[0] + "\n" + Join(ls[1..])
  }

  /** The callbacks one line triggers: none, or one when the trimmed line
      starts with "out_time_ms=" and the rest parses as a number of
      microseconds. */
  function LineCalls(raw: string, total: real, parse: string -> Option<real>): (r: seq<Call>)
    ensures |r| <= 1
    ensures r != [] <==>
      var line := TrimSpace(raw);
      HasPrefix(line, ProgressKey) && parse(TrimSpace(line[|ProgressKey|..])).Some?
    ensures r != [] ==>
      var line := TrimSpace(raw);
      r[0].total == total && r[0].done * MicrosPerSecond == parse(TrimSpace(line[|ProgressKey|..])).value
  {
    var line := TrimSpace(raw);
    if HasPrefix(line, ProgressKey) then
      match parse(TrimSpace(line[|ProgressKey|..]))
      case Some(ms) => [Call(ms / MicrosPerSecond, total)]
      case None => []
    else []
  }

  /** The per-line decision of one run, as a function of the line. */
  function OnLine(total: real, parse: string -> Option<real>): string -> seq<Call> {
    raw => LineCalls(raw, total, parse)
  }

  /** The callbacks of a sequence of lines, in line order. */
  function CallsOf(ls: seq<string>, onLine: string -> seq<Call>): seq<Call> {
    if ls == [] then [] else onLine(ls[0]) + CallsOf(ls[1..], onLine)
  }

  /** The whole output read so far. */
  function Concat(pieces: seq<string>): string {
    if pieces == [] then [] else Concat(pieces[..|pieces| - 1]) + pieces[|pieces| - 1]
  }

  /** The loop of the reader goroutine, over the successive results of
      stdout.Read (the last one being the read that also reported the end of
      the stream); `onLine` is what is done with each complete line (for
      ffmpeg's progress output, OnLine). Whatever the split into pieces, the
      callbacks are those of the complete lines of the whole output, in
      order, and the buffer keeps its unterminated tail. */
  method ReadProgress(pieces: seq<string>, onLine: string -> seq<Call>)
    returns (calls: seq<Call>, chunk: string)
    ensures calls == CallsOf(Lines(Concat(pieces)), onLine)
    ensures chunk == Tail(Concat(pieces))
  {
    calls, chunk := [], [];
    var k := 0;
    while k < |pieces|
      invariant 0 <= k <= |pieces|
      invariant calls == CallsOf(Lines(Concat(pieces[..k])), onLine)
      invariant chunk == Tail(Concat(pieces[..k]))
    {
      var data := pieces[k];
      ghost var seen := Concat(pieces[..k]);
      assert Concat(pieces[..k + 1]) == seen + data by {
        assert pieces[..k + 1][..k] == pieces[..k];
      }
      if |data| > 0 {
        LinesAppend(seen, data);
        CallsOfAppend(Lines(seen), Lines(chunk + data), onLine);
        calls, chunk := TakeLines(calls, chunk + data, onLine);
      } else {
        assert seen + data == seen;
      }
      k := k + 1;
    }
    assert pieces[..|pieces|] == pieces;
  }

  /** The inner loop: takes every complete line off the front of the
      buffer, in order, adding the callbacks each one triggers. */
  method TakeLines(calls0: seq<Call>, chunk0: string, onLine: string -> seq<Call>)
    returns (calls: seq<Call>, chunk: string)
    ensures calls == calls0 + CallsOf(Lines(chunk0), onLine)
    ensures chunk == Tail(chunk0)
  {
    calls, chunk := calls0, chunk0;
    while true
      invariant calls + CallsOf(Lines(chunk), onLine) == calls0 + CallsOf(Lines(chunk0), onLine)
      invariant Tail(chunk) == Tail(chunk0)
      decreases |chunk|
    {
      var i := IndexOf(chunk, '\n');
      if i < 0 {
        break;
      }
      var line := chunk[..i];
      LinesUnfold(chunk, i);
      TailUnfold(chunk, i);
      chunk := chunk[i + 1..];
      CallsOfCons(line, Lines(chunk), onLine);
      ghost var later := CallsOf(Lines(chunk), onLine);
      assert calls + (onLine(line) + later) == (calls + onLine(line)) + later;
      calls := calls + onLine(line);
    }
  }

  /** ffmpegMuxFromM3U8WithProgress once ffmpeg has been looked up: a
      process that fails to start makes no call; otherwise the reader's calls
      are made, and after a successful exit one final (total, total) call
      follows when the total is known (positive). */
  method MuxWithProgress(started: bool, pieces: seq<string>, exitOk: bool, total: real,
                         parse: string -> Option<real>)
    returns (ok: bool, calls: seq<Call>)
    ensures ok <==> started && exitOk
    ensures !started ==> calls == []
    ensures started ==> calls == CallsOf(Lines(Concat(pieces)), OnLine(total, parse)) + FinalCall(exitOk, total)
  {
    if !started {
      return false, [];
    }
    var chunk;
    calls, chunk := ReadProgress(pieces, OnLine(total, parse));
    if !exitOk {
      return false, calls;
    }
    if total > 0.0 {
      calls := calls + [Call(total, total)];
    }
    return true, calls;
  }

  /** The closing call: present only after a successful exit with a known
      total. */
  function FinalCall(exitOk: bool, total: real): (r: seq<Call>)
    ensures |r| <= 1
    ensures r != [] <==> exitOk && total > 0.0
    ensures r != [] ==> r[0].done == r[0].total == total
  {
    if exitOk && total > 0.0 then [Call(total, total)] else []
  }

  // ---- lemmas ----------------------------------------------------------

  /** The first '\n' of s is the first of s + d. */
  lemma IndexOfAppend(s: string, d: string, c: char)
    requires IndexOf(s, c) >= 0
    ensures IndexOf(s + d, c) == IndexOf(s, c)
  {
    var i, j := IndexOf(s, c), IndexOf(s + d, c);
    assert (s + d)[i] == c;
    assert j >= 0 && j <= i;
    assert j < |s| ==> (s + d)[j] == s[j];
  }

  /** Appending to the buffer: the lines of s + d are those of s followed by
      those of s's tail with d, and so is the remaining tail. */
  lemma LinesAppend(s: string, d: string)
    ensures Lines(s + d) == Lines(s) + Lines(Tail(s) + d)
    ensures Tail(s + d) == Tail(Tail(s) + d)
  {
    LinesOfAppend(s, d);
    TailOfAppend(s, d);
  }

  lemma {:induction false} LinesOfAppend(s: string, d: string)
    ensures Lines(s + d) == Lines(s) + Lines(Tail(s) + d)
    decreases |s|
  {
    var i := IndexOf(s, '\n');
    if i >= 0 {
      var rest := s[i + 1..];
      AppendFirstLine(s, d, i);
      LinesUnfold(s, i);
      TailUnfold(s, i);
      LinesUnfold(s + d, i);
      LinesOfAppend(rest, d);
      ConsAssoc(s[..i], Lines(rest), Lines(Tail(rest) + d));
    } else {
      NoLineUnfold(s);
    }
  }

  lemma {:induction false} TailOfAppend(s: string, d: string)
    ensures Tail(s + d) == Tail(Tail(s) + d)
    decreases |s|
  {
    var i := IndexOf(s, '\n');
    if i >= 0 {
      AppendFirstLine(s, d, i);
      TailUnfold(s, i);
      TailUnfold(s + d, i);
      TailOfAppend(s[i + 1..], d);
    } else {
      NoLineUnfold(s);
    }
  }

  /** The first '\n' of s is the first of s + d, with the same line before it. */
  lemma AppendFirstLine(s: string, d: string, i: int)
    requires i == IndexOf(s, '\n') && i >= 0
    ensures IndexOf(s + d, '\n') == i
    ensures (s + d)[..i] == s[..i] && (s + d)[i + 1..] == s[i + 1..] + d
  {
    IndexOfAppend(s, d, '\n');
    assert (s + d)[..i] == s[..i];
    assert (s + d)[i + 1..] == s[i + 1..] + d;
  }

  lemma ConsAssoc<T>(x: T, a: seq<T>, b: seq<T>)
    ensures ([x] + a) + b == [x] + (a + b)
  {
  }

  /** One step of the inner loop: the first line comes off the front. */
  lemma LinesUnfold(s: string, i: int)
    requires i == IndexOf(s, '\n') && i >= 0
    ensures Lines(s) == [s[..i]] + Lines(s[i + 1..])
  {
  }

  lemma NoLineUnfold(s: string)
    requires IndexOf(s, '\n') < 0
    ensures Lines(s) == [] && Tail(s) == s
  {
  }

  lemma TailUnfold(s: string, i: int)
    requires i == IndexOf(s, '\n') && i >= 0
    ensures Tail(s) == Tail(s[i + 1..])
  {
  }

  lemma CallsOfCons(line: string, ls: seq<string>, onLine: string -> seq<Call>)
    ensures CallsOf([line] + ls, onLine) == onLine(line) + CallsOf(ls, onLine)
  {
    assert ([line] + ls)[1..] == ls;
  }

  /** The callbacks of two groups of lines are those of the first group
      followed by those of the second. */
  lemma {:induction false} CallsOfAppend(xs: seq<string>, ys: seq<string>, onLine: string -> seq<Call>)
    ensures CallsOf(xs + ys, onLine) == CallsOf(xs, onLine) + CallsOf(ys, onLine)
  {
    if xs == [] {
      assert xs + ys == ys;
    } else {
      var head, rest := onLine(xs[0]), xs[1..];
      assert xs + ys == [xs[0]] + (rest + ys);
      CallsOfCons(xs[0], rest + ys, onLine);
      CallsOfAppend(rest, ys, onLine);
      CallsOfCons(xs[0], rest, onLine);
      assert xs == [xs[0]] + rest;
      var r, y := CallsOf(rest, onLine), CallsOf(ys, onLine);
      assert head + (r + y) == (head + r) + y;
    }
  }

  lemma JoinCons(line: string, ls: seq<string>)
    ensures Join([line] + ls) == line + "\n" + Join(ls)
  {
    assert ([line] + ls)[1..] == ls;
  }

  /** A line, its '\n' and everything after it give back the text. */
  lemma Glue(s: string, i: int, lines: string, tail: string)
    requires 0 <= i < |s| && s[i] == '\n' && lines + tail == s[i + 1..]
    ensures (s[..i] + "\n" + lines) + tail == s
  {
    assert (s[..i] + "\n" + lines) + tail == s[..i] + "\n" + (lines + tail);
  }

  /** Nothing is lost or reordered: the complete lines, each with its '\n',
      followed by the tail, give back the output. */
  lemma {:induction false} LinesReassemble(s: string)
    ensures Join(Lines(s)) + Tail(s) == s
    decreases |s|
  {
    var i := IndexOf(s, '\n');
    if i < 0 {
      NoLineReassembles(s);
    } else {
      LinesReassemble(s[i + 1..]);
      ReassembleStep(s);
    }
  }

  lemma NoLineReassembles(s: string)
    requires IndexOf(s, '\n') < 0
    ensures Join(Lines(s)) + Tail(s) == s
  {
    assert Lines(s) == [];
  }

  /** The first line, its '\n' and the reassembled rest give back s. */
  lemma ReassembleStep(s: string)
    requires IndexOf(s, '\n') >= 0
    requires var rest := s[IndexOf(s, '\n') + 1..]; Join(Lines(rest)) + Tail(rest) == rest
    ensures Join(Lines(s)) + Tail(s) == s
  {
    var i := IndexOf(s, '\n');
    var rest := s[i + 1..];
    LinesUnfold(s, i);
    TailUnfold(s, i);
    var ls, tail := Lines(rest), Tail(rest);
    JoinCons(s[..i], ls);
    Glue(s, i, Join(ls), tail);
  }

  /** Output that ends in '\n' leaves nothing behind in the buffer. */
  lemma {:induction false} TerminatedLeavesNoTail(s: string)
    requires s != [] && s[|s| - 1] == '\n'
    ensures Tail(s) == []
    decreases |s|
  {
    var i := IndexOf(s, '\n');
    if i < |s| - 1 {
      assert s[i + 1..][|s| - i - 2] == '\n';
      TerminatedLeavesNoTail(s[i + 1..]);
    }
  }
}
