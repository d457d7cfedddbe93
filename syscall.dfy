/**
 * The console system calls `write` and `read`.  `write` hands the bytes of
 * the user's buffer to the driver's `putChar`; `read` takes characters from
 * the keyboard, echoes each through `putChar`, edits the driver's input
 * buffer (backspace, Ctrl-U) and copies the buffer out to the user's array.
 *
 * `read`'s loop is specified by `Run`, a pure replay of the loop over the
 * typed characters, and `Run` is proved against `Edited`, the plain
 * line-editing meaning of those characters.
 */
module Syscall {
  import opened JavaTypes
  import opened Console

  /** Open file id of keyboard input. */
  const ConsoleInput: int32 := 0
  /** Open file id of display output. */
  const ConsoleOutput: int32 := 1

  /** `(char) b` for every byte of `b`. */
  function Chars(b: seq<byte>): seq<char>
  {
    seq(|b|, k requires 0 <= k < |b| => ByteToChar(b[k]))
  }

  /** The number of bytes `write` and `read` handle for a requested `size`. */
  function Requested(size: int32): nat
  {
    if size < 0 then 0 else size as nat
  }

  /**
   * `write`: every byte of `buffer[0..size)`, in order, goes through
   * `putChar`; any id but the display does nothing.  From an idle queue each
   * character is echoed at once; with characters already queued they are
   * only queued.
   */
  method Write(driver: ConsoleDriver, buffer: array<byte>, size: int32, id: int32)
    requires driver.Valid()
    requires id == ConsoleOutput ==> size as int <= buffer.Length
    requires id == ConsoleOutput && driver.countOutput != 0 ==> driver.countOutput + size as int <= Max
    modifies driver
    ensures driver.Valid()
    ensures id != ConsoleOutput ==> unchanged(driver)
    ensures driver.inputBuffer == old(driver.inputBuffer) && driver.keyboard == old(driver.keyboard)
    ensures id == ConsoleOutput && old(driver.countOutput) == 0 ==>
              driver.output == []
              && driver.line == EchoAll(old(driver.line), Chars(buffer[..Requested(size)])).line
              && driver.echoed == old(driver.echoed) + EchoAll(old(driver.line), Chars(buffer[..Requested(size)])).out
    ensures id == ConsoleOutput && old(driver.countOutput) != 0 ==>
              driver.output == old(driver.output) + Chars(buffer[..Requested(size)])
              && driver.line == old(driver.line) && driver.echoed == old(driver.echoed)
  {
    if id == ConsoleOutput {
      ghost var before := Snapshot(driver.output, driver.line, driver.echoed, driver.inputBuffer, driver.keyboard);
      ghost var idle := driver.countOutput == 0;
      var i: int32 := 0;
      while i < size
        invariant 0 <= i as int <= Requested(size)
        invariant Written(driver, before, idle, Chars(buffer[..i]))
        invariant !idle ==> driver.countOutput + (size as int - i as int) <= Max
      {
        var ch := ByteToChar(buffer[i]);
        assert Chars(buffer[..i + 1]) == Chars(buffer[..i]) + [ch];
        WriteChar(driver, before, idle, Chars(buffer[..i]), ch);
        i := i + 1;
      }
    }
  }

  /** The driver's observable state before a `write`. */
  datatype Snapshot = Snapshot(output: seq<char>, line: seq<char>, echoed: seq<char>, inputBuffer: seq<char>, keyboard: seq<char>)

  /** The driver after `putChar` of each character of `written`, from `before`, with the queue idle or busy throughout. */
  ghost predicate Written(driver: ConsoleDriver, before: Snapshot, idle: bool, written: seq<char>)
    reads driver
  {
    driver.Valid()
    && driver.inputBuffer == before.inputBuffer && driver.keyboard == before.keyboard
    && (idle ==>
          driver.countOutput == 0
          && driver.line == EchoAll(before.line, written).line
          && driver.echoed == before.echoed + EchoAll(before.line, written).out)
    && (!idle ==>
          driver.countOutput != 0
          && driver.output == before.output + written
          && driver.line == before.line && driver.echoed == before.echoed)
  }

  /** One pass of `write`'s loop. */
  method WriteChar(driver: ConsoleDriver, ghost before: Snapshot, ghost idle: bool, ghost written: seq<char>, ch: char)
    requires Written(driver, before, idle, written)
    requires !idle ==> driver.countOutput < Max
    modifies driver
    ensures Written(driver, before, idle, written + [ch])
    ensures !idle ==> driver.countOutput == old(driver.countOutput) + 1
  {
    ghost var line1, echoed1 := driver.line, driver.echoed;
    driver.PutChar(ch);
    if idle {
      EchoedOneMore(before, written, ch, line1, echoed1, driver.line, driver.echoed);
    }
  }

  /** Echoing `ch` after the echo of `written` is the echo of `written + [ch]`. */
  lemma EchoedOneMore(before: Snapshot, written: seq<char>, ch: char, line1: seq<char>, echoed1: seq<char>,
                      line2: seq<char>, echoed2: seq<char>)
    requires line1 == EchoAll(before.line, written).line && echoed1 == before.echoed + EchoAll(before.line, written).out
    requires line2 == Echo(line1, ch).line && echoed2 == echoed1 + Echo(line1, ch).out
    ensures line2 == EchoAll(before.line, written + [ch]).line
    ensures echoed2 == before.echoed + EchoAll(before.line, written + [ch]).out
  {
    EchoAllSnoc(before.line, written, ch);
  }

  // ---------------------------------------------------------------------
  // The meaning of the typed characters.

  /** Line editing as a user means it: backspace rubs out, Ctrl-U kills the line, printable characters are kept. */
  function EditStep(buf: seq<char>, c: char): seq<char>
  {
    if c == Backspace then (if |buf| > 0 then buf[..|buf| - 1] else buf)
    else if c == CtrlU then []
    else if Printable(c) then buf + [c]
    else buf
  }

  function Edited(buf: seq<char>, s: seq<char>): seq<char>
    decreases s
  {
    if s == [] then buf else Edited(EditStep(buf, s[0]), s[1..])
  }

  /** While no line ends, the echo's line and the edited input agree. */
  lemma {:induction false} EchoMatchesEdit(line: seq<char>, s: seq<char>)
    requires forall k :: 0 <= k < |s| ==> s[k] != CR && s[k] != LF
    ensures EchoAll(line, s).line == Edited(line, s)
    decreases s
  {
    if s != [] {
      assert Echo(line, s[0]).line == EditStep(line, s[0]);
      EchoMatchesEdit(EditStep(line, s[0]), s[1..]);
    }
  }

  // ---------------------------------------------------------------------
  // `read`'s loop, replayed.

  /** The loop's state after a character: the input buffer and the counter `i` after its increment. */
  datatype Reading = Reading(buf: seq<char>, i: int)

  /**
   * One pass of `read`'s loop body for a character other than CR/LF, plus
   * the loop's increment.  `afterKill` is the counter after Ctrl-U: the code
   * sets `i = 0` and then increments it, so 1.
   */
  function Step(r: Reading, c: char, afterKill: int): Reading
  {
    if c == Backspace then (if |r.buf| > 0 then Reading(r.buf[..|r.buf| - 1], r.i - 1) else r)
    else if c == CtrlU then Reading([], afterKill)
    else if Printable(c) then Reading(r.buf + [c], r.i + 1)
    else r
  }

  /** Where the loop ends: its state, how many characters it has taken, and whether it stopped (rather than waits for more input). */
  datatype Outcome = Outcome(state: Reading, taken: nat, stopped: bool)

  /**
   * The loop run on the typed characters `s` from index `t` on: it stops
   * when the counter reaches `size` or right after a CR or LF; it waits when
   * `s` runs out first.
   */
  function Run(r: Reading, size: int, s: seq<char>, t: nat, afterKill: int): (o: Outcome)
    requires t <= |s|
    ensures t <= o.taken <= |s|
    decreases |s| - t
  {
    if r.i >= size then Outcome(r, t, true)
    else if t == |s| then Outcome(r, t, false)
    else if s[t] == CR || s[t] == LF then Outcome(r, t + 1, true)
    else Run(Step(r, s[t], afterKill), size, s, t + 1, afterKill)
  }

  /** The buffer `read` builds is the edited text of the characters it took. */
  lemma {:induction false} RunEdits(r: Reading, size: int, s: seq<char>, t: nat, afterKill: int)
    requires t <= |s|
    ensures Run(r, size, s, t, afterKill).state.buf == Edited(r.buf, s[t..Run(r, size, s, t, afterKill).taken])
    decreases |s| - t
  {
    var o := Run(r, size, s, t, afterKill);
    if r.i >= size || t == |s| {
      assert s[t..o.taken] == [];
    } else if s[t] == CR || s[t] == LF {
      assert s[t..t + 1] == [s[t]] && [s[t]][1..] == [];
    } else {
      RunEdits(Step(r, s[t], afterKill), size, s, t + 1, afterKill);
      assert s[t..o.taken][0] == s[t] && s[t..o.taken][1..] == s[t + 1..o.taken];
    }
  }

  /** The characters taken hold no CR or LF except possibly the last; the buffer stays printable. */
  lemma {:induction false} RunTakes(r: Reading, size: int, s: seq<char>, t: nat, afterKill: int)
    requires t <= |s| && AllPrintable(r.buf)
    ensures var o := Run(r, size, s, t, afterKill);
            AllPrintable(o.state.buf)
            && (forall k :: t <= k < o.taken - 1 ==> s[k] != CR && s[k] != LF)
            && (o.stopped && o.taken > t && s[o.taken - 1] != CR && s[o.taken - 1] != LF ==> o.state.i >= size)
            && (!o.stopped ==> o.taken == |s| && o.state.i < size)
    decreases |s| - t
  {
    if r.i < size && t < |s| && s[t] != CR && s[t] != LF {
      RunTakes(Step(r, s[t], afterKill), size, s, t + 1, afterKill);
    }
  }

  /**
   * With the counter reset to 0 on Ctrl-U and a buffer that starts equal to
   * the counter, the counter always equals the buffer's length, so the loop
   * never gathers more than `size` characters.
   */
  lemma {:induction false} RunCounts(r: Reading, size: int, s: seq<char>, t: nat)
    requires t <= |s| && r.i == |r.buf| && (|r.buf| <= size || r.buf == [])
    ensures var o := Run(r, size, s, t, 0);
            o.state.i == |o.state.buf| && (|o.state.buf| <= size || o.state.buf == [])
    decreases |s| - t
  {
    if r.i < size && t < |s| && s[t] != CR && s[t] != LF {
      RunCounts(Step(r, s[t], 0), size, s, t + 1);
    }
  }

  /** Finding, as written: after Ctrl-U the counter restarts at 1, so `read(2)` of "a", Ctrl-U, "b", "c" returns "b" alone. */
  lemma KillMiscounts()
    ensures var o := Run(Reading([], 0), 2, ['a', CtrlU, 'b', 'c'], 0, 1);
            o.stopped && o.taken == 3 && o.state.buf == ['b']
  {
    var typed := ['a', CtrlU, 'b', 'c'];
    assert Run(Reading(['b'], 2), 2, typed, 3, 1) == Outcome(Reading(['b'], 2), 3, true);
    assert Run(Reading([], 1), 2, typed, 2, 1) == Outcome(Reading(['b'], 2), 3, true);
    assert Run(Reading(['a'], 1), 2, typed, 1, 1) == Outcome(Reading(['b'], 2), 3, true);
  }

  /** Finding, corrected: with the counter restarting at 0 the same keys give "bc". */
  lemma KillCountsFixed()
    ensures var o := Run(Reading([], 0), 2, ['a', CtrlU, 'b', 'c'], 0, 0);
            o.stopped && o.taken == 4 && o.state.buf == ['b', 'c']
  {
    var typed := ['a', CtrlU, 'b', 'c'];
    assert Run(Reading(['b', 'c'], 2), 2, typed, 4, 0) == Outcome(Reading(['b', 'c'], 2), 4, true);
    assert Run(Reading(['b'], 1), 2, typed, 3, 0) == Outcome(Reading(['b', 'c'], 2), 4, true);
    assert Step(Reading([], 0), 'b', 0) == Reading(['b'], 1);
    assert Run(Reading([], 0), 2, typed, 2, 0) == Outcome(Reading(['b', 'c'], 2), 4, true);
    assert Run(Reading(['a'], 1), 2, typed, 1, 0) == Outcome(Reading(['b', 'c'], 2), 4, true);
  }

  /** Finding, as written: a buffer left over from the previous `read` makes `read(3)` of "cde" gather five characters. */
  lemma StaleBufferOverruns()
    ensures var o := Run(Reading(['a', 'b'], 0), 3, ['c', 'd', 'e'], 0, 1);
            o.stopped && o.state.buf == ['a', 'b', 'c', 'd', 'e'] && |o.state.buf| > 3
  {
    var typed := ['c', 'd', 'e'];
    assert Run(Reading(['a', 'b', 'c', 'd', 'e'], 3), 3, typed, 3, 1).state.buf == ['a', 'b', 'c', 'd', 'e'];
    assert Run(Reading(['a', 'b', 'c'], 1), 3, typed, 1, 1).state.buf == ['a', 'b', 'c', 'd', 'e'];
  }

  // ---------------------------------------------------------------------
  // The system call.

  /** What `read` does: return a count, wait for a key that has not been typed yet, or overrun the user's array. */
  datatype ReadResult = Count(n: int) | AwaitingInput | IndexOutOfBounds

  /**
   * The loop of `read`: take characters from the keyboard, echo each, edit
   * the driver's input buffer, until `Run` says it stops.
   */
  method EditLine(driver: ConsoleDriver, size: int32, afterKill: int) returns (stopped: bool)
    requires driver.Valid() && driver.countOutput == 0
    modifies driver
    ensures driver.Valid() && driver.countOutput == 0
    ensures var o := Run(Reading(old(driver.inputBuffer), 0), size as int, old(driver.keyboard), 0, afterKill);
            stopped == o.stopped
            && driver.inputBuffer == o.state.buf
            && driver.keyboard == old(driver.keyboard)[o.taken..]
            && driver.line == EchoAll(old(driver.line), old(driver.keyboard)[..o.taken]).line
            && driver.echoed == old(driver.echoed) + EchoAll(old(driver.line), old(driver.keyboard)[..o.taken]).out
  {
    ghost var typed := driver.keyboard;
    ghost var line0 := driver.line;
    ghost var echoed0 := driver.echoed;
    ghost var goal := Run(Reading(driver.inputBuffer, 0), size as int, typed, 0, afterKill);
    ghost var t := 0;
    var i: int := 0;
    stopped := true;
    while i < size as int
      invariant 0 <= t <= |typed| && EchoedSoFar(driver, typed, line0, echoed0, t)
      invariant driver.Valid() && driver.countOutput == 0
      invariant goal == Run(Reading(driver.inputBuffer, i), size as int, typed, t, afterKill)
      decreases |typed| - t
    {
      if driver.keyboard == [] {
        stopped := false;
        return;
      }
      var ch := TakeEchoed(driver, typed, line0, echoed0, t);
      t := t + 1;
      if ch == CR || ch == LF {
        return;
      }
      var next := Step(Reading(driver.inputBuffer, i), ch, afterKill);
      driver.inputBuffer := next.buf;
      i := next.i;
    }
  }

  /**
   * The driver has taken the first `t` characters typed since `typed` and
   * echoed them, from line `line0` and output `echoed0` on.
   */
  ghost predicate EchoedSoFar(driver: ConsoleDriver, typed: seq<char>, line0: seq<char>, echoed0: seq<char>, t: nat)
    reads driver
  {
    && t <= |typed| && driver.keyboard == typed[t..]
    && driver.line == EchoAll(line0, typed[..t]).line
    && driver.echoed == echoed0 + EchoAll(line0, typed[..t]).out
  }

  /** One `getChar` and `putChar` of `read`'s loop, keeping `EchoedSoFar`. */
  method TakeEchoed(driver: ConsoleDriver, ghost typed: seq<char>, ghost line0: seq<char>,
                    ghost echoed0: seq<char>, ghost t: nat) returns (ch: char)
    requires driver.Valid() && driver.countOutput == 0 && driver.keyboard != []
    requires EchoedSoFar(driver, typed, line0, echoed0, t)
    modifies driver
    ensures driver.Valid() && driver.countOutput == 0 && driver.inputBuffer == old(driver.inputBuffer)
    ensures t < |typed| && ch == typed[t] && EchoedSoFar(driver, typed, line0, echoed0, t + 1)
  {
    ch := TakeChar(driver);
    assert typed[..t + 1] == typed[..t] + [ch];
    EchoAllSnoc(line0, typed[..t], ch);
  }

  /** `getChar` then `putChar`: take the next typed character and echo it. */
  method TakeChar(driver: ConsoleDriver) returns (ch: char)
    requires driver.Valid() && driver.countOutput == 0 && driver.keyboard != []
    modifies driver
    ensures driver.Valid() && driver.countOutput == 0
    ensures ch == old(driver.keyboard)[0] && driver.keyboard == old(driver.keyboard)[1..]
    ensures driver.line == Echo(old(driver.line), ch).line
    ensures driver.echoed == old(driver.echoed) + Echo(old(driver.line), ch).out
    ensures driver.inputBuffer == old(driver.inputBuffer)
  {
    ch := driver.keyboard[0];
    driver.keyboard := driver.keyboard[1..];
    driver.PutChar(ch);
  }

  /** Copy the driver's input buffer into the user's array, as `(byte)` casts. */
  method CopyOut(driver: ConsoleDriver, buffer: array<byte>) returns (r: ReadResult)
    requires driver.Valid()
    modifies buffer
    ensures r == Count(|driver.inputBuffer|) || r == IndexOutOfBounds
    ensures r == IndexOutOfBounds <==> |driver.inputBuffer| > buffer.Length
    ensures forall k :: 0 <= k < |driver.inputBuffer| && k < buffer.Length ==>
              buffer[k] as int == driver.inputBuffer[k] as int
    ensures forall k :: |driver.inputBuffer| <= k < buffer.Length ==> buffer[k] == old(buffer[k])
  {
    var k := 0;
    while k < |driver.inputBuffer|
      invariant 0 <= k <= |driver.inputBuffer| && k <= buffer.Length
      invariant forall j :: 0 <= j < k ==> buffer[j] as int == driver.inputBuffer[j] as int
      invariant forall j :: k <= j < buffer.Length ==> buffer[j] == old(buffer[j])
    {
      if k >= buffer.Length {
        return IndexOutOfBounds;
      }
      assert Printable(driver.inputBuffer[k]);
      buffer[k] := CharToByte(driver.inputBuffer[k]);
      k := k + 1;
    }
    return Count(|driver.inputBuffer|);
  }

  /**
   * `read` as written: from keyboard input, run the editing loop on the
   * driver's input buffer (which still holds what earlier reads left) and
   * copy it out; any other id returns the buffer's size untouched.
   */
  method Read(driver: ConsoleDriver, buffer: array<byte>, size: int32, id: int32) returns (r: ReadResult)
    requires driver.Valid() && driver.countOutput == 0
    modifies driver, buffer
    ensures driver.Valid() && driver.countOutput == 0
    ensures id != ConsoleInput ==> r == Count(|driver.inputBuffer|) && unchanged(driver) && unchanged(buffer)
    ensures id == ConsoleInput ==>
              var o := Run(Reading(old(driver.inputBuffer), 0), size as int, old(driver.keyboard), 0, 1);
              driver.inputBuffer == o.state.buf
              && driver.keyboard == old(driver.keyboard)[o.taken..]
              && driver.line == EchoAll(old(driver.line), old(driver.keyboard)[..o.taken]).line
              && driver.echoed == old(driver.echoed) + EchoAll(old(driver.line), old(driver.keyboard)[..o.taken]).out
              && (!o.stopped <==> r == AwaitingInput)
              && (o.stopped ==> (r == IndexOutOfBounds <==> |o.state.buf| > buffer.Length))
    ensures id == ConsoleInput && r.Count? ==>
              r.n == |driver.inputBuffer| && r.n <= buffer.Length
              && forall k :: 0 <= k < r.n ==> buffer[k] as int == driver.inputBuffer[k] as int
    ensures r.Count? ==> forall k :: r.n <= k < buffer.Length ==> buffer[k] == old(buffer[k])
    ensures r == AwaitingInput ==> unchanged(buffer)
    ensures r == IndexOutOfBounds ==>
              forall k :: 0 <= k < buffer.Length && k < |driver.inputBuffer| ==>
                buffer[k] as int == driver.inputBuffer[k] as int
  {
    if id == ConsoleInput {
      var stopped := EditLine(driver, size, 1);
      if !stopped {
        return AwaitingInput;
      }
      r := CopyOut(driver, buffer);
    } else {
      r := Count(|driver.inputBuffer|);
    }
  }

  /**
   * `read` corrected: the driver's input buffer is emptied on entry and
   * Ctrl-U restarts the counter at 0, so the count returned never exceeds
   * `size` and an array of `size` bytes is never overrun.
   */
  method ReadLine(driver: ConsoleDriver, buffer: array<byte>, size: int32, id: int32) returns (r: ReadResult)
    requires driver.Valid() && driver.countOutput == 0
    requires size as int <= buffer.Length
    modifies driver, buffer
    ensures driver.Valid() && driver.countOutput == 0
    ensures id == ConsoleInput ==>
              var o := Run(Reading([], 0), size as int, old(driver.keyboard), 0, 0);
              driver.inputBuffer == o.state.buf == Edited([], old(driver.keyboard)[..o.taken])
              && driver.keyboard == old(driver.keyboard)[o.taken..]
              && driver.line == EchoAll(old(driver.line), old(driver.keyboard)[..o.taken]).line
              && driver.echoed == old(driver.echoed) + EchoAll(old(driver.line), old(driver.keyboard)[..o.taken]).out
              && (!o.stopped <==> r == AwaitingInput)
    ensures r != IndexOutOfBounds
    ensures id != ConsoleInput ==> r == Count(|driver.inputBuffer|) && unchanged(driver) && unchanged(buffer)
    ensures id == ConsoleInput && r.Count? ==>
              r.n == |driver.inputBuffer| && r.n <= Requested(size)
              && forall k :: 0 <= k < r.n ==> buffer[k] as int == driver.inputBuffer[k] as int
    ensures r.Count? ==> forall k :: r.n <= k < buffer.Length ==> buffer[k] == old(buffer[k])
    ensures r == AwaitingInput ==> unchanged(buffer)
  {
    if id == ConsoleInput {
      driver.inputBuffer := [];
      ghost var typed := driver.keyboard;
      var stopped := EditLine(driver, size, 0);
      RunCounts(Reading([], 0), size as int, typed, 0);
      RunEdits(Reading([], 0), size as int, typed, 0, 0);
      assert |driver.inputBuffer| <= Requested(size);
      if !stopped {
        return AwaitingInput;
      }
      r := CopyOut(driver, buffer);
    } else {
      r := Count(|driver.inputBuffer|);
    }
  }
}
