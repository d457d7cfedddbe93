/**
 * The console driver's output side: `putChar` queues a character in a
 * bounded output queue and, when the queue was empty, immediately runs
 * `processOutput`, which takes one character off the queue and echoes it with
 * line editing (backspace, Ctrl-U kill, Ctrl-R retype).  The raw console
 * device is abstracted as the sequence `echoed` of characters handed to it
 * (`operatePrint`), the keyboard as the sequence `keyboard` of characters
 * typed and not yet taken.
 *
 * The echo is proved against an independent model of a terminal screen: when
 * the screen shows the current line before a character is echoed, it shows
 * the edited line afterwards (`EchoDisplaysLine`).
 */
module Console {
  import opened JavaTypes

  /** Capacity of the output queue before `putChar` blocks. */
  const Max: int := 10

  const Backspace: char := 8 as char
  const CtrlU: char := 21 as char
  const CtrlR: char := 18 as char
  const CR: char := 13 as char
  const LF: char := 10 as char

  /** The characters the driver stores and echoes as they are: codes 32..126. */
  predicate Printable(c: char)
  {
    32 <= c as int <= 126
  }

  predicate AllPrintable(s: seq<char>)
  {
    forall k :: 0 <= k < |s| ==> Printable(s[k])
  }

  /** Control characters are never printable. */
  lemma ControlNotPrintable(c: char)
    requires Printable(c)
    ensures c != Backspace && c != CtrlU && c != CtrlR && c != CR && c != LF
  {
  }

  /** The three characters that rub out the last character on the screen. */
  const RubOut: seq<char> := [Backspace, ' ', Backspace]

  /** `n` rub-outs in a row: backspace, space, backspace, `n` times over. */
  function Erase(n: nat): (s: seq<char>)
    ensures |s| == 3 * n
    ensures forall k :: 0 <= k < |s| ==> s[k] == RubOut[k % 3]
  {
    if n == 0 then []
    else
      var p := Erase(n - 1);
      assert forall k :: 3 * (n - 1) <= k < 3 * n ==> k % 3 == k - 3 * (n - 1);
      p + RubOut
  }

  /** One step of the echo: the line after the character, and what is printed. */
  datatype EchoStep = EchoStep(line: seq<char>, out: seq<char>)

  /** The line editing of `processOutput` for one character `c`: the new line and what is printed. */
  function Echo(line: seq<char>, c: char): EchoStep
  {
    if c == Backspace then
      if |line| > 0 then EchoStep(line[..|line| - 1], RubOut) else EchoStep(line, [])
    else if c == CtrlU then EchoStep([], Erase(|line|))
    else if c == CtrlR then EchoStep(line, Erase(|line|) + line)
    else if c == CR || c == LF then EchoStep([], [c])
    else if Printable(c) then EchoStep(line + [c], [c])
    else EchoStep(line, [])
  }

  /**
   * The echo only ever edits the line at its end: it cuts it back, or
   * extends it by `c` itself when `c` is printable, so a printable line
   * stays printable.
   */
  lemma EchoEditsEnd(line: seq<char>, c: char)
    ensures var r := Echo(line, c);
            && (|r.line| <= |line| ==> r.line == line[..|r.line|])
            && (|r.line| > |line| ==> r.line == line + [c] && Printable(c))
            && (AllPrintable(line) ==> AllPrintable(r.line))
  {
  }

  /** The echo of a whole sequence of characters, one `processOutput` each. */
  function EchoAll(line: seq<char>, s: seq<char>): EchoStep
    decreases s
  {
    if s == [] then EchoStep(line, [])
    else
      var e := Echo(line, s[0]);
      var r := EchoAll(e.line, s[1..]);
      EchoStep(r.line, e.out + r.out)
  }

  /** Echoing one more character extends the echo of a sequence. */
  lemma {:induction false} EchoAllSnoc(line: seq<char>, s: seq<char>, c: char)
    ensures EchoAll(line, s + [c]).line == Echo(EchoAll(line, s).line, c).line
    ensures EchoAll(line, s + [c]).out == EchoAll(line, s).out + Echo(EchoAll(line, s).line, c).out
    decreases s
  {
    if s == [] {
      assert s + [c] == [c];
    } else {
      var e := Echo(line, s[0]);
      assert (s + [c])[0] == s[0];
      assert (s + [c])[1..] == s[1..] + [c];
      EchoAllSnoc(e.line, s[1..], c);
      assert EchoAll(line, s) == EchoStep(EchoAll(e.line, s[1..]).line, e.out + EchoAll(e.line, s[1..]).out);
      assert EchoAll(line, s + [c]) == EchoStep(EchoAll(e.line, s[1..] + [c]).line, e.out + EchoAll(e.line, s[1..] + [c]).out);
    }
  }

  // ---------------------------------------------------------------------
  // A terminal screen, the reference the echo is checked against.

  /** One row of a terminal: the characters shown, and the cursor column. */
  datatype Screen = Screen(row: seq<char>, col: nat)

  /**
   * What a terminal does with a character: backspace moves the cursor left,
   * CR and LF start a new row, anything else is written at the cursor,
   * which then moves right.
   */
  function Show(d: Screen, c: char): Screen
  {
    if c == Backspace then Screen(d.row, if d.col > 0 then d.col - 1 else 0)
    else if c == CR || c == LF then Screen([], 0)
    else if d.col < |d.row| then Screen(d.row[d.col := c], d.col + 1)
    else Screen(d.row + [c], |d.row| + 1)
  }

  function ShowAll(d: Screen, s: seq<char>): Screen
    decreases s
  {
    if s == [] then d else ShowAll(Show(d, s[0]), s[1..])
  }

  /** The screen shows exactly `line`, blanks after it, with the cursor at its end. */
  predicate Displays(d: Screen, line: seq<char>)
  {
    d.col == |line| && |line| <= |d.row| && d.row[..|line|] == line
    && forall k :: |line| <= k < |d.row| ==> d.row[k] == ' '
  }

  lemma {:induction false} ShowAllAppend(d: Screen, a: seq<char>, b: seq<char>)
    ensures ShowAll(d, a + b) == ShowAll(ShowAll(d, a), b)
    decreases a
  {
    if a == [] {
      assert a + b == b;
    } else {
      assert (a + b)[0] == a[0];
      assert (a + b)[1..] == a[1..] + b;
      ShowAllAppend(Show(d, a[0]), a[1..], b);
    }
  }

  /** One rub-out removes the last character from the screen. */
  lemma RubOutDisplays(d: Screen, line: seq<char>)
    requires Displays(d, line) && |line| > 0
    ensures Displays(ShowAll(d, RubOut), line[..|line| - 1])
  {
    var n := |line| - 1;
    var d1 := Show(d, Backspace);
    var d2 := Show(d1, ' ');
    var d3 := Show(d2, Backspace);
    assert d2 == Screen(d.row[n := ' '], n + 1);
    assert ShowAll(d2, [Backspace]) == d3;
    assert ShowAll(d1, [' ', Backspace]) == ShowAll(d2, [Backspace]);
    assert ShowAll(d, RubOut) == ShowAll(d1, [' ', Backspace]);
    assert d3.row[..n] == d.row[..n];
    assert d.row[..n] == line[..n];
  }

  /** `n` rub-outs remove the last `n` characters. */
  lemma {:induction false} EraseDisplays(d: Screen, line: seq<char>, n: nat)
    requires Displays(d, line) && n <= |line|
    ensures Displays(ShowAll(d, Erase(n)), line[..|line| - n])
  {
    if n > 0 {
      EraseDisplays(d, line, n - 1);
      ShowAllAppend(d, Erase(n - 1), RubOut);
      var shorter := line[..|line| - (n - 1)];
      RubOutDisplays(ShowAll(d, Erase(n - 1)), shorter);
      assert shorter[..|shorter| - 1] == line[..|line| - n];
    }
  }

  /** Typing printable characters appends them to what the screen shows. */
  lemma {:induction false} TypeDisplays(d: Screen, line: seq<char>, s: seq<char>)
    requires Displays(d, line) && AllPrintable(s)
    ensures Displays(ShowAll(d, s), line + s)
    decreases s
  {
    if s != [] {
      var c := s[0];
      ControlNotPrintable(c);
      var d1 := Show(d, c);
      assert d1.row[..|line| + 1] == line + [c];
      assert Displays(d1, line + [c]);
      TypeDisplays(d1, line + [c], s[1..]);
      assert line + [c] + s[1..] == line + s;
    }
  }

  /**
   * The echo keeps the screen in step with the line: if the screen shows
   * the line before a character is echoed, it shows the edited line after.
   */
  lemma EchoDisplaysLine(d: Screen, line: seq<char>, c: char)
    requires Displays(d, line) && AllPrintable(line)
    ensures Displays(ShowAll(d, Echo(line, c).out), Echo(line, c).line)
  {
    if c == Backspace {
      if |line| > 0 {
        RubOutDisplays(d, line);
      }
    } else if c == CtrlU {
      EraseDisplays(d, line, |line|);
    } else if c == CtrlR {
      EraseDisplays(d, line, |line|);
      ShowAllAppend(d, Erase(|line|), line);
      TypeDisplays(ShowAll(d, Erase(|line|)), [], line);
    } else if c == CR || c == LF {
      assert ShowAll(d, [c]) == Screen([], 0);
    } else if Printable(c) {
      TypeDisplays(d, line, [c]);
    }
  }

  /** The same for a whole sequence of characters. */
  lemma {:induction false} EchoAllDisplaysLine(d: Screen, line: seq<char>, s: seq<char>)
    requires Displays(d, line) && AllPrintable(line)
    ensures Displays(ShowAll(d, EchoAll(line, s).out), EchoAll(line, s).line)
    ensures AllPrintable(EchoAll(line, s).line)
    decreases s
  {
    if s != [] {
      var e := Echo(line, s[0]);
      EchoDisplaysLine(d, line, s[0]);
      EchoAllDisplaysLine(ShowAll(d, e.out), e.line, s[1..]);
      ShowAllAppend(d, e.out, EchoAll(e.line, s[1..]).out);
    }
  }

  // ---------------------------------------------------------------------
  // The driver.

  class ConsoleDriver {
    /** Characters queued for output, oldest first. */
    var output: seq<char>
    var countOutput: int
    /** The line being typed, as far as the echo knows it. */
    var line: seq<char>
    /** The characters `read` has accepted; never cleared between reads. */
    var inputBuffer: seq<char>
    /** Everything handed to the console device for printing. */
    var echoed: seq<char>
    /** Characters typed at the keyboard and not yet taken by `getChar`. */
    var keyboard: seq<char>

    /** The counter tracks the queue, which never exceeds its capacity; edited lines are printable. */
    predicate Valid()
      reads this
    {
      countOutput == |output| && countOutput <= Max
      && AllPrintable(line) && AllPrintable(inputBuffer)
    }

    constructor(typed: seq<char>)
      ensures Valid()
      ensures output == [] && countOutput == 0 && line == [] && inputBuffer == []
      ensures echoed == [] && keyboard == typed
    {
      output := [];
      countOutput := 0;
      line := [];
      inputBuffer := [];
      echoed := [];
      keyboard := typed;
    }

    /** `operatePrint`: hand one character to the console device. */
    method OperatePrint(ch: char)
      modifies this
      ensures echoed == old(echoed) + [ch]
      ensures output == old(output) && countOutput == old(countOutput) && line == old(line)
      ensures inputBuffer == old(inputBuffer) && keyboard == old(keyboard)
    {
      echoed := echoed + [ch];
    }

    /** Print `n` rub-outs. */
    method PrintErase(n: nat)
      modifies this
      ensures echoed == old(echoed) + Erase(n)
      ensures output == old(output) && countOutput == old(countOutput) && line == old(line)
      ensures inputBuffer == old(inputBuffer) && keyboard == old(keyboard)
    {
      for i := 0 to n
        invariant echoed == old(echoed) + Erase(i)
        invariant output == old(output) && countOutput == old(countOutput) && line == old(line)
        invariant inputBuffer == old(inputBuffer) && keyboard == old(keyboard)
      {
        OperatePrint(Backspace);
        OperatePrint(' ');
        OperatePrint(Backspace);
      }
    }

    /**
     * `processOutput`: take the oldest queued character, if any, and echo it
     * with line editing.
     */
    method ProcessOutput()
      requires Valid()
      modifies this
      ensures Valid()
      ensures inputBuffer == old(inputBuffer) && keyboard == old(keyboard)
      ensures old(countOutput) == 0 ==>
                output == old(output) && line == old(line) && echoed == old(echoed)
      ensures old(countOutput) != 0 ==>
                output == old(output)[1..] && countOutput == old(countOutput) - 1
                && line == Echo(old(line), old(output)[0]).line
                && echoed == old(echoed) + Echo(old(line), old(output)[0]).out
    {
      if countOutput != 0 {
        var result := output[0];
        output := output[1..];
        countOutput := countOutput - 1;
        if result == Backspace {
          if |line| > 0 {
            OperatePrint(result);
            OperatePrint(' ');
            OperatePrint(Backspace);
            line := line[..|line| - 1];
          }
        } else if result == CtrlU {
          PrintErase(|line|);
          line := [];
        } else if result == CtrlR {
          PrintErase(|line|);
          ghost var before := echoed;
          for i := 0 to |line|
            invariant line == old(line)
            invariant echoed == before + line[..i]
            invariant output == old(output)[1..] && countOutput == old(countOutput) - 1
            invariant inputBuffer == old(inputBuffer) && keyboard == old(keyboard)
          {
            OperatePrint(line[i]);
          }
        } else if result == CR || result == LF {
          line := [];
          OperatePrint(result);
        } else if Printable(result) {
          line := line + [result];
          OperatePrint(result);
        }
      }
    }

    /**
     * `putChar` when the queue has room: queue the character and, if the
     * queue was empty, echo it at once.
     */
    method PutChar(ch: char)
      requires Valid() && countOutput < Max
      modifies this
      ensures Valid()
      ensures inputBuffer == old(inputBuffer) && keyboard == old(keyboard)
      ensures old(countOutput) == 0 ==>
                output == [] && line == Echo(old(line), ch).line
                && echoed == old(echoed) + Echo(old(line), ch).out
      ensures old(countOutput) != 0 ==>
                output == old(output) + [ch] && line == old(line) && echoed == old(echoed)
    {
      if countOutput == 0 {
        output := output + [ch];
        countOutput := countOutput + 1;
        ProcessOutput();
      } else {
        output := output + [ch];
        countOutput := countOutput + 1;
      }
    }
  }
}
