// getLastLines of LogViewerActivity.kt: the last lines of a file, found by scanning backwards.
// A file is the string of its bytes, as RandomAccessFile.readLine turns each byte into a character.

module LogTail {
  import opened Words

  /** The lines of a text; a final newline ends the last line rather than starting another. */
  function Lines(f: string): seq<string>
  {
    if f == "" then []
    else if f[0] == '\n' then [""] + Lines(f[1..])
    else
      var rest := Lines(f[1..]);
      if rest == [] then [[f[0]]] else [[f[0]] + rest[0]] + rest[1..]
  }

  /** Up to the first carriage return. */
  function Cut(line: string): string
  {
    if line == "" || line[0] == '\r' then "" else [line[0]] + Cut(line[1..])
  }

  function CutAll(lines: seq<string>): (r: seq<string>)
    ensures |r| == |lines| && forall i :: 0 <= i < |r| ==> r[i] == Cut(lines[i])
  {
    seq(|lines|, i requires 0 <= i < |lines| => Cut(lines[i]))
  }

  function Tail<T>(s: seq<T>, n: int): seq<T>
  {
    if n <= 0 then [] else if n >= |s| then s else s[|s| - n..]
  }

  /** RandomAccessFile.readLine: null at the end of the file, otherwise up to a newline or carriage return. */
  function ReadLine(f: string): Option<string>
  {
    if f == "" then None else Some(Upto(f))
  }

  function Upto(f: string): string
  {
    if f == "" || f[0] == '\n' || f[0] == '\r' then "" else [f[0]] + Upto(f[1..])
  }

  /** joinToString on a list that may hold null. */
  function JoinToString(lines: seq<Option<string>>): string
  {
    if lines == [] then ""
    else
      var first := if lines[0].Some? then lines[0].value else "null";
      if |lines| == 1 then first else first + "\n" + JoinToString(lines[1..])
  }

  function Present(lines: seq<string>): (r: seq<Option<string>>)
    ensures |r| == |lines| && forall i :: 0 <= i < |r| ==> r[i] == Some(lines[i])
  {
    seq(|lines|, i requires 0 <= i < |lines| => Some(lines[i]))
  }

  /** A first line of n bytes, its newline included unless the text ends without one. */
  lemma {:induction false} FirstLine(f: string, n: nat)
    requires 0 < n <= |f| && (forall k :: 0 <= k < n - 1 ==> f[k] != '\n')
    requires f[n - 1] == '\n' || n == |f|
    ensures Lines(f) == [if f[n - 1] == '\n' then f[..n - 1] else f] + Lines(f[n..])
    decreases n
  {
    if n == 1 {
      if f[0] != '\n' {
        assert f == [f[0]];
      }
    } else {
      FirstLine(f[1..], n - 1);
      assert f[1..][..n - 2] == f[1..n - 1] && f[1..][n - 1..] == f[n..];
      assert f[..n - 1] == [f[0]] + f[1..n - 1] && f == [f[0]] + f[1..];
    }
  }

  lemma {:induction false} ReadLineIsFirst(f: string)
    requires f != ""
    ensures Lines(f) != [] && ReadLine(f) == Some(Cut(Lines(f)[0]))
  {
    if f[0] != '\n' && f[1..] != "" {
      ReadLineIsFirst(f[1..]);
      var rest := Lines(f[1..]);
      assert ([f[0]] + rest[0])[1..] == rest[0];
    } else if f[0] != '\n' {
      assert Lines(f[1..]) == [] && f == [f[0]];
      assert Lines(f)[0] == f && Cut(f) == Upto(f) by { assert f[1..] == ""; }
    }
  }

  /** After a newline the lines start afresh. */
  lemma {:induction false} LinesSplit(f: string, e: nat)
    requires e <= |f| && (e == 0 || f[e - 1] == '\n')
    ensures Lines(f) == Lines(f[..e]) + Lines(f[e..])
    decreases e
  {
    if e == 0 {
      assert f[0..] == f;
    } else {
      var g := f[..e];
      if e == 1 {
        assert g == "\n" && g[1..] == "";
      } else {
        LinesSplit(f[1..], e - 1);
        assert f[1..][..e - 1] == g[1..] && f[1..][e - 1..] == f[e..];
        EndsNonEmpty(g[1..]);
        InFront(f[0], Lines(g[1..]), Lines(f[e..]));
        assert g[0] == f[0];
      }
    }
  }

  /** What comes in front goes to the first of the lines, whatever lines follow them. */
  lemma InFront(c: char, a: seq<string>, b: seq<string>)
    requires a != []
    ensures [""] + (a + b) == ([""] + a) + b
    ensures [[c] + (a + b)[0]] + (a + b)[1..] == ([[c] + a[0]] + a[1..]) + b
  {
    assert (a + b)[0] == a[0] && (a + b)[1..] == a[1..] + b;
  }

  lemma EndsNonEmpty(f: string)
    requires f != ""
    ensures Lines(f) != []
  {
  }

  lemma TailOfConcat<T>(a: seq<T>, b: seq<T>)
    ensures Tail(a + b, |b|) == b
  {
  }

  /** All lines, each read up to its first carriage return; the empty file reads as a null line. */
  function Expected(file: string, lineCount: int): seq<Option<string>>
  {
    if file == "" then (if lineCount > 0 then [None] else []) else Present(CutAll(Tail(Lines(file), lineCount)))
  }

  method GetLastLines(file: string, lineCount: int) returns (text: string)
    ensures text == JoinToString(Expected(file, lineCount))
    ensures file != "" && '\r' !in file && lineCount > 0 ==> IsTailOf(text, Body(file), lineCount)
    ensures lineCount <= 0 ==> text == ""
    ensures file == "" && lineCount > 0 ==> text == "null"
  {
    var lines: seq<Option<string>> := [];
    var pos := |file| - 1;
    var newLineCount := 0;
    ghost var edge := |file|;
    assert Present(CutAll(Lines(file[edge..]))) == [];
    while pos >= 0 && newLineCount < lineCount
      invariant -1 <= pos < edge <= |file| || (file == "" && pos == -1 && edge == 0)
      invariant pos == edge - 1 ==> edge == |file|
      invariant edge < |file| ==> edge > 0 && file[edge - 1] == '\n'
      invariant forall k :: pos < k < edge - 1 ==> file[k] != '\n'
      invariant newLineCount == |Lines(file[edge..])| && (newLineCount <= lineCount || edge == |file|)
      invariant lines == Present(CutAll(Lines(file[edge..])))
      decreases pos
    {
      if file[pos] == '\n' {
        if pos < |file| - 1 {
          LineBefore(file, pos + 1, edge);
          lines := [ReadLine(file[pos + 1..])] + lines;
          newLineCount := newLineCount + 1;
          edge := pos + 1;
        }
      }
      pos := pos - 1;
    }
    if newLineCount < lineCount {
      WholeFileShown(file, edge, lineCount);
      lines := [ReadLine(file)] + lines;
    } else {
      EnoughShown(file, edge, lineCount);
    }
    text := JoinToString(lines);
    if file != "" && '\r' !in file && lineCount > 0 {
      ShownIsTail(file, lineCount);
    }
  }

  /** The scan reached the start: the first line completes the file. */
  lemma WholeFileShown(file: string, edge: nat, lineCount: int)
    requires edge <= |file| && (edge == 0 ==> file == "") && (edge < |file| ==> file[edge - 1] == '\n')
    requires forall k :: 0 <= k < edge - 1 ==> file[k] != '\n'
    requires |Lines(file[edge..])| < lineCount
    ensures [ReadLine(file)] + Present(CutAll(Lines(file[edge..]))) == Expected(file, lineCount)
  {
    if file != "" {
      LineBefore(file, 0, edge);
      assert file[0..] == file;
    }
  }

  /** The scan stopped early: what follows the last newline found is the tail asked for. */
  lemma EnoughShown(file: string, edge: nat, lineCount: int)
    requires edge <= |file| && (edge < |file| ==> edge > 0 && file[edge - 1] == '\n')
    requires |Lines(file[edge..])| >= lineCount && (lineCount <= 0 ==> edge == |file|)
    requires lineCount > 0 ==> |Lines(file[edge..])| == lineCount
    ensures Present(CutAll(Lines(file[edge..]))) == Expected(file, lineCount)
  {
    if lineCount > 0 {
      assert edge < |file|;
      LinesSplit(file, edge);
      TailOfConcat(Lines(file[..edge]), Lines(file[edge..]));
    }
  }

  /** The line from `start` to `edge` goes in front of the lines after `edge`. */
  lemma LineBefore(f: string, start: nat, edge: nat)
    requires start < edge <= |f| && (edge < |f| ==> f[edge - 1] == '\n')
    requires forall k :: start <= k < edge - 1 ==> f[k] != '\n'
    ensures |Lines(f[start..])| == |Lines(f[edge..])| + 1
    ensures Present(CutAll(Lines(f[start..]))) == [ReadLine(f[start..])] + Present(CutAll(Lines(f[edge..])))
  {
    var g, n := f[start..], edge - start;
    FirstLine(g, n);
    ReadLineIsFirst(g);
    assert g[n..] == f[edge..];
    PresentCons(Lines(g)[0], Lines(f[edge..]));
  }

  lemma PresentCons(line: string, lines: seq<string>)
    ensures Present(CutAll([line] + lines)) == [Some(Cut(line))] + Present(CutAll(lines))
  {
  }

  lemma {:induction false} CutIff(line: string)
    ensures Cut(line) == line <==> '\r' !in line
  {
    if line != "" {
      CutIff(line[1..]);
      assert line == [line[0]] + line[1..];
    }
  }

  /** What is shown of a line ends before its first carriage return. */
  lemma {:induction false} CutIs(line: string, k: nat)
    requires k <= |line| && '\r' !in line[..k] && (k < |line| ==> line[k] == '\r')
    ensures Cut(line) == line[..k]
  {
    if k > 0 {
      assert line[..k] == [line[0]] + line[1..][..k - 1];
      assert line[0] in line[..k];
      assert forall c :: c in line[1..][..k - 1] ==> c in line[..k];
      CutIs(line[1..], k - 1);
    }
  }

  /** The scan shows the last lines of a non-empty file unchanged exactly when none of them holds a carriage return. */
  lemma LastLinesIff(file: string, lineCount: int)
    requires file != ""
    ensures Expected(file, lineCount) == Present(Tail(Lines(file), lineCount)) <==>
            forall line :: line in Tail(Lines(file), lineCount) ==> '\r' !in line
  {
    var tail := Tail(Lines(file), lineCount);
    forall line | line in tail
      ensures Cut(line) == line <==> '\r' !in line
    {
      CutIff(line);
    }
    if Present(CutAll(tail)) == Present(tail) {
      forall i | 0 <= i < |tail|
        ensures Cut(tail[i]) == tail[i]
      {
        assert Present(CutAll(tail))[i] == Present(tail)[i];
      }
    }
  }

  /** The lines and their newlines are the file: splitting loses nothing. */
  lemma {:induction false} LinesRebuild(f: string)
    ensures f != "" ==> Rebuilt(Lines(f)) == if f[|f| - 1] == '\n' then f else f + "\n"
    ensures f == "" ==> Lines(f) == []
  {
    if f != "" {
      var rest := Lines(f[1..]);
      LinesRebuild(f[1..]);
      assert f == [f[0]] + f[1..];
      if f[0] == '\n' {
        RebuiltCons("", rest);
      } else if rest == [] {
        assert f == [f[0]];
        RebuiltCons(f, []);
      } else {
        assert rest == [rest[0]] + rest[1..];
        LongerFirstLine(f[0], rest[0], rest[1..]);
      }
    }
  }

  lemma LongerFirstLine(c: char, first: string, rest: seq<string>)
    ensures Rebuilt([[c] + first] + rest) == [c] + Rebuilt([first] + rest)
  {
    RebuiltCons([c] + first, rest);
    RebuiltCons(first, rest);
    Associates([c], first, "\n" + Rebuilt(rest));
  }

  lemma Associates(a: string, b: string, c: string)
    ensures (a + b) + c == a + (b + c)
  {
  }

  lemma RebuiltCons(line: string, rest: seq<string>)
    ensures Rebuilt([line] + rest) == line + ("\n" + Rebuilt(rest))
  {
    assert ([line] + rest)[1..] == rest;
  }

  /** Each line closed by a newline. */
  function Rebuilt(lines: seq<string>): string
  {
    if lines == [] then "" else lines[0] + ("\n" + Rebuilt(lines[1..]))
  }

  // ---- What is shown, in terms of the file ----

  function Newlines(s: string): nat
  {
    if s == "" then 0 else (if s[0] == '\n' then 1 else 0) + Newlines(s[1..])
  }

  /** The file without the newline that ends it. */
  function Body(file: string): string
  {
    if file != "" && file[|file| - 1] == '\n' then file[..|file| - 1] else file
  }

  /** text ends the body, starts at a line's start, and is n lines long, or the whole body if that has fewer. */
  ghost predicate IsTailOf(text: string, body: string, n: int)
  {
    |text| <= |body| && body[|body| - |text|..] == text &&
    (|text| == |body| || body[|body| - |text| - 1] == '\n') &&
    Newlines(text) == if n - 1 <= Newlines(body) then n - 1 else Newlines(body)
  }

  lemma {:induction false} NewlinesConcat(a: string, b: string)
    ensures Newlines(a + b) == Newlines(a) + Newlines(b)
  {
    if a == "" {
      assert a + b == b;
    } else {
      NewlinesConcat(a[1..], b);
      assert (a + b)[1..] == a[1..] + b;
    }
  }

  lemma {:induction false} NoNewlines(s: string)
    requires '\n' !in s
    ensures Newlines(s) == 0
  {
    if s != "" {
      NoNewlines(s[1..]);
    }
  }

  /** A line holds no newline, and nothing that the text does not hold. */
  lemma {:induction false} LinesOf(f: string)
    ensures forall line, c :: line in Lines(f) && c in line ==> c != '\n' && c in f
  {
    if f != "" {
      LinesOf(f[1..]);
      var rest := Lines(f[1..]);
      forall line, c | line in Lines(f) && c in line
        ensures c != '\n' && c in f
      {
        assert line in rest || line == "" || c == f[0] || (rest != [] && c in rest[0]);
        assert c in f[1..] ==> c in f;
      }
    }
  }

  lemma {:induction false} RebuiltConcat(a: seq<string>, b: seq<string>)
    ensures Rebuilt(a + b) == Rebuilt(a) + Rebuilt(b)
  {
    if a == [] {
      assert a + b == b;
    } else {
      RebuiltConcat(a[1..], b);
      assert a + b == [a[0]] + (a[1..] + b);
      RebuiltCons(a[0], a[1..] + b);
      Associates("\n", Rebuilt(a[1..]), Rebuilt(b));
      Associates(a[0], "\n" + Rebuilt(a[1..]), Rebuilt(b));
    }
  }

  lemma {:induction false} RebuiltEnds(lines: seq<string>)
    requires lines != []
    ensures Rebuilt(lines) != "" && Rebuilt(lines)[|Rebuilt(lines)| - 1] == '\n'
  {
    if |lines| > 1 {
      RebuiltEnds(lines[1..]);
    }
  }

  /** Each line gives one newline. */
  lemma {:induction false} RebuiltNewlines(lines: seq<string>)
    requires forall line :: line in lines ==> '\n' !in line
    ensures Newlines(Rebuilt(lines)) == |lines|
  {
    if lines != [] {
      var rest := lines[1..];
      RebuiltNewlines(rest);
      NoNewlines(lines[0]);
      NewlinesConcat(lines[0], "\n" + Rebuilt(rest));
      NewlinesConcat("\n", Rebuilt(rest));
      assert Newlines("\n") == 1 by { assert "\n"[1..] == ""; }
    }
  }

  /** Joining differs from closing each line only in the last newline. */
  lemma {:induction false} JoinedIsRebuilt(lines: seq<string>)
    requires lines != []
    ensures JoinToString(Present(lines)) + "\n" == Rebuilt(lines)
  {
    var shown := Present(lines);
    if |lines| == 1 {
      assert lines[1..] == [];
      assert lines[0] + ("\n" + "") == lines[0] + "\n";
    } else {
      JoinedIsRebuilt(lines[1..]);
      assert shown[1..] == Present(lines[1..]);
      var joined := JoinToString(shown[1..]);
      assert JoinToString(shown) == lines[0] + "\n" + joined;
      assert lines[0] + "\n" + joined + "\n" == lines[0] + ("\n" + (joined + "\n"));
    }
  }

  lemma BodyIsRebuilt(file: string)
    requires file != ""
    ensures Body(file) + "\n" == Rebuilt(Lines(file)) && Newlines(Body(file)) + 1 == |Lines(file)|
  {
    LinesRebuild(file);
    if file[|file| - 1] == '\n' {
      assert file == file[..|file| - 1] + ['\n'];
    }
    LinesOf(file);
    RebuiltNewlines(Lines(file));
    NewlinesOfClosed(Body(file));
  }

  lemma SameBeforeNewline(a: string, b: string)
    requires a + "\n" == b + "\n"
    ensures a == b
  {
    assert a == (a + "\n")[..|a|] && b == (b + "\n")[..|b|];
  }

  lemma NewlinesOfClosed(text: string)
    ensures Newlines(text + "\n") == Newlines(text) + 1
  {
    NewlinesConcat(text, "\n");
    assert Newlines("\n") == 1 by { assert "\n"[1..] == ""; }
  }

  /** The lines joined end the body that all lines together make. */
  lemma JoinedEndsBody(head: seq<string>, tail: seq<string>, body: string)
    requires tail != [] && body + "\n" == Rebuilt(head + tail)
    ensures var text := JoinToString(Present(tail));
            body == Rebuilt(head) + text && (head == [] || Rebuilt(head)[|Rebuilt(head)| - 1..] == "\n")
  {
    var front, text := Rebuilt(head), JoinToString(Present(tail));
    RebuiltConcat(head, tail);
    if head != [] {
      RebuiltEnds(head);
    }
    JoinedIsRebuilt(tail);
    assert front + (text + "\n") == (front + text) + "\n";
    SameBeforeNewline(body, front + text);
  }

  lemma JoinedNewlines(tail: seq<string>)
    requires tail != [] && forall line :: line in tail ==> '\n' !in line
    ensures Newlines(JoinToString(Present(tail))) == |tail| - 1
  {
    JoinedIsRebuilt(tail);
    RebuiltNewlines(tail);
    NewlinesOfClosed(JoinToString(Present(tail)));
  }

  lemma TailSplit(lines: seq<string>, n: int)
    requires lines != [] && n > 0
    ensures var tail := Tail(lines, n);
            tail != [] && |tail| == (if n <= |lines| then n else |lines|) && lines == lines[..|lines| - |tail|] + tail
  {
  }

  lemma SplitAt(front: string, text: string, body: string)
    requires body == front + text
    ensures |text| <= |body| && body[|body| - |text|..] == text && |front| == |body| - |text|
    ensures front != "" ==> body[|body| - |text| - 1] == front[|front| - 1]
  {
  }

  lemma TailIsTail(lines: seq<string>, body: string, n: int)
    requires lines != [] && n > 0 && (forall line :: line in lines ==> '\n' !in line)
    requires body + "\n" == Rebuilt(lines) && Newlines(body) + 1 == |lines|
    ensures IsTailOf(JoinToString(Present(Tail(lines, n))), body, n)
  {
    TailSplit(lines, n);
    var tail := Tail(lines, n);
    var head := lines[..|lines| - |tail|];
    assert forall line :: line in tail ==> line in lines;
    JoinedEndsBody(head, tail, body);
    JoinedNewlines(tail);
    SplitAt(Rebuilt(head), JoinToString(Present(tail)), body);
  }

  lemma ShownUnchanged(file: string, lineCount: int)
    requires file != "" && '\r' !in file
    ensures Expected(file, lineCount) == Present(Tail(Lines(file), lineCount))
  {
    LinesOf(file);
    LastLinesIff(file, lineCount);
    var lines := Lines(file);
    assert forall line :: line in Tail(lines, lineCount) ==> line in lines;
  }

  /** Without carriage returns the text shown is the end of the file, from the start of a line on. */
  lemma ShownIsTail(file: string, lineCount: int)
    requires file != "" && '\r' !in file && lineCount > 0
    ensures IsTailOf(JoinToString(Expected(file, lineCount)), Body(file), lineCount)
  {
    EndsNonEmpty(file);
    BodyIsRebuilt(file);
    LinesOf(file);
    TailIsTail(Lines(file), Body(file), lineCount);
    ShownUnchanged(file, lineCount);
  }
}
