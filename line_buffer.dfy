/** Lines of coloured text, and the parser for the colour markup that produces them
    (LineBuffer.cs). In the markup, the marker '°' takes the next three characters with it: a
    kind ('b' for background, anything else for foreground) and a two-character code, where
    "--" undoes the last change of that kind and anything else pushes the colour the code
    names. Each ordinary character takes the colours on top of the two stacks, and '\n'
    starts a new line. */
module LineBuffers {
  import opened Common
  import opened Sequences
  import opened Text
  import opened Numerals

  /** The markup marker, U+00B0. */
  const Marker: char := '°'

  /** `ParseEscapeCode(str)`: the colour the code names when it parses to 0..15, White otherwise. */
  function ParseEscapeCode(str: string): (c: Color)
    requires |str| == 2
  {
    match TryParseInt32(str)
    case Some(n) => if 0 <= n <= 15 then n else White
    case None => White
  }

  /** The zero-padded two-digit code of a colour, as the markup writes it ("09", "12"). */
  function EscapeCode(c: Color): (s: string)
    ensures |s| == 2
  {
    ['0' + (c / 10) as char, '0' + (c % 10) as char]
  }

  /** Every colour's two-digit code parses back to that colour, and a code that is not a number
      in 0..15 gives White. */
  lemma EscapeCodeRoundTrip(c: Color, str: string)
    requires |str| == 2
    ensures ParseEscapeCode(EscapeCode(c)) == c
    ensures TryParseInt32(str).None? ==> ParseEscapeCode(str) == White
    ensures TryParseInt32(str).Some? && !(0 <= TryParseInt32(str).value <= 15) ==> ParseEscapeCode(str) == White
  {
    var s := EscapeCode(c);
    assert IsDigit(s[0]) && IsDigit(s[1]);
    assert AllDigits(s);
    assert TrimStart(s) == s && TrimEnd(s) == s && DropTrailingNuls(s) == s;
    assert DigitsValue(s) == c by {
      assert s[..1] == [s[0]] && [s[0]][..0] == [];
      assert DigitsValue(s[..1]) == DigitValue(s[0]);
      assert DigitValue(s[0]) == c / 10 && DigitValue(s[1]) == c % 10;
    }
    ParseNumeral(s, s, false);
  }

  /** Apart from two-digit codes, .NET also reads white space before a digit (" 7") and a
      '\0' after it ("7\0"). */
  lemma EscapeCodeLenient()
    ensures ParseEscapeCode(" 7") == 7 && ParseEscapeCode("7\0") == 7
  {
    assert "7"[..0] == "";
    assert ParseEscapeCode(" 7") == 7 by {
      assert DropTrailingNuls(" 7") == " 7" && TrimStart(" 7") == "7" by {
        assert " 7"[1..] == "7";
      }
    }
    assert ParseEscapeCode("7\0") == 7 by {
      assert "7\0" == "7" + ['\0'];
      ParseTrailingNul("7");
      ParseDigits("7");
    }
  }

  /** A sign before a digit is read too: "+7" is 7 and "-0" names Black. */
  lemma EscapeCodeSigned()
    ensures ParseEscapeCode("+7") == 7 && ParseEscapeCode("-0") == Black
  {
    assert ParseEscapeCode("+7") == 7 by {
      assert DropTrailingNuls("+7") == "+7" && "+7"[1..] == "7" && "7"[..0] == "";
    }
    assert ParseEscapeCode("-0") == Black by {
      assert DropTrailingNuls("-0") == "-0" && "-0"[1..] == "0" && "0"[..0] == "";
    }
  }

  /** A number outside 0..15 ("-5", "16") and a code that is no number ("ab") give White. */
  lemma EscapeCodeFallback()
    ensures ParseEscapeCode("-5") == White && ParseEscapeCode("16") == White
    ensures ParseEscapeCode("ab") == White
  {
    assert ParseEscapeCode("-5") == White by {
      assert DropTrailingNuls("-5") == "-5" && "-5"[1..] == "5" && "5"[..0] == "";
    }
    assert ParseEscapeCode("16") == White by {
      assert AllDigits("16") && "16"[..1] == "1" && "1"[..0] == "";
      ParseDigits("16");
    }
    assert ParseEscapeCode("ab") == White by {
      assert TrimStart("ab") == "ab" && TrimEnd("ab") == "ab" && DropTrailingNuls("ab") == "ab";
      assert !IsDigit("ab"[0]);
    }
  }

  /** The parser's state: the lines so far (never none) and the two colour stacks, top last. */
  datatype ParseState = ParseState(lines: seq<seq<ColoredChar>>, fg: seq<Color>, bg: seq<Color>)

  const InitialState := ParseState([[]], [White], [Black])

  /** The lines with c appended to the last one. */
  function AppendToLast(lines: seq<seq<ColoredChar>>, cs: seq<ColoredChar>): (r: seq<seq<ColoredChar>>)
    requires lines != []
    ensures |r| == |lines| && r[|r| - 1] == lines[|lines| - 1] + cs
    ensures forall k :: 0 <= k < |r| - 1 ==> r[k] == lines[k]
  {
    lines[..|lines| - 1] + [lines[|lines| - 1] + cs]
  }

  function Last<T>(s: seq<T>): T
    requires s != []
  {
    s[|s| - 1]
  }

  function Pop<T>(s: seq<T>): seq<T>
    requires s != []
  {
    s[..|s| - 1]
  }

  /** Runs the parser over the rest r of the input. A marker with fewer than three characters
      after it makes `Substring` throw; popping an empty stack throws; an ordinary character
      read while a stack is empty dereferences a null `Last`. */
  function Run(r: string, st: ParseState): Result<ParseState>
    requires st.lines != []
    decreases |r|
  {
    if r == [] then Ok(st)
    else if r[0] == Marker then
      if |r| < 4 then Err(ArgumentOutOfRange)
      else
        var foreground := r[1] != 'b';
        var code := r[2..4];
        if code == "--" then
          if foreground then
            if st.fg == [] then Err(InvalidOperation) else Run(r[4..], st.(fg := Pop(st.fg)))
          else
            if st.bg == [] then Err(InvalidOperation) else Run(r[4..], st.(bg := Pop(st.bg)))
        else if foreground then Run(r[4..], st.(fg := st.fg + [ParseEscapeCode(code)]))
        else Run(r[4..], st.(bg := st.bg + [ParseEscapeCode(code)]))
    else if r[0] == NewLine then Run(r[1..], st.(lines := st.lines + [[]]))
    else if st.fg == [] || st.bg == [] then Err(NullReference)
    else Run(r[1..], st.(lines := AppendToLast(st.lines, [ColoredChar(r[0], Last(st.fg), Last(st.bg))])))
  }

  /** The lines the whole coloured string parses to. */
  function Parse(s: string): Result<seq<seq<ColoredChar>>> {
    match Run(s, InitialState)
    case Ok(st) => Ok(st.lines)
    case Err(e) => Err(e)
  }

  /** Text drawn in one foreground and one background colour. */
  function Paint(t: string, f: Color, b: Color): (cs: seq<ColoredChar>)
    ensures |cs| == |t| && forall k :: 0 <= k < |t| ==> cs[k] == ColoredChar(t[k], f, b)
  {
    seq(|t|, k requires 0 <= k < |t| => ColoredChar(t[k], f, b))
  }

  function PaintLines(ls: seq<string>, f: Color, b: Color): (r: seq<seq<ColoredChar>>)
    ensures |r| == |ls| && forall k :: 0 <= k < |ls| ==> r[k] == Paint(ls[k], f, b)
  {
    seq(|ls|, k requires 0 <= k < |ls| => Paint(ls[k], f, b))
  }

  /** The existing lines continued by new ones: the first new line goes on the end of the last
      existing line. */
  function Continue(lines: seq<seq<ColoredChar>>, more: seq<seq<ColoredChar>>): seq<seq<ColoredChar>>
    requires lines != [] && more != []
  {
    AppendToLast(lines, more[0]) + more[1..]
  }

  predicate Plain(t: string) {
    Marker !in t && NewLine !in t
  }

  /** Ordinary characters without markup or line breaks go, in order, onto the end of the last
      line in the colours on top of the stacks, and nothing else changes. */
  lemma {:induction false} RunPlain(t: string, x: string, st: ParseState)
    requires st.lines != [] && st.fg != [] && st.bg != [] && Plain(t)
    ensures Run(t + x, st) == Run(x, st.(lines := AppendToLast(st.lines, Paint(t, Last(st.fg), Last(st.bg)))))
    decreases |t|
  {
    var f, b := Last(st.fg), Last(st.bg);
    if t == [] {
      assert t + x == x;
      var n := |st.lines|;
      assert Paint(t, f, b) == [] && st.lines[n - 1] + [] == st.lines[n - 1];
      assert AppendToLast(st.lines, Paint(t, f, b)) == st.lines[..n - 1] + [st.lines[n - 1]] == st.lines;
    } else {
      var st1 := st.(lines := AppendToLast(st.lines, [ColoredChar(t[0], f, b)]));
      assert (t + x)[0] == t[0] && (t + x)[1..] == t[1..] + x;
      assert Run(t + x, st) == Run(t[1..] + x, st1);
      RunPlain(t[1..], x, st1);
      assert Paint(t, f, b) == [ColoredChar(t[0], f, b)] + Paint(t[1..], f, b);
      AppendToLastTwice(st.lines, [ColoredChar(t[0], f, b)], Paint(t[1..], f, b));
    }
  }

  lemma AppendToLastTwice(lines: seq<seq<ColoredChar>>, a: seq<ColoredChar>, b: seq<ColoredChar>)
    requires lines != []
    ensures AppendToLast(AppendToLast(lines, a), b) == AppendToLast(lines, a + b)
  {
    var n := |lines|;
    var l1 := AppendToLast(lines, a);
    assert l1[..n - 1] == lines[..n - 1];
    assert l1[n - 1] + b == lines[n - 1] + (a + b);
  }

  /** Text bracketed by a colour change and its undo ("°fNN…°f--" or "°bNN…°b--") is drawn in
      the colour the code names on that side, the other colour staying the one on top of its
      stack, and both stacks are as before afterwards. */
  lemma ColoredSpan(kind: char, code: string, t: string, rest: string, st: ParseState)
    requires st.lines != [] && st.fg != [] && st.bg != []
    requires |code| == 2 && code != "--" && Plain(t)
    ensures var f := if kind == 'b' then Last(st.fg) else ParseEscapeCode(code);
      var b := if kind == 'b' then ParseEscapeCode(code) else Last(st.bg);
      Run([Marker, kind] + code + t + [Marker, kind, '-', '-'] + rest, st) ==
      Run(rest, st.(lines := AppendToLast(st.lines, Paint(t, f, b))))
  {
    var close := [Marker, kind, '-', '-'];
    var s := [Marker, kind] + code + t + close + rest;
    assert s[0] == Marker && s[1] == kind && s[2..4] == code;
    assert s[4..] == t + (close + rest);
    var pushed := if kind == 'b' then st.(bg := st.bg + [ParseEscapeCode(code)])
      else st.(fg := st.fg + [ParseEscapeCode(code)]);
    assert Run(s, st) == Run(t + (close + rest), pushed);
    RunPlain(t, close + rest, pushed);
    var painted := pushed.(lines := AppendToLast(st.lines, Paint(t, Last(pushed.fg), Last(pushed.bg))));
    assert (close + rest)[0] == Marker && (close + rest)[1] == kind;
    assert (close + rest)[2..4] == "--" && (close + rest)[4..] == rest;
    if kind == 'b' {
      assert Pop(painted.bg) == st.bg;
    } else {
      assert Pop(painted.fg) == st.fg;
    }
  }

  /** Text without markup parses to its '\n'-separated pieces, white on black: one line more
      than it has '\n' characters. */
  lemma ParsePlainText(s: string)
    requires Marker !in s
    ensures Parse(s) == Ok(PaintLines(Split(s), White, Black))
    ensures |PaintLines(Split(s), White, Black)| == NewLines(s) + 1
  {
    RunLines(s, InitialState);
    var ps := PaintLines(Split(s), White, Black);
    var empty: seq<seq<ColoredChar>> := [[]];
    var none: seq<ColoredChar> := [];
    assert empty[..0] == [] && none + ps[0] == ps[0];
    assert AppendToLast(empty, ps[0]) == [ps[0]];
    assert Continue(empty, ps) == [ps[0]] + ps[1..] == ps;
    SplitCounts(s);
  }

  /** The characters of s that markup leaves to be drawn or to break lines: s without each
      marker and the three characters after it, ending at a marker cut short. */
  function Visible(s: string): string
    decreases |s|
  {
    if s == [] then []
    else if s[0] == Marker then (if |s| < 4 then [] else Visible(s[4..]))
    else [s[0]] + Visible(s[1..])
  }

  /** The characters of a line, without their colours. */
  function Chars(l: seq<ColoredChar>): (t: string)
    ensures |t| == |l| && forall k :: 0 <= k < |l| ==> t[k] == l[k].Char
  {
    seq(|l|, k requires 0 <= k < |l| => l[k].Char)
  }

  function LinesText(lines: seq<seq<ColoredChar>>): (ls: seq<string>)
    ensures |ls| == |lines| && forall k :: 0 <= k < |lines| ==> ls[k] == Chars(lines[k])
  {
    seq(|lines|, k requires 0 <= k < |lines| => Chars(lines[k]))
  }

  /** Extending the last line extends the joined text. */
  lemma {:induction false} JoinExtendLast(ls: seq<string>, x: string)
    requires ls != []
    ensures Join(ls[..|ls| - 1] + [ls[|ls| - 1] + x]) == Join(ls) + x
    decreases |ls|
  {
    var ext := ls[..|ls| - 1] + [ls[|ls| - 1] + x];
    if |ls| > 1 {
      var tail := ls[1..];
      assert ext[0] == ls[0] && ext[1..] == tail[..|tail| - 1] + [tail[|tail| - 1] + x];
      JoinExtendLast(tail, x);
    } else {
      assert ext == [ls[0] + x];
    }
  }

  /** An ordinary character goes onto the last line of the text. */
  lemma AppendCharText(lines: seq<seq<ColoredChar>>, cc: ColoredChar)
    requires lines != []
    ensures LinesText(AppendToLast(lines, [cc])) ==
      LinesText(lines)[..|lines| - 1] + [LinesText(lines)[|lines| - 1] + [cc.Char]]
  {
    var n := |lines|;
    var a, b := LinesText(AppendToLast(lines, [cc])), LinesText(lines)[..n - 1] + [LinesText(lines)[n - 1] + [cc.Char]];
    forall k | 0 <= k < n ensures a[k] == b[k] {
      if k == n - 1 {
        assert Chars(lines[n - 1] + [cc]) == Chars(lines[n - 1]) + [cc.Char];
      }
    }
  }

  /** A '\n' starts a new, empty line of the text. */
  lemma NewLineText(lines: seq<seq<ColoredChar>>)
    ensures LinesText(lines + [[]]) == LinesText(lines) + [""]
  {
    var a, b := LinesText(lines + [[]]), LinesText(lines) + [""];
    assert |a| == |b|;
    forall k | 0 <= k < |a| ensures a[k] == b[k] {
      if k == |lines| {
        assert Chars([]) == "";
      }
    }
  }

  /** A '\n' adds a line and continues the text with a line break. */
  lemma NewLineVisible(lines: seq<seq<ColoredChar>>, v: string)
    requires lines != []
    ensures NewLines([NewLine] + v) == 1 + NewLines(v)
    ensures Join(LinesText(lines + [[]])) + v == Join(LinesText(lines)) + ([NewLine] + v)
  {
    assert ([NewLine] + v)[1..] == v;
    NewLineText(lines);
    JoinSnoc(LinesText(lines), "");
  }

  /** Any other character continues the last line and the text with itself. */
  lemma CharVisible(lines: seq<seq<ColoredChar>>, cc: ColoredChar, v: string)
    requires lines != [] && cc.Char != NewLine
    ensures NewLines([cc.Char] + v) == NewLines(v)
    ensures Join(LinesText(AppendToLast(lines, [cc]))) + v == Join(LinesText(lines)) + ([cc.Char] + v)
  {
    assert ([cc.Char] + v)[1..] == v;
    AppendCharText(lines, cc);
    JoinExtendLast(LinesText(lines), [cc.Char]);
  }

  /** The state after a marker: a colour pushed or popped, the lines untouched. */
  function MarkerState(r: string, st: ParseState): (st1: ParseState)
    requires |r| >= 4
    ensures st1.lines == st.lines
  {
    var foreground := r[1] != 'b';
    var code := r[2..4];
    if code == "--" then
      if foreground then st.(fg := if st.fg == [] then [] else Pop(st.fg))
      else st.(bg := if st.bg == [] then [] else Pop(st.bg))
    else if foreground then st.(fg := st.fg + [ParseEscapeCode(code)])
    else st.(bg := st.bg + [ParseEscapeCode(code)])
  }

  lemma RunMarker(r: string, st: ParseState)
    requires st.lines != [] && |r| >= 4 && r[0] == Marker
    ensures Run(r, st).Ok? ==> Run(r, st) == Run(r[4..], MarkerState(r, st))
  {
  }

  /** From any state, a successful run adds one line per '\n' outside the markup, and its
      lines' text continues with exactly the characters the markup leaves visible, in order. */
  lemma {:induction false} RunVisible(r: string, st: ParseState)
    requires st.lines != []
    ensures Run(r, st).Ok? ==>
      |Run(r, st).value.lines| == |st.lines| + NewLines(Visible(r)) &&
      Join(LinesText(Run(r, st).value.lines)) == Join(LinesText(st.lines)) + Visible(r)
    decreases |r|
  {
    if r == [] {
      assert Join(LinesText(st.lines)) + [] == Join(LinesText(st.lines));
    } else if r[0] == Marker {
      if |r| >= 4 {
        RunMarker(r, st);
        RunVisible(r[4..], MarkerState(r, st));
      }
    } else if r[0] == NewLine {
      var st1 := st.(lines := st.lines + [[]]);
      assert Run(r, st) == Run(r[1..], st1);
      assert Visible(r) == [NewLine] + Visible(r[1..]);
      RunVisible(r[1..], st1);
      NewLineVisible(st.lines, Visible(r[1..]));
    } else if st.fg != [] && st.bg != [] {
      var cc := ColoredChar(r[0], Last(st.fg), Last(st.bg));
      var st1 := st.(lines := AppendToLast(st.lines, [cc]));
      assert Run(r, st) == Run(r[1..], st1);
      assert Visible(r) == [r[0]] + Visible(r[1..]);
      RunVisible(r[1..], st1);
      CharVisible(st.lines, cc, Visible(r[1..]));
    }
  }

  /** Whatever markup it holds, a string that parses gives one line more than the '\n'
      characters outside its markers, and the lines hold, in order, exactly the characters
      outside the markers: its visible text cut at each '\n'. */
  lemma ParseVisible(s: string)
    ensures Parse(s).Ok? ==>
      |Parse(s).value| == NewLines(Visible(s)) + 1 &&
      Join(LinesText(Parse(s).value)) == Visible(s) &&
      LinesText(Parse(s).value) == Split(Visible(s))
  {
    RunVisible(s, InitialState);
    assert LinesText(InitialState.lines) == [""];
    assert "" + Visible(s) == Visible(s);
    if Parse(s).Ok? {
      var ls := LinesText(Parse(s).value);
      RunNoNewLine(s, InitialState);
      SplitJoin(ls);
    }
  }

  /** No line ever holds a '\n': it only starts a new line. */
  lemma {:induction false} RunNoNewLine(r: string, st: ParseState)
    requires st.lines != [] && forall k :: 0 <= k < |st.lines| ==> NoNewLine(Chars(st.lines[k]))
    ensures Run(r, st).Ok? ==>
      forall k :: 0 <= k < |Run(r, st).value.lines| ==> NoNewLine(LinesText(Run(r, st).value.lines)[k])
    decreases |r|
  {
    if r == [] {
    } else if r[0] == Marker {
      if |r| >= 4 {
        RunMarker(r, st);
        RunNoNewLine(r[4..], MarkerState(r, st));
      }
    } else if r[0] == NewLine {
      var st1 := st.(lines := st.lines + [[]]);
      forall k | 0 <= k < |st1.lines| ensures NoNewLine(Chars(st1.lines[k])) {
        if k == |st.lines| {
          assert Chars(st1.lines[k]) == "";
        }
      }
      RunNoNewLine(r[1..], st1);
    } else if st.fg != [] && st.bg != [] {
      var cc := ColoredChar(r[0], Last(st.fg), Last(st.bg));
      var st1 := st.(lines := AppendToLast(st.lines, [cc]));
      forall k | 0 <= k < |st1.lines| ensures NoNewLine(Chars(st1.lines[k])) {
        if k == |st.lines| - 1 {
          assert Chars(st1.lines[k]) == Chars(st.lines[k]) + [r[0]];
        }
      }
      RunNoNewLine(r[1..], st1);
    }
  }

  lemma RunLastLine(s: string, st: ParseState)
    requires st.lines != [] && st.fg != [] && st.bg != [] && Plain(s)
    ensures Run(s, st) == Ok(st.(lines := Continue(st.lines, PaintLines([s], Last(st.fg), Last(st.bg)))))
  {
    var f, b := Last(st.fg), Last(st.bg);
    RunPlain(s, [], st);
    assert s + [] == s;
    assert PaintLines([s], f, b) == [Paint(s, f, b)];
    var al := AppendToLast(st.lines, Paint(s, f, b));
    assert Continue(st.lines, [Paint(s, f, b)]) == al + [] == al;
  }

  lemma {:induction false} RunLines(s: string, st: ParseState)
    requires st.lines != [] && st.fg != [] && st.bg != [] && Marker !in s
    ensures Run(s, st) == Ok(st.(lines := Continue(st.lines, PaintLines(Split(s), Last(st.fg), Last(st.bg)))))
    decreases |s|
  {
    var f, b := Last(st.fg), Last(st.bg);
    var i := IndexOf(s, NewLine);
    IndexOfIsFirst(s, NewLine);
    if i == -1 {
      assert Plain(s);
      assert Split(s) == [s];
      RunLastLine(s, st);
    } else {
      var x := s[i + 1..];
      var st2 := st.(lines := AppendToLast(st.lines, Paint(s[..i], f, b)) + [[]]);
      RunLines(x, st2);
      RunLinesStep(s, i, st);
    }
  }

  /** The step of RunLines: the first line and the rest. */
  lemma RunLinesStep(s: string, i: int, st: ParseState)
    requires st.lines != [] && st.fg != [] && st.bg != [] && Marker !in s
    requires i == IndexOf(s, NewLine) && i != -1 && NewLine !in s[..i]
    requires var st2 := st.(lines := AppendToLast(st.lines, Paint(s[..i], Last(st.fg), Last(st.bg))) + [[]]);
      Run(s[i + 1..], st2) == Ok(st2.(lines := Continue(st2.lines, PaintLines(Split(s[i + 1..]), Last(st.fg), Last(st.bg)))))
    ensures Run(s, st) == Ok(st.(lines := Continue(st.lines, PaintLines(Split(s), Last(st.fg), Last(st.bg)))))
  {
    var f, b := Last(st.fg), Last(st.bg);
    var t := s[..i];
    var x := s[i + 1..];
    var st2 := st.(lines := AppendToLast(st.lines, Paint(t, f, b)) + [[]]);
    var rest := PaintLines(Split(x), f, b);
    CutAt(s, i);
    RunFirstLine(t, x, st);
    assert Run(s, st) == Run(x, st2);
    SplitAt(s, i);
    PaintLinesCons(t, Split(x), f, b);
    ContinueAfterBreak(st.lines, Paint(t, f, b), rest);
    assert st2.(lines := Continue(st2.lines, rest)) == st.(lines := Continue(st.lines, [Paint(t, f, b)] + rest));
  }

  /** Painting a first line and the others is painting them all. */
  lemma PaintLinesCons(l: string, ls: seq<string>, f: Color, b: Color)
    ensures PaintLines([l] + ls, f, b) == [Paint(l, f, b)] + PaintLines(ls, f, b)
  {
    var r, q := PaintLines([l] + ls, f, b), [Paint(l, f, b)] + PaintLines(ls, f, b);
    forall k | 0 <= k < |r| ensures r[k] == q[k] {
      if k > 0 {
        assert ([l] + ls)[k] == ls[k - 1];
      }
    }
  }

  lemma CutAt(s: string, i: int)
    requires 0 <= i < |s|
    ensures s == s[..i] + ([s[i]] + s[i + 1..])
  {
  }

  /** A line without markup followed by '\n': the line goes onto the last one and a new line
      starts. */
  lemma RunFirstLine(t: string, x: string, st: ParseState)
    requires st.lines != [] && st.fg != [] && st.bg != [] && Plain(t)
    ensures Run(t + ([NewLine] + x), st) ==
      Run(x, st.(lines := AppendToLast(st.lines, Paint(t, Last(st.fg), Last(st.bg))) + [[]]))
  {
    RunPlain(t, [NewLine] + x, st);
    assert ([NewLine] + x)[1..] == x;
  }

  lemma ContinueAfterBreak(lines: seq<seq<ColoredChar>>, p: seq<ColoredChar>, more: seq<seq<ColoredChar>>)
    requires lines != [] && more != []
    ensures Continue(AppendToLast(lines, p) + [[]], more) == Continue(lines, [p] + more)
  {
    var l1 := AppendToLast(lines, p);
    var none: seq<ColoredChar> := [];
    assert none + more[0] == more[0];
    assert AppendToLast(l1 + [[]], more[0]) == l1 + [more[0]];
    assert ([p] + more)[0] == p && ([p] + more)[1..] == more;
  }

  /** Rows a line of len characters needs on a screen cols wide, exactly as written: C#'s
      truncating (len - 1) / cols, plus one. */
  function LineRows(len: int, cols: int): int
    requires cols != 0
  {
    TruncDiv(len - 1, cols) + 1
  }

  /** Sum of LineRows over the first n lines. */
  function RequiredRows<T>(lines: seq<seq<T>>, n: int, cols: int): int
    requires 0 <= n <= |lines| && cols != 0
  {
    if n == 0 then 0 else RequiredRows(lines, n - 1, cols) + LineRows(|lines[n - 1]|, cols)
  }

  /** On a positive width a non-empty line needs the rounded-up quotient of its length and the
      width, and an empty line one row, except on a width of one, where it needs none. */
  lemma LineRowsIsCeiling(len: nat, cols: int)
    requires cols > 0
    ensures len > 0 ==> (LineRows(len, cols) - 1) * cols < len <= LineRows(len, cols) * cols
    ensures len == 0 ==> LineRows(len, cols) == (if cols == 1 then 0 else 1)
  {
    if len > 0 {
      var q := (len - 1) / cols;
      var m := (len - 1) % cols;
      assert len - 1 == q * cols + m && 0 <= m < cols;
      assert LineRows(len, cols) == q + 1;
      assert (q + 1) * cols == q * cols + cols;
    }
  }

  /** Counterexample to "at least one row per line": an empty line on a one-column screen. */
  lemma EmptyLineAtWidthOne()
    ensures LineRows(0, 1) == 0
  {
  }

  /** The rows a line needs with the rounding the code intends, one at least. */
  function LineRowsAtLeastOne(len: nat, cols: int): (r: int)
    requires cols > 0
    ensures r >= 1
    ensures len > 0 ==> r == LineRows(len, cols)
    ensures len > 0 ==> (r - 1) * cols < len <= r * cols
  {
    LineRowsIsCeiling(len, cols);
    if len == 0 then 1 else LineRows(len, cols)
  }

  class LineBuffer {
    /** The lines; a C# null entry of the jagged array is None. */
    var Lines: seq<seq<Option<ColoredChar>>>

    function Rows(): nat
      reads this
    {
      |Lines|
    }

    /** `Cols(row)`: the length of line row. */
    method Cols(row: int) returns (r: Result<int>)
      ensures 0 <= row < |Lines| ==> r == Ok(|Lines[row]|)
      ensures !(0 <= row < |Lines|) ==> r == Err(IndexOutOfRange)
    {
      if 0 <= row < |Lines| {
        return Ok(|Lines[row]|);
      }
      return Err(IndexOutOfRange);
    }

    /** `new LineBuffer(rows)`: rows lines, each one empty (null) cell long. */
    constructor (rows: int)
      requires rows >= 0
      ensures |Lines| == rows && forall i :: 0 <= i < rows ==> Lines[i] == [None]
    {
      var lines: seq<seq<Option<ColoredChar>>> := [];
      var i := 0;
      while i < rows
        invariant 0 <= i <= rows && |lines| == i
        invariant forall k :: 0 <= k < i ==> lines[k] == [None]
      {
        lines := lines + [[None]];
        i := i + 1;
      }
      Lines := lines;
    }

    /** `new LineBuffer(lineBuffer)`: every line with its length and entries. */
    constructor Copy(lineBuffer: LineBuffer)
      ensures Lines == lineBuffer.Lines
    {
      var lines: seq<seq<Option<ColoredChar>>> := [];
      var row := 0;
      while row < |lineBuffer.Lines|
        invariant 0 <= row <= |lineBuffer.Lines|
        invariant lines == lineBuffer.Lines[..row]
      {
        var line: seq<Option<ColoredChar>> := [];
        var col := 0;
        while col < |lineBuffer.Lines[row]|
          invariant 0 <= col <= |lineBuffer.Lines[row]|
          invariant line == lineBuffer.Lines[row][..col]
        {
          line := line + [lineBuffer.Lines[row][col]];
          col := col + 1;
        }
        assert line == lineBuffer.Lines[row];
        lines := lines + [line];
        row := row + 1;
      }
      assert lines == lineBuffer.Lines;
      Lines := lines;
    }

    constructor OfLines(lines: seq<seq<Option<ColoredChar>>>)
      ensures Lines == lines
    {
      Lines := lines;
    }

    /** `new LineBuffer(coloredString)`: the parsed markup, or the exception the parser throws. */
    static method FromColoredString(coloredString: string) returns (r: Result<LineBuffer>)
      ensures Parse(coloredString).Err? ==> r == Err(Parse(coloredString).error)
      ensures Parse(coloredString).Ok? ==> (r.Ok? && fresh(r.value) &&
        r.value.Lines == Present(Parse(coloredString).value))
    {
      var parsed := ParseColoredStr(coloredString);
      if parsed.Err? {
        return Err(parsed.error);
      }
      var lb := new LineBuffer.OfLines(Present(parsed.value));
      return Ok(lb);
    }

    /** `ParseColoredStr(coloredString)`: the markup parser's loop over the input. */
    static method ParseColoredStr(coloredString: string) returns (r: Result<seq<seq<ColoredChar>>>)
      ensures r == Parse(coloredString)
      ensures r.Ok? ==>
        |r.value| == NewLines(Visible(coloredString)) + 1 &&
        LinesText(r.value) == Split(Visible(coloredString))
    {
      var cChars: seq<seq<ColoredChar>> := [[]];
      var fgColorStack: seq<Color> := [White];
      var bgColorStack: seq<Color> := [Black];
      var readIdx := 0;
      while readIdx < |coloredString|
        invariant 0 <= readIdx <= |coloredString| && cChars != []
        invariant Run(coloredString[readIdx..], ParseState(cChars, fgColorStack, bgColorStack)) ==
          Run(coloredString, InitialState)
      {
        ghost var rest := coloredString[readIdx..];
        if coloredString[readIdx] == Marker {
          if readIdx + 4 > |coloredString| {
            return Err(ArgumentOutOfRange);
          }
          var colorType := coloredString[readIdx + 1];
          var colorCode := coloredString[readIdx + 2..readIdx + 4];
          assert rest[1] == colorType && rest[2..4] == colorCode;
          assert rest[4..] == coloredString[readIdx + 4..];
          var foreground := true;
          if colorType == 'b' {
            foreground := false;
          }
          if colorCode == "--" {
            if foreground {
              if fgColorStack == [] {
                return Err(InvalidOperation);
              }
              fgColorStack := Pop(fgColorStack);
            } else {
              if bgColorStack == [] {
                return Err(InvalidOperation);
              }
              bgColorStack := Pop(bgColorStack);
            }
          } else {
            if foreground {
              fgColorStack := fgColorStack + [ParseEscapeCode(colorCode)];
            } else {
              bgColorStack := bgColorStack + [ParseEscapeCode(colorCode)];
            }
          }
          readIdx := readIdx + 3;
        } else if coloredString[readIdx] == NewLine {
          assert rest[1..] == coloredString[readIdx + 1..];
          cChars := cChars + [[]];
        } else {
          if fgColorStack == [] || bgColorStack == [] {
            return Err(NullReference);
          }
          assert rest[1..] == coloredString[readIdx + 1..];
          cChars := AppendToLast(cChars, [ColoredChar(coloredString[readIdx], Last(fgColorStack), Last(bgColorStack))]);
        }
        readIdx := readIdx + 1;
      }
      assert coloredString[readIdx..] == [];
      ParseVisible(coloredString);
      return Ok(cChars);
    }

    /** `SetLine(idx, line)`: replaces one line. */
    method SetLine(idx: int, line: seq<Option<ColoredChar>>) returns (r: Outcome)
      modifies this
      ensures 0 <= idx < |old(Lines)| ==> r == Done && Lines == old(Lines)[idx := line]
      ensures !(0 <= idx < |old(Lines)|) ==> r == Fail(IndexOutOfRange) && Lines == old(Lines)
    {
      if 0 <= idx < |Lines| {
        Lines := Lines[idx := line];
        return Done;
      }
      return Fail(IndexOutOfRange);
    }

    /** `RequiredRowsAtDimension(dimension)`: the screen rows all lines need at that width; a zero
        width divides by zero as soon as there is a line. */
    method RequiredRowsAtDimension(dimension: Dimension) returns (r: Result<int>)
      ensures |Lines| > 0 && dimension.Cols == 0 ==> r == Err(DivideByZero)
      ensures |Lines| == 0 ==> r == Ok(0)
      ensures dimension.Cols != 0 ==> r == Ok(RequiredRows(Lines, |Lines|, dimension.Cols))
    {
      var reqRows := 0;
      var i := 0;
      while i < Rows()
        invariant 0 <= i <= |Lines|
        invariant dimension.Cols != 0 ==> reqRows == RequiredRows(Lines, i, dimension.Cols)
        invariant i == 0 ==> reqRows == 0
        invariant i > 0 ==> dimension.Cols != 0
      {
        if dimension.Cols == 0 {
          return Err(DivideByZero);
        }
        reqRows := reqRows + TruncDiv(|Lines[i]| - 1, dimension.Cols) + 1;
        i := i + 1;
      }
      return Ok(reqRows);
    }
  }

  /** Parsed lines as the jagged array holds them: every cell present. */
  function Present(lines: seq<seq<ColoredChar>>): (r: seq<seq<Option<ColoredChar>>>)
    ensures |r| == |lines|
    ensures forall i :: 0 <= i < |lines| ==> (|r[i]| == |lines[i]| &&
      forall j :: 0 <= j < |lines[i]| ==> r[i][j] == Some(lines[i][j]))
  {
    seq(|lines|, i requires 0 <= i < |lines| =>
      seq(|lines[i]|, j requires 0 <= j < |lines[i]| => Some(lines[i][j])))
  }
}
