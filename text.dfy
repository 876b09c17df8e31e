/** Strings as lines: joining lines with '\n' (how a screen buffer renders itself) and cutting a
    string at each '\n' (how the colour-markup parser starts a new line). */
module Text {
  import opened Sequences

  const NewLine: char := '\n'

  /** The lines, with one '\n' between consecutive lines and none at the end. */
  function Join(ls: seq<string>): (s: string)
    ensures ls == [] ==> s == ""
    ensures |ls| == 1 ==> s == ls[0]
  {
    if |ls| == 0 then ""
    else if |ls| == 1 then ls[0]
    else ls[0] + [NewLine] + Join(ls[1..])
  }

  /** The pieces of s between its '\n' characters; always at least one. */
  function Split(s: string): (ls: seq<string>)
    ensures |ls| >= 1
    decreases |s|
  {
    var i := IndexOf(s, NewLine);
    if i == -1 then [s] else [s[..i]] + Split(s[i + 1..])
  }

  /** Where the first '\n' is at i, the first piece is what comes before it. */
  lemma SplitAt(s: string, i: int)
    requires i == IndexOf(s, NewLine) && i != -1
    ensures Split(s) == [s[..i]] + Split(s[i + 1..])
  {
  }

  /** How many '\n' characters s holds. */
  function NewLines(s: string): nat {
    if s == [] then 0 else (if s[0] == NewLine then 1 else 0) + NewLines(s[1..])
  }

  /** Total length of the lines. */
  function TotalLength(ls: seq<string>): nat {
    if ls == [] then 0 else |ls[0]| + TotalLength(ls[1..])
  }

  predicate NoNewLine(l: string) {
    NewLine !in l
  }

  /** Appending one more line adds one separator and that line. */
  lemma {:induction false} JoinSnoc(ls: seq<string>, l: string)
    requires ls != []
    ensures Join(ls + [l]) == Join(ls) + [NewLine] + l
    decreases |ls|
  {
    if |ls| == 1 {
      assert ls + [l] == [ls[0], l];
    } else {
      assert (ls + [l])[1..] == ls[1..] + [l];
      JoinSnoc(ls[1..], l);
    }
  }

  /** The joined text is the lines' total length plus one separator per gap. */
  lemma {:induction false} JoinLength(ls: seq<string>)
    requires ls != []
    ensures |Join(ls)| == TotalLength(ls) + |ls| - 1
    decreases |ls|
  {
    if |ls| > 1 {
      JoinLength(ls[1..]);
    }
  }

  /** Lines of one width w: the joined text is |ls|*w + |ls| - 1 long. */
  lemma {:induction false} TotalLengthUniform(ls: seq<string>, w: nat)
    requires forall k :: 0 <= k < |ls| ==> |ls[k]| == w
    ensures TotalLength(ls) == |ls| * w
    decreases |ls|
  {
    if ls != [] {
      TotalLengthUniform(ls[1..], w);
    }
  }

  /** Cutting the joined text at its '\n' characters gives the lines back, provided no line
      holds a '\n' itself. */
  lemma {:induction false} SplitJoin(ls: seq<string>)
    requires ls != []
    requires forall k :: 0 <= k < |ls| ==> NoNewLine(ls[k])
    ensures Split(Join(ls)) == ls
    decreases |ls|
  {
    if |ls| == 1 {
      assert IndexOf(ls[0], NewLine) == -1;
    } else {
      var s := Join(ls);
      var rest := [NewLine] + Join(ls[1..]);
      assert s == ls[0] + rest;
      assert IndexOf(rest, NewLine) == 0;
      IndexOfPastPrefix(ls[0], rest, NewLine);
      assert s[..|ls[0]|] == ls[0];
      assert s[|ls[0]| + 1..] == Join(ls[1..]);
      SplitAt(s, |ls[0]|);
      SplitJoin(ls[1..]);
      assert ls == [ls[0]] + ls[1..];
    }
  }

  /** Split produces one piece more than there are '\n' characters, none containing one. */
  lemma SplitCounts(s: string)
    ensures |Split(s)| == NewLines(s) + 1
    ensures forall k :: 0 <= k < |Split(s)| ==> NoNewLine(Split(s)[k])
  {
    SplitLength(s);
    SplitPieces(s);
  }

  lemma {:induction false} SplitLength(s: string)
    ensures |Split(s)| == NewLines(s) + 1
    decreases |s|
  {
    var i := IndexOf(s, NewLine);
    IndexOfIsFirst(s, NewLine);
    if i == -1 {
      NoNewLinesCount(s);
    } else {
      SplitLength(s[i + 1..]);
      assert s == s[..i] + ([NewLine] + s[i + 1..]);
      NewLinesConcat(s[..i], [NewLine] + s[i + 1..]);
      assert NewLines([NewLine] + s[i + 1..]) == 1 + NewLines(s[i + 1..]) by {
        assert ([NewLine] + s[i + 1..])[1..] == s[i + 1..];
      }
      NoNewLinesCount(s[..i]);
    }
  }

  lemma {:induction false} SplitPieces(s: string)
    ensures forall k :: 0 <= k < |Split(s)| ==> NoNewLine(Split(s)[k])
    decreases |s|
  {
    var i := IndexOf(s, NewLine);
    IndexOfIsFirst(s, NewLine);
    if i != -1 {
      SplitPieces(s[i + 1..]);
      var rest := Split(s[i + 1..]);
      assert Split(s) == [s[..i]] + rest;
      forall k | 0 <= k < |Split(s)| ensures NoNewLine(Split(s)[k]) {
        if k > 0 {
          assert Split(s)[k] == rest[k - 1];
        }
      }
    }
  }

  lemma {:induction false} NoNewLinesCount(s: string)
    requires NewLine !in s
    ensures NewLines(s) == 0
    decreases |s|
  {
    if s != [] {
      NoNewLinesCount(s[1..]);
    }
  }

  lemma {:induction false} NewLinesConcat(a: string, b: string)
    ensures NewLines(a + b) == NewLines(a) + NewLines(b)
    decreases |a|
  {
    if a != [] {
      assert (a + b)[1..] == a[1..] + b;
      NewLinesConcat(a[1..], b);
    } else {
      assert a + b == b;
    }
  }

  /** Searching past a prefix that does not hold x finds x at the prefix's length plus its
      index in the rest. */
  lemma {:induction false} IndexOfPastPrefix<T>(a: seq<T>, b: seq<T>, x: T)
    requires x !in a && x in b
    ensures IndexOf(a + b, x) == |a| + IndexOf(b, x)
    decreases |a|
  {
    if a != [] {
      assert (a + b)[1..] == a[1..] + b;
      assert (a + b)[0] == a[0] != x;
      IndexOfPastPrefix(a[1..], b, x);
      assert x in (a + b)[1..];
    } else {
      assert a + b == b;
    }
  }
}
