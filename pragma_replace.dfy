/**
 * The replacement of pragma lines works line by line: a line that starts
 * with a pragma directive has that directive replaced, every other line is
 * copied, and line breaks stay where they are.
 */
module PragmaReplace {
  import opened GoStrings
  import opened GenesisPatch
  import opened PragmaFacts

  /** What the replacement makes of one line; `atStart` says whether `^` holds at its front. */
  function EditLine(line: string, rep: string, atStart: bool): string {
    if atStart && PragmaMatch(line) > 0 then rep + line[PragmaMatch(line)..] else line
  }

  lemma UnfoldMatch(s: string, rep: string)
    requires PragmaMatch(s) > 0
    ensures ReplacePragmasFrom(s, rep, true) == rep + ReplacePragmasFrom(s[PragmaMatch(s)..], rep, false)
  {
  }

  lemma UnfoldCopy(s: string, rep: string, f: bool)
    requires s != [] && !(f && PragmaMatch(s) > 0)
    ensures ReplacePragmasFrom(s, rep, f) == [s[0]] + ReplacePragmasFrom(s[1..], rep, s[0] == '\n')
  {
  }

  lemma NewlineNotInTail(x: string, n: nat)
    requires '\n' !in x && n <= |x|
    ensures '\n' !in x[n..]
  {
    forall k | 0 <= k < |x[n..]| ensures x[n..][k] != '\n' {
      assert x[n..][k] == x[n + k];
    }
  }

  lemma ConsAssoc(c: char, t: string, r: string)
    ensures [c] + (t + r) == ([c] + t) + r
  {
  }

  /** The part of a line after its first character, up to the line break. */
  lemma {:induction false} CopyLineRest(x: string, y: string, rep: string)
    requires '\n' !in x && (y == [] || y[0] == '\n')
    ensures ReplacePragmasFrom(x + y, rep, false) == x + ReplacePragmasFrom(y, rep, false)
    decreases |x|
  {
    if x == [] {
      assert x + y == y;
    } else {
      var s := x + y;
      assert s[0] == x[0] && s[1..] == x[1..] + y && x[0] != '\n';
      UnfoldCopy(s, rep, false);
      NewlineNotInTail(x, 1);
      CopyLineRest(x[1..], y, rep);
      ConsAssoc(x[0], x[1..], ReplacePragmasFrom(y, rep, false));
      assert [x[0]] + x[1..] == x;
    }
  }

  lemma MatchInLine(x: string, y: string)
    requires y == [] || y[0] == '\n'
    ensures PragmaMatch(x + y) == PragmaMatch(x)
  {
    ScanLine(x, y, Literal(0));
  }

  /** A line without a pragma directive at its front is copied up to its end. */
  lemma CopyLine(x: string, y: string, rep: string, f: bool)
    requires x != [] && '\n' !in x && (y == [] || y[0] == '\n')
    requires !(f && PragmaMatch(x) > 0)
    ensures ReplacePragmasFrom(x + y, rep, f) == x + ReplacePragmasFrom(y, rep, false)
  {
    MatchInLine(x, y);
    var s := x + y;
    assert s[0] == x[0] && s[1..] == x[1..] + y;
    UnfoldCopy(s, rep, f);
    UnfoldCopy(s, rep, false);
    CopyLineRest(x, y, rep);
  }

  /** A line with a pragma directive at its front has it replaced. */
  lemma EditPragmaLine(x: string, y: string, rep: string)
    requires '\n' !in x && (y == [] || y[0] == '\n') && PragmaMatch(x) > 0
    ensures ReplacePragmasFrom(x + y, rep, true) == rep + x[PragmaMatch(x)..] + ReplacePragmasFrom(y, rep, false)
  {
    MatchInLine(x, y);
    var s, n := x + y, PragmaMatch(x);
    UnfoldMatch(s, rep);
    assert s[n..] == x[n..] + y;
    NewlineNotInTail(x, n);
    CopyLineRest(x[n..], y, rep);
  }

  /** An empty line is left as it is. */
  lemma EmptyLine(y: string, rep: string, f: bool)
    requires y == [] || y[0] == '\n'
    ensures ReplacePragmasFrom(y, rep, f) == ReplacePragmasFrom(y, rep, false)
  {
    if y != [] {
      MatchInLine([], y);
      assert [] + y == y;
      UnfoldCopy(y, rep, f);
      UnfoldCopy(y, rep, false);
    }
  }

  /** Replacement leaves the end of a line where it was. */
  lemma ReplaceUpToLineEnd(x: string, y: string, rep: string, f: bool)
    requires '\n' !in x && (y == [] || y[0] == '\n')
    ensures ReplacePragmasFrom(x + y, rep, f) == EditLine(x, rep, f) + ReplacePragmasFrom(y, rep, false)
  {
    if x == [] {
      assert x + y == y;
      EmptyLine(y, rep, f);
    } else if f && PragmaMatch(x) > 0 {
      EditPragmaLine(x, y, rep);
    } else {
      CopyLine(x, y, rep, f);
    }
  }

  /** Index of the first line break in `s`, or |s|. */
  function LineEnd(s: string): (i: nat)
    ensures i <= |s|
    ensures forall k :: 0 <= k < i ==> s[k] != '\n'
    ensures i < |s| ==> s[i] == '\n'
    decreases |s|
  {
    if s == [] || s[0] == '\n' then 0 else LineEnd(s[1..]) + 1
  }

  /** A line break is copied, and `^` holds after it. */
  lemma UnfoldNewline(rest: string, rep: string)
    ensures ReplacePragmasFrom("\n" + rest, rep, false) == "\n" + ReplacePragmasFrom(rest, rep, true)
  {
    var s := "\n" + rest;
    assert s[0] == '\n' && s[1..] == rest;
    UnfoldCopy(s, rep, false);
  }

  /** One whole line and its line break. */
  lemma LineStep(x: string, r: string, rep: string, f: bool)
    requires '\n' !in x
    ensures ReplacePragmasFrom(x + ("\n" + r), rep, f) ==
      EditLine(x, rep, f) + ("\n" + ReplacePragmasFrom(r, rep, true))
  {
    ReplaceUpToLineEnd(x, "\n" + r, rep, f);
    UnfoldNewline(r, rep);
  }

  /** A text cut around its character at `i`. */
  lemma CutAt(a: string, i: nat, c: char)
    requires i < |a| && a[i] == c
    ensures a == a[..i] + ([c] + a[i + 1..])
  {
    assert a[i..] == [c] + a[i + 1..];
    assert a == a[..i] + a[i..];
  }

  lemma NotInPrefix(a: string, i: nat, c: char)
    requires i <= |a| && forall k :: 0 <= k < i ==> a[k] != c
    ensures c !in a[..i]
  {
    assert forall k | 0 <= k < i :: a[..i][k] == a[k];
  }

  /** `a` cut into its first line, the line break and the rest. */
  lemma FirstLine(a: string)
    requires a != [] && a[|a| - 1] == '\n'
    ensures var i := LineEnd(a);
      i < |a| && '\n' !in a[..i] && a == a[..i] + ("\n" + a[i + 1..])
  {
    var i := LineEnd(a);
    LineEndInside(a);
    NotInPrefix(a, i, '\n');
    CutAt(a, i, '\n');
  }

  /** A text that ends with a line break has its first one inside it. */
  lemma LineEndInside(a: string)
    requires a != [] && a[|a| - 1] == '\n'
    ensures LineEnd(a) < |a|
  {
  }

  lemma Assoc(x: string, r: string, b: string)
    ensures x + ("\n" + r) + b == x + ("\n" + (r + b))
  {
  }

  lemma Regroup(e: string, r1: string, r2: string)
    ensures e + ("\n" + (r1 + r2)) == e + ("\n" + r1) + r2
  {
  }

  /** One line more in front of a concatenation that replacement already distributes over. */
  lemma ConcatStep(x: string, rest: string, b: string, rep: string, f: bool)
    requires '\n' !in x
    requires ReplacePragmasFrom(rest + b, rep, true) ==
      ReplacePragmasFrom(rest, rep, true) + ReplacePragmasFrom(b, rep, true)
    ensures ReplacePragmasFrom(x + ("\n" + rest) + b, rep, f) ==
      ReplacePragmasFrom(x + ("\n" + rest), rep, f) + ReplacePragmasFrom(b, rep, true)
  {
    Assoc(x, rest, b);
    LineStep(x, rest, rep, f);
    LineStep(x, rest + b, rep, f);
    Regroup(EditLine(x, rep, f), ReplacePragmasFrom(rest, rep, true), ReplacePragmasFrom(b, rep, true));
  }

  /** Replacement distributes over a concatenation whose first part ends a line. */
  lemma {:induction false} ReplaceConcatLines(a: string, b: string, rep: string, f: bool)
    requires a != [] && a[|a| - 1] == '\n'
    ensures ReplacePragmasFrom(a + b, rep, f) ==
      ReplacePragmasFrom(a, rep, f) + ReplacePragmasFrom(b, rep, true)
    decreases |a|
  {
    FirstLine(a);
    var i := LineEnd(a);
    var x, rest := a[..i], a[i + 1..];
    if rest != [] {
      ReplaceConcatLines(rest, b, rep, true);
    } else {
      assert rest + b == b;
    }
    ConcatStep(x, rest, b, rep, f);
    assert a == x + ("\n" + rest);
    assert a + b == x + ("\n" + rest) + b;
  }

  /** A pragma line at `i` is replaced; the text around it is processed as before. */
  lemma PragmaLineReplaced(t: string, rep: string, i: nat)
    requires PragmaLineAt(t, i)
    ensures ReplacePragmas(t, rep) == ReplacePragmas(t[..i], rep) + rep +
      ReplacePragmasFrom(t[i + PragmaMatch(t[i..])..], rep, false)
  {
    var n := PragmaMatch(t[i..]);
    assert t[i..][n..] == t[i + n..];
    UnfoldMatch(t[i..], rep);
    if i == 0 {
      assert t[..i] == [] && t[i..] == t;
    } else {
      assert t == t[..i] + t[i..];
      ReplaceConcatLines(t[..i], t[i..], rep, true);
    }
  }

  /** A line break or a closing brace survives the replacement: no match contains either. */
  lemma {:induction false} ReplaceKeepsChar(s: string, rep: string, f: bool, c: char)
    requires (c == '\n' || c == '}') && c in s
    ensures c in ReplacePragmasFrom(s, rep, f)
    decreases |s|
  {
    var n := PragmaMatch(s);
    var k :| 0 <= k < |s| && s[k] == c;
    if f && n > 0 {
      if k < n { PragmaMatchChars(s, k); }
      assert s[n..][k - n] == c;
      UnfoldMatch(s, rep);
      ReplaceKeepsChar(s[n..], rep, false, c);
    } else if s[0] != c {
      assert s[1..][k - 1] == c;
      UnfoldCopy(s, rep, f);
      ReplaceKeepsChar(s[1..], rep, s[0] == '\n', c);
    } else {
      UnfoldCopy(s, rep, f);
    }
  }

  /** Without a pragma line the replacement changes nothing. */
  lemma {:induction false} ReplaceNoPragma(s: string, rep: string, f: bool)
    requires f ==> PragmaMatch(s) == 0
    requires forall i :: 0 < i <= |s| && s[i - 1] == '\n' ==> PragmaMatch(s[i..]) == 0
    ensures ReplacePragmasFrom(s, rep, f) == s
    decreases |s|
  {
    if s != [] {
      forall i | 0 < i <= |s[1..]| && s[1..][i - 1] == '\n'
        ensures PragmaMatch(s[1..][i..]) == 0
      {
        assert s[1..][i..] == s[i + 1..];
      }
      UnfoldCopy(s, rep, f);
      ReplaceNoPragma(s[1..], rep, s[0] == '\n');
      assert [s[0]] + s[1..] == s;
    }
  }

  /** Every line processed on its own, each at a line start. */
  function EditLines(ls: seq<string>, rep: string): (r: seq<string>)
    ensures |r| == |ls|
    ensures forall k :: 0 <= k < |ls| ==> r[k] == EditLine(ls[k], rep, true)
  {
    if ls == [] then [] else [EditLine(ls[0], rep, true)] + EditLines(ls[1..], rep)
  }

  lemma JoinCons(ls: seq<string>, sep: string)
    requires |ls| >= 2
    ensures Join(ls, sep) == ls[0] + (sep + Join(ls[1..], sep))
  {
  }

  /** Replacement on lines joined by line breaks edits each line and keeps the breaks. */
  lemma {:induction false} ReplaceJoinedLines(ls: seq<string>, rep: string)
    requires forall k :: 0 <= k < |ls| ==> '\n' !in ls[k]
    ensures ReplacePragmasFrom(Join(ls, "\n"), rep, true) == Join(EditLines(ls, rep), "\n")
    decreases |ls|
  {
    if |ls| == 1 {
      ReplaceUpToLineEnd(ls[0], [], rep, true);
      assert ls[0] + [] == ls[0];
    } else if |ls| >= 2 {
      ReplaceJoinedLines(ls[1..], rep);
      JoinCons(ls, "\n");
      LineStep(ls[0], Join(ls[1..], "\n"), rep, true);
      var es := EditLines(ls, rep);
      assert es[1..] == EditLines(ls[1..], rep);
      JoinCons(es, "\n");
    }
  }

  /** The replacement, line by line: lines of `s` as strings.Split cuts them. */
  lemma ReplacePragmasByLine(s: string, rep: string)
    ensures ReplacePragmas(s, rep) == Join(EditLines(Split(s, "\n"), rep), "\n")
  {
    SplitJoin(s, "\n");
    SplitCharParts(s, '\n');
    ReplaceJoinedLines(Split(s, "\n"), rep);
  }
}
