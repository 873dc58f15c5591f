/**
 * Properties of the pragma matcher and of the replacement of pragma lines
 * (the first edit of handleRegisterL2Genesis): which lines match, and that
 * the replacement works line by line.
 */
module PragmaFacts {
  import opened GoStrings
  import opened Results
  import opened GenesisPatch

  // ---------------------------------------------------------------------
  // The characters a match is made of
  // ---------------------------------------------------------------------

  /** A character a match of the pragma pattern can contain. */
  predicate PragmaChar(c: char) {
    c in PragmaPrefix || IsDigit(c) || c == '.' || c == ';'
  }

  lemma NotPragmaChars()
    ensures !PragmaChar('\n') && !PragmaChar('}')
  {
  }

  lemma StepChar(st: State, c: char)
    requires Step(st, c).Some?
    ensures PragmaChar(c)
  {
  }

  /** Every character inside a match is one the pattern names. */
  lemma {:induction false} ScanChars(s: string, st: State, k: nat)
    requires k < Scan(s, st)
    ensures PragmaChar(s[k])
    decreases k
  {
    StepChar(st, s[0]);
    if k > 0 {
      ScanChars(s[1..], Step(st, s[0]).value, k - 1);
    }
  }

  /** No match contains a line break or a closing brace. */
  lemma PragmaMatchChars(s: string, k: nat)
    requires k < PragmaMatch(s)
    ensures s[k] != '\n' && s[k] != '}'
  {
    ScanChars(s, Literal(0), k);
    NotPragmaChars();
  }

  /** What follows the end of a line does not change the match at its front. */
  lemma {:induction false} ScanLine(x: string, y: string, st: State)
    requires y == [] || y[0] == '\n'
    ensures Scan(x + y, st) == Scan(x, st)
    decreases |x|
  {
    if x == [] {
      assert x + y == y;
      if y != [] && st != Done && Step(st, y[0]).Some? {
        StepChar(st, y[0]);
        NotPragmaChars();
      }
    } else if st != Done {
      assert (x + y)[0] == x[0];
      assert (x + y)[1..] == x[1..] + y;
      match Step(st, x[0])
      case None =>
      case Some(next) => ScanLine(x[1..], y, next);
    }
  }

  // ---------------------------------------------------------------------
  // Every pragma directive matches in full
  // ---------------------------------------------------------------------

  /** `r` moved forward by `k` characters, unless it is the failure -1. */
  function Plus(k: nat, r: int): int {
    if r < 0 then -1 else r + k
  }

  lemma {:induction false} ScanPrefixFrom(i: nat, z: string)
    requires i < |PragmaPrefix|
    ensures Scan(PragmaPrefix[i..] + z, Literal(i)) ==
      Plus(|PragmaPrefix| - i, Scan(z, Digits(0, false)))
    decreases |PragmaPrefix| - i
  {
    var s := PragmaPrefix[i..] + z;
    assert s[0] == PragmaPrefix[i];
    StepLiteral(i);
    if i + 1 < |PragmaPrefix| {
      assert s[1..] == PragmaPrefix[i + 1..] + z;
      ScanCons(s, Literal(i), Literal(i + 1));
      ScanPrefixFrom(i + 1, z);
    } else {
      assert s[1..] == z;
      ScanCons(s, Literal(i), Digits(0, false));
    }
  }

  /** One step of the scan over a character the pattern accepts. */
  lemma ScanCons(s: string, st: State, next: State)
    requires s != [] && st != Done && Step(st, s[0]) == Some(next)
    ensures Scan(s, st) == Plus(1, Scan(s[1..], next))
  {
  }

  lemma StepLiteral(i: nat)
    requires i < |PragmaPrefix|
    ensures Step(Literal(i), PragmaPrefix[i]) ==
      Some(if i + 1 < |PragmaPrefix| then Literal(i + 1) else Digits(0, false))
  {
  }

  lemma StepDigit(f: nat, seen: bool, c: char)
    requires IsDigit(c)
    ensures Step(Digits(f, seen), c) == Some(Digits(f, true))
  {
  }

  /** Dropping the first digit of a run of digits leaves a run of digits. */
  lemma DigitsTail(d: string, z: string)
    requires |d| > 0 && IsDigits(d)
    ensures IsDigit((d + z)[0]) && (d + z)[1..] == d[1..] + z && IsDigits(d[1..])
  {
    assert (d + z)[0] == d[0];
    assert forall k :: 0 <= k < |d[1..]| ==> d[1..][k] == d[k + 1];
  }

  lemma {:induction false} ScanMoreDigits(d: string, z: string, f: nat)
    requires IsDigits(d)
    ensures Scan(d + z, Digits(f, true)) == Plus(|d|, Scan(z, Digits(f, true)))
    decreases |d|
  {
    if d == [] {
      assert d + z == z;
    } else {
      DigitsTail(d, z);
      StepDigit(f, true, (d + z)[0]);
      ScanCons(d + z, Digits(f, true), Digits(f, true));
      ScanMoreDigits(d[1..], z, f);
    }
  }

  lemma ScanNumber(d: string, z: string, f: nat)
    requires |d| > 0 && IsDigits(d)
    ensures Scan(d + z, Digits(f, false)) == Plus(|d|, Scan(z, Digits(f, true)))
  {
    DigitsTail(d, z);
    StepDigit(f, false, (d + z)[0]);
    ScanCons(d + z, Digits(f, false), Digits(f, true));
    ScanMoreDigits(d[1..], z, f);
  }

  /** Every pragma directive, whatever follows it on its line, is matched in full. */
  lemma PragmaMatchComplete(d1: string, d2: string, d3: string, z: string)
    requires |d1| > 0 && |d2| > 0 && |d3| > 0
    requires IsDigits(d1) && IsDigits(d2) && IsDigits(d3)
    ensures PragmaMatch(PragmaText(d1, d2, d3) + z) == |PragmaText(d1, d2, d3)|
  {
    var s6 := ";" + z;
    var s5 := d3 + s6;
    var s4 := "." + s5;
    var s3 := d2 + s4;
    var s2 := "." + s3;
    var s1 := d1 + s2;
    assert PragmaText(d1, d2, d3) + z == PragmaPrefix[0..] + s1;
    assert s6[0] == ';' && s6[1..] == z;
    assert Scan(s6, Digits(2, true)) == 1;
    ScanNumber(d3, s6, 2);
    assert s4[0] == '.' && s4[1..] == s5;
    assert Scan(s4, Digits(1, true)) == Plus(1, Scan(s5, Digits(2, false)));
    ScanNumber(d2, s4, 1);
    assert s2[0] == '.' && s2[1..] == s3;
    assert Scan(s2, Digits(0, true)) == Plus(1, Scan(s3, Digits(1, false)));
    ScanNumber(d1, s2, 0);
    ScanPrefixFrom(0, s1);
  }

  /** A caret range such as `pragma solidity ^0.8.0;` is not matched. */
  lemma CaretPragmaNotMatched(z: string)
    ensures PragmaMatch(PragmaPrefix + "^" + z) == 0
  {
    assert PragmaPrefix + "^" + z == PragmaPrefix[0..] + ("^" + z);
    ScanPrefixFrom(0, "^" + z);
  }

  // ---------------------------------------------------------------------
  // A match is always a whole pragma directive
  // ---------------------------------------------------------------------

  /** Length of the run of digits at the front of `s`. */
  function DigitRun(s: string): (n: nat)
    ensures n <= |s| && IsDigits(s[..n])
    ensures n < |s| ==> !IsDigit(s[n])
    decreases |s|
  {
    if s == [] || !IsDigit(s[0]) then 0
    else
      var n := DigitRun(s[1..]);
      assert s[..n + 1] == [s[0]] + s[1..][..n];
      DigitsCons(s[0], s[1..][..n]);
      n + 1
  }

  lemma DigitsCons(c: char, d: string)
    requires IsDigit(c) && IsDigits(d)
    ensures IsDigits([c] + d)
  {
    assert forall k | 1 <= k < |[c] + d| :: ([c] + d)[k] == d[k - 1];
  }

  /** The end character of the f-th version number. */
  function FieldEnd(f: nat): char {
    if f < 2 then '.' else ';'
  }

  lemma {:induction false} ScanDigitsSplit(s: string, f: nat, seen: bool)
    requires f <= 2 && Scan(s, Digits(f, seen)) >= 0
    ensures (seen || DigitRun(s) > 0) && DigitRun(s) < |s| && s[DigitRun(s)] == FieldEnd(f)
    ensures f < 2 ==> Scan(s[DigitRun(s) + 1..], Digits(f + 1, false)) >= 0
    ensures Scan(s, Digits(f, seen)) ==
      DigitRun(s) + 1 + (if f < 2 then Scan(s[DigitRun(s) + 1..], Digits(f + 1, false)) else 0)
    decreases |s|
  {
    if IsDigit(s[0]) {
      ScanDigitsSplit(s[1..], f, true);
      var a := DigitRun(s[1..]);
      assert s[1..][a] == s[a + 1];
      assert s[1..][a + 1..] == s[a + 2..];
    }
  }

  lemma {:induction false} ScanPrefixSplit(s: string, i: nat)
    requires i < |PragmaPrefix| && Scan(s, Literal(i)) >= 0
    ensures |PragmaPrefix| - i < |s|
    ensures forall k :: i <= k < |PragmaPrefix| ==> s[k - i] == PragmaPrefix[k]
    ensures Scan(s[|PragmaPrefix| - i..], Digits(0, false)) >= 0
    ensures Scan(s, Literal(i)) ==
      |PragmaPrefix| - i + Scan(s[|PragmaPrefix| - i..], Digits(0, false))
    decreases |PragmaPrefix| - i
  {
    var m := |PragmaPrefix| - i;
    if i + 1 < |PragmaPrefix| {
      var next := Literal(i + 1);
      assert Step(Literal(i), s[0]) == Some(next);
      ScanPrefixSplit(s[1..], i + 1);
      assert s[1..][m - 1..] == s[m..];
      forall k | i + 1 <= k < |PragmaPrefix| ensures s[k - i] == PragmaPrefix[k] {
        assert s[k - i] == s[1..][k - (i + 1)];
      }
    } else {
      assert Step(Literal(i), s[0]) == Some(Digits(0, false));
    }
  }

  /** `t[..m]` cut at position `j`. */
  lemma TakeCut(t: string, j: nat, m: nat)
    requires j <= m <= |t|
    ensures t[..m] == t[..j] + t[j..][..m - j]
  {
  }

  /** `t[..m]` cut at a `.` in position `a`. */
  lemma DotCut(t: string, a: nat, m: nat)
    requires a < m <= |t| && t[a] == '.'
    ensures t[..m] == t[..a] + "." + t[a + 1..][..m - (a + 1)]
  {
    assert t[..m] == t[..a + 1] + t[a + 1..][..m - (a + 1)];
    assert t[..a + 1] == t[..a] + ".";
  }

  /** The last of the three version numbers, with its `;`. */
  lemma LastField(t: string)
    requires Scan(t, Digits(2, false)) >= 0
    ensures var c := DigitRun(t);
      c > 0 && Scan(t, Digits(2, false)) == c + 1 && t[..c + 1] == t[..c] + ";"
  {
    ScanDigitsSplit(t, 2, false);
  }

  /** A version number with its `.`, followed by what the rest of the pattern matches. */
  lemma InnerField(t: string, f: nat)
    requires f < 2 && Scan(t, Digits(f, false)) >= 0
    ensures var a := DigitRun(t);
      0 < a < |t| && Scan(t[a + 1..], Digits(f + 1, false)) >= 0 &&
      Scan(t, Digits(f, false)) == a + 1 + Scan(t[a + 1..], Digits(f + 1, false)) &&
      t[..Scan(t, Digits(f, false))] == t[..a] + "." + t[a + 1..][..Scan(t[a + 1..], Digits(f + 1, false))]
  {
    ScanDigitsSplit(t, f, false);
    DotCut(t, DigitRun(t), Scan(t, Digits(f, false)));
  }

  lemma Reassociate(d1: string, d2: string, d3: string)
    ensures d1 + "." + (d2 + "." + (d3 + ";")) == d1 + "." + d2 + "." + d3 + ";"
  {
  }

  /** The text of a field chain, from the last field back to the first. */
  lemma ChainText(t: string, t2: string, t3: string, n1: nat, n2: nat, n3: nat, d1: string, d2: string, d3: string)
    requires n3 <= |t3| && t3[..n3] == d3 + ";"
    requires n2 <= |t2| && t2[..n2] == d2 + "." + t3[..n3]
    requires n1 <= |t| && t[..n1] == d1 + "." + t2[..n2]
    ensures t[..n1] == d1 + "." + d2 + "." + d3 + ";"
  {
    Reassociate(d1, d2, d3);
  }

  /** What follows "pragma solidity " in a match: three version numbers and `;`. */
  lemma VersionSound(t: string)
    requires Scan(t, Digits(0, false)) >= 0
    ensures exists d1, d2, d3 :: (|d1| > 0 && |d2| > 0 && |d3| > 0 &&
      IsDigits(d1) && IsDigits(d2) && IsDigits(d3) &&
      t[..Scan(t, Digits(0, false))] == d1 + "." + d2 + "." + d3 + ";")
  {
    InnerField(t, 0);
    var a := DigitRun(t);
    var t2 := t[a + 1..];
    InnerField(t2, 1);
    var b := DigitRun(t2);
    var t3 := t2[b + 1..];
    LastField(t3);
    var c := DigitRun(t3);
    ChainText(t, t2, t3, Scan(t, Digits(0, false)), Scan(t2, Digits(1, false)), Scan(t3, Digits(2, false)),
      t[..a], t2[..b], t3[..c]);
  }

  lemma PrefixText(s: string)
    requires |PragmaPrefix| <= |s|
    requires forall k :: 0 <= k < |PragmaPrefix| ==> s[k] == PragmaPrefix[k]
    ensures s[..|PragmaPrefix|] == PragmaPrefix
  {
  }

  lemma PragmaTextParts(d1: string, d2: string, d3: string)
    ensures PragmaPrefix + (d1 + "." + d2 + "." + d3 + ";") == PragmaText(d1, d2, d3)
  {
  }

  /** A match is always a whole pragma directive. */
  lemma PragmaMatchSound(s: string)
    requires PragmaMatch(s) > 0
    ensures exists d1, d2, d3 :: (|d1| > 0 && |d2| > 0 && |d3| > 0 &&
      IsDigits(d1) && IsDigits(d2) && IsDigits(d3) &&
      s[..PragmaMatch(s)] == PragmaText(d1, d2, d3))
  {
    var n, p := PragmaMatch(s), |PragmaPrefix|;
    ScanPrefixSplit(s, 0);
    PrefixText(s);
    var t := s[p..];
    VersionSound(t);
    var d1, d2, d3 :| |d1| > 0 && |d2| > 0 && |d3| > 0 &&
      IsDigits(d1) && IsDigits(d2) && IsDigits(d3) &&
      t[..n - p] == d1 + "." + d2 + "." + d3 + ";";
    TakeCut(s, p, n);
    PragmaTextParts(d1, d2, d3);
  }
}
