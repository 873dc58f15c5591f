/**
 * What the three edits of handleRegisterL2Genesis do, and when applying the
 * whole patch a second time changes nothing.
 */
module GenesisFacts {
  import opened GoStrings
  import opened GenesisPatch
  import opened PragmaFacts
  import opened PragmaReplace

  // ---------------------------------------------------------------------
  // Edit 1: pragma lines become the import
  // ---------------------------------------------------------------------

  /**
   * With the library name present the text is kept; otherwise every line is
   * edited on its own: a line starting with `pragma solidity D.D.D;` has that
   * directive replaced by `imp`, every other line is copied.
   */
  lemma ImportEditByLine(t: string, imp: string)
    ensures Contains(t, ImportMarker) ==> ImportEdit(t, imp) == t
    ensures !Contains(t, ImportMarker) ==>
      ImportEdit(t, imp) == Join(EditLines(Split(t, "\n"), imp), "\n")
  {
    if !Contains(t, ImportMarker) {
      ReplacePragmasByLine(t, imp);
    }
  }

  /** The first pragma line at `i` is replaced, and the scan goes on after it. */
  lemma ImportEditAt(t: string, imp: string, i: nat)
    requires !Contains(t, ImportMarker) && PragmaLineAt(t, i)
    ensures ImportEdit(t, imp) ==
      ReplacePragmas(t[..i], imp) + imp + ReplacePragmasFrom(t[i + PragmaMatch(t[i..])..], imp, false)
  {
    PragmaLineReplaced(t, imp, i);
  }

  /** A text without pragma lines is left as it is. */
  lemma ImportEditNoPragma(t: string, imp: string)
    requires forall i :: 0 <= i <= |t| && LineStart(t, i) ==> PragmaMatch(t[i..]) == 0
    ensures ImportEdit(t, imp) == t
  {
    if !Contains(t, ImportMarker) {
      assert LineStart(t, 0) && t[0..] == t;
      ReplaceNoPragma(t, imp, true);
    }
  }

  // ---------------------------------------------------------------------
  // Edit 2: the helper function before the last closing brace
  // ---------------------------------------------------------------------

  /** Without the helper's name the text up to the last `}` is kept and the helper follows it. */
  lemma FunctionEditKeepsPrefix(t: string, fn: string)
    requires !Contains(t, FunctionMarker) && '}' in t
    ensures FunctionEdit(t, fn).Patched?
    ensures var k := LastIndex(t, '}');
      FunctionEdit(t, fn).text == t[..k] + "\n" + fn + "\n}" &&
      t[k] == '}' && '}' !in t[k + 1..]
  {
  }

  // ---------------------------------------------------------------------
  // Edit 3: the loop after every call site
  // ---------------------------------------------------------------------

  /**
   * With the loop's marker present, or without any call site, the text is
   * kept; otherwise the text is cut at every call site and the pieces are
   * joined with `loop`.
   */
  lemma CallSiteEditSpec(t: string, loop: string)
    ensures Contains(t, CallMarker) || !Contains(t, CallLine) ==> CallSiteEdit(t, loop) == t
    ensures !Contains(t, CallMarker) ==> CallSiteEdit(t, loop) == Join(Split(t, CallLine), loop)
  {
    if !Contains(t, CallMarker) {
      ReplaceAllIsSplitJoin(t, CallLine, loop);
      if !Contains(t, CallLine) {
        ReplaceAllAbsent(t, CallLine, loop);
      }
    }
  }

  // ---------------------------------------------------------------------
  // Running the patch twice
  // ---------------------------------------------------------------------

  /** `m` occurs in `t` with a closing brace somewhere after it. */
  ghost predicate BeforeBrace(t: string, m: string) {
    exists p: nat :: OccursAt(t, m, p) && '}' in t[p + |m|..]
  }

  /**
   * The script is ready for the patch: the library name, or else a pragma
   * line, stands before a closing brace, so the function edit's cut at the
   * last `}` leaves the import in place.
   */
  ghost predicate WellFormed(t: string) {
    if Contains(t, ImportMarker) then BeforeBrace(t, ImportMarker)
    else exists i: nat :: PragmaLineAt(t, i) && '}' in t[i + PragmaMatch(t[i..])..]
  }

  lemma BeforeBraceMiddle(a: string, imp: string, b: string, m: string)
    requires Contains(imp, m) && '}' in b
    ensures BeforeBrace(a + imp + b, m)
  {
    var q := Index(imp, m);
    var s := a + imp + b;
    var p := |a| + q;
    assert s[p..p + |m|] == imp[q..q + |m|];
    assert s[p + |m|..] == imp[q + |m|..] + b;
    assert OccursAt(s, m, p) && '}' in s[p + |m|..];
  }

  /** After the import edit the library name stands before a closing brace. */
  lemma ImportStep(t: string, imp: string)
    requires WellFormed(t) && Contains(imp, ImportMarker)
    ensures BeforeBrace(ImportEdit(t, imp), ImportMarker)
  {
    if !Contains(t, ImportMarker) {
      var i: nat :| PragmaLineAt(t, i) && '}' in t[i + PragmaMatch(t[i..])..];
      var rest := t[i + PragmaMatch(t[i..])..];
      ImportEditAt(t, imp, i);
      ReplaceKeepsChar(rest, imp, false, '}');
      BeforeBraceMiddle(ReplacePragmas(t[..i], imp), imp, ReplacePragmasFrom(rest, imp, false), ImportMarker);
    }
  }

  /** Cutting at `k` after an occurrence of `m1` and appending `fn`, which holds `m2`, keeps both. */
  lemma AppendKeeps(t: string, k: nat, fn: string, m1: string, m2: string, p: nat)
    requires OccursAt(t, m1, p) && p + |m1| <= k <= |t| && Contains(fn, m2)
    ensures Contains(AppendHelper(t, k, fn), m1) && Contains(AppendHelper(t, k, fn), m2)
  {
    var r := AppendHelper(t, k, fn);
    assert r == t[..k] + ("\n" + fn + "\n}");
    assert t[..k][p..p + |m1|] == t[p..p + |m1|];
    ContainsAt(t[..k], m1, p);
    ContainsConcat(t[..k], "\n" + fn + "\n}", m1);
    ContainsMiddle(t[..k] + "\n", fn, "\n}");
    ContainsTrans(r, fn, m2);
  }

  /** After the function edit both the library name and the helper's name occur. */
  lemma FunctionStep(t1: string, fn: string)
    requires BeforeBrace(t1, ImportMarker) && Contains(fn, FunctionMarker)
    ensures FunctionEdit(t1, fn).Patched?
    ensures Contains(FunctionEdit(t1, fn).text, ImportMarker)
    ensures Contains(FunctionEdit(t1, fn).text, FunctionMarker)
  {
    var p: nat :| OccursAt(t1, ImportMarker, p) && '}' in t1[p + |ImportMarker|..];
    if Contains(t1, FunctionMarker) {
      ContainsAt(t1, ImportMarker, p);
    } else {
      var tail := t1[p + |ImportMarker|..];
      var j :| 0 <= j < |tail| && tail[j] == '}';
      assert t1[p + |ImportMarker| + j] == '}';
      AppendKeeps(t1, LastIndex(t1, '}'), fn, ImportMarker, FunctionMarker, p);
    }
  }

  lemma CallLineChars()
    ensures CallLine[0] == '_' && CallLine[|CallLine| - 1] == ';' && 'x' !in CallLine
  {
    assert 'x' !in "_setPreinstallCode(";
    assert 'x' !in "Preinstalls.BeaconBlockRoots);";
  }

  lemma ImportMarkerChars()
    ensures '_' !in ImportMarker && ';' !in ImportMarker && 'x' in ImportMarker
  {
    assert ImportMarker[12] == 'x';
  }

  lemma NotInTail(s: string, c: char)
    requires s != [] && c !in s
    ensures c !in s[1..]
  {
    forall k | 0 <= k < |s| - 1 ensures s[1..][k] != c {
      assert s[1..][k] == s[k + 1];
    }
  }

  /** The call line cannot overlap the library name, so ReplaceAll keeps it. */
  lemma CallLineMissesImportMarker()
    ensures CannotOverlap(CallLine, ImportMarker, 'x')
  {
    CallLineChars();
    ImportMarkerChars();
    NotInTail(ImportMarker, '_');
    assert CallLine[..|ImportMarker|][0] != ImportMarker[0];
  }

  /** The call line cannot overlap the helper's name, so ReplaceAll keeps it. */
  lemma CallLineMissesFunctionMarker()
    ensures CannotOverlap(CallLine, FunctionMarker, 'x')
  {
    CallLineChars();
    FunctionMarkerChars();
    assert CallLine[..|FunctionMarker|][14] != FunctionMarker[14];
  }

  lemma FunctionMarkerChars()
    ensures ';' !in FunctionMarker && 'x' in FunctionMarker && '_' !in FunctionMarker[1..]
  {
    assert FunctionMarker[15] == 'x';
    assert forall k :: 1 <= k < |FunctionMarker| ==> FunctionMarker[k] != '_';
    assert forall k :: 0 <= k < |FunctionMarker| - 1 ==> FunctionMarker[1..][k] == FunctionMarker[k + 1];
  }

  /** An occurrence of `m` that the call line cannot overlap survives the call-site edit. */
  lemma CallSiteKeeps(t: string, loop: string, m: string)
    requires CannotOverlap(CallLine, m, 'x') && Contains(t, m)
    ensures Contains(CallSiteEdit(t, loop), m)
  {
    if !Contains(t, CallMarker) {
      ReplaceAllKeeps(t, CallLine, loop, m, 'x', Index(t, m));
    }
  }

  /** After the call-site edit the loop's marker occurs, or no call site is left. */
  lemma CallStep(t: string, loop: string)
    requires Contains(loop, CallMarker)
    ensures var u := CallSiteEdit(t, loop);
      Contains(u, CallMarker) || !Contains(u, CallLine)
  {
    if !Contains(t, CallMarker) {
      if Contains(t, CallLine) {
        ReplaceAllIntroduces(t, CallLine, loop);
        ContainsTrans(ReplaceAll(t, CallLine, loop), loop, CallMarker);
      } else {
        ReplaceAllAbsent(t, CallLine, loop);
      }
    }
  }

  /** A text holding every guard marker, or with no call site left, is a fixed point of the patch. */
  lemma PatchFixed(u: string, imp: string, fn: string, loop: string)
    requires Contains(u, ImportMarker) && Contains(u, FunctionMarker)
    requires Contains(u, CallMarker) || !Contains(u, CallLine)
    ensures PatchWith(u, imp, fn, loop) == Patched(u)
  {
    if !Contains(u, CallMarker) {
      ReplaceAllAbsent(u, CallLine, loop);
    }
  }

  /** Each inserted text holds the marker that guards its own edit. */
  predicate Guarded(imp: string, fn: string, loop: string) {
    Contains(imp, ImportMarker) && Contains(fn, FunctionMarker) && Contains(loop, CallMarker)
  }

  /** The patch, with any inserted texts that carry their own guard markers, is idempotent. */
  lemma PatchWithIdempotent(t: string, imp: string, fn: string, loop: string)
    requires WellFormed(t) && Guarded(imp, fn, loop)
    ensures PatchWith(t, imp, fn, loop).Patched?
    ensures var u := PatchWith(t, imp, fn, loop).text;
      PatchWith(u, imp, fn, loop) == Patched(u)
  {
    var t1 := ImportEdit(t, imp);
    ImportStep(t, imp);
    FunctionStep(t1, fn);
    var t2 := FunctionEdit(t1, fn).text;
    CallLineMissesImportMarker();
    CallLineMissesFunctionMarker();
    CallSiteKeeps(t2, loop, ImportMarker);
    CallSiteKeeps(t2, loop, FunctionMarker);
    CallStep(t2, loop);
    PatchFixed(CallSiteEdit(t2, loop), imp, fn, loop);
  }

  lemma ImportLineHasMarker()
    ensures Contains(ImportLine(), ImportMarker)
  {
    ContainsMiddle(ImportHead(), ImportMarker, "\";");
  }

  lemma NewFunctionHasMarker()
    ensures Contains(NewFunction(), FunctionMarker)
  {
    ContainsMiddle(FunctionHead(), FunctionMarker, FunctionTail());
  }

  lemma CallWithLoopHasMarker()
    ensures Contains(CallWithLoop(), CallMarker)
  {
    ContainsMiddle(LoopHead(), CallMarker, LoopMiddle() + FunctionMarker + LoopTail());
  }

  /** The texts the script patch inserts are guarded. */
  lemma ScriptGuarded()
    ensures Guarded(ImportLine(), NewFunction(), CallWithLoop())
  {
    ImportLineHasMarker();
    NewFunctionHasMarker();
    CallWithLoopHasMarker();
  }

  lemma PatchUnfold(t: string)
    ensures Patch(t) == PatchWith(t, ImportLine(), NewFunction(), CallWithLoop())
  {
  }

  /** On a well-formed script the patch does not panic. */
  lemma PatchSucceeds(t: string)
    requires WellFormed(t)
    ensures Patch(t).Patched?
  {
    ScriptGuarded();
    PatchWithIdempotent(t, ImportLine(), NewFunction(), CallWithLoop());
    PatchUnfold(t);
  }

  /** handleRegisterL2Genesis run on its own output leaves it unchanged. */
  lemma PatchIdempotent(t: string, u: string)
    requires WellFormed(t) && Patch(t) == Patched(u)
    ensures Patch(u) == Patched(u)
  {
    ScriptGuarded();
    PatchWithIdempotent(t, ImportLine(), NewFunction(), CallWithLoop());
    PatchUnfold(t);
    PatchUnfold(u);
  }

  /**
   * A script with a pragma directive on a line of its own and a closing
   * brace after it, such as the genesis script before its first patch, is
   * well formed unless it already names the library.
   */
  lemma PragmaScriptWellFormed(x: string, d1: string, d2: string, d3: string, y: string)
    requires x == [] || x[|x| - 1] == '\n'
    requires |d1| > 0 && |d2| > 0 && |d3| > 0
    requires IsDigits(d1) && IsDigits(d2) && IsDigits(d3)
    requires '}' in y
    ensures var t := x + PragmaText(d1, d2, d3) + y;
      !Contains(t, ImportMarker) ==> WellFormed(t)
  {
    var p := PragmaText(d1, d2, d3);
    var t := x + p + y;
    var i: nat := |x|;
    assert t[i..] == p + y;
    PragmaMatchComplete(d1, d2, d3, y);
    assert t[i + |p|..] == y;
    assert PragmaLineAt(t, i) && '}' in t[i + PragmaMatch(t[i..])..];
  }
}
