/**
 * Models of the functions of Go's `strings` package that the command-line
 * tool uses, over `string` = `seq<char>`. One `char` stands for one
 * character of the Go string.
 */
module GoStrings {

  /** `m` occurs in `s` starting at position `p`. */
  predicate OccursAt(s: string, m: string, p: nat) {
    p + |m| <= |s| && s[p..p + |m|] == m
  }

  /** An occurrence one position further in `s` is an occurrence in `s[1..]`, and back. */
  lemma OccursTail(s: string, m: string, p: nat)
    requires |s| >= 1
    ensures OccursAt(s, m, p + 1) <==> OccursAt(s[1..], m, p)
  {
    if p + 1 + |m| <= |s| {
      assert s[1..][p..p + |m|] == s[p + 1..p + 1 + |m|];
    }
  }

  /** Shifting an occurrence by cutting `d` characters off the front. */
  lemma OccursShift(s: string, m: string, d: nat, p: nat)
    requires d <= |s|
    ensures OccursAt(s, m, p + d) <==> OccursAt(s[d..], m, p)
  {
    if p + d + |m| <= |s| {
      assert s[d..][p..p + |m|] == s[p + d..p + d + |m|];
    }
  }

  /** strings.Index: the first position at which `m` occurs in `s`, or -1. */
  function Index(s: string, m: string): (r: int)
    ensures r == -1 || (0 <= r && OccursAt(s, m, r))
    ensures r == -1 ==> forall p: nat :: !OccursAt(s, m, p)
    ensures r >= 0 ==> forall p: nat :: p < r ==> !OccursAt(s, m, p)
    decreases |s|
  {
    if |m| > |s| then -1
    else if s[..|m|] == m then 0
    else
      var r := Index(s[1..], m);
      assert forall p: nat :: p >= 1 ==> (OccursAt(s, m, p) <==> OccursAt(s[1..], m, p - 1)) by {
        forall p: nat | p >= 1 ensures OccursAt(s, m, p) <==> OccursAt(s[1..], m, p - 1) {
          OccursTail(s, m, p - 1);
        }
      }
      if r < 0 then -1 else r + 1
  }

  /** strings.Contains. */
  predicate Contains(s: string, m: string) {
    Index(s, m) >= 0
  }

  lemma ContainsAt(s: string, m: string, p: nat)
    requires OccursAt(s, m, p)
    ensures Contains(s, m)
  {
  }

  /** An occurrence inside a part of a concatenation is an occurrence in the whole. */
  lemma ContainsConcat(a: string, b: string, m: string)
    requires Contains(a, m) || Contains(b, m)
    ensures Contains(a + b, m)
  {
    if Contains(a, m) {
      var p := Index(a, m);
      assert (a + b)[p..p + |m|] == a[p..p + |m|];
      ContainsAt(a + b, m, p);
    } else {
      var p := Index(b, m);
      assert (a + b)[|a| + p..|a| + p + |m|] == b[p..p + |m|];
      ContainsAt(a + b, m, |a| + p);
    }
  }

  /** Containment is transitive. */
  lemma ContainsTrans(s: string, a: string, m: string)
    requires Contains(s, a) && Contains(a, m)
    ensures Contains(s, m)
  {
    var p := Index(s, a);
    var q := Index(a, m);
    assert OccursAt(s, a, p) && OccursAt(a, m, q);
    forall k | 0 <= k < |m|
      ensures s[p + q..p + q + |m|][k] == m[k]
    {
      assert s[p + q + k] == s[p..p + |a|][q + k] == a[q..q + |m|][k];
    }
    assert s[p + q..p + q + |m|] == m;
    ContainsAt(s, m, p + q);
  }

  /** A string occurs in any concatenation it is the middle part of. */
  lemma ContainsMiddle(a: string, m: string, b: string)
    ensures Contains(a + m + b, m)
  {
    assert (a + m + b)[|a|..|a| + |m|] == m;
    ContainsAt(a + m + b, m, |a|);
  }

  /** A text occurs at the front of anything it is extended to. */
  lemma ContainsFront(a: string, b: string)
    ensures Contains(a + b, a) && HasPrefix(a + b, a)
  {
    assert (a + b)[0..|a|] == a;
    ContainsAt(a + b, a, 0);
  }

  lemma PrefixTrans(s: string, a: string, m: string)
    requires HasPrefix(s, a) && HasPrefix(a, m)
    ensures HasPrefix(s, m)
  {
    assert s[..|m|] == a[..|m|];
  }

  /** strings.Index with a one-character needle finds the first occurrence of that character. */
  lemma IndexChar(s: string, c: char)
    ensures Index(s, [c]) == -1 <==> c !in s
    ensures Index(s, [c]) >= 0 ==> s[Index(s, [c])] == c && c !in s[..Index(s, [c])]
  {
    var i := Index(s, [c]);
    forall k | 0 <= k < |s| && s[k] == c ensures OccursAt(s, [c], k) {
      assert s[k..k + 1] == [c];
    }
    if i >= 0 {
      assert s[i..i + 1] == [c];
      assert s[i] == c && s[i] in s;
      forall k | 0 <= k < i ensures s[..i][k] != c {
        assert !OccursAt(s, [c], k);
        assert s[k..k + 1] == [s[k]];
      }
    }
  }

  /** strings.LastIndex with a one-character needle: the last position of `c` in `s`, or -1. */
  function LastIndex(s: string, c: char): (r: int)
    ensures r >= -1
    ensures r == -1 <==> c !in s
    ensures r >= 0 ==> r < |s| && s[r] == c && c !in s[r + 1..]
    ensures forall j :: r < j < |s| ==> s[j] != c
    decreases |s|
  {
    if s == [] then -1
    else if s[|s| - 1] == c then |s| - 1
    else
      var r := LastIndex(s[..|s| - 1], c);
      assert s == s[..|s| - 1] + [s[|s| - 1]];
      assert r >= 0 ==> s[r + 1..] == s[..|s| - 1][r + 1..] + [s[|s| - 1]];
      r
  }

  /** strings.HasPrefix. */
  predicate HasPrefix(s: string, p: string) {
    |p| <= |s| && s[..|p|] == p
  }

  /** strings.TrimPrefix: removes `p` once when `s` starts with it. */
  function TrimPrefix(s: string, p: string): string {
    if HasPrefix(s, p) then s[|p|..] else s
  }

  /** strings.ReplaceAll: scans left to right and replaces every non-overlapping occurrence of `pat`;
      an empty `pat` matches before each character and at the end. */
  function ReplaceAll(s: string, pat: string, rep: string): string
    decreases |s|
  {
    if pat == [] then
      if s == [] then rep else rep + [s[0]] + ReplaceAll(s[1..], pat, rep)
    else if |s| < |pat| then s
    else if s[..|pat|] == pat then rep + ReplaceAll(s[|pat|..], pat, rep)
    else [s[0]] + ReplaceAll(s[1..], pat, rep)
  }

  /** When `pat` does not occur, ReplaceAll changes nothing. */
  lemma {:induction false} ReplaceAllAbsent(s: string, pat: string, rep: string)
    requires |pat| > 0 && !Contains(s, pat)
    ensures ReplaceAll(s, pat, rep) == s
    decreases |s|
  {
    if |s| >= |pat| {
      assert !OccursAt(s, pat, 0);
      forall p: nat ensures !OccursAt(s[1..], pat, p) {
        OccursTail(s, pat, p);
      }
      ReplaceAllAbsent(s[1..], pat, rep);
    }
  }

  /** A text that does not start with `pat` has its first character copied. */
  lemma ReplaceAllCopy(s: string, pat: string, rep: string)
    requires |pat| > 0 && s != [] && !OccursAt(s, pat, 0)
    ensures ReplaceAll(s, pat, rep) == [s[0]] + ReplaceAll(s[1..], pat, rep)
  {
  }

  /** A text shorter than `pat` is left as it is. */
  lemma ReplaceAllShort(s: string, pat: string, rep: string)
    requires |pat| > |s|
    ensures ReplaceAll(s, pat, rep) == s
  {
  }

  /** Copying a prefix that holds no occurrence of `pat` (strings.Replace's `s[start:j]`). */
  lemma {:induction false} ReplaceAllSkip(s: string, pat: string, rep: string, k: nat)
    requires |pat| > 0 && k <= |s|
    requires forall q: nat :: q < k ==> !OccursAt(s, pat, q)
    ensures ReplaceAll(s, pat, rep) == s[..k] + ReplaceAll(s[k..], pat, rep)
    decreases k
  {
    if k > 0 {
      ReplaceAllCopy(s, pat, rep);
      forall q: nat | q < k - 1 ensures !OccursAt(s[1..], pat, q) {
        OccursTail(s, pat, q);
      }
      ReplaceAllSkip(s[1..], pat, rep, k - 1);
      DropFirst(s, k, ReplaceAll(s[k..], pat, rep));
    } else {
      assert s[..k] == [] && s[k..] == s;
    }
  }

  lemma DropFirst(s: string, k: nat, r: string)
    requires 0 < k <= |s|
    ensures s[1..][k - 1..] == s[k..] && [s[0]] + (s[1..][..k - 1] + r) == s[..k] + r
  {
    assert s[..k] == [s[0]] + s[1..][..k - 1];
  }

  /** A text that starts with `pat` has it replaced first. */
  lemma ReplaceAllHead(t: string, pat: string, rep: string)
    requires |pat| > 0 && HasPrefix(t, pat)
    ensures ReplaceAll(t, pat, rep) == rep + ReplaceAll(t[|pat|..], pat, rep)
  {
  }

  /** The first occurrence is replaced and the scan resumes right after it. */
  lemma ReplaceAllFirst(s: string, pat: string, rep: string, i: nat)
    requires |pat| > 0 && OccursAt(s, pat, i)
    requires forall q: nat :: q < i ==> !OccursAt(s, pat, q)
    ensures ReplaceAll(s, pat, rep) == s[..i] + rep + ReplaceAll(s[i + |pat|..], pat, rep)
  {
    var t := s[i..];
    assert t[|pat|..] == s[i + |pat|..];
    ReplaceAllHead(t, pat, rep);
    ReplaceAllSkip(s, pat, rep, i);
  }

  /** After replacing a present `pat`, the result contains `rep`. */
  lemma ReplaceAllIntroduces(s: string, pat: string, rep: string)
    requires |pat| > 0 && Contains(s, pat)
    ensures Contains(ReplaceAll(s, pat, rep), rep)
  {
    var i := Index(s, pat);
    ReplaceAllFirst(s, pat, rep, i);
    var r := ReplaceAll(s, pat, rep);
    assert r[i..i + |rep|] == rep;
    ContainsAt(r, rep, i);
  }

  /** No occurrence of `pat` straddles position `k` of `s`. */
  predicate NoStraddle(s: string, pat: string, k: nat) {
    forall q: nat :: q < k < q + |pat| ==> !OccursAt(s, pat, q)
  }

  /** A boundary no occurrence straddles stays so once a front part of length `d` is cut off. */
  lemma NoStraddleShift(a: string, b: string, pat: string, d: nat)
    requires d <= |a| && NoStraddle(a + b, pat, |a|)
    ensures (a + b)[d..] == a[d..] + b && NoStraddle(a[d..] + b, pat, |a[d..]|)
  {
    assert (a + b)[d..] == a[d..] + b;
    forall q: nat | q < |a[d..]| < q + |pat| ensures !OccursAt(a[d..] + b, pat, q) {
      OccursShift(a + b, pat, d, q);
    }
  }

  lemma AppendAssoc(x: string, y: string, z: string)
    ensures x + (y + z) == (x + y) + z
  {
  }

  /** ReplaceAll distributes over a concatenation that no occurrence of `pat` straddles. */
  lemma {:induction false} ReplaceAllConcat(a: string, b: string, pat: string, rep: string)
    requires |pat| > 0 && NoStraddle(a + b, pat, |a|)
    ensures ReplaceAll(a + b, pat, rep) == ReplaceAll(a, pat, rep) + ReplaceAll(b, pat, rep)
    decreases |a|
  {
    var s := a + b;
    if a == [] {
      assert s == b;
    } else if OccursAt(s, pat, 0) {
      assert !(0 < |a| < |pat|);
      assert a[..|pat|] == s[..|pat|];
      NoStraddleShift(a, b, pat, |pat|);
      ReplaceAllConcat(a[|pat|..], b, pat, rep);
      ReplaceAllHead(s, pat, rep);
      ReplaceAllHead(a, pat, rep);
      AppendAssoc(rep, ReplaceAll(a[|pat|..], pat, rep), ReplaceAll(b, pat, rep));
    } else {
      assert s[0] == a[0];
      NoStraddleShift(a, b, pat, 1);
      ReplaceAllConcat(a[1..], b, pat, rep);
      ReplaceAllCopy(s, pat, rep);
      AppendAssoc([a[0]], ReplaceAll(a[1..], pat, rep), ReplaceAll(b, pat, rep));
      if |a| < |pat| {
        ReplaceAllShort(a, pat, rep);
        ReplaceAllShort(a[1..], pat, rep);
        assert a == [a[0]] + a[1..];
      } else {
        assert a[..|pat|] == s[..|pat|];
        ReplaceAllCopy(a, pat, rep);
      }
    }
  }

  /**
   * `pat` cannot overlap an occurrence of `m`: neither is a prefix of the
   * other, `pat` starts with a character found in `m` only at its front and
   * ends with one absent from `m`, and `m` holds a character `c` absent from
   * `pat`.
   */
  predicate CannotOverlap(pat: string, m: string, c: char) {
    |pat| > 0 && |m| > 0 && !HasPrefix(pat, m) && !HasPrefix(m, pat) &&
    pat[0] !in m[1..] && pat[|pat| - 1] !in m && c in m && c !in pat
  }

  lemma SameStart(s: string, pat: string, m: string, p: nat)
    requires OccursAt(s, m, p) && OccursAt(s, pat, p)
    ensures HasPrefix(pat, m) || HasPrefix(m, pat)
  {
    if |m| <= |pat| {
      assert pat[..|m|] == s[p..p + |m|];
    } else {
      assert m[..|pat|] == s[p..p + |pat|];
    }
  }

  lemma OverlapStart(s: string, pat: string, m: string, p: nat, q: nat)
    requires |pat| > 0 && OccursAt(s, m, p) && OccursAt(s, pat, q) && p < q < p + |m|
    ensures pat[0] in m[1..]
  {
    assert s[q] == pat[0] && s[q] == m[q - p] && m[1..][q - p - 1] == m[q - p];
  }

  lemma OverlapEnd(s: string, pat: string, m: string, p: nat, q: nat)
    requires |pat| > 0 && OccursAt(s, m, p) && OccursAt(s, pat, q) && q < p < q + |pat| <= p + |m|
    ensures pat[|pat| - 1] in m
  {
    assert s[q + |pat| - 1] == pat[|pat| - 1] && s[q + |pat| - 1] == m[q + |pat| - 1 - p];
  }

  lemma OverlapCover(s: string, pat: string, m: string, c: char, p: nat, q: nat)
    requires OccursAt(s, m, p) && OccursAt(s, pat, q) && q < p && p + |m| < q + |pat| && c in m
    ensures c in pat
  {
    var k :| 0 <= k < |m| && m[k] == c;
    assert s[p + k] == m[k] && s[p + k] == pat[p + k - q];
  }

  /** Occurrences of `pat` and `m` never overlap when CannotOverlap(pat, m, c). */
  lemma Disjoint(s: string, pat: string, m: string, c: char, p: nat, q: nat)
    requires CannotOverlap(pat, m, c) && OccursAt(s, m, p) && OccursAt(s, pat, q)
    ensures q + |pat| <= p || p + |m| <= q
  {
    if q == p {
      SameStart(s, pat, m, p);
    } else if p < q < p + |m| {
      OverlapStart(s, pat, m, p, q);
    } else if q < p < q + |pat| <= p + |m| {
      OverlapEnd(s, pat, m, p, q);
    } else if q < p && p + |m| < q + |pat| {
      OverlapCover(s, pat, m, c, p, q);
    }
  }

  /** A text starting with an occurrence of `m` that `pat` cannot overlap keeps it in front. */
  lemma ReplaceAllKeepsFront(t: string, pat: string, rep: string, m: string, c: char)
    requires CannotOverlap(pat, m, c) && OccursAt(t, m, 0)
    ensures ReplaceAll(t, pat, rep) == m + ReplaceAll(t[|m|..], pat, rep)
  {
    var y := t[|m|..];
    assert t == m + y;
    forall q: nat | q < |m| < q + |pat| ensures !OccursAt(t, pat, q) {
      if OccursAt(t, pat, q) { Disjoint(t, pat, m, c, 0, q); }
    }
    ReplaceAllConcat(m, y, pat, rep);
    forall q: nat ensures !OccursAt(m, pat, q) {
      if q + |pat| <= |m| {
        assert t[q..q + |pat|] == m[q..q + |pat|];
        if OccursAt(t, pat, q) { Disjoint(t, pat, m, c, 0, q); }
      }
    }
    ReplaceAllAbsent(m, pat, rep);
  }

  /** No occurrence of `pat` straddles the start of an occurrence of `m` it cannot overlap. */
  lemma NoStraddleBefore(s: string, pat: string, m: string, c: char, p: nat)
    requires CannotOverlap(pat, m, c) && OccursAt(s, m, p)
    ensures NoStraddle(s, pat, p)
  {
    forall q: nat | q < p < q + |pat| ensures !OccursAt(s, pat, q) {
      if OccursAt(s, pat, q) { Disjoint(s, pat, m, c, p, q); }
    }
  }

  /** An occurrence of a string that `pat` cannot overlap survives ReplaceAll. */
  lemma ReplaceAllKeeps(s: string, pat: string, rep: string, m: string, c: char, p: nat)
    requires CannotOverlap(pat, m, c) && OccursAt(s, m, p)
    ensures Contains(ReplaceAll(s, pat, rep), m)
  {
    var x, t := s[..p], s[p..];
    CutAt(s, p);
    NoStraddleBefore(s, pat, m, c, p);
    ReplaceAllConcat(x, t, pat, rep);
    OccursShift(s, m, p, 0);
    ReplaceAllKeepsFront(t, pat, rep, m, c);
    ContainsInside(ReplaceAll(s, pat, rep), ReplaceAll(x, pat, rep), m, ReplaceAll(t[|m|..], pat, rep));
  }

  lemma CutAt(s: string, p: nat)
    requires p <= |s|
    ensures s == s[..p] + s[p..]
  {
  }

  lemma ContainsInside(r: string, a: string, m: string, b: string)
    requires r == a + (m + b)
    ensures Contains(r, m)
  {
    assert r == a + m + b;
    ContainsMiddle(a, m, b);
  }

  /** strings.Join. */
  function Join(parts: seq<string>, sep: string): string
    decreases |parts|
  {
    if |parts| == 0 then ""
    else if |parts| == 1 then parts[0]
    else parts[0] + sep + Join(parts[1..], sep)
  }

  /** strings.Split: cuts `s` at every non-overlapping occurrence of `sep`, found left to right
      with strings.Index; an empty `sep` splits after each character. */
  function Split(s: string, sep: string): (parts: seq<string>)
    ensures sep != [] ==> |parts| >= 1
    decreases |s|
  {
    if sep == [] then
      if s == [] then [] else [[s[0]]] + Split(s[1..], sep)
    else
      var i := Index(s, sep);
      if i < 0 then [s] else [s[..i]] + Split(s[i + |sep|..], sep)
  }

  /** One step of Split at the first separator. */
  lemma SplitStep(s: string, sep: string, i: nat)
    requires |sep| > 0 && Index(s, sep) == i
    ensures Split(s, sep) == [s[..i]] + Split(s[i + |sep|..], sep)
  {
  }

  /** The only `c`, at `i`, is where strings.Index finds it. */
  lemma IndexSingle(s: string, c: char, i: nat)
    requires i < |s| && s[i] == c && c !in s[..i]
    ensures Index(s, [c]) == i
  {
    IndexChar(s, c);
    assert s[i] in s;
    assert forall k :: 0 <= k < i ==> s[..i][k] == s[k];
  }

  /** Split at a character that occurs once gives the two sides. */
  lemma SplitSingle(s: string, c: char, i: nat)
    requires i < |s| && s[i] == c && c !in s[..i] && c !in s[i + 1..]
    ensures Split(s, [c]) == [s[..i], s[i + 1..]]
  {
    IndexSingle(s, c, i);
    IndexChar(s[i + 1..], c);
    assert s[i + 1..] == s[i + |[c]|..];
  }

  /** ReplaceAll of a character that occurs once replaces just that one. */
  lemma ReplaceSingle(s: string, c: char, rep: string, i: nat)
    requires i < |s| && s[i] == c && c !in s[..i] && c !in s[i + 1..]
    ensures ReplaceAll(s, [c], rep) == s[..i] + rep + s[i + 1..]
  {
    IndexSingle(s, c, i);
    IndexChar(s[i + 1..], c);
    assert s[i + 1..] == s[i + |[c]|..];
    ReplaceAllFirst(s, [c], rep, i);
    ReplaceAllAbsent(s[i + 1..], [c], rep);
  }

  /** Joining the parts with the separator gives back the text. */
  lemma {:induction false} SplitJoin(s: string, sep: string)
    requires |sep| > 0
    ensures Join(Split(s, sep), sep) == s
    decreases |s|
  {
    var i := Index(s, sep);
    if i >= 0 {
      var rest := s[i + |sep|..];
      SplitJoin(rest, sep);
      var parts := Split(rest, sep);
      assert Split(s, sep) == [s[..i]] + parts;
      assert ([s[..i]] + parts)[1..] == parts;
      assert s[i..i + |sep|] == sep;
      SplitAround(s, i, |sep|);
    }
  }

  lemma SplitAround(s: string, i: nat, n: nat)
    requires i + n <= |s|
    ensures s == s[..i] + s[i..i + n] + s[i + n..]
  {
  }

  /** No part of a split at a one-character separator holds that character. */
  lemma {:induction false} SplitCharParts(s: string, c: char)
    ensures forall k :: 0 <= k < |Split(s, [c])| ==> c !in Split(s, [c])[k]
    decreases |s|
  {
    IndexChar(s, c);
    var i := Index(s, [c]);
    if i >= 0 {
      var rest := s[i + 1..];
      SplitCharParts(rest, c);
      assert Split(s, [c]) == [s[..i]] + Split(rest, [c]);
    }
  }

  /** A character absent from the text is absent from every part of its split. */
  lemma {:induction false} SplitAvoids(s: string, sep: string, c: char)
    requires |sep| > 0 && c !in s
    ensures forall k :: 0 <= k < |Split(s, sep)| ==> c !in Split(s, sep)[k]
    decreases |s|
  {
    var i := Index(s, sep);
    if i >= 0 {
      var rest := s[i + |sep|..];
      assert forall k :: 0 <= k < |rest| ==> rest[k] == s[i + |sep| + k];
      SplitAvoids(rest, sep, c);
      assert Split(s, sep) == [s[..i]] + Split(rest, sep);
    }
  }

  /** A character in neither the parts nor the separator is not in their join. */
  lemma {:induction false} JoinAvoids(parts: seq<string>, sep: string, c: char)
    requires forall k :: 0 <= k < |parts| ==> c !in parts[k]
    requires c !in sep
    ensures c !in Join(parts, sep)
    decreases |parts|
  {
    if |parts| > 1 {
      JoinAvoids(parts[1..], sep, c);
    }
  }

  /** The identity Go documents for a non-empty `pat`: ReplaceAll is Split followed by Join. */
  lemma {:induction false} ReplaceAllIsSplitJoin(s: string, pat: string, rep: string)
    requires |pat| > 0
    ensures ReplaceAll(s, pat, rep) == Join(Split(s, pat), rep)
    decreases |s|
  {
    if Contains(s, pat) {
      var i := Index(s, pat);
      ReplaceAllFirst(s, pat, rep, i);
      ReplaceAllIsSplitJoin(s[i + |pat|..], pat, rep);
      var rest := Split(s[i + |pat|..], pat);
      assert Split(s, pat) == [s[..i]] + rest;
      assert ([s[..i]] + rest)[1..] == rest;
    } else {
      ReplaceAllAbsent(s, pat, rep);
    }
  }

  /** Number of occurrences of character `c` in `s`. */
  function Count(s: string, c: char): nat
    decreases |s|
  {
    if s == [] then 0 else (if s[0] == c then 1 else 0) + Count(s[1..], c)
  }

  lemma {:induction false} CountAppend(a: string, b: string, c: char)
    ensures Count(a + b, c) == Count(a, c) + Count(b, c)
    decreases |a|
  {
    if a == [] {
      assert a + b == b;
    } else {
      assert (a + b)[1..] == a[1..] + b;
      CountAppend(a[1..], b, c);
    }
  }

  lemma {:induction false} CountZero(s: string, c: char)
    ensures Count(s, c) == 0 <==> c !in s
    decreases |s|
  {
    if s != [] {
      CountZero(s[1..], c);
      assert s == [s[0]] + s[1..];
    }
  }

  /** Splitting on a single character yields one more part than there are occurrences of it. */
  lemma {:induction false} SplitCharCount(s: string, c: char)
    ensures |Split(s, [c])| == Count(s, c) + 1
    decreases |s|
  {
    var i := Index(s, [c]);
    if i < 0 {
      CountZero(s, c);
      forall k | 0 <= k < |s| ensures s[k] != c {
        if s[k] == c {
          assert s[k..k + 1] == [c];
          assert OccursAt(s, [c], k);
        }
      }
    } else {
      assert s[i..i + 1] == [c];
      assert s == s[..i] + [c] + s[i + 1..];
      CountAppend(s[..i] + [c], s[i + 1..], c);
      CountAppend(s[..i], [c], c);
      assert c !in s[..i] by {
        forall k | 0 <= k < i ensures s[..i][k] != c {
          if s[k] == c {
            assert s[k..k + 1] == [c];
            assert OccursAt(s, [c], k);
          }
        }
      }
      CountZero(s[..i], c);
      SplitCharCount(s[i + 1..], c);
    }
  }

  /** Unicode White_Space, the set unicode.IsSpace (and so strings.TrimSpace) uses. */
  predicate IsSpace(c: char) {
    c == ' ' || c == '\t' || c == '\n' || c == '\r' || c == '\U{000B}' || c == '\U{000C}'
    || c == '\U{0085}' || c == '\U{00A0}' || c == '\U{1680}'
    || ('\U{2000}' <= c <= '\U{200A}')
    || c == '\U{2028}' || c == '\U{2029}' || c == '\U{202F}' || c == '\U{205F}' || c == '\U{3000}'
  }

  /** The number of white-space characters `s` starts with. */
  function LeadingSpaces(s: string): (n: nat)
    ensures n <= |s|
    ensures forall k :: 0 <= k < n ==> IsSpace(s[k])
    ensures n < |s| ==> !IsSpace(s[n])
    decreases |s|
  {
    if s != [] && IsSpace(s[0]) then
      var n := LeadingSpaces(s[1..]);
      assert forall k :: 1 <= k < n + 1 ==> s[k] == s[1..][k - 1];
      n + 1
    else 0
  }

  function TrimLeftSpace(s: string): (r: string)
    ensures |r| <= |s| && r == s[|s| - |r|..]
    ensures forall k :: 0 <= k < |s| - |r| ==> IsSpace(s[k])
    ensures r != [] ==> !IsSpace(r[0])
  {
    s[LeadingSpaces(s)..]
  }

  function TrimRightSpace(s: string): (r: string)
    ensures |r| <= |s| && r == s[..|r|]
    ensures forall k :: |r| <= k < |s| ==> IsSpace(s[k])
    ensures r != [] ==> !IsSpace(r[|r| - 1])
    decreases |s|
  {
    if s != [] && IsSpace(s[|s| - 1]) then
      var r := TrimRightSpace(s[..|s| - 1]);
      assert s[..|s| - 1][..|r|] == s[..|r|];
      r
    else s
  }

  /** strings.TrimSpace: the result is the middle of `s` left once every leading and trailing
      white-space character is cut off. */
  function TrimSpace(s: string): (r: string)
    ensures exists i, j :: (0 <= i <= j <= |s| && r == s[i..j]
      && (forall k :: 0 <= k < i ==> IsSpace(s[k]))
      && (forall k :: j <= k < |s| ==> IsSpace(s[k])))
    ensures r != [] ==> !IsSpace(r[0]) && !IsSpace(r[|r| - 1])
  {
    var l := TrimLeftSpace(s);
    var r := TrimRightSpace(l);
    var i := |s| - |l|;
    assert r == s[i..i + |r|];
    assert forall k :: i + |r| <= k < |s| ==> s[k] == l[k - i];
    r
  }

  /** A text that neither starts nor ends with white space is its own TrimSpace. */
  lemma TrimSpaceKeeps(s: string)
    requires s != [] ==> !IsSpace(s[0]) && !IsSpace(s[|s| - 1])
    ensures TrimSpace(s) == s
  {
  }

  predicate IsAsciiUpper(c: char) { 'A' <= c <= 'Z' }
  predicate IsAsciiLower(c: char) { 'a' <= c <= 'z' }

  function LowerChar(c: char): char {
    if IsAsciiUpper(c) then (c as int + 32) as char else c
  }

  function UpperChar(c: char): char {
    if IsAsciiLower(c) then (c as int - 32) as char else c
  }

  /** strings.ToLower, for ASCII letters. */
  function ToLower(s: string): (r: string)
    ensures |r| == |s|
    ensures forall k :: 0 <= k < |s| ==> r[k] == LowerChar(s[k])
    decreases |s|
  {
    if s == [] then [] else [LowerChar(s[0])] + ToLower(s[1..])
  }

  lemma LowerUpper(c: char)
    ensures LowerChar(UpperChar(c)) == LowerChar(c)
  {
  }
}
