/**
 * Deterministic container and volume names (createContainerName and
 * trimToLen in pkg/runner/run_context.go).
 */
module Naming {
  import opened Wrappers

  predicate IsAlnum(c: char) {
    'a' <= c <= 'z' || 'A' <= c <= 'Z' || '0' <= c <= '9'
  }

  predicate IsDigit(c: char) {
    '0' <= c <= '9'
  }

  /** The alphabet of a name: letters, digits and '-'. */
  predicate IsNameChar(c: char) {
    IsAlnum(c) || c == '-'
  }

  predicate IsSafe(s: string) {
    forall i | 0 <= i < |s| :: IsNameChar(s[i])
  }

  /** The regexp `[^a-zA-Z0-9]` replaced by "-": every other character becomes a hyphen. */
  function Sanitize(s: string): (r: string)
    ensures |r| == |s|
  {
    seq(|s|, i requires 0 <= i < |s| => if IsAlnum(s[i]) then s[i] else '-')
  }

  /** Letters and digits are kept, everything else becomes '-'. */
  lemma SanitizeSpec(s: string)
    ensures IsSafe(Sanitize(s))
    ensures forall i | 0 <= i < |s| :: IsAlnum(s[i]) ==> Sanitize(s)[i] == s[i]
    ensures forall i | 0 <= i < |s| :: !IsAlnum(s[i]) ==> Sanitize(s)[i] == '-'
  {
  }

  /** trimToLen: a negative budget counts as zero; the result is a prefix of s. */
  function TrimToLen(s: string, l: int): (r: string)
    ensures |r| == Min(|s|, Max(l, 0))
    ensures r == s[..|r|]
  {
    var n := if l < 0 then 0 else l;
    if |s| > n then s[..n] else s
  }

  /** Number of decimal digits at the end of s. */
  function TrailingDigits(s: string): (d: nat)
    ensures d <= |s|
  {
    if s == [] || !IsDigit(s[|s| - 1]) then 0 else TrailingDigits(s[..|s| - 1]) + 1
  }

  /** TrailingDigits is the length of the maximal run of digits ending s. */
  lemma {:induction false} TrailingDigitsSpec(s: string)
    ensures forall i | |s| - TrailingDigits(s) <= i < |s| :: IsDigit(s[i])
    ensures TrailingDigits(s) < |s| ==> !IsDigit(s[|s| - TrailingDigits(s) - 1])
  {
    if s != [] && IsDigit(s[|s| - 1]) {
      TrailingDigitsSpec(s[..|s| - 1]);
    }
  }

  /** The regexp `-[0-9]+$` matches s at position i. */
  ghost predicate SuffixMatchAt(s: string, i: int) {
    0 <= i < |s| - 1 && s[i] == '-' && forall j | i < j < |s| :: IsDigit(s[j])
  }

  /**
   * The matrix suffix: the match of `-[0-9]+$` in the part, if any. The
   * match, when there is one, is unique, so leftmost-first search finds it.
   */
  function MatrixSuffix(s: string): Option<string> {
    var d := TrailingDigits(s);
    if 0 < d < |s| && s[|s| - d - 1] == '-' then Some(s[|s| - d - 1..]) else None
  }

  /** MatrixSuffix finds exactly the match of `-[0-9]+$`, when there is one. */
  lemma MatrixSuffixIsRegexMatch(s: string)
    ensures MatrixSuffix(s).Some? ==> exists i :: SuffixMatchAt(s, i) && MatrixSuffix(s).value == s[i..]
    ensures forall i :: SuffixMatchAt(s, i) ==> MatrixSuffix(s) == Some(s[i..])
  {
    var d := TrailingDigits(s);
    TrailingDigitsSpec(s);
    if 0 < d < |s| && s[|s| - d - 1] == '-' {
      assert SuffixMatchAt(s, |s| - d - 1);
    }
  }

  /** The budget of every part but the last: `30/len(parts) - 1` (Go's division; n > 0). */
  function PartLen(n: nat): int
    requires n > 0
  {
    30 / n - 1
  }

  /** What one part contributes to the joined name. */
  function PartPieces(part: string, partLen: int, isLast: bool): seq<string> {
    if isLast then [Sanitize(part)]
    else
      var num := MatrixSuffix(part);
      if num.Some? then [TrimToLen(Sanitize(part), partLen - |num.value|), num.value]
      else [TrimToLen(Sanitize(part), partLen)]
  }

  /** The pieces of the first k parts, in order. */
  function NamePieces(parts: seq<string>, k: nat, partLen: int): seq<string>
    requires k <= |parts|
  {
    if k == 0 then []
    else NamePieces(parts, k - 1, partLen) + PartPieces(parts[k - 1], partLen, k - 1 == |parts| - 1)
  }

  function Concat(ss: seq<string>): string {
    if ss == [] then "" else ss[0] + Concat(ss[1..])
  }

  /** strings.Join. */
  function Join(ss: seq<string>, sep: string): string {
    if ss == [] then ""
    else if |ss| == 1 then ss[0]
    else ss[0] + sep + Join(ss[1..], sep)
  }

  /** strings.TrimLeft with cutset "-". */
  function TrimLeft(s: string): (r: string)
    ensures |r| <= |s|
  {
    if s != [] && s[0] == '-' then TrimLeft(s[1..]) else s
  }

  /** TrimLeft drops exactly the leading hyphens. */
  lemma {:induction false} TrimLeftSpec(s: string)
    ensures var r := TrimLeft(s);
            && r == s[|s| - |r|..]
            && (r == [] || r[0] != '-')
            && forall i | 0 <= i < |s| - |r| :: s[i] == '-'
  {
    if s != [] && s[0] == '-' {
      TrimLeftSpec(s[1..]);
    }
  }

  /** strings.TrimRight with cutset "-". */
  function TrimRight(s: string): (r: string)
    ensures |r| <= |s|
  {
    if s != [] && s[|s| - 1] == '-' then TrimRight(s[..|s| - 1]) else s
  }

  /** TrimRight drops exactly the trailing hyphens. */
  lemma {:induction false} TrimRightSpec(s: string)
    ensures var r := TrimRight(s);
            && r == s[..|r|]
            && (r == [] || r[|r| - 1] != '-')
            && forall i | |r| <= i < |s| :: s[i] == '-'
  {
    if s != [] && s[|s| - 1] == '-' {
      TrimRightSpec(s[..|s| - 1]);
    }
  }

  /** strings.Trim(s, "-"). */
  function TrimHyphens(s: string): string {
    TrimRight(TrimLeft(s))
  }

  /**
   * strings.ReplaceAll(s, "--", "-"): one left-to-right pass over
   * non-overlapping occurrences, so "---" becomes "--".
   */
  function CollapseOnce(s: string): string {
    if |s| >= 2 && s[0] == '-' && s[1] == '-' then "-" + CollapseOnce(s[2..])
    else if s == [] then []
    else [s[0]] + CollapseOnce(s[1..])
  }

  /** createContainerName(parts...). */
  function ContainerName(parts: seq<string>): string
    requires |parts| > 0
  {
    CollapseOnce(TrimHyphens(Join(NamePieces(parts, |parts|, PartLen(|parts|)), "-")))
  }

  /** createContainerName, written as the loop the source runs. */
  method CreateContainerName(parts: seq<string>) returns (n: string)
    requires |parts| > 0
    ensures n == ContainerName(parts)
  {
    var name: seq<string> := [];
    var partLen := PartLen(|parts|);
    var i := 0;
    while i < |parts|
      invariant 0 <= i <= |parts|
      invariant name == NamePieces(parts, i, partLen)
    {
      var part := parts[i];
      ghost var prev := name;
      if i == |parts| - 1 {
        name := name + [Sanitize(part)];
      } else {
        var num := MatrixSuffix(part);
        if num.Some? {
          name := name + [TrimToLen(Sanitize(part), partLen - |num.value|)];
          name := name + [num.value];
        } else {
          name := name + [TrimToLen(Sanitize(part), partLen)];
        }
      }
      assert name == prev + PartPieces(part, partLen, i == |parts| - 1);
      i := i + 1;
    }
    n := CollapseOnce(TrimHyphens(Join(name, "-")));
  }

  // ---- Properties of the name ----

  predicate AllSafe(ss: seq<string>) {
    forall i | 0 <= i < |ss| :: IsSafe(ss[i])
  }

  lemma MatrixSuffixSafe(s: string)
    ensures MatrixSuffix(s).Some? ==> IsSafe(MatrixSuffix(s).value)
  {
    var d := TrailingDigits(s);
    TrailingDigitsSpec(s);
    if 0 < d < |s| && s[|s| - d - 1] == '-' {
      var v := s[|s| - d - 1..];
      assert forall j | 0 <= j < |v| :: v[j] == s[|s| - d - 1 + j];
    }
  }

  lemma PartPiecesSafe(part: string, partLen: int, isLast: bool)
    ensures AllSafe(PartPieces(part, partLen, isLast))
  {
    var sp := Sanitize(part);
    SanitizeSpec(part);
    var m := MatrixSuffix(part);
    if !isLast {
      var l := if m.Some? then partLen - |m.value| else partLen;
      var t := TrimToLen(sp, l);
      assert forall j | 0 <= j < |t| :: t[j] == sp[j];
      if m.Some? {
        MatrixSuffixSafe(part);
      }
    }
  }

  lemma {:induction false} NamePiecesSafe(parts: seq<string>, k: nat, partLen: int)
    requires k <= |parts|
    ensures AllSafe(NamePieces(parts, k, partLen))
  {
    if k > 0 {
      NamePiecesSafe(parts, k - 1, partLen);
      PartPiecesSafe(parts[k - 1], partLen, k - 1 == |parts| - 1);
    }
  }

  lemma {:induction false} JoinSafe(ss: seq<string>)
    requires AllSafe(ss)
    ensures IsSafe(Join(ss, "-"))
  {
    if |ss| > 1 {
      JoinSafe(ss[1..]);
      assert IsSafe(ss[0]);
    }
  }

  lemma {:induction false} CollapseKeepsChars(s: string)
    ensures forall c | c in CollapseOnce(s) :: c in s
  {
    if |s| >= 2 && s[0] == '-' && s[1] == '-' {
      CollapseKeepsChars(s[2..]);
    } else if s != [] {
      CollapseKeepsChars(s[1..]);
    }
  }

  /** The last character survives ReplaceAll when it is not a hyphen. */
  lemma {:induction false} CollapseKeepsLast(s: string)
    requires s != [] && s[|s| - 1] != '-'
    ensures CollapseOnce(s) != [] && CollapseOnce(s)[|CollapseOnce(s)| - 1] == s[|s| - 1]
  {
    if |s| >= 2 && s[0] == '-' && s[1] == '-' {
      CollapseKeepsLast(s[2..]);
    } else if |s| > 1 {
      CollapseKeepsLast(s[1..]);
    }
  }

  /**
   * Every name is made of letters, digits and hyphens, and neither starts
   * nor ends with a hyphen (Trim runs before ReplaceAll).
   */
  lemma ContainerNameWellFormed(parts: seq<string>)
    requires |parts| > 0
    ensures IsSafe(ContainerName(parts))
    ensures var r := ContainerName(parts); r == [] || (r[0] != '-' && r[|r| - 1] != '-')
  {
    var joined := Join(NamePieces(parts, |parts|, PartLen(|parts|)), "-");
    NamePiecesSafe(parts, |parts|, PartLen(|parts|));
    JoinSafe(NamePieces(parts, |parts|, PartLen(|parts|)));
    var t := TrimHyphens(joined);
    var l := TrimLeft(joined);
    TrimLeftSpec(joined);
    TrimRightSpec(l);
    assert forall j | 0 <= j < |t| :: t[j] == joined[|joined| - |l| + j];
    assert IsSafe(t);
    CollapseKeepsChars(t);
    var r := CollapseOnce(t);
    assert forall j | 0 <= j < |r| :: r[j] in t;
    if t != [] {
      assert t[0] == l[0];
      CollapseKeepsLast(t);
    }
  }

  /**
   * A part that is not the last contributes a prefix of its sanitised text
   * cut to the budget left after its matrix suffix, then the suffix verbatim.
   */
  lemma NonLastPartBudget(part: string, partLen: int)
    ensures var num := MatrixSuffix(part).GetOr("");
            var m := Min(|part|, Max(partLen - |num|, 0));
            Concat(PartPieces(part, partLen, false)) == Sanitize(part)[..m] + num
            && |Concat(PartPieces(part, partLen, false))| <= Max(partLen, |num|)
  {
    var num := MatrixSuffix(part).GetOr("");
    var pieces := PartPieces(part, partLen, false);
    if MatrixSuffix(part).Some? {
      assert Concat(pieces) == pieces[0] + Concat(pieces[1..]);
      assert Concat(pieces[1..]) == num + Concat([]);
    } else {
      assert Concat(pieces) == pieces[0] + Concat([]);
    }
  }

  /** The last part is only character-replaced, never cut. */
  lemma LastPartUncut(part: string, partLen: int)
    ensures Concat(PartPieces(part, partLen, true)) == Sanitize(part)
    ensures |Concat(PartPieces(part, partLen, true))| == |part|
  {
    assert Concat([Sanitize(part)]) == Sanitize(part) + Concat([]);
  }

  /** The part "abcdefghijklm-7" under a budget of 14 keeps its suffix "-7". */
  lemma CutPartKeepsSuffix()
    ensures PartPieces("abcdefghijklm-7", 14, false) == ["abcdefghijkl", "-7"]
  {
    var p := "abcdefghijklm-7";
    assert p[..14] == "abcdefghijklm-";
    assert TrailingDigits(p[..14]) == 0;
    assert TrailingDigits(p) == 1;
    assert p[13..] == "-7";
    assert MatrixSuffix(p) == Some("-7");
    assert IsSafe(p);
    assert Sanitize(p) == p;
    assert TrimToLen(p, 12) == "abcdefghijkl";
  }

  /**
   * With two parts, the joined name is the cut first part, its matrix
   * suffix verbatim, and the uncut last part, separated by hyphens.
   */
  lemma TwoPartJoin(p: string, last: string)
    ensures var num := MatrixSuffix(p).GetOr("");
            var cut := TrimToLen(Sanitize(p), 14 - |num|);
            Join(NamePieces([p, last], 2, PartLen(2)), "-")
            == if num == "" then cut + "-" + Sanitize(last) else cut + "-" + num + "-" + Sanitize(last)
  {
    var parts := [p, last];
    assert PartLen(2) == 14;
    assert NamePieces(parts, 1, 14) == PartPieces(p, 14, false);
    var pieces := NamePieces(parts, 2, 14);
    assert pieces == PartPieces(p, 14, false) + [Sanitize(last)];
    if MatrixSuffix(p).Some? {
      assert Join(pieces[1..], "-") == pieces[1] + "-" + Join([Sanitize(last)], "-");
    } else {
      assert MatrixSuffix(p).GetOr("") == "";
      assert Join(pieces[1..], "-") == Sanitize(last);
    }
  }

  /**
   * The single ReplaceAll pass does not remove every doubled hyphen: a
   * part ending in "--" still yields "--" in the name.
   */
  lemma DoubleHyphenCanSurvive()
    ensures ContainerName(["a--", "b"]) == "a--b"
  {
    assert PartLen(2) == 14;
    DoubleHyphenPieces();
    DoubleHyphenCollapse();
  }

  lemma DoubleHyphenPieces()
    ensures Join(NamePieces(["a--", "b"], 2, 14), "-") == "a---b"
  {
    var parts := ["a--", "b"];
    assert "a--"[..2] == "a-";
    assert TrailingDigits("a--") == 0;
    assert MatrixSuffix("a--") == None;
    assert IsSafe("a--");
    assert Sanitize("a--") == "a--";
    assert TrimToLen("a--", 14) == "a--";
    assert Sanitize("b") == "b";
    assert NamePieces(parts, 1, 14) == ["a--"];
    assert NamePieces(parts, 2, 14) == ["a--", "b"];
    assert Join(["b"], "-") == "b";
  }

  lemma DoubleHyphenCollapse()
    ensures CollapseOnce(TrimHyphens("a---b")) == "a--b"
  {
    assert TrimLeft("a---b") == "a---b";
    assert TrimRight("a---b") == "a---b";
    assert CollapseOnce("b") == "b" by { assert "b"[1..] == ""; }
    assert CollapseOnce("-b") == "-b" by { assert "-b"[1..] == "b"; }
    assert CollapseOnce("---b") == "--b" by { assert "---b"[2..] == "-b"; }
    assert CollapseOnce("a---b") == "a--b" by { assert "a---b"[1..] == "---b"; }
  }
}
