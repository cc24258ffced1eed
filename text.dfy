/**
 * Models of the Python `str` operations that the report extraction and the
 * display builders rely on: substring membership (`sub in s`), `s.split(sep)`,
 * `s.rsplit(c, 1)[-1]`, `s.splitlines()`, `sep.join(parts)` and `"".join(parts)`.
 * Strings are sequences of Unicode scalar values, as Python `str` values are.
 */
module Text {

  /** `sub` starts at index `i` of `s`. */
  predicate OccursAt(s: string, sub: string, i: nat) {
    i + |sub| <= |s| && s[i..i + |sub|] == sub
  }

  /** Python `sub in s`: `sub` occurs as a contiguous piece of `s` (the empty string occurs in every string). */
  function Contains(s: string, sub: string): bool
    decreases |s|
  {
    if |s| < |sub| then false
    else s[..|sub|] == sub || Contains(s[1..], sub)
  }

  /** `Contains` agrees with the reference definition: some index where `sub` occurs. */
  lemma {:induction false} ContainsIff(s: string, sub: string)
    ensures Contains(s, sub) <==> exists i: nat :: OccursAt(s, sub, i)
    decreases |s|
  {
    if |s| >= |sub| {
      if s[..|sub|] == sub {
        assert OccursAt(s, sub, 0);
      } else {
        ContainsIff(s[1..], sub);
        if Contains(s, sub) {
          var i: nat :| OccursAt(s[1..], sub, i);
          assert s[1..][i..i + |sub|] == s[i + 1..i + 1 + |sub|];
          assert OccursAt(s, sub, i + 1);
        }
        if exists i: nat :: OccursAt(s, sub, i) {
          var i: nat :| OccursAt(s, sub, i);
          assert i > 0;
          assert s[1..][i - 1..i - 1 + |sub|] == s[i..i + |sub|];
          assert OccursAt(s[1..], sub, i - 1);
        }
      }
    } else {
      forall i: nat ensures !OccursAt(s, sub, i) { }
    }
  }

  /** Python `s.find(sep)` for a non-empty separator, except that "not found" is `|s|` rather than -1. */
  function FirstCut(s: string, sep: string): (k: nat)
    requires sep != []
    ensures k <= |s|
    decreases |s|
  {
    if |s| < |sep| then |s|
    else if s[..|sep|] == sep then 0
    else 1 + FirstCut(s[1..], sep)
  }

  /** An occurrence past index 0 of `s` is an occurrence one index earlier in `s[1..]`, and conversely. */
  lemma OccursAtTail(s: string, sub: string, i: nat)
    requires 0 < i && s != []
    ensures OccursAt(s, sub, i) <==> OccursAt(s[1..], sub, i - 1)
  {
    if i + |sub| <= |s| {
      var here, there := s[i..i + |sub|], s[1..][i - 1..i - 1 + |sub|];
      assert forall j :: 0 <= j < |sub| ==> here[j] == there[j];
      assert here == there;
    }
  }

  /** A string shorter than `sub` holds no occurrence of it. */
  lemma TooShort(s: string, sub: string)
    requires |s| < |sub|
    ensures forall i: nat :: !OccursAt(s, sub, i)
  {
  }

  /** `FirstCut` is the leftmost occurrence of `sep`, and `|s|` exactly when `sep` does not occur. */
  lemma {:induction false} FirstCutSpec(s: string, sep: string)
    requires sep != []
    ensures FirstCut(s, sep) < |s| ==> OccursAt(s, sep, FirstCut(s, sep))
    ensures forall i: nat :: i < FirstCut(s, sep) ==> !OccursAt(s, sep, i)
    ensures FirstCut(s, sep) == |s| ==> forall i: nat :: !OccursAt(s, sep, i)
    decreases |s|
  {
    if |s| < |sep| {
      TooShort(s, sep);
    } else if s[..|sep|] != sep {
      var t := s[1..];
      FirstCutSpec(t, sep);
      var k := FirstCut(t, sep);
      assert FirstCut(s, sep) == k + 1;
      assert !OccursAt(s, sep, 0);
      forall i: nat | 0 < i ensures OccursAt(s, sep, i) <==> OccursAt(t, sep, i - 1) {
        OccursAtTail(s, sep, i);
      }
    }
  }

  /**
   * Python `s.split(sep)` for a non-empty separator: the piece before the leftmost
   * occurrence, then the pieces of what follows that occurrence; a string in which
   * `sep` does not occur is one piece.
   */
  function Split(s: string, sep: string): (parts: seq<string>)
    requires sep != []
    ensures |parts| >= 1
    decreases |s|
  {
    var k := FirstCut(s, sep);
    if k == |s| then [s]
    else
      FirstCutSpec(s, sep);
      [s[..k]] + Split(s[k + |sep|..], sep)
  }

  /** Python `sep.join(parts)`. */
  function Join(parts: seq<string>, sep: string): string
    decreases |parts|
  {
    if parts == [] then ""
    else if |parts| == 1 then parts[0]
    else parts[0] + sep + Join(parts[1..], sep)
  }

  lemma JoinCons(x: string, rest: seq<string>, sep: string)
    requires rest != []
    ensures Join([x] + rest, sep) == x + sep + Join(rest, sep)
  {
    assert ([x] + rest)[1..] == rest;
  }

  /** A split with more than one piece: the piece before the first occurrence, then the pieces after it. */
  lemma SplitCut(s: string, sep: string)
    requires sep != [] && FirstCut(s, sep) < |s|
    ensures var k := FirstCut(s, sep);
            && k + |sep| <= |s| && s == s[..k] + sep + s[k + |sep|..]
            && Split(s, sep) == [s[..k]] + Split(s[k + |sep|..], sep)
  {
    FirstCutSpec(s, sep);
    var k := FirstCut(s, sep);
    ThreeParts(s, k, k + |sep|);
  }

  lemma AppendAssoc(x: string, y: string, z: string)
    ensures (x + y) + z == x + (y + z)
  {
  }

  lemma ThreeParts(s: string, a: nat, b: nat)
    requires a <= b <= |s|
    ensures s == s[..a] + s[a..b] + s[b..]
  {
  }

  /** Joining the pieces of a split with the same separator gives back the original string. */
  lemma {:induction false} SplitJoin(s: string, sep: string)
    requires sep != []
    ensures Join(Split(s, sep), sep) == s
    decreases |s|
  {
    var k := FirstCut(s, sep);
    if k < |s| {
      SplitCut(s, sep);
      var after := s[k + |sep|..];
      SplitJoin(after, sep);
      JoinCons(s[..k], Split(after, sep), sep);
    }
  }

  /** An occurrence in a prefix is an occurrence in the whole string that starts inside the prefix. */
  lemma OccursAtPrefix(s: string, k: nat, sep: string, i: nat)
    requires k <= |s| && sep != []
    ensures OccursAt(s[..k], sep, i) ==> OccursAt(s, sep, i) && i < k
  {
    if OccursAt(s[..k], sep, i) {
      assert s[i..i + |sep|] == s[..k][i..i + |sep|];
    }
  }

  /** No piece of a split contains the separator. */
  lemma {:induction false} SplitPartsFree(s: string, sep: string)
    requires sep != []
    ensures forall i :: 0 <= i < |Split(s, sep)| ==> !Contains(Split(s, sep)[i], sep)
    decreases |s|
  {
    var k := FirstCut(s, sep);
    FirstCutSpec(s, sep);
    var first := s[..k];
    forall i: nat ensures !OccursAt(first, sep, i) {
      OccursAtPrefix(s, k, sep, i);
    }
    ContainsIff(first, sep);
    if k < |s| {
      var after := s[k + |sep|..];
      SplitPartsFree(after, sep);
      var p := [first] + Split(after, sep);
      forall i | 0 <= i < |p| ensures !Contains(p[i], sep) {
        if i > 0 { assert p[i] == Split(after, sep)[i - 1]; }
      }
    } else {
      assert s[..k] == s;
    }
  }

  /** A string splits into more than one piece exactly when it contains the separator. */
  lemma SplitSingleIff(s: string, sep: string)
    requires sep != []
    ensures |Split(s, sep)| == 1 <==> !Contains(s, sep)
    ensures !Contains(s, sep) ==> Split(s, sep) == [s]
  {
    FirstCutSpec(s, sep);
    ContainsIff(s, sep);
  }

  /** The leftmost cut in action: a run of three ':' splits on "::" after the first ':'. */
  lemma SplitExample()
    ensures Split("a:::b", "::") == ["a", ":b"]
  {
    assert "a:::b"[..2] != "::" by { assert "a:::b"[0] == 'a'; }
    assert "a:::b"[1..] == ":::b";
    assert ":::b"[..2] == "::";
    assert FirstCut("a:::b", "::") == 1;
    assert "a:::b"[3..] == ":b";
    assert ":b"[..2] != "::" by { assert ":b"[1] == 'b'; }
    assert ":b"[1..] == "b";
    assert FirstCut(":b", "::") == 2;
    assert Split(":b", "::") == [":b"];
    SplitCut("a:::b", "::");
    assert "a:::b"[..1] == "a";
  }

  /** Python `s.rfind(c)`: the index of the last `c` in `s`, or -1 when there is none. */
  function LastIndexOf(s: string, c: char): (k: int)
    ensures -1 <= k < |s|
    decreases |s|
  {
    if s == [] then -1
    else if s[|s| - 1] == c then |s| - 1
    else LastIndexOf(s[..|s| - 1], c)
  }

  /** `LastIndexOf` finds a `c`, and no `c` follows it; -1 means `s` holds no `c`. */
  lemma {:induction false} LastIndexOfSpec(s: string, c: char)
    ensures LastIndexOf(s, c) >= 0 ==> s[LastIndexOf(s, c)] == c
    ensures forall j :: LastIndexOf(s, c) < j < |s| ==> s[j] != c
    decreases |s|
  {
    if s != [] && s[|s| - 1] != c {
      var init := s[..|s| - 1];
      LastIndexOfSpec(init, c);
      assert forall j :: 0 <= j < |init| ==> init[j] == s[j];
    }
  }

  /** Python `s.rsplit(c, 1)[-1]`: everything after the last `c`, or all of `s` when it has none. */
  function AfterLast(s: string, c: char): string {
    s[LastIndexOf(s, c) + 1..]
  }

  /** A suffix whose characters all differ from `c` does not hold `c`. */
  lemma SuffixFree(s: string, from: nat, c: char)
    requires from <= |s|
    requires forall j :: from <= j < |s| ==> s[j] != c
    ensures c !in s[from..]
  {
    var after := s[from..];
    forall j | 0 <= j < |after| ensures after[j] != c {
      assert after[j] == s[from + j];
    }
  }

  lemma AfterLastSuffix(s: string, c: char)
    ensures |AfterLast(s, c)| <= |s| && AfterLast(s, c) == s[|s| - |AfterLast(s, c)|..]
  {
    var k := LastIndexOf(s, c);
    assert |s| - |s[k + 1..]| == k + 1;
  }

  lemma AfterLastFree(s: string, c: char)
    ensures c !in AfterLast(s, c)
  {
    LastIndexOfSpec(s, c);
    SuffixFree(s, LastIndexOf(s, c) + 1, c);
  }

  lemma AfterLastCut(s: string, c: char)
    ensures |AfterLast(s, c)| == |s| || s[|s| - |AfterLast(s, c)| - 1] == c
  {
    LastIndexOfSpec(s, c);
    var k := LastIndexOf(s, c);
    assert |s| - |s[k + 1..]| - 1 == k;
  }

  lemma AfterLastWhole(s: string, c: char)
    ensures c !in s ==> AfterLast(s, c) == s
  {
    LastIndexOfSpec(s, c);
    var k := LastIndexOf(s, c);
    assert k >= 0 ==> s[k] == c;
    assert k == -1 ==> s[k + 1..] == s;
  }

  /** The result is a suffix of `s` holding no `c`; either it is all of `s` or a `c` stands just before it. */
  lemma AfterLastSpec(s: string, c: char)
    ensures |AfterLast(s, c)| <= |s| && AfterLast(s, c) == s[|s| - |AfterLast(s, c)|..]
    ensures c !in AfterLast(s, c)
    ensures |AfterLast(s, c)| == |s| || s[|s| - |AfterLast(s, c)| - 1] == c
    ensures c !in s ==> AfterLast(s, c) == s
  {
    AfterLastSuffix(s, c);
    AfterLastFree(s, c);
    AfterLastCut(s, c);
    AfterLastWhole(s, c);
  }

  /** The characters Python's `str.splitlines` treats as line boundaries. */
  predicate IsLineBoundary(ch: char) {
    ch == '\n' || ch == '\r' || ch == '\U{0B}' || ch == '\U{0C}' || ch == '\U{1C}' || ch == '\U{1D}'
    || ch == '\U{1E}' || ch == '\U{85}' || ch == '\U{2028}' || ch == '\U{2029}'
  }

  predicate NoLineBoundary(s: string) {
    forall i :: 0 <= i < |s| ==> !IsLineBoundary(s[i])
  }

  predicate AllNoLineBoundary(lines: seq<string>) {
    forall i :: 0 <= i < |lines| ==> NoLineBoundary(lines[i])
  }

  /** No key and no value of a list of (key, value) pairs holds a line boundary. */
  predicate PairsFree(d: seq<(string, string)>) {
    forall i :: 0 <= i < |d| ==> NoLineBoundary(d[i].0) && NoLineBoundary(d[i].1)
  }

  /** The index of the first line boundary of `s`, or `|s|` when there is none. */
  function LineEnd(s: string): (n: nat)
    ensures n <= |s|
    ensures NoLineBoundary(s[..n])
    ensures n < |s| ==> IsLineBoundary(s[n])
    decreases |s|
  {
    if s == [] then 0
    else if IsLineBoundary(s[0]) then 0
    else
      var n := 1 + LineEnd(s[1..]);
      assert s[..n] == [s[0]] + s[1..][..n - 1];
      n
  }

  /**
   * Python `s.splitlines()`: the pieces between line boundaries, where "\r\n"
   * counts as one boundary and a boundary at the very end opens no empty line.
   */
  function SplitLines(s: string): (lines: seq<string>)
    ensures AllNoLineBoundary(lines)
    decreases |s|
  {
    if s == [] then []
    else
      var n := LineEnd(s);
      if n == |s| then
        assert s[..n] == s;
        [s]
      else
        [s[..n]] + SplitLines(s[n + BoundaryWidth(s, n)..])
  }

  /** The width of the line boundary at index `n`: "\r\n" counts as one boundary of width 2. */
  function BoundaryWidth(s: string, n: nat): nat
    requires n < |s|
  {
    if s[n] == '\r' && n + 1 < |s| && s[n + 1] == '\n' then 2 else 1
  }

  /**
   * The first line is the longest prefix without a line boundary. It is the only
   * line when it is all of `s`; otherwise the remaining lines are those of what
   * follows its boundary, so a boundary at the very end opens no further line.
   */
  lemma SplitLinesFirst(s: string)
    ensures SplitLines(s) == [] <==> s == []
    ensures s != [] ==>
      var lines := SplitLines(s);
      var first := lines[0];
      && |first| <= |s| && first == s[..|first|] && NoLineBoundary(first)
      && (|first| == |s| ==> lines == [s])
      && (|first| < |s| ==>
            IsLineBoundary(s[|first|]) && lines[1..] == SplitLines(s[|first| + BoundaryWidth(s, |first|)..]))
  {
    if s != [] {
      var n := LineEnd(s);
      if n < |s| {
        var rest := SplitLines(s[n + BoundaryWidth(s, n)..]);
        assert SplitLines(s) == [s[..n]] + rest;
        assert ([s[..n]] + rest)[1..] == rest;
      }
    }
  }

  /** Python's `splitlines` treats "\r\n" as one boundary. */
  lemma SplitLinesCrLf()
    ensures SplitLines("a\r\nb") == ["a", "b"]
  {
    assert LineEnd("b") == 1 && SplitLines("b") == ["b"];
    assert LineEnd("a\r\nb") == 1 && BoundaryWidth("a\r\nb", 1) == 2;
    assert "a\r\nb"[..1] == "a" && "a\r\nb"[3..] == "b";
  }

  /** Python's `splitlines` keeps the empty line between two boundaries. */
  lemma SplitLinesEmptyLine()
    ensures SplitLines("x\n\ny") == ["x", "", "y"]
  {
    assert LineEnd("y") == 1 && SplitLines("y") == ["y"];
    assert "" + "\n" + "y" == "\ny";
    SplitLinesLine("", "y");
    assert "x" + "\n" + "\ny" == "x\n\ny";
    SplitLinesLine("x", "\ny");
  }

  /** Python's `splitlines`: a lone "\r" is a boundary of its own, and the final boundary opens no line. */
  lemma SplitLinesTrailing()
    ensures SplitLines("a\r\r\n") == ["a", ""]
  {
    assert LineEnd("\r\n") == 0 && BoundaryWidth("\r\n", 0) == 2;
    assert "\r\n"[..0] == "" && "\r\n"[2..] == "";
    assert SplitLines("\r\n") == [""];
    assert LineEnd("a\r\r\n") == 1 && BoundaryWidth("a\r\r\n", 1) == 1;
    assert "a\r\r\n"[..1] == "a" && "a\r\r\n"[2..] == "\r\n";
  }

  /** Each line followed by "\n", concatenated: the text a loop of `out += line + "\n"` builds. */
  function Unlines(lines: seq<string>): string
    decreases |lines|
  {
    if lines == [] then "" else lines[0] + "\n" + Unlines(lines[1..])
  }

  lemma {:induction false} UnlinesAppend(lines: seq<string>, x: string)
    ensures Unlines(lines + [x]) == Unlines(lines) + x + "\n"
    decreases |lines|
  {
    if lines == [] {
      assert lines + [x] == [x];
    } else {
      assert (lines + [x])[1..] == lines[1..] + [x];
      UnlinesAppend(lines[1..], x);
    }
  }

  /** A boundary-free line followed by "\n" is the first line, and the rest are the lines after it. */
  lemma SplitLinesLine(l: string, rest: string)
    requires NoLineBoundary(l)
    ensures SplitLines(l + "\n" + rest) == [l] + SplitLines(rest)
  {
    var s := l + "\n" + rest;
    assert s[|l|] == '\n';
    assert forall i :: 0 <= i < |l| ==> s[i] == l[i];
    assert LineEnd(s) == |l|;
    assert s[..|l|] == l;
    assert BoundaryWidth(s, |l|) == 1;
    assert s[|l| + 1..] == rest;
  }

  /** Splitting the lines back out of `Unlines` gives the lines, as long as none holds a line boundary. */
  lemma {:induction false} SplitLinesUnlines(lines: seq<string>)
    requires AllNoLineBoundary(lines)
    ensures SplitLines(Unlines(lines)) == lines
    decreases |lines|
  {
    if lines != [] {
      SplitLinesLine(lines[0], Unlines(lines[1..]));
      SplitLinesUnlines(lines[1..]);
    }
  }

  /** Python `"".join(parts)`. */
  function Concat(parts: seq<string>): string
    decreases |parts|
  {
    if parts == [] then "" else parts[0] + Concat(parts[1..])
  }

  lemma {:induction false} ConcatAppend(parts: seq<string>, x: string)
    ensures Concat(parts + [x]) == Concat(parts) + x
    decreases |parts|
  {
    if parts == [] {
      assert parts + [x] == [x];
    } else {
      assert (parts + [x])[1..] == parts[1..] + [x];
      ConcatAppend(parts[1..], x);
    }
  }

  lemma JoinAppend(parts: seq<string>, x: string, sep: string)
    requires parts != []
    ensures Join(parts + [x], sep) == Join(parts, sep) + sep + x
    decreases |parts|
  {
    if |parts| == 1 {
      assert (parts + [x])[1..] == [x];
    } else {
      assert (parts + [x])[1..] == parts[1..] + [x];
      JoinAppend(parts[1..], x, sep);
    }
  }
}
