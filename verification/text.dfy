/** The small part of Python's `str` that the normaliser and the classifiers
    rely on: the `isspace` character set, `strip`/`lstrip`/`rstrip`,
    `split("\n")`/`"\n".join`, `startswith`/`endswith`/`in`, and `lower`
    (restricted to ASCII). */
module Text {

  /** Python's whitespace set: the characters for which `str.isspace` holds
      and which `str.strip()` with no argument removes. */
  predicate IsSpace(c: char) {
    || ('\U{0009}' <= c && c <= '\U{000D}')
    || ('\U{001C}' <= c && c <= '\U{0020}')
    || c == '\U{0085}' || c == '\U{00A0}' || c == '\U{1680}'
    || ('\U{2000}' <= c && c <= '\U{200A}')
    || c == '\U{2028}' || c == '\U{2029}' || c == '\U{202F}'
    || c == '\U{205F}' || c == '\U{3000}'
  }

  /** `not s.strip()`: the string is empty or made of whitespace only. */
  predicate IsBlank(s: string) {
    forall i :: 0 <= i < |s| ==> IsSpace(s[i])
  }

  /** A string with no trailing whitespace. */
  predicate Tidy(s: string) {
    |s| == 0 || !IsSpace(s[|s| - 1])
  }

  predicate NoNewline(s: string) {
    '\n' !in s
  }

  /** `s.rstrip()`: the longest prefix that does not end in whitespace. */
  function RStrip(s: string): (r: string)
    ensures |r| <= |s| && r == s[..|r|]
    ensures IsBlank(s[|r|..])
    ensures Tidy(r)
  {
    if |s| == 0 then s
    else if IsSpace(s[|s| - 1]) then
      var r := RStrip(s[..|s| - 1]);
      assert s[|r|..] == s[..|s| - 1][|r|..] + [s[|s| - 1]];
      r
    else s
  }

  /** `s.lstrip()`: the longest suffix that does not start with whitespace. */
  function LStrip(s: string): (r: string)
    ensures |r| <= |s| && r == s[|s| - |r|..]
    ensures IsBlank(s[..|s| - |r|])
    ensures |r| == 0 || !IsSpace(r[0])
  {
    if |s| == 0 then s
    else if IsSpace(s[0]) then
      var r := LStrip(s[1..]);
      assert s[..|s| - |r|] == [s[0]] + s[1..][..|s[1..]| - |r|];
      r
    else s
  }

  /** `r` is a slice of `s` with nothing but whitespace on either side. */
  predicate Trims(s: string, r: string) {
    exists i :: 0 <= i <= |s| - |r| && s[i..i + |r|] == r
                && IsBlank(s[..i]) && IsBlank(s[i + |r|..])
  }

  /** `s.strip()`: whitespace removed from both ends. */
  function Strip(s: string): (r: string)
    ensures Trims(s, r)
    ensures |r| == 0 || (!IsSpace(r[0]) && !IsSpace(r[|r| - 1]))
  {
    var t := RStrip(s);
    var r := LStrip(t);
    CutBothEnds(s, t, r);
    r
  }

  /** Cutting a blank tail and then a blank head leaves a middle slice whose
      two sides are blank. */
  lemma CutBothEnds(s: string, t: string, r: string)
    requires |t| <= |s| && t == s[..|t|] && IsBlank(s[|t|..]) && Tidy(t)
    requires |r| <= |t| && r == t[|t| - |r|..] && IsBlank(t[..|t| - |r|])
    requires |r| == 0 || !IsSpace(r[0])
    ensures Trims(s, r)
    ensures |r| == 0 || (!IsSpace(r[0]) && !IsSpace(r[|r| - 1]))
  {
    var i := |t| - |r|;
    assert i + |r| == |t|;
    assert s[i..i + |r|] == r by {
      assert s[i..|t|] == t[i..];
    }
    assert IsBlank(s[..i]) by {
      forall k | 0 <= k < i ensures IsSpace(s[..i][k]) {
        assert s[..i][k] == t[..i][k];
      }
    }
    assert IsBlank(s[i + |r|..]);
    if |r| > 0 {
      assert r[|r| - 1] == t[|t| - 1];
    }
  }

  lemma RStripOfTidy(s: string)
    requires Tidy(s)
    ensures RStrip(s) == s
  {}

  lemma LStripOfBlank(s: string)
    requires IsBlank(s)
    ensures LStrip(s) == ""
  {}

  lemma BlankRStrip(s: string)
    ensures IsBlank(RStrip(s)) <==> IsBlank(s)
    ensures IsBlank(s) ==> RStrip(s) == ""
  {
    var r := RStrip(s);
    assert s == r + s[|r|..];
  }

  /** Blank text in front of `b` is all that `lstrip` removes from it. */
  lemma {:induction false} LStripBlankPrefix(a: string, b: string)
    requires IsBlank(a)
    ensures LStrip(a + b) == LStrip(b)
    decreases |a|
  {
    if |a| > 0 {
      assert (a + b)[1..] == a[1..] + b;
      LStripBlankPrefix(a[1..], b);
    } else {
      assert a + b == b;
    }
  }

  /** `lstrip` stops inside a prefix that holds a non-space character. */
  lemma {:induction false} LStripNonBlankPrefix(a: string, b: string)
    requires !IsBlank(a)
    ensures LStrip(a + b) == LStrip(a) + b
    decreases |a|
  {
    assert |a| > 0;
    if IsSpace(a[0]) {
      assert (a + b)[1..] == a[1..] + b;
      LStripNonBlankPrefix(a[1..], b);
    }
  }

  /** Blank text after `a` is all that `rstrip` removes from it. */
  lemma {:induction false} RStripBlankSuffix(a: string, b: string)
    requires IsBlank(b)
    ensures RStrip(a + b) == RStrip(a)
    decreases |b|
  {
    if |b| > 0 {
      assert (a + b)[..|a + b| - 1] == a + b[..|b| - 1];
      RStripBlankSuffix(a, b[..|b| - 1]);
    } else {
      assert a + b == a;
    }
  }

  lemma LStripKeepsTidy(s: string)
    requires Tidy(s)
    ensures Tidy(LStrip(s))
  {}

  lemma LStripNonBlank(s: string)
    requires !IsBlank(s)
    ensures !IsBlank(LStrip(s))
  {
    var r := LStrip(s);
    assert s == s[..|s| - |r|] + r;
  }

  // ---- split("\n") and "\n".join -------------------------------------------

  /** `"\n".join(lines)`. */
  function Join(lines: seq<string>): string
  {
    if |lines| == 0 then ""
    else if |lines| == 1 then lines[0]
    else lines[0] + "\n" + Join(lines[1..])
  }

  /** `s.split("\n")`: always at least one piece, none holding a newline, and
      joining the pieces gives `s` back. */
  function Split(s: string): (r: seq<string>)
    ensures |r| >= 1
    ensures forall i :: 0 <= i < |r| ==> NoNewline(r[i])
    ensures Join(r) == s
  {
    if |s| == 0 then [""]
    else
      var rest := Split(s[1..]);
      if s[0] == '\n' then
        assert s == "\n" + s[1..];
        [""] + rest
      else
        var r := [[s[0]] + rest[0]] + rest[1..];
        assert r[1..] == rest[1..];
        assert s == [s[0]] + s[1..];
        r
  }

  lemma {:induction false} JoinSnoc(lines: seq<string>, x: string)
    requires |lines| >= 1
    ensures Join(lines + [x]) == Join(lines) + "\n" + x
    decreases |lines|
  {
    var ys := lines + [x];
    assert ys[0] == lines[0];
    if |lines| == 1 {
      assert ys[1..] == [x];
    } else {
      assert ys[1..] == lines[1..] + [x];
      JoinSnoc(lines[1..], x);
    }
  }

  lemma {:induction false} SplitNewlineFree(a: string)
    requires NoNewline(a)
    ensures Split(a) == [a]
    decreases |a|
  {
    if |a| > 0 {
      SplitNewlineFree(a[1..]);
      assert [a[0]] + a[1..] == a;
    }
  }

  lemma {:induction false} SplitCons(a: string, b: string)
    requires NoNewline(a)
    ensures Split(a + "\n" + b) == [a] + Split(b)
    decreases |a|
  {
    var s := a + "\n" + b;
    if |a| == 0 {
      assert s[1..] == b;
    } else {
      assert s[1..] == a[1..] + "\n" + b;
      SplitCons(a[1..], b);
      assert [a[0]] + a[1..] == a;
    }
  }

  /** Splitting undoes joining whenever no piece holds a newline. */
  lemma {:induction false} SplitJoin(lines: seq<string>)
    requires |lines| >= 1
    requires forall i :: 0 <= i < |lines| ==> NoNewline(lines[i])
    ensures Split(Join(lines)) == lines
    decreases |lines|
  {
    if |lines| == 1 {
      SplitNewlineFree(lines[0]);
    } else {
      SplitCons(lines[0], Join(lines[1..]));
      SplitJoin(lines[1..]);
    }
  }

  // ---- prefix / suffix / substring tests ----------------------------------

  /** `s.startswith(p)`. */
  predicate StartsWith(s: string, p: string) {
    |p| <= |s| && s[..|p|] == p
  }

  /** `s.endswith(p)`. */
  predicate EndsWith(s: string, p: string) {
    |p| <= |s| && s[|s| - |p|..] == p
  }

  /** `p in s` for strings. */
  predicate Contains(s: string, p: string) {
    exists i :: 0 <= i <= |s| - |p| && OccursAt(s, p, i)
  }

  /** `p` occurs in `s` starting at index `i`. */
  predicate OccursAt(s: string, p: string, i: int) {
    0 <= i <= |s| - |p| && s[i..i + |p|] == p
  }

  /** A substring of a substring is a substring. */
  lemma ContainsTransitive(s: string, p: string, q: string)
    requires Contains(s, p) && Contains(p, q)
    ensures Contains(s, q)
  {
    var i :| 0 <= i <= |s| - |p| && OccursAt(s, p, i);
    var j :| 0 <= j <= |p| - |q| && OccursAt(p, q, j);
    assert s[i..i + |p|] == p;
    assert p[j..j + |q|] == q;
    forall k | 0 <= k < |q|
      ensures s[i + j + k] == q[k]
    {
      assert q[k] == p[j + k] == s[i + j + k];
    }
    assert s[i + j..i + j + |q|] == q;
    assert OccursAt(s, q, i + j);
  }

  // ---- lower-casing --------------------------------------------------------

  predicate IsUpper(c: char) {
    'A' <= c <= 'Z'
  }

  function LowerChar(c: char): char {
    if IsUpper(c) then (c as int + 32) as char else c
  }

  /** `s.lower()` on the ASCII letters: the result has no upper-case letter
      left, each upper-case letter becomes its lower-case partner (the code
      32 places further on, `'A'` to `'a'`), and every other character is
      kept where it was. */
  function Lower(s: string): (r: string)
    ensures |r| == |s|
    ensures forall i :: 0 <= i < |r| ==> !IsUpper(r[i])
    ensures forall i :: 0 <= i < |s| && !IsUpper(s[i]) ==> r[i] == s[i]
    ensures forall i :: 0 <= i < |s| && IsUpper(s[i]) ==> r[i] as int == s[i] as int + 32 && 'a' <= r[i] <= 'z'
  {
    seq(|s|, i requires 0 <= i < |s| => LowerChar(s[i]))
  }

  /** Lower-casing twice is lower-casing once, and text without upper-case
      letters is its own lower-case form. */
  lemma LowerIdempotent(s: string)
    ensures Lower(Lower(s)) == Lower(s)
    ensures (forall i :: 0 <= i < |s| ==> !IsUpper(s[i])) ==> Lower(s) == s
  {
  }
}
