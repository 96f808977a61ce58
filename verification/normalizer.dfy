/** The whitespace clean-up pass that `html_to_markdown` applies to the
    converter's output: split into lines, drop every blank line that follows
    a blank line, right-trim the kept lines, join, strip the whole text and
    end it with one newline. */
module Normalizer {
  import opened Text

  // ---- line-sequence predicates -------------------------------------------

  predicate AllTidy(lines: seq<string>) {
    forall i :: 0 <= i < |lines| ==> Tidy(lines[i])
  }

  predicate AllNewlineFree(lines: seq<string>) {
    forall i :: 0 <= i < |lines| ==> NoNewline(lines[i])
  }

  /** No two neighbouring lines are both empty. */
  predicate NoDoubleBlank(lines: seq<string>) {
    forall i :: 0 <= i < |lines| - 1 ==> !(lines[i] == "" && lines[i + 1] == "")
  }

  /** Lines as the clean-up loop leaves them: single lines (no newline
      inside), no trailing whitespace, blank lines already emptied and never
      two in a row. */
  predicate CleanLines(lines: seq<string>) {
    AllNewlineFree(lines) && AllTidy(lines) && NoDoubleBlank(lines)
  }

  /** The lines of a normalised text before its final newline: clean lines
      that start with a non-blank line whose first character is not
      whitespace and end with a non-blank line. */
  predicate BodyShape(lines: seq<string>) {
    && CleanLines(lines)
    && (|lines| > 0 ==>
          && !IsBlank(lines[0]) && !IsSpace(lines[0][0])
          && !IsBlank(lines[|lines| - 1]))
  }

  lemma BlankTidyIsEmpty(s: string)
    requires IsBlank(s) && Tidy(s)
    ensures s == ""
  {}

  lemma CleanLinesSlice(lines: seq<string>, a: int, b: int)
    requires CleanLines(lines) && 0 <= a <= b <= |lines|
    ensures CleanLines(lines[a..b])
  {
    var t := lines[a..b];
    assert forall i :: 0 <= i < |t| ==> t[i] == lines[a + i];
  }

  // ---- the clean-up loop --------------------------------------------------

  /** In newline-free lines, the lines before the last are newline-free and
      so is the last one right-trimmed. */
  lemma CollapseStepNewlineFree(lines: seq<string>)
    requires |lines| > 0
    ensures AllNewlineFree(lines) ==>
      AllNewlineFree(lines[..|lines| - 1]) && NoNewline(RStrip(lines[|lines| - 1]))
  {
    if AllNewlineFree(lines) {
      var last := lines[|lines| - 1];
      assert NoNewline(last);
      assert RStrip(last) == last[..|RStrip(last)|];
    }
  }

  /** Appending a tidy line keeps the collapse invariants, provided it is
      not a second empty line in a row. */
  lemma AppendKept(init: seq<string>, kept: string)
    requires AllTidy(init) && NoDoubleBlank(init) && Tidy(kept)
    requires |init| > 0 && init[|init| - 1] == "" ==> kept != ""
    ensures AllTidy(init + [kept]) && NoDoubleBlank(init + [kept])
    ensures AllNewlineFree(init) && NoNewline(kept) ==> AllNewlineFree(init + [kept])
  {
    var r := init + [kept];
    assert forall i :: 0 <= i < |init| ==> r[i] == init[i];
  }

  /** Closed form of the `prev_empty` loop in `html_to_markdown`: line `i`
      is kept, right-trimmed, unless it is blank and line `i - 1` was blank
      too. The loop's flag only changes on a kept line, and a skipped line is
      blank, so the flag always records whether the previous INPUT line was
      blank. */
  function Collapse(lines: seq<string>): (r: seq<string>)
    ensures |r| <= |lines|
    ensures AllTidy(r) && NoDoubleBlank(r)
    ensures AllNewlineFree(lines) ==> AllNewlineFree(r)
    ensures |lines| > 0 ==> |r| > 0 && (r[|r| - 1] == "" <==> IsBlank(lines[|lines| - 1]))
    decreases |lines|
  {
    if |lines| == 0 then []
    else
      var init := Collapse(lines[..|lines| - 1]);
      var last := lines[|lines| - 1];
      if IsBlank(last) && |lines| >= 2 && IsBlank(lines[|lines| - 2]) then
        init
      else
        var kept := RStrip(last);
        BlankRStrip(last);
        CollapseStepNewlineFree(lines);
        assert |init| > 0 && init[|init| - 1] == "" ==> kept != "";
        AppendKept(init, kept);
        init + [kept]
  }

  /** One more input line either is dropped or adds its right-trimmed
      self to the collapsed prefix. */
  lemma CollapsePrefixStep(lines: seq<string>, i: nat)
    requires i < |lines|
    ensures IsBlank(lines[i]) && i > 0 && IsBlank(lines[i - 1]) ==>
      Collapse(lines[..i + 1]) == Collapse(lines[..i])
    ensures !(IsBlank(lines[i]) && i > 0 && IsBlank(lines[i - 1])) ==>
      Collapse(lines[..i + 1]) == Collapse(lines[..i]) + [RStrip(lines[i])]
  {
    assert lines[..i + 1][..i] == lines[..i];
  }

  /** The loop as the source writes it, with its `prev_empty` flag; it
      computes exactly the closed form above. */
  method CollapseLoop(lines: seq<string>) returns (cleaned: seq<string>)
    ensures cleaned == Collapse(lines)
    ensures |lines| > 0 ==> |cleaned| > 0
    ensures AllTidy(cleaned) && NoDoubleBlank(cleaned)
  {
    cleaned := [];
    var prevEmpty := false;
    for i := 0 to |lines|
      invariant cleaned == Collapse(lines[..i])
      invariant prevEmpty <==> (i > 0 && IsBlank(lines[i - 1]))
    {
      CollapsePrefixStep(lines, i);
      var line := lines[i];
      var isEmpty := IsBlank(line);
      if isEmpty && prevEmpty {
        continue;
      }
      cleaned := cleaned + [RStrip(line)];
      prevEmpty := isEmpty;
    }
    assert lines[..|lines|] == lines;
  }

  // ---- stripping the joined text ------------------------------------------

  function DropLeadingBlank(lines: seq<string>): (r: seq<string>)
    ensures |r| <= |lines| && r == lines[|lines| - |r|..]
    ensures forall i :: 0 <= i < |lines| - |r| ==> IsBlank(lines[i])
    ensures |r| == 0 || !IsBlank(r[0])
  {
    if |lines| > 0 && IsBlank(lines[0]) then DropLeadingBlank(lines[1..]) else lines
  }

  function DropTrailingBlank(lines: seq<string>): (r: seq<string>)
    ensures |r| <= |lines| && r == lines[..|r|]
    ensures forall i :: |r| <= i < |lines| ==> IsBlank(lines[i])
    ensures |r| == 0 || !IsBlank(r[|r| - 1])
  {
    if |lines| > 0 && IsBlank(lines[|lines| - 1]) then DropTrailingBlank(lines[..|lines| - 1])
    else lines
  }

  /** The list with its first line left-trimmed. */
  function LStripFirst(lines: seq<string>): seq<string> {
    if |lines| == 0 then [] else [LStrip(lines[0])] + lines[1..]
  }

  /** The lines the final `.strip()` leaves: leading and trailing blank lines
      gone, the first remaining line left-trimmed. */
  function Body(lines: seq<string>): seq<string> {
    LStripFirst(DropLeadingBlank(DropTrailingBlank(lines)))
  }

  lemma {:induction false} LStripJoin(lines: seq<string>)
    ensures LStrip(Join(lines)) == Join(LStripFirst(DropLeadingBlank(lines)))
    decreases |lines|
  {
    if |lines| == 1 {
      if IsBlank(lines[0]) {
        LStripOfBlank(lines[0]);
        assert DropLeadingBlank(lines) == DropLeadingBlank(lines[1..]);
      }
    } else if |lines| >= 2 {
      if IsBlank(lines[0]) {
        LStripJoinBlankHead(lines);
        LStripJoin(lines[1..]);
      } else {
        LStripJoinNonBlankHead(lines);
      }
    }
  }

  lemma LStripJoinBlankHead(lines: seq<string>)
    requires |lines| >= 2 && IsBlank(lines[0])
    ensures LStrip(Join(lines)) == LStrip(Join(lines[1..]))
    ensures DropLeadingBlank(lines) == DropLeadingBlank(lines[1..])
  {
    var x, rest := lines[0], Join(lines[1..]);
    assert Join(lines) == x + "\n" + rest;
    assert IsBlank(x + "\n");
    LStripBlankPrefix(x + "\n", rest);
  }

  lemma LStripJoinNonBlankHead(lines: seq<string>)
    requires |lines| >= 2 && !IsBlank(lines[0])
    ensures LStrip(Join(lines)) == Join(LStripFirst(DropLeadingBlank(lines)))
  {
    assert DropLeadingBlank(lines) == lines;
    JoinHead(lines);
    LStripNonBlankPrefix(lines[0], "\n" + Join(lines[1..]));
    JoinHead(LStripFirst(lines));
    assert LStripFirst(lines)[1..] == lines[1..];
  }

  lemma JoinHead(lines: seq<string>)
    requires |lines| >= 2
    ensures Join(lines) == lines[0] + ("\n" + Join(lines[1..]))
  {
    var x, rest := lines[0], Join(lines[1..]);
    assert x + "\n" + rest == x + ("\n" + rest);
  }

  lemma {:induction false} RStripJoin(lines: seq<string>)
    requires AllTidy(lines)
    ensures RStrip(Join(lines)) == Join(DropTrailingBlank(lines))
    decreases |lines|
  {
    var n := |lines|;
    if n > 0 {
      if IsBlank(lines[n - 1]) {
        if n >= 2 {
          assert AllTidy(lines[..n - 1]);
          RStripJoin(lines[..n - 1]);
          RStripJoinBlankLast(lines);
        } else {
          BlankTidyIsEmpty(lines[0]);
        }
      } else {
        RStripJoinTidyLast(lines);
      }
    }
  }

  /** A trailing empty line only adds a newline, which `rstrip` removes. */
  lemma RStripJoinBlankLast(lines: seq<string>)
    requires |lines| >= 2 && AllTidy(lines) && IsBlank(lines[|lines| - 1])
    requires RStrip(Join(lines[..|lines| - 1])) == Join(DropTrailingBlank(lines[..|lines| - 1]))
    ensures RStrip(Join(lines)) == Join(DropTrailingBlank(lines))
  {
    var n := |lines|;
    var init, x := lines[..n - 1], lines[n - 1];
    BlankTidyIsEmpty(x);
    LastSplit(lines);
    JoinSnoc(init, x);
    RStripBlankSuffix(Join(init), "\n");
    assert Join(lines) == Join(init) + "\n";
  }

  /** A non-blank tidy last line leaves nothing for `rstrip` to remove. */
  lemma RStripJoinTidyLast(lines: seq<string>)
    requires |lines| >= 1 && AllTidy(lines) && !IsBlank(lines[|lines| - 1])
    ensures RStrip(Join(lines)) == Join(DropTrailingBlank(lines))
  {
    TidyJoin(lines);
    RStripOfTidy(Join(lines));
  }

  /** Joined lines end as their last line does. */
  lemma TidyJoin(lines: seq<string>)
    requires |lines| >= 1 && Tidy(lines[|lines| - 1]) && !IsBlank(lines[|lines| - 1])
    ensures Tidy(Join(lines))
  {
    var n := |lines|;
    if n >= 2 {
      var init, x := lines[..n - 1], lines[n - 1];
      LastSplit(lines);
      JoinSnoc(init, x);
      TidyAppend(Join(init) + "\n", x);
    }
  }

  lemma TidyAppend(a: string, x: string)
    requires Tidy(x) && |x| > 0
    ensures Tidy(a + x)
  {
    assert (a + x)[|a + x| - 1] == x[|x| - 1];
  }

  /** The final `.strip()` of the joined lines, seen line by line. */
  lemma StripJoin(lines: seq<string>)
    requires AllTidy(lines)
    ensures Strip(Join(lines)) == Join(Body(lines))
  {
    RStripJoin(lines);
    LStripJoin(DropTrailingBlank(lines));
  }

  /** Dropping the blank lines at either end keeps the lines clean ... */
  lemma DropTrailingClean(lines: seq<string>)
    requires CleanLines(lines)
    ensures CleanLines(DropTrailingBlank(lines))
  {
    var d := DropTrailingBlank(lines);
    CleanLinesSlice(lines, 0, |d|);
    assert lines[0..|d|] == d;
  }

  lemma DropLeadingClean(lines: seq<string>)
    requires CleanLines(lines)
    ensures CleanLines(DropLeadingBlank(lines))
  {
    var d := DropLeadingBlank(lines);
    CleanLinesSlice(lines, |lines| - |d|, |lines|);
    assert lines[|lines| - |d|..|lines|] == d;
  }

  /** ... and leaves a non-blank line at each end. */
  lemma DropBlankEndsNonBlank(lines: seq<string>)
    ensures var d := DropLeadingBlank(DropTrailingBlank(lines));
            |d| > 0 ==> !IsBlank(d[0]) && !IsBlank(d[|d| - 1])
  {
    var d1 := DropTrailingBlank(lines);
    var d2 := DropLeadingBlank(d1);
    if |d2| > 0 {
      assert d2 == d1[|d1| - |d2|..];
      assert d2[|d2| - 1] == d1[|d1| - 1];
      assert !IsBlank(d1[|d1| - 1]);
    }
  }

  lemma {:induction false} BodyShaped(lines: seq<string>)
    requires CleanLines(lines)
    ensures BodyShape(Body(lines))
  {
    var d := DropLeadingBlank(DropTrailingBlank(lines));
    DropTrailingClean(lines);
    DropLeadingClean(DropTrailingBlank(lines));
    DropBlankEndsNonBlank(lines);
    if |d| > 0 {
      LStripFirstShaped(d);
    }
  }

  /** Left-trimming a tidy non-blank line keeps it a tidy, non-blank,
      newline-free line, and it then starts with a non-space. */
  lemma LStripLineShaped(x: string)
    requires NoNewline(x) && Tidy(x) && !IsBlank(x)
    ensures var y := LStrip(x);
            NoNewline(y) && Tidy(y) && !IsBlank(y) && !IsSpace(y[0])
  {
    var y := LStrip(x);
    LStripNonBlank(x);
    LStripKeepsTidy(x);
    assert y == x[|x| - |y|..];
    assert forall k :: 0 <= k < |y| ==> y[k] == x[|x| - |y| + k];
  }

  lemma ReplaceFirstLine(d: seq<string>, y: string)
    requires CleanLines(d) && |d| > 0
    requires NoNewline(y) && Tidy(y) && y != ""
    ensures CleanLines([y] + d[1..])
  {
    var t := [y] + d[1..];
    assert forall i :: 1 <= i < |t| ==> t[i] == d[i];
  }

  lemma LStripFirstShaped(d: seq<string>)
    requires CleanLines(d) && |d| > 0
    requires !IsBlank(d[0]) && !IsBlank(d[|d| - 1])
    ensures BodyShape(LStripFirst(d))
  {
    var first := LStrip(d[0]);
    LStripLineShaped(d[0]);
    ReplaceFirstLine(d, first);
    var t := LStripFirst(d);
    assert t[0] == first;
    assert t[|t| - 1] == if |t| == 1 then first else d[|d| - 1];
  }

  // ---- the normaliser -----------------------------------------------------

  /** The whole clean-up at the end of `html_to_markdown`: the normalised
      text is a single newline, or starts with a non-whitespace character
      and ends with a non-whitespace character followed by exactly one
      newline. */
  function Normalize(s: string): (r: string)
    ensures |r| >= 1 && r[|r| - 1] == '\n'
    ensures r == "\n" || (|r| >= 2 && !IsSpace(r[0]) && !IsSpace(r[|r| - 2]))
  {
    var m := Strip(Join(Collapse(Split(s))));
    NewlineAfterTrimmed(m);
    m + "\n"
  }

  /** A trimmed text followed by one newline. */
  lemma NewlineAfterTrimmed(m: string)
    requires |m| == 0 || (!IsSpace(m[0]) && !IsSpace(m[|m| - 1]))
    ensures var r := m + "\n";
            && r[|r| - 1] == '\n'
            && (r == "\n" || (|r| >= 2 && !IsSpace(r[0]) && !IsSpace(r[|r| - 2])))
  {
    if |m| == 0 {
      assert m + "\n" == "\n";
    }
  }

  /** The lines of a normalised text, its final newline not counted as
      opening a line of its own. */
  function OutputLines(r: string): seq<string>
    requires |r| >= 1
  {
    Split(r[..|r| - 1])
  }

  /** The normalised text is the body lines of the collapsed input, joined
      and closed by one newline. */
  lemma NormalizeStructure(s: string)
    ensures Normalize(s) == Join(Body(Collapse(Split(s)))) + "\n"
    ensures BodyShape(Body(Collapse(Split(s))))
  {
    var c := Collapse(Split(s));
    StripJoin(c);
    BodyShaped(c);
  }

  /** The lines of a body joined and closed by a newline are the body
      itself, or a single empty line for the empty body. */
  lemma OutputLinesOfBody(t: seq<string>)
    requires BodyShape(t)
    ensures OutputLines(Join(t) + "\n") == if |t| == 0 then [""] else t
  {
    var r := Join(t) + "\n";
    assert r[..|r| - 1] == Join(t);
    if |t| > 0 {
      SplitJoin(t);
    }
  }

  lemma OutputLinesOfNormalize(s: string)
    ensures var t := Body(Collapse(Split(s)));
            OutputLines(Normalize(s)) == if |t| == 0 then [""] else t
  {
    NormalizeStructure(s);
    OutputLinesOfBody(Body(Collapse(Split(s))));
  }

  lemma CleanOutputOfBody(t: seq<string>)
    requires BodyShape(t)
    ensures CleanLines(OutputLines(Join(t) + "\n"))
  {
    OutputLinesOfBody(t);
    if |t| == 0 {
      assert CleanLines([""]);
    }
  }

  /** No line of the output carries trailing whitespace, none holds a stray
      newline, and no two neighbouring output lines are both empty. */
  lemma NormalizedLinesClean(s: string)
    ensures CleanLines(OutputLines(Normalize(s)))
  {
    NormalizeStructure(s);
    CleanOutputOfBody(Body(Collapse(Split(s))));
  }

  // ---- idempotence --------------------------------------------------------

  lemma {:induction false} CollapseOfClean(lines: seq<string>)
    requires CleanLines(lines)
    ensures Collapse(lines) == lines
    decreases |lines|
  {
    var n := |lines|;
    if n > 0 {
      var init := lines[..n - 1];
      assert CleanLines(init);
      CollapseOfClean(init);
      RStripOfTidy(lines[n - 1]);
      assert lines == init + [lines[n - 1]];
    }
  }

  lemma NormalizeOfNewline()
    ensures Normalize("\n") == "\n"
  {
    assert "\n"[1..] == "";
    assert Split("\n") == ["", ""];
    assert ["", ""][..1] == [""];
    assert Collapse([""]) == [""];
    assert Collapse(["", ""]) == [""];
    assert Join([""]) == "";
    assert |Strip("")| == 0;
  }

  lemma SplitOfBodyText(t: seq<string>)
    requires |t| > 0 && AllNewlineFree(t)
    ensures Split(Join(t) + "\n") == t + [""]
  {
    var lines := t + [""];
    JoinSnoc(t, "");
    assert Join(t) + "\n" + "" == Join(t) + "\n";
    assert AllNewlineFree(lines);
    SplitJoin(lines);
  }

  lemma CollapseOfPadded(t: seq<string>)
    requires BodyShape(t) && |t| > 0
    ensures Collapse(t + [""]) == t + [""]
  {
    var lines := t + [""];
    assert lines[..|lines| - 1] == t;
    assert lines[|lines| - 2] == t[|t| - 1];
    CollapseOfClean(t);
  }

  lemma BodyOfPadded(t: seq<string>)
    requires BodyShape(t) && |t| > 0
    ensures Body(t + [""]) == t
  {
    var lines := t + [""];
    assert lines[..|lines| - 1] == t;
    assert DropTrailingBlank(lines) == DropTrailingBlank(t) == t;
    assert DropLeadingBlank(t) == t;
    assert LStrip(t[0]) == t[0];
    assert LStripFirst(t) == [t[0]] + t[1..] == t;
  }

  /** Normalising a normalised text changes nothing. */
  lemma NormalizeIdempotent(s: string)
    ensures Normalize(Normalize(s)) == Normalize(s)
  {
    NormalizeStructure(s);
    var t := Body(Collapse(Split(s)));
    var r := Normalize(s);
    if |t| == 0 {
      NormalizeOfNewline();
    } else {
      SplitOfBodyText(t);
      CollapseOfPadded(t);
      BodyOfPadded(t);
      NormalizeStructure(r);
    }
  }

  // ---- the non-blank lines survive in order -------------------------------

  /** The non-blank lines of a list, in order. */
  function NonBlank(lines: seq<string>): seq<string> {
    if |lines| == 0 then []
    else if IsBlank(lines[0]) then NonBlank(lines[1..])
    else [lines[0]] + NonBlank(lines[1..])
  }

  /** Every line right-trimmed. */
  function RStripAll(lines: seq<string>): seq<string> {
    if |lines| == 0 then [] else [RStrip(lines[0])] + RStripAll(lines[1..])
  }

  lemma {:induction false} NonBlankAppend(a: seq<string>, b: seq<string>)
    ensures NonBlank(a + b) == NonBlank(a) + NonBlank(b)
    decreases |a|
  {
    if |a| > 0 {
      assert (a + b)[1..] == a[1..] + b;
      NonBlankAppend(a[1..], b);
    } else {
      assert a + b == b;
    }
  }

  lemma {:induction false} RStripAllAppend(a: seq<string>, b: seq<string>)
    ensures RStripAll(a + b) == RStripAll(a) + RStripAll(b)
    decreases |a|
  {
    if |a| > 0 {
      assert (a + b)[1..] == a[1..] + b;
      RStripAllAppend(a[1..], b);
    } else {
      assert a + b == b;
    }
  }

  lemma {:induction false} NonBlankOfBlanks(lines: seq<string>)
    requires forall i :: 0 <= i < |lines| ==> IsBlank(lines[i])
    ensures NonBlank(lines) == []
    decreases |lines|
  {
    if |lines| > 0 {
      NonBlankOfBlanks(lines[1..]);
    }
  }

  lemma {:induction false} NonBlankCollapse(lines: seq<string>)
    ensures NonBlank(Collapse(lines)) == RStripAll(NonBlank(lines))
    decreases |lines|
  {
    var n := |lines|;
    if n > 0 {
      NonBlankCollapse(lines[..n - 1]);
      if IsBlank(lines[n - 1]) {
        NonBlankCollapseBlankLast(lines);
      } else {
        NonBlankCollapseLineLast(lines);
      }
    }
  }

  lemma NonBlankSnoc(lines: seq<string>)
    requires |lines| > 0
    ensures NonBlank(lines) == NonBlank(lines[..|lines| - 1]) + NonBlank([lines[|lines| - 1]])
  {
    LastSplit(lines);
    NonBlankAppend(lines[..|lines| - 1], [lines[|lines| - 1]]);
  }

  /** A non-empty sequence is its front followed by its last element. */
  lemma LastSplit<T>(xs: seq<T>)
    requires |xs| > 0
    ensures xs == xs[..|xs| - 1] + [xs[|xs| - 1]]
  {}

  /** A blank last line adds nothing non-blank, whether it is kept (as an
      empty line) or dropped. */
  lemma NonBlankCollapseBlankLast(lines: seq<string>)
    requires |lines| > 0 && IsBlank(lines[|lines| - 1])
    requires NonBlank(Collapse(lines[..|lines| - 1])) == RStripAll(NonBlank(lines[..|lines| - 1]))
    ensures NonBlank(Collapse(lines)) == RStripAll(NonBlank(lines))
  {
    var n := |lines|;
    var init, last := lines[..n - 1], lines[n - 1];
    NonBlankSnoc(lines);
    assert NonBlank([last]) == [];
    assert NonBlank(lines) == NonBlank(init);
    if !(n >= 2 && IsBlank(lines[n - 2])) {
      BlankRStrip(last);
      NonBlankAppend(Collapse(init), [RStrip(last)]);
      assert NonBlank([RStrip(last)]) == [];
    }
  }

  /** A non-blank last line is kept, right-trimmed. */
  lemma NonBlankCollapseLineLast(lines: seq<string>)
    requires |lines| > 0 && !IsBlank(lines[|lines| - 1])
    requires NonBlank(Collapse(lines[..|lines| - 1])) == RStripAll(NonBlank(lines[..|lines| - 1]))
    ensures NonBlank(Collapse(lines)) == RStripAll(NonBlank(lines))
  {
    var n := |lines|;
    var init, last := lines[..n - 1], lines[n - 1];
    NonBlankSnoc(lines);
    BlankRStrip(last);
    assert Collapse(lines) == Collapse(init) + [RStrip(last)];
    assert NonBlank([last]) == [last];
    NonBlankAppend(Collapse(init), [RStrip(last)]);
    assert NonBlank([RStrip(last)]) == [RStrip(last)];
    RStripAllAppend(NonBlank(init), [last]);
  }

  lemma {:induction false} NonBlankDropLeading(lines: seq<string>)
    ensures NonBlank(DropLeadingBlank(lines)) == NonBlank(lines)
    decreases |lines|
  {
    if |lines| > 0 && IsBlank(lines[0]) {
      NonBlankDropLeading(lines[1..]);
    }
  }

  lemma NonBlankDropTrailing(lines: seq<string>)
    ensures NonBlank(DropTrailingBlank(lines)) == NonBlank(lines)
  {
    var d1 := DropTrailingBlank(lines);
    assert lines == d1 + lines[|d1|..];
    NonBlankAppend(d1, lines[|d1|..]);
    NonBlankOfBlanks(lines[|d1|..]);
  }

  lemma NonBlankLStripFirst(d: seq<string>)
    requires |d| == 0 || !IsBlank(d[0])
    ensures NonBlank(LStripFirst(d)) == LStripFirst(NonBlank(d))
  {
    if |d| > 0 {
      LStripNonBlank(d[0]);
      var t := LStripFirst(d);
      assert t[1..] == d[1..];
    }
  }

  lemma NonBlankBody(lines: seq<string>)
    ensures NonBlank(Body(lines)) == LStripFirst(NonBlank(lines))
  {
    var d1 := DropTrailingBlank(lines);
    NonBlankDropTrailing(lines);
    NonBlankDropLeading(d1);
    NonBlankLStripFirst(DropLeadingBlank(d1));
  }

  /** Every non-blank input line reaches the output, in its original order
      and right-trimmed, the first of them also left-trimmed; the output has
      no other non-blank line. */
  lemma NonBlankLinesSurvive(s: string)
    ensures NonBlank(OutputLines(Normalize(s))) == LStripFirst(RStripAll(NonBlank(Split(s))))
  {
    OutputLinesOfNormalize(s);
    var c := Collapse(Split(s));
    var t := Body(c);
    NonBlankCollapse(Split(s));
    NonBlankBody(c);
    NonBlankPadded(t);
  }

  /** The lone empty line that stands for an empty body is blank. */
  lemma NonBlankPadded(t: seq<string>)
    ensures NonBlank(if |t| == 0 then [""] else t) == NonBlank(t)
  {
    if |t| == 0 {
      assert NonBlank([""]) == [] == NonBlank(t);
    }
  }
}
