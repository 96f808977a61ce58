/** `is_markdown_file` and `is_markdown_content_type`: the two tests that
    decide whether a fetched resource is already Markdown and skips the
    HTML pipeline. */
module MarkdownDetection {
  import opened Wrappers
  import opened Text

  /** The nine extensions `is_markdown_file` accepts. */
  const MarkdownExtensions: set<string> :=
    {".md", ".markdown", ".mdown", ".mkdn", ".mkd", ".mdwn", ".mdtxt", ".mdtext", ".rmd"}

  /** The three substrings `is_markdown_content_type` looks for. */
  const MarkdownTypePatterns: seq<string> := ["markdown", "text/markdown", "text/x-markdown"]

  /** A file extension: a dot followed by no further dot. */
  predicate IsExtension(e: string) {
    |e| >= 1 && e[0] == '.' && '.' !in e[1..]
  }

  /** The suffix of `s` from its last dot on, or "" when `s` has no dot. */
  function LastExtension(s: string): (r: string)
    ensures r == "" || (IsExtension(r) && EndsWith(s, r))
    ensures r == "" <==> '.' !in s
  {
    if |s| == 0 then ""
    else if s[|s| - 1] == '.' then "."
    else
      var init, c := s[..|s| - 1], s[|s| - 1];
      var e := LastExtension(init);
      ExtendExtension(init, c, e);
      if e == "" then "" else e + [c]
  }

  /** One more non-dot character extends the last extension (or leaves the
      string without one). */
  lemma ExtendExtension(init: string, c: char, e: string)
    requires c != '.'
    requires e == "" || (IsExtension(e) && EndsWith(init, e))
    requires e == "" <==> '.' !in init
    ensures e != "" ==> IsExtension(e + [c]) && EndsWith(init + [c], e + [c])
    ensures e == "" <==> '.' !in init + [c]
  {
    if e != "" {
      assert (e + [c])[1..] == e[1..] + [c];
      assert (init + [c])[|init| + 1 - |e + [c]|..] == init[|init| - |e|..] + [c];
    }
    assert '.' in init + [c] ==> '.' in init;
  }

  /** A string ends with a given extension exactly when that extension is
      its last one. */
  lemma EndsWithExtension(s: string, e: string)
    requires IsExtension(e)
    ensures EndsWith(s, e) <==> LastExtension(s) == e
  {
    var r := LastExtension(s);
    if EndsWith(s, e) {
      assert s[|s| - |e|] == '.';
      assert r != "";
      assert |r| == |e|;
      assert r == s[|s| - |r|..] == e;
    }
  }

  lemma MarkdownExtensionsAreExtensions()
    ensures forall e :: e in MarkdownExtensions ==> IsExtension(e)
  {
    assert ".md"[1..] == "md";
    assert ".markdown"[1..] == "markdown";
    assert ".mdown"[1..] == "mdown";
    assert ".mkdn"[1..] == "mkdn";
    assert ".mkd"[1..] == "mkd";
    assert ".mdwn"[1..] == "mdwn";
    assert ".mdtxt"[1..] == "mdtxt";
    assert ".mdtext"[1..] == "mdtext";
    assert ".rmd"[1..] == "rmd";
  }

  /** Every Markdown extension starts ".m" or ".r". */
  lemma NotMarkdownExtension(e: string)
    requires |e| >= 2 && e[1] != 'm' && e[1] != 'r'
    ensures e !in MarkdownExtensions
  {}

  /** `is_markdown_file`: true exactly when the lower-cased path's last extension
      is one of the nine Markdown extensions. */
  function IsMarkdownFile(path: string): (r: bool)
    ensures r <==> LastExtension(Lower(path)) in MarkdownExtensions
  {
    var lower := Lower(path);
    MarkdownExtensionsAreExtensions();
    assert (exists ext :: ext in MarkdownExtensions && EndsWith(lower, ext))
           <==> LastExtension(lower) in MarkdownExtensions by {
      if e :| e in MarkdownExtensions && EndsWith(lower, e) {
        EndsWithExtension(lower, e);
      }
    }
    exists ext :: ext in MarkdownExtensions && EndsWith(lower, ext)
  }

  /** The test ignores letter case: paths that differ only in the case of
      their ASCII letters are classified alike. */
  lemma MarkdownFileIgnoresCase(p: string, q: string)
    requires Lower(p) == Lower(q)
    ensures IsMarkdownFile(p) == IsMarkdownFile(q)
  {}

  lemma MarkdownPatternsReduce(s: string)
    ensures (exists pat :: pat in MarkdownTypePatterns && Contains(s, pat)) <==> Contains(s, "markdown")
  {
    assert OccursAt("markdown", "markdown", 0);
    assert "text/markdown"[5..13] == "markdown";
    assert OccursAt("text/markdown", "markdown", 5);
    assert "text/x-markdown"[7..15] == "markdown";
    assert OccursAt("text/x-markdown", "markdown", 7);
    if pat :| pat in MarkdownTypePatterns && Contains(s, pat) {
      ContainsTransitive(s, pat, "markdown");
    }
    assert "markdown" in MarkdownTypePatterns;
  }

  /** `is_markdown_content_type`: false for a missing or empty header; otherwise true
      exactly when the lower-cased header contains "markdown" (the other
      two listed patterns contain it, so they add nothing). */
  function IsMarkdownContentType(contentType: Option<string>): (r: bool)
    ensures r <==> contentType.Some? && Contains(Lower(contentType.value), "markdown")
  {
    if contentType.None? || contentType.value == "" then false
    else
      var lower := Lower(contentType.value);
      MarkdownPatternsReduce(lower);
      exists pat :: pat in MarkdownTypePatterns && Contains(lower, pat)
  }

  /** Once the lower-cased path is known to end with an extension, that
      extension alone decides the test. */
  lemma MarkdownFileByExtension(path: string, e: string)
    requires IsExtension(e) && EndsWith(Lower(path), e)
    ensures IsMarkdownFile(path) <==> e in MarkdownExtensions
  {
    EndsWithExtension(Lower(path), e);
  }

  // ---- the cases the repository's tests check ------------------------------

  lemma MarkdownFileExampleUpper()
    ensures IsMarkdownFile("test.MD")
  {
    var lower := Lower("test.MD");
    assert lower[4..] == ".md" by {
      assert lower[4] == '.' && lower[5] == 'm' && lower[6] == 'd';
    }
    assert IsExtension(".md") by { assert ".md"[1..] == "md"; }
    MarkdownFileByExtension("test.MD", ".md");
  }

  lemma MarkdownFileExampleLong()
    ensures IsMarkdownFile("TEST.MARKDOWN")
  {
    var lower := Lower("TEST.MARKDOWN");
    assert lower[4..] == ".markdown" by {
      forall k | 4 <= k < 13 ensures lower[k] == ".markdown"[k - 4] {}
    }
    assert IsExtension(".markdown") by { assert ".markdown"[1..] == "markdown"; }
    MarkdownFileByExtension("TEST.MARKDOWN", ".markdown");
  }

  lemma MarkdownFileExampleText()
    ensures !IsMarkdownFile("test.txt")
  {
    var lower := Lower("test.txt");
    assert lower[4..] == ".txt" by {
      assert lower[4] == '.' && lower[5] == 't' && lower[6] == 'x' && lower[7] == 't';
    }
    assert IsExtension(".txt") by { assert ".txt"[1..] == "txt"; }
    MarkdownFileByExtension("test.txt", ".txt");
    NotMarkdownExtension(".txt");
  }

  lemma MarkdownFileExampleBare()
    ensures !IsMarkdownFile("test")
  {
    assert Lower("test") == "test";
    assert '.' !in "test";
  }

  lemma ContentTypeExampleParameter()
    ensures IsMarkdownContentType(Some("text/plain; charset=utf-8; format=markdown"))
  {
    var long := "text/plain; charset=utf-8; format=markdown";
    var lower := Lower(long);
    assert |lower| == 42;
    assert lower[34..42] == "markdown" by {
      forall k | 34 <= k < 42 ensures lower[k] == long[k] {
        assert !('A' <= long[k] <= 'Z');
      }
      assert long[34..42] == "markdown";
    }
    assert OccursAt(lower, "markdown", 34);
  }

  lemma ContentTypeExamplePlain()
    ensures !IsMarkdownContentType(Some("text/plain"))
  {
    var plain := "text/plain";
    assert Lower(plain) == plain;
    forall i | 0 <= i <= |plain| - 8
      ensures !OccursAt(plain, "markdown", i)
    {
      assert plain[i] != 'm';
      assert plain[i..i + 8][0] == plain[i];
    }
  }
}
