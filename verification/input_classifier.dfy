/** `detect_input_type`: decides from the single optional command-line
    argument whether the input is standard input, a URL or a local file. The
    filesystem test `Path(arg).exists()` is the parameter `pathExists`. */
module InputClassifier {
  import opened Wrappers
  import opened Text

  datatype InputType = Url | File | Stdin

  /** What `Path(arg).exists()` does: answer yes, answer no, or raise the
      `OSError` of a failed `stat` whose errno it does not treat as "missing"
      (a name too long, a directory without search permission, ...). */
  datatype Existence = Exists | Missing | StatFailed

  /** The `ValueError` raised when no rule applies, and the `OSError` that
      escapes from the existence test; both carry the argument. */
  datatype ClassifyError = CannotDetermine(arg: string) | ExistenceCheckRaised(arg: string)

  predicate IsStdinMarker(arg: Option<string>) {
    arg.None? || arg.value == "-"
  }

  predicate HasHttpScheme(arg: string) {
    StartsWith(arg, "http://") || StartsWith(arg, "https://")
  }

  /** The last-resort guess: a dot somewhere and not an absolute path. */
  predicate LooksLikeDomain(arg: string) {
    '.' in arg && !StartsWith(arg, "/")
  }

  /** `detect_input_type`: the tests in their source order. */
  function DetectInputType(arg: Option<string>, pathExists: string -> Existence): (r: Result<InputType, ClassifyError>)
    ensures r == Success(Stdin) <==> IsStdinMarker(arg)
    ensures r == Success(File) <==>
              !IsStdinMarker(arg) && !HasHttpScheme(arg.value) && pathExists(arg.value) == Exists
    ensures r == Success(Url) <==>
              && !IsStdinMarker(arg)
              && (HasHttpScheme(arg.value) || (pathExists(arg.value) == Missing && LooksLikeDomain(arg.value)))
    ensures r.Failure? && r.error.ExistenceCheckRaised? <==>
              !IsStdinMarker(arg) && !HasHttpScheme(arg.value) && pathExists(arg.value) == StatFailed
    ensures r.Failure? && r.error.CannotDetermine? <==>
              && !IsStdinMarker(arg)
              && !HasHttpScheme(arg.value) && pathExists(arg.value) == Missing && !LooksLikeDomain(arg.value)
    ensures r.Failure? ==> arg.Some? && r.error.arg == arg.value
  {
    if arg.None? || arg.value == "-" then Success(Stdin)
    else if HasHttpScheme(arg.value) then Success(Url)
    else match pathExists(arg.value)
      case Exists => Success(File)
      case StatFailed => Failure(ExistenceCheckRaised(arg.value))
      case Missing =>
        if LooksLikeDomain(arg.value) then Success(Url)
        else Failure(CannotDetermine(arg.value))
  }

  /** The filesystem is consulted only after the standard-input marker and
      the HTTP(S) scheme have been ruled out: for those arguments any two
      filesystems give the same answer. */
  lemma FilesystemNotConsultedEarly(arg: Option<string>, exists1: string -> Existence, exists2: string -> Existence)
    requires IsStdinMarker(arg) || HasHttpScheme(arg.value)
    ensures DetectInputType(arg, exists1) == DetectInputType(arg, exists2)
    ensures DetectInputType(arg, exists1).Success?
  {}

  /** An existing path wins over the domain-name guess: a dotted relative
      name is a file when it exists, a URL only when it is missing, and an
      error when the existence test itself raises. */
  lemma ExistenceBeforeDomainGuess(name: string, pathExists: string -> Existence)
    requires name != "-" && !HasHttpScheme(name) && LooksLikeDomain(name)
    ensures DetectInputType(Some(name), pathExists) ==
              match pathExists(name)
              case Exists => Success(File)
              case Missing => Success(Url)
              case StatFailed => Failure(ExistenceCheckRaised(name))
  {}

  /** The classifier's answers for the arguments exercised by the
      repository's own tests. */
  lemma DetectInputTypeExamplesStdin(pathExists: string -> Existence)
    ensures DetectInputType(None, pathExists) == Success(Stdin)
    ensures DetectInputType(Some("-"), pathExists) == Success(Stdin)
  {}

  lemma DetectInputTypeExamplesUrl(pathExists: string -> Existence)
    ensures DetectInputType(Some("https://example.com"), pathExists) == Success(Url)
    ensures DetectInputType(Some("http://example.com"), pathExists) == Success(Url)
  {
    assert "https://example.com"[..8] == "https://";
    assert "http://example.com"[..7] == "http://";
  }

  lemma DetectInputTypeExamplesDomain(pathExists: string -> Existence)
    ensures pathExists("example.com") == Missing ==> DetectInputType(Some("example.com"), pathExists) == Success(Url)
  {
    assert "example.com"[7] == '.';
    assert "example.com"[..1][0] != "/"[0];
    assert "example.com"[..7][0] != "http://"[0];
    assert "example.com"[..8][0] != "https://"[0];
  }

  lemma DetectInputTypeExamplesFile(pathExists: string -> Existence)
    ensures pathExists("/path/to/file.html") == Exists ==>
              DetectInputType(Some("/path/to/file.html"), pathExists) == Success(File)
    ensures pathExists("file.html") == Exists ==> DetectInputType(Some("file.html"), pathExists) == Success(File)
  {
    assert "/path/to/file.html"[..7][0] != "http://"[0];
    assert "/path/to/file.html"[..8][0] != "https://"[0];
    assert "file.html"[..7][0] != "http://"[0];
    assert "file.html"[..8][0] != "https://"[0];
  }
}
