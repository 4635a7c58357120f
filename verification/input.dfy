/**
 * The interactive input resolver: two prompts, each repeated until its
 * validator accepts the answer. Terminal input is modelled as the finite
 * sequence of answers the user types, and the existence check on the
 * directory as membership in a given set of existing directories.
 */
module Input {
  import opened Wrappers

  /** What a prompt's validator returns: accept, or reject with a message. */
  datatype ValidationResult = Success | Error(message: string)

  /** The resolved request: the root directory and the file-name pattern. */
  datatype Request = Request(root: string, pattern: string)

  /** The two-character prefix every interactive pattern must start with. */
  const PatternPrefix: string := "*."

  /** "[red]<directory does not exist>[/]", as shown by the prompt. */
  const MissingDirectoryMessage: string := "[red]\U{76EE}\U{5F55}\U{4E0D}\U{5B58}\U{5728}[/]"

  /** "[red]<format must start with *.>[/]", as shown by the prompt. */
  const PatternPrefixMessage: string :=
    "[red]\U{683C}\U{5F0F}\U{5FC5}\U{987B}\U{4EE5} *.\U{5F00}\U{5934}[/]"

  predicate StartsWith(s: string, prefix: string)
  {
    |prefix| <= |s| && s[..|prefix|] == prefix
  }

  /** The pattern prompt's validator. */
  function ValidatePattern(pattern: string): (r: ValidationResult)
    ensures r.Success? <==> 2 <= |pattern| && pattern[0] == '*' && pattern[1] == '.'
    ensures r.Error? ==> r.message == PatternPrefixMessage
  {
    if StartsWith(pattern, PatternPrefix) then Success else Error(PatternPrefixMessage)
  }

  /** The directory prompt's validator; `directories` are those that exist. */
  function ValidateDirectory(path: string, directories: set<string>): ValidationResult
  {
    if path in directories then Success else Error(MissingDirectoryMessage)
  }

  /**
   * The patterns the validator accepts are exactly "*." followed by any
   * extension text, the empty one included.
   */
  lemma PatternAcceptedIff(pattern: string)
    ensures ValidatePattern(pattern).Success? <==> exists ext :: pattern == PatternPrefix + ext
  {
    if ValidatePattern(pattern).Success? {
      assert pattern == PatternPrefix + pattern[2..];
    }
  }

  /**
   * A prompt: answers are read in turn until `validate` accepts one. The
   * result is the accepted answer, if any, and the messages shown for the
   * answers rejected before it.
   */
  method Prompt(answers: seq<string>, validate: string -> ValidationResult)
    returns (accepted: Option<string>, shown: seq<string>)
    ensures |shown| <= |answers|
    ensures forall j :: 0 <= j < |shown| ==> validate(answers[j]) == Error(shown[j])
    ensures accepted.Some? ==>
              |shown| < |answers| && accepted.value == answers[|shown|]
              && validate(accepted.value) == Success
    ensures accepted.None? ==> |shown| == |answers|
  {
    shown := [];
    var i := 0;
    while i < |answers|
      invariant 0 <= i <= |answers|
      invariant |shown| == i
      invariant forall j :: 0 <= j < i ==> validate(answers[j]) == Error(shown[j])
    {
      match validate(answers[i]) {
        case Success =>
          return Some(answers[i]), shown;
        case Error(message) =>
          shown := shown + [message];
      }
      i := i + 1;
    }
    accepted := None;
  }

  /**
   * Interactive mode: the directory prompt, then the pattern prompt. A
   * request comes out only when both prompts accepted an answer, and then
   * each part is the first answer its prompt accepted.
   */
  method ResolveInteractive(directoryAnswers: seq<string>, directories: set<string>,
                            patternAnswers: seq<string>)
    returns (request: Option<Request>)
    ensures request.Some? ==> request.value.root in directories
    ensures request.Some? ==> StartsWith(request.value.pattern, PatternPrefix)
    ensures request.Some? ==> request.value.root in directoryAnswers
    ensures request.Some? ==> request.value.pattern in patternAnswers
    ensures request.Some? ==>
              exists i :: 0 <= i < |directoryAnswers| && directoryAnswers[i] == request.value.root
                          && forall j :: 0 <= j < i ==> directoryAnswers[j] !in directories
    ensures request.Some? ==>
              exists i :: 0 <= i < |patternAnswers| && patternAnswers[i] == request.value.pattern
                          && forall j :: 0 <= j < i ==> !StartsWith(patternAnswers[j], PatternPrefix)
    ensures request.None? ==>
              (forall d :: d in directoryAnswers ==> d !in directories)
              || (forall p :: p in patternAnswers ==> !StartsWith(p, PatternPrefix))
  {
    var root, rootShown := Prompt(directoryAnswers, path => ValidateDirectory(path, directories));
    if root.None? {
      return None;
    }
    forall j | 0 <= j < |rootShown|
      ensures directoryAnswers[j] !in directories
    {
      assert ValidateDirectory(directoryAnswers[j], directories).Error?;
    }
    var pattern, patternShown := Prompt(patternAnswers, ValidatePattern);
    if pattern.None? {
      return None;
    }
    forall j | 0 <= j < |patternShown|
      ensures !StartsWith(patternAnswers[j], PatternPrefix)
    {
      assert ValidatePattern(patternAnswers[j]).Error?;
    }
    request := Some(Request(root.value, pattern.value));
  }
}
