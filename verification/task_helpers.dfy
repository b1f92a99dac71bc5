/** The Rake task helpers (`rakelib/lib/task-helpers.rb`): argument and
    environment checks that abort a task, the answer to a yes/no prompt,
    and the escaping of a string for use in a file name. */
module TaskHelpers {
  import opened Wrappers
  import opened Sequences
  import opened Strings

  /** The environments a task accepts when it names none. */
  const DefaultValidEnvs: seq<string> := ["DEVELOPMENT", "PRODUCTION_PREVIEW", "PRODUCTION"]

  /** Ruby's `inspect` of an array of plain strings: `["A", "B"]`. */
  function InspectList(xs: seq<string>): string {
    "[" + InspectItems(xs) + "]"
  }

  function InspectItems(xs: seq<string>): string {
    if |xs| == 0 then ""
    else if |xs| == 1 then "\"" + xs[0] + "\""
    else "\"" + xs[0] + "\", " + InspectItems(xs[1..])
  }

  /** `assert_env_arg_is_valid`: abort unless `env` is one of the valid
      environments (by default development, production preview, production). */
  function AssertEnvArgIsValid(env: string, validEnvs: Option<seq<string>>): (r: Outcome<string>)
    ensures r.Pass? <==> env in validEnvs.GetOr(DefaultValidEnvs)
  {
    var valid := validEnvs.GetOr(DefaultValidEnvs);
    if env in valid then Pass
    else Fail("Invalid environment value: \"" + env + "\". Please specify one of: " + InspectList(valid))
  }

  /** The default check accepts exactly the three named environments. */
  lemma DefaultEnvs(env: string)
    ensures AssertEnvArgIsValid(env, None).Pass? <==>
      env == "DEVELOPMENT" || env == "PRODUCTION_PREVIEW" || env == "PRODUCTION"
  {
  }

  /** A task's arguments: a name may be absent, or present with a nil value. */
  type TaskArgs = map<string, Option<string>>

  /** Whether a required argument is missing or nil. */
  predicate IsMissing(args: TaskArgs, name: string) {
    name !in args || args[name].None?
  }

  /** The required arguments that are missing or nil, in the order required. */
  function MissingArgs(args: TaskArgs, reqArgs: seq<string>): (r: seq<string>)
    ensures |r| <= |reqArgs|
  {
    if |reqArgs| == 0 then []
    else (if IsMissing(args, reqArgs[0]) then [reqArgs[0]] else []) + MissingArgs(args, reqArgs[1..])
  }

  /** The missing list holds exactly the required names that are missing,
      each as often as it is required, in the order required. */
  lemma {:induction false} MissingArgsSpec(args: TaskArgs, reqArgs: seq<string>)
    ensures forall x :: x in MissingArgs(args, reqArgs) <==> x in reqArgs && IsMissing(args, x)
    ensures Distinct(reqArgs) ==> Distinct(MissingArgs(args, reqArgs))
    ensures Subsequence(MissingArgs(args, reqArgs), reqArgs)
    ensures forall x :: Count(MissingArgs(args, reqArgs), x) == if IsMissing(args, x) then Count(reqArgs, x) else 0
  {
    if |reqArgs| > 0 {
      MissingArgsSpec(args, reqArgs[1..]);
      var rest := MissingArgs(args, reqArgs[1..]);
      var m := MissingArgs(args, reqArgs);
      if IsMissing(args, reqArgs[0]) {
        assert m == [reqArgs[0]] + rest && m[1..] == rest;
      } else {
        assert m == rest;
      }
      assert forall x :: x in reqArgs <==> x == reqArgs[0] || x in reqArgs[1..];
      if Distinct(reqArgs) {
        assert reqArgs[0] !in reqArgs[1..];
      }
    }
  }

  /** `assert_required_args`: abort, listing them, when any required argument
      is missing or nil. */
  function AssertRequiredArgs(args: TaskArgs, reqArgs: seq<string>): Outcome<string> {
    var missing := MissingArgs(args, reqArgs);
    if |missing| > 0 then
      Fail("The following required task arguments must be specified: " + InspectList(missing))
    else Pass
  }

  /** The check passes exactly when every required argument has a non-nil
      value, and an abort names every missing one. */
  lemma AssertRequiredArgsSpec(args: TaskArgs, reqArgs: seq<string>)
    ensures AssertRequiredArgs(args, reqArgs).Pass? <==>
      forall i :: 0 <= i < |reqArgs| ==> reqArgs[i] in args && args[reqArgs[i]].Some?
    ensures AssertRequiredArgs(args, reqArgs).Fail? ==>
      AssertRequiredArgs(args, reqArgs).error
        == "The following required task arguments must be specified: " + InspectList(MissingArgs(args, reqArgs))
  {
    MissingArgsSpec(args, reqArgs);
    if |MissingArgs(args, reqArgs)| > 0 {
      var x := MissingArgs(args, reqArgs)[0];
      assert x in MissingArgs(args, reqArgs);
    } else {
      forall i | 0 <= i < |reqArgs|
        ensures !IsMissing(args, reqArgs[i])
      {
        assert reqArgs[i] !in MissingArgs(args, reqArgs);
      }
    }
  }

  /** `chomp`: drop one trailing `\r\n`, `\n` or `\r`. */
  function Chomp(s: string): (r: string)
    ensures r == s || r + "\n" == s || r + "\r" == s || r + "\r\n" == s
  {
    if EndsWith(s, "\r\n") then s[..|s| - 2]
    else if EndsWith(s, "\n") || EndsWith(s, "\r") then s[..|s| - 1]
    else s
  }

  /** `downcase`, for the ASCII letters. */
  function DowncaseAscii(s: string): (r: string)
    ensures |r| == |s|
    ensures forall i :: 0 <= i < |s| ==> r[i] == ToLowerAscii(s[i])
  {
    if |s| == 0 then "" else [ToLowerAscii(s[0])] + DowncaseAscii(s[1..])
  }

  /** The answer a line gives to a yes/no prompt: empty or `y` is yes, `n`
      is no, anything else is no answer. */
  function AnswerOf(line: string): Option<bool> {
    var a := DowncaseAscii(Chomp(line));
    if a == "" || a == "y" then Some(true)
    else if a == "n" then Some(false)
    else None
  }

  /** Pressing Enter or `Y` confirms, `N` declines, `yes` is no answer. */
  lemma AnswerExamples()
    ensures AnswerOf("\n") == Some(true) && AnswerOf("Y\n") == Some(true)
    ensures AnswerOf("N\r\n") == Some(false) && AnswerOf("yes\n") == None
  {
    AnswerEnter();
    AnswerUpperY();
    AnswerUpperN();
    AnswerYes();
  }

  lemma AnswerEnter()
    ensures AnswerOf("\n") == Some(true)
  {
    assert Chomp("\n") == "";
  }

  lemma AnswerUpperY()
    ensures AnswerOf("Y\n") == Some(true)
  {
    assert Chomp("Y\n") == "Y";
    assert DowncaseAscii("Y") == "y";
  }

  lemma AnswerUpperN()
    ensures AnswerOf("N\r\n") == Some(false)
  {
    assert Chomp("N\r\n") == "N";
    assert DowncaseAscii("N") == "n";
  }

  lemma AnswerYes()
    ensures AnswerOf("yes\n") == None
  {
    assert Chomp("yes\n") == "yes";
    assert DowncaseAscii("yes")[1] == 'e';
  }

  /** A line means yes exactly when, chomped, it is empty or one `y`/`Y`,
      and no exactly when it is one `n`/`N`. */
  lemma AnswerOfSpec(line: string)
    ensures AnswerOf(line) == Some(true) <==> Chomp(line) == "" || Chomp(line) == "y" || Chomp(line) == "Y"
    ensures AnswerOf(line) == Some(false) <==> Chomp(line) == "n" || Chomp(line) == "N"
  {
    var c := Chomp(line);
    var a := DowncaseAscii(c);
    if |c| == 1 {
      assert a == [ToLowerAscii(c[0])];
    }
  }

  /** `prompt_user_for_confirmation` over the lines the user types: the
      answer of the first line that gives one, and how many times the user
      was asked to answer y or n first; running out of input fails. */
  function Confirm(lines: seq<string>): (r: Result<(bool, nat), string>)
    ensures r.Success? ==> r.value.1 < |lines|
  {
    if |lines| == 0 then Failure("end of input")
    else match AnswerOf(lines[0])
      case Some(b) => Success((b, 0))
      case None =>
        var r := Confirm(lines[1..]);
        if r.Success? then Success((r.value.0, r.value.1 + 1)) else r
  }

  /** The prompt fails exactly when no line answers. */
  lemma {:induction false} ConfirmFails(lines: seq<string>)
    ensures Confirm(lines).Failure? <==> forall i :: 0 <= i < |lines| ==> AnswerOf(lines[i]).None?
  {
    if |lines| > 0 {
      ConfirmFails(lines[1..]);
      assert forall i :: 1 <= i < |lines| ==> lines[i] == lines[1..][i - 1];
    }
  }

  /** The prompt returns the answer of the first answering line, after one
      retry message per line before it. */
  lemma {:induction false} ConfirmAnswer(lines: seq<string>)
    requires Confirm(lines).Success?
    ensures AnswerOf(lines[Confirm(lines).value.1]) == Some(Confirm(lines).value.0)
    ensures forall i :: 0 <= i < Confirm(lines).value.1 ==> AnswerOf(lines[i]).None?
  {
    if AnswerOf(lines[0]).None? {
      var tail := lines[1..];
      ConfirmAnswer(tail);
      var n := Confirm(tail).value.1;
      assert lines[n + 1] == tail[n];
      forall i | 1 <= i < n + 1
        ensures AnswerOf(lines[i]).None?
      {
        assert lines[i] == tail[i - 1];
      }
    }
  }

  /** The characters kept by `filename_escape`: `a`-`z`, `0`-`9`, `-` and `_`. */
  predicate IsFilenameChar(c: char) {
    IsAsciiLower(c) || IsDigit(c) || c == '-' || c == '_'
  }

  /** `filename_escape`: lower-case, then replace every other character by `_`. */
  function FilenameEscape(url: string): (r: string)
    ensures |r| == |url|
  {
    if |url| == 0 then ""
    else
      var c := ToLowerAscii(url[0]);
      [if IsFilenameChar(c) then c else '_'] + FilenameEscape(url[1..])
  }

  /** The escaped name has the input's length and only file-name
      characters; each character is kept lower-cased when allowed and
      becomes `_` otherwise. */
  lemma {:induction false} FilenameEscapeSpec(url: string)
    ensures var r := FilenameEscape(url);
      forall i :: 0 <= i < |url| ==>
        && IsFilenameChar(r[i])
        && r[i] == if IsFilenameChar(ToLowerAscii(url[i])) then ToLowerAscii(url[i]) else '_'
  {
    if |url| > 0 {
      FilenameEscapeSpec(url[1..]);
      var r := FilenameEscape(url);
      assert forall i :: 1 <= i < |url| ==> r[i] == FilenameEscape(url[1..])[i - 1] && url[i] == url[1..][i - 1];
    }
  }

  /** Escaping an escaped name changes nothing. */
  lemma FilenameEscapeIdempotent(url: string)
    ensures FilenameEscape(FilenameEscape(url)) == FilenameEscape(url)
  {
    var r := FilenameEscape(url);
    FilenameEscapeSpec(url);
    FilenameEscapeSpec(r);
    forall i | 0 <= i < |r|
      ensures ToLowerAscii(r[i]) == r[i]
    {
    }
  }

  /** A URL becomes a flat, lower-case file name. */
  lemma FilenameEscapeExample()
    ensures FilenameEscape("A.b/1") == "a_b_1"
  {
    assert FilenameEscape("1") == "1";
    assert FilenameEscape("/1") == "_1";
    assert FilenameEscape("b/1") == "b_1";
    assert FilenameEscape(".b/1") == "_b_1";
  }
}
