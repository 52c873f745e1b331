/**
 * `main` of shell_complete.cpp (lines 93-111): the arguments after the
 * program name are joined with single spaces into the command line, the
 * completion is printed followed by a newline only when it is non-empty, and
 * the exit status is 1 for a missing argument and 0 otherwise. The usage
 * message on the error stream is not modelled.
 */
module Cli {
  import opened Wrappers
  import Request
  import Client
  import Response

  /** What the process leaves behind: its exit status and standard output. */
  datatype Outcome = Outcome(exitCode: int, stdout: string)

  /** Total length of the strings in `args`. */
  function TotalLength(args: seq<string>): nat {
    if |args| == 0 then 0 else TotalLength(args[..|args| - 1]) + |args[|args| - 1]|
  }

  /** `args` joined with single spaces, built left to right as `main` does. */
  function Join(args: seq<string>): (r: string)
    ensures |args| == 1 ==> r == args[0]
    ensures |args| > 0 ==> |r| == TotalLength(args) + |args| - 1
    ensures |args| == 0 ==> r == ""
  {
    if |args| == 0 then ""
    else if |args| == 1 then args[0]
    else Join(args[..|args| - 1]) + " " + args[|args| - 1]
  }

  /** The arguments of `argv` after the program name. */
  function Arguments(argv: seq<string>): seq<string> {
    if |argv| == 0 then [] else argv[1..]
  }

  /** The joining loop of `main`. */
  method JoinArguments(argv: seq<string>) returns (commandLine: string)
    ensures commandLine == Join(Arguments(argv))
    ensures |argv| == 2 ==> commandLine == argv[1]
  {
    commandLine := "";
    var i := 1;
    while i < |argv|
      invariant |argv| == 0 || 1 <= i <= |argv|
      invariant |argv| > 0 ==> commandLine == Join(argv[1..i])
      invariant |argv| == 0 ==> commandLine == ""
    {
      if i > 1 {
        commandLine := commandLine + " ";
      }
      commandLine := commandLine + argv[i];
      assert argv[1..i + 1][..i - 1] == argv[1..i];
      i := i + 1;
    }
    assert |argv| > 0 ==> argv[1..i] == argv[1..];
  }

  /** Index of the last `c` in `s`, if any. */
  function LastIndex(s: string, c: char): (r: Option<nat>)
    ensures r.Some? ==> r.value < |s| && s[r.value] == c
                        && forall k :: r.value < k < |s| ==> s[k] != c
    ensures r.None? ==> forall k :: 0 <= k < |s| ==> s[k] != c
  {
    if s == [] then None
    else if s[|s| - 1] == c then Some(|s| - 1)
    else LastIndex(s[..|s| - 1], c)
  }

  /** Splits `s` at every space. `Join` undoes `Split`; `Split` undoes
      `Join` when no argument contains a space. */
  function Split(s: string): (parts: seq<string>)
    ensures |parts| >= 1
    decreases |s|
  {
    match LastIndex(s, ' ')
    case None => [s]
    case Some(i) => Split(s[..i]) + [s[i + 1..]]
  }

  /** No argument contains a space. */
  ghost predicate SpaceFree(args: seq<string>) {
    forall i, j :: 0 <= i < |args| && 0 <= j < |args[i]| ==> args[i][j] != ' '
  }

  /** Joining what `Split` produced gives back the original string. */
  lemma {:induction false} JoinSplit(s: string)
    ensures Join(Split(s)) == s
    decreases |s|
  {
    match LastIndex(s, ' ')
    case None =>
    case Some(i) =>
      JoinSplit(s[..i]);
      var front := Split(s[..i]);
      var parts := front + [s[i + 1..]];
      assert parts[..|parts| - 1] == front;
      assert s == s[..i] + " " + s[i + 1..];
  }

  /** The last space of `a + " " + b`, for a space-free `b`, is the one
      between them, so splitting peels `b` off the end. */
  lemma SplitAtLastSpace(a: string, b: string)
    requires forall k :: 0 <= k < |b| ==> b[k] != ' '
    ensures Split(a + " " + b) == Split(a) + [b]
  {
    var s := a + " " + b;
    var n := |a|;
    forall k | n < k < |s|
      ensures s[k] != ' '
    {
      assert s[k] == b[k - n - 1];
    }
    assert s[n] == ' ';
    assert LastIndex(s, ' ') == Some(n);
    assert s[..n] == a;
    assert s[n + 1..] == b;
  }

  /** Arguments without spaces are recovered exactly from their join. */
  lemma {:induction false} SplitJoin(args: seq<string>)
    requires |args| >= 1
    requires SpaceFree(args)
    ensures Split(Join(args)) == args
    decreases |args|
  {
    if |args| == 1 {
      assert LastIndex(args[0], ' ').None?;
    } else {
      var front := args[..|args| - 1];
      var last := args[|args| - 1];
      assert SpaceFree(front);
      SplitJoin(front);
      assert forall k :: 0 <= k < |last| ==> last[k] != ' ';
      SplitAtLastSpace(Join(front), last);
      assert front + [last] == args;
    }
  }

  /** The observable result of running the program with `argv`. */
  function Run(argv: seq<string>, apiKey: Option<string>,
               service: (string, string) -> Option<string>): (o: Outcome)
    ensures o.exitCode == 1 <==> |argv| < 2
    ensures o.exitCode == 0 <==> |argv| >= 2
    ensures |argv| < 2 ==> o.stdout == ""
    ensures o.stdout != "" ==> |o.stdout| >= 2 && o.stdout[|o.stdout| - 1] == '\n'
    ensures |argv| >= 2 ==>
              (o.stdout == "" <==> Client.CallLlm(Join(argv[1..]), apiKey, service) == "")
  {
    if |argv| < 2 then Outcome(1, "")
    else
      var completion := Client.CallLlm(Join(argv[1..]), apiKey, service);
      Outcome(0, if completion != "" then completion + "\n" else "")
  }

  /** The printed text is the completion with its trailing newline removed. */
  lemma PrintedCompletion(argv: seq<string>, apiKey: Option<string>,
                          service: (string, string) -> Option<string>)
    requires |argv| >= 2
    requires Run(argv, apiKey, service).stdout != ""
    ensures var out := Run(argv, apiKey, service).stdout;
            out[..|out| - 1] == Client.CallLlm(Join(argv[1..]), apiKey, service)
  {
  }

  /** A non-empty `"text":` value in the service's answer to the joined
      arguments is printed, followed by a newline, and the exit status is 0. */
  lemma RunPrintsText(argv: seq<string>, key: string,
                      service: (string, string) -> Option<string>,
                      pre: string, gap: string, value: string, post: string)
    requires |argv| >= 2
    requires service(key, Request.Payload(Join(argv[1..])))
             == Some(pre + Response.TextMarker + gap + "\"" + value + "\"" + post)
    requires forall k :: !Response.OccursAt(pre, Response.TextMarker, k)
    requires forall i :: 0 <= i < |gap| ==> gap[i] != '"'
    requires forall i :: 0 <= i < |value| ==> value[i] != '"'
    requires value != ""
    ensures Run(argv, Some(key), service) == Outcome(0, value + "\n")
  {
    Client.CallLlmReturnsText(Join(argv[1..]), key, service, pre, gap, value, post);
  }

  /** The command the user typed reaches the service intact: it can be read
      back from the request body, and when no argument has a space in it the
      arguments themselves can be recovered. */
  lemma ArgumentsReachService(argv: seq<string>)
    requires |argv| >= 2
    ensures Request.CommandOf(Request.Payload(Join(argv[1..]))) == Some(Join(argv[1..]))
    ensures SpaceFree(argv[1..]) ==> Split(Join(argv[1..])) == argv[1..]
  {
    Request.PayloadRoundTrip(Join(argv[1..]));
    if SpaceFree(argv[1..]) {
      SplitJoin(argv[1..]);
    }
  }
}
