/** The local server (local-server/app.py): it forwards a file request to the
    legacy host as one remote shell command and turns what comes back, or the
    failure that stopped it, into the HTTP reply body.

    The SSH session is not modelled; its outcome for a command is a parameter
    `run`. Python's `json.loads` is the parameter `parse`, which yields a
    document, a `JSONDecodeError`, or another exception. */
module LegacyClient {
  import opened Strings
  import opened Decimal
  import opened JsonValues
  import opened Envelopes

  /** An exception raised inside the `try` of `submit_file_request`, with the
      exception classes it belongs to (in paramiko an authentication failure
      is also an SSH failure) and its `str(e)` text. */
  datatype Failure = Failure(isAuthentication: bool, isSsh: bool, text: string)

  /** What one remote session yields: the decoded output streams and exit
      status of the command, or the exception that interrupted it. */
  datatype SessionOutcome =
    | Completed(exitStatus: int, stdout: string, stderr: string)
    | Raised(failure: Failure)

  /** What `json.loads` does with the stripped output: a document, the
      `JSONDecodeError` the inner `except` catches, or any other exception
      (a `RecursionError` on deep nesting, a `ValueError` on an over-long
      integer literal), which only the outer `except Exception` catches. */
  datatype ParseOutcome =
    | Parsed(doc: Json)
    | DecodeError
    | ParseRaised(failure: Failure)

  /** What `submit_file_request` returns: the remote JSON document itself, or
      an error envelope built locally. */
  datatype Reply = PassedThrough(doc: Json) | Failed(envelope: Envelope) {
    function ToJson(): Json {
      match this
      case PassedThrough(doc) => doc
      case Failed(envelope) => envelope.ToJson()
    }
  }

  /** An HTTP reply from Flask: status code and JSON body. */
  datatype JsonReply = JsonReply(status: int, body: Json)

  const ProxyScript := "/home/legacy/proxy_request.sh"

  /** The remote command: the proxy script with the filename placed between
      single quotes, with no escaping. */
  function Command(filename: string): (c: string)
    ensures ProxyScript + " '" <= c
    ensures IsSuffix(filename + "'", c)
    ensures |c| == |ProxyScript| + |filename| + 3
  {
    var c := ProxyScript + " " + "'" + filename + "'";
    assert c[..|ProxyScript| + 2] == ProxyScript + " '";
    assert c[|c| - |filename| - 1..] == filename + "'";
    c
  }

  /** How a POSIX shell delimits the first single-quoted region of a command:
      the text before the opening quote, the text inside, and the text after
      the closing quote. None when there is no complete quoted region. */
  function SplitAtQuotes(cmd: string): Option<(string, string, string)> {
    match IndexOf(cmd, '\'')
    case None => None
    case Some(i) =>
      var rest := cmd[i + 1..];
      match IndexOf(rest, '\'')
      case None => None
      case Some(j) => Some((cmd[..i], rest[..j], rest[j + 1..]))
  }

  /** After a quote-free head, the first quote is the opening one. */
  lemma OpeningQuoteAfterHead(head: string, arg: string)
    requires IndexOf(head, '\'').None?
    ensures IndexOf(head + "'" + arg + "'", '\'') == Some(|head|)
  {
    assert IndexOf("'", '\'') == Some(0);
    IndexOfAppend(head, "'", '\'');
    IndexOfAppend(head + "'", arg, '\'');
    IndexOfAppend(head + "'" + arg, "'", '\'');
  }

  /** A quote-free head, then a quoted argument: the quoted region is the
      argument with its closing quote, up to the first quote. */
  lemma SplitAfterHead(head: string, arg: string, j: nat)
    requires IndexOf(head, '\'').None?
    requires IndexOf(arg + "'", '\'') == Some(j)
    ensures SplitAtQuotes(head + "'" + arg + "'") == Some((head, (arg + "'")[..j], (arg + "'")[j + 1..]))
  {
    var cmd, n := head + "'" + arg + "'", |head|;
    OpeningQuoteAfterHead(head, arg);
    assert cmd[n + 1..] == arg + "'";
    assert cmd[..n] == head;
  }

  /** A quote-free head, then a single-quoted argument without quotes:
      the argument is the quoted region and nothing follows it. */
  lemma SplitQuotedPlain(head: string, arg: string)
    requires '\'' !in head && '\'' !in arg
    ensures SplitAtQuotes(head + "'" + arg + "'") == Some((head, arg, ""))
  {
    var t := arg + "'";
    IndexOfNone(head, '\'');
    IndexOfNone(arg, '\'');
    assert IndexOf("'", '\'') == Some(0);
    IndexOfAppend(arg, "'", '\'');
    SplitAfterHead(head, arg, |arg|);
    assert t[..|arg|] == arg;
    assert t[|arg| + 1..] == "";
  }

  /** A quote-free head, then a single-quoted argument whose first quote is
      at `k`: the quoted region stops there and the remainder follows it. */
  lemma SplitQuotedEarly(head: string, arg: string, k: nat)
    requires '\'' !in head
    requires IndexOf(arg, '\'') == Some(k)
    ensures SplitAtQuotes(head + "'" + arg + "'") == Some((head, arg[..k], arg[k + 1..] + "'"))
  {
    var t := arg + "'";
    IndexOfNone(head, '\'');
    IndexOfAppend(arg, "'", '\'');
    SplitAfterHead(head, arg, k);
    assert t[..k] == arg[..k];
    assert t[k + 1..] == arg[k + 1..] + "'";
  }

  lemma ScriptHasNoQuote()
    ensures '\'' !in ProxyScript + " "
  {
  }

  /** A filename without a single quote is exactly the quoted argument, and
      nothing follows the closing quote. */
  lemma CommandQuotesPlainFilename(filename: string)
    requires '\'' !in filename
    ensures SplitAtQuotes(Command(filename)) == Some((ProxyScript + " ", filename, ""))
  {
    ScriptHasNoQuote();
    SplitQuotedPlain(ProxyScript + " ", filename);
  }

  /** A filename whose first single quote is at `k` closes the quoted
      argument there: the script receives only the text before it. The rest
      of the filename and the closing quote follow the first quoted region,
      so the shell starts reading them outside quotes (up to their own next
      quote, if they have one). */
  lemma CommandQuoteEndsEarly(filename: string, k: nat)
    requires IndexOf(filename, '\'') == Some(k)
    ensures SplitAtQuotes(Command(filename)) == Some((ProxyScript + " ", filename[..k], filename[k + 1..] + "'"))
  {
    ScriptHasNoQuote();
    SplitQuotedEarly(ProxyScript + " ", filename, k);
  }

  /** The filename reaches the script as one intact argument exactly when it
      holds no single quote. */
  lemma QuotedArgumentIsFilenameIff(filename: string)
    ensures SplitAtQuotes(Command(filename)) == Some((ProxyScript + " ", filename, ""))
        <==> '\'' !in filename
  {
    IndexOfNone(filename, '\'');
    if '\'' in filename {
      CommandQuoteEndsEarly(filename, IndexOf(filename, '\'').value);
    } else {
      CommandQuotesPlainFilename(filename);
    }
  }

  /** A filename of the form `name'injected'` ends the quoted argument
      after `name`: the text after the first quoted region is `injected`
      followed by two quotes, so the shell starts reading `injected`
      outside quotes, as further shell syntax (up to its own next quote, if
      it has one). */
  lemma QuoteBreakout(name: string, injected: string)
    requires '\'' !in name
    ensures SplitAtQuotes(Command(name + "'" + injected + "'")) == Some((ProxyScript + " ", name, injected + "''"))
  {
    var f := name + "'" + injected + "'";
    IndexOfNone(name, '\'');
    OpeningQuoteAfterHead(name, injected);
    CommandQuoteEndsEarly(f, |name|);
    assert f[..|name|] == name;
    assert f[|name| + 1..] + "'" == injected + "''";
  }

  /** `_error_response`: an error envelope whose message names the file and
      then gives the diagnostic after a comma. */
  function ErrorResponse(filename: string, errorMsg: string): (env: Envelope)
    ensures ReportsFailureOf(env, filename)
    ensures IsSuffix(", " + errorMsg, env.msg)
    ensures |env.msg| == |ErrorPrefix| + |filename| + 2 + |errorMsg|
  {
    Envelope("error", "", ErrorPrefix + filename + ", " + errorMsg)
  }

  /** The diagnostic of the `except` clause that catches a failure. The
      clauses are tried in order: authentication, then SSH, then any other
      exception, which is reported by its text alone. */
  function FailureDiagnostic(e: Failure): (d: string)
    ensures IsSuffix(e.text, d)
    ensures e.isAuthentication ==> "SSH Authentication failed: " <= d
    ensures !e.isAuthentication && e.isSsh ==> "SSH connection error: " <= d
    ensures e.isAuthentication ==> |d| == |"SSH Authentication failed: "| + |e.text|
    ensures !e.isAuthentication && e.isSsh ==> |d| == |"SSH connection error: "| + |e.text|
    ensures d == e.text <==> !e.isAuthentication && !e.isSsh
  {
    if e.isAuthentication then "SSH Authentication failed: " + e.text
    else if e.isSsh then "SSH connection error: " + e.text
    else e.text
  }

  /** Text placed in an error message after the filename keeps its own
      substrings and suffixes. */
  lemma MessageKeepsDiagnostic(filename: string, detail: string, t: string)
    ensures IsSuffix(t, detail) ==> IsSuffix(t, ErrorResponse(filename, detail).msg)
    ensures Contains(detail, t) ==> Contains(ErrorResponse(filename, detail).msg, t)
  {
    var msg := ErrorResponse(filename, detail).msg;
    SuffixOfConcat(ErrorPrefix + filename + ", ", detail);
    if IsSuffix(t, detail) {
      SuffixTransitive(t, detail, msg);
    }
    if Contains(detail, t) {
      ContainsInSuffix(msg, detail, t);
    }
  }

  const ExitStatusLead := "Legacy system processing failed - Exit code: "

  /** The diagnostic for a command that exited with a non-zero status: it
      gives the status and, last, the error stream as received. */
  function ExitStatusDiagnostic(exitStatus: int, stderr: string): (d: string)
    ensures Contains(d, "Exit code: " + IntToString(exitStatus))
    ensures ExitStatusLead + IntToString(exitStatus) + ", " <= d
    ensures IsSuffix("Error: " + stderr, d)
    ensures |d| == |ExitStatusLead| + |IntToString(exitStatus)| + |", Error: "| + |stderr|
  {
    var num := IntToString(exitStatus);
    var lead := ExitStatusLead + num + ", ";
    var trailer := "Error: " + stderr;
    var d := lead + trailer;
    assert ExitStatusLead == "Legacy system processing failed - " + "Exit code: ";
    assert d == "Legacy system processing failed - " + ("Exit code: " + num) + (", " + trailer);
    ContainsInConcat("Legacy system processing failed - ", "Exit code: " + num, ", " + trailer);
    assert d[..|lead|] == lead;
    SuffixOfConcat(lead, trailer);
    d
  }

  /** The diagnostic names its exit status and error stream unambiguously:
      equal diagnostics come from equal statuses and equal error streams. */
  lemma ExitStatusDiagnosticInjective(s1: int, e1: string, s2: int, e2: string)
    requires ExitStatusDiagnostic(s1, e1) == ExitStatusDiagnostic(s2, e2)
    ensures s1 == s2 && e1 == e2
  {
    var d := ExitStatusDiagnostic(s1, e1);
    var c1, c2 := IntToString(s1), IntToString(s2);
    var n := |ExitStatusLead|;
    var lead1, lead2 := ExitStatusLead + c1 + ", ", ExitStatusLead + c2 + ", ";
    assert lead1[n + |c1|] == ',' && lead2[n + |c2|] == ',';
    assert |c1| == |c2|;
    assert c1 == lead1[n..n + |c1|] == d[n..n + |c1|] == lead2[n..n + |c2|] == c2;
    IntToStringInjective(s1, s2);
    var t1, t2 := "Error: " + e1, "Error: " + e2;
    assert t1 == d[|d| - |t1|..] == t2;
    assert e1 == t1[7..] && e2 == t2[7..];
  }

  /** The decision part of `submit_file_request`: from the session outcome
      to the value returned. */
  function Interpret(filename: string, outcome: SessionOutcome, parse: string -> ParseOutcome): (r: Reply)
    ensures r.PassedThrough? <==>
      outcome.Completed? && outcome.exitStatus == 0 && parse(Strip(outcome.stdout)).Parsed?
    ensures r.PassedThrough? ==> r.doc == parse(Strip(outcome.stdout)).doc
    ensures r.Failed? ==> ReportsFailureOf(r.envelope, filename)
    ensures outcome.Raised? ==> IsSuffix(", " + FailureDiagnostic(outcome.failure), r.envelope.msg)
    ensures outcome.Completed? && outcome.exitStatus != 0 ==>
      && Contains(r.envelope.msg, "Exit code: " + IntToString(outcome.exitStatus))
      && IsSuffix("Error: " + outcome.stderr, r.envelope.msg)
    ensures outcome.Completed? && outcome.exitStatus == 0 && parse(Strip(outcome.stdout)).DecodeError? ==>
      IsSuffix("Invalid response format: " + Strip(outcome.stdout), r.envelope.msg)
    ensures outcome.Completed? && outcome.exitStatus == 0 && parse(Strip(outcome.stdout)).ParseRaised? ==>
      IsSuffix(", " + FailureDiagnostic(parse(Strip(outcome.stdout)).failure), r.envelope.msg)
    ensures outcome.Raised? ==>
      r == Failed(ErrorResponse(filename, FailureDiagnostic(outcome.failure)))
    ensures outcome.Completed? && outcome.exitStatus != 0 ==>
      r == Failed(ErrorResponse(filename, ExitStatusDiagnostic(outcome.exitStatus, outcome.stderr)))
    ensures outcome.Completed? && outcome.exitStatus == 0 && parse(Strip(outcome.stdout)).DecodeError? ==>
      r == Failed(ErrorResponse(filename, "Invalid response format: " + Strip(outcome.stdout)))
    ensures outcome.Completed? && outcome.exitStatus == 0 && parse(Strip(outcome.stdout)).ParseRaised? ==>
      r == Failed(ErrorResponse(filename, FailureDiagnostic(parse(Strip(outcome.stdout)).failure)))
  {
    match outcome
    case Raised(e) => Failed(ErrorResponse(filename, FailureDiagnostic(e)))
    case Completed(exitStatus, stdout, stderr) =>
      if exitStatus == 0 then
        var output := Strip(stdout);
        match parse(output)
        case Parsed(doc) => PassedThrough(doc)
        case DecodeError =>
          Failed(ErrorResponse(filename, "Invalid response format: " + output))
        case ParseRaised(e) => Failed(ErrorResponse(filename, FailureDiagnostic(e)))
      else
        var detail := ExitStatusDiagnostic(exitStatus, stderr);
        MessageKeepsDiagnostic(filename, detail, "Exit code: " + IntToString(exitStatus));
        Failed(ErrorResponse(filename, detail))
  }

  /** An exception from `json.loads` other than `JSONDecodeError` escapes
      the inner `try` and is reported exactly as an exception raised by the
      session itself, without the invalid-format text. */
  lemma ParseFailureReportedAsSessionFailure(filename: string, stdout: string, stderr: string, parse: string -> ParseOutcome)
    requires parse(Strip(stdout)).ParseRaised?
    ensures Interpret(filename, Completed(0, stdout, stderr), parse)
         == Interpret(filename, Raised(parse(Strip(stdout)).failure), parse)
  {
  }

  /** `submit_file_request`: run the command for the filename and interpret
      the outcome. Every path returns; none raises. */
  function SubmitFileRequest(filename: string, run: string -> SessionOutcome, parse: string -> ParseOutcome): (r: Reply)
    ensures r.PassedThrough? ==> run(Command(filename)).Completed? && run(Command(filename)).exitStatus == 0
    ensures r.Failed? ==> ReportsFailureOf(r.envelope, filename)
  {
    Interpret(filename, run(Command(filename)), parse)
  }

  /** With a non-zero exit status the standard output plays no part. */
  lemma NonZeroExitIgnoresStdout(filename: string, exitStatus: int, out1: string, out2: string, stderr: string, parse: string -> ParseOutcome)
    requires exitStatus != 0
    ensures Interpret(filename, Completed(exitStatus, out1, stderr), parse)
         == Interpret(filename, Completed(exitStatus, out2, stderr), parse)
  {
  }

  /** The route `GET /file/<filename>`: HTTP 200 with the returned value as
      the body, whether it is the remote document or an error envelope. */
  function GetFile(filename: string, run: string -> SessionOutcome, parse: string -> ParseOutcome): (r: JsonReply)
    ensures r.status == 200
    ensures r.body == SubmitFileRequest(filename, run, parse).ToJson()
    ensures SubmitFileRequest(filename, run, parse).Failed? ==>
      var env := SubmitFileRequest(filename, run, parse).envelope;
      FromJson(r.body) == Some(env) && ReportsFailureOf(env, filename)
  {
    var result := SubmitFileRequest(filename, run, parse);
    if result.Failed? then ToJsonRoundTrip(result.envelope); JsonReply(200, result.ToJson())
    else JsonReply(200, result.ToJson())
  }

  /** The route `GET /health`: HTTP 200, status "healthy" and the service
      name; the SSH client is not consulted. */
  function HealthCheck(timestamp: string): (r: JsonReply)
    ensures r.status == 200
    ensures Get(r.body, "status") == Some(JString("healthy"))
    ensures Get(r.body, "service") == Some(JString("local-server"))
    ensures Get(r.body, "timestamp") == Some(JString(timestamp))
  {
    var members := [("status", JString("healthy")), ("timestamp", JString(timestamp)), ("service", JString("local-server"))];
    assert Lookup(members[1..], "timestamp") == Some(JString(timestamp));
    assert Lookup(members[1..][1..], "service") == Some(JString("local-server"));
    JsonReply(200, JObject(members))
  }
}
