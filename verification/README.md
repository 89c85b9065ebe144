# File retrieval bridge: local server and remote file server

The system fetches files held by a legacy host on behalf of HTTP clients.

- **Local server** (`local-server/app.py`). A Flask application. For `GET /file/<filename>` it opens an SSH session to the legacy host. There it runs `/home/legacy/proxy_request.sh '<filename>'`. It then turns the outcome into the response body:
  - the JSON document the script printed, or
  - a locally built error envelope `{status: "error", data: "", msg: "there was an error retrieving <filename>, <diagnostic>"}`.

  The reply is HTTP 200 either way, as long as the `JOB_TIMEOUT` setting is an integer (see "Left out"). `GET /health` answers with a liveness record.
- **Remote file server** (`remote-server-2/file_server.py`). A `BaseHTTPRequestHandler`.
  - `GET /file/<name>` answers with the content of the file that `basename(name)` names inside one directory, or with an error envelope naming the request.
  - `GET /health` answers with a liveness record that names the formatting mode.
  - Any other path gets a 404 with `"Invalid endpoint"`.
  - In Windows mode the body is compact JSON, passed through a rewrite of every line feed into CRLF, and the `Server` header that `json_response` adds says IIS (it comes after the one `send_response` writes itself). Otherwise the body is indented JSON with a Python server header.
  - `Content-Length` is the number of UTF-8 bytes of the body.

The Dafny modules follow that structure:

| module | file | contents |
|---|---|---|
| `Strings` | `strings.dfy` | Python `str.strip()` with Python's whitespace set, `find`/`rfind` for one character, and the suffix and substring predicates the contracts use |
| `Decimal` | `decimal.dfy` | `str(int)` and a reader that inverts it |
| `Utf8` | `utf8.dfy` | `str.encode('utf-8')` |
| `JsonValues` | `json_values.dfy` | JSON documents as values, with objects that keep insertion order |
| `Envelopes` | `envelopes.dfy` | the `{status, data, msg}` envelope both servers use |
| `PosixPath` | `posix_path.dfy` | `os.path.basename` and `os.path.join` with POSIX separators |
| `LegacyClient` | `legacy_client.dfy` | the local server |
| `FileServer` | `file_server.dfy` | the remote file server |

Neither server updates the state of its objects after construction. Both are therefore modelled as functions:
- The handler's two settings are a `Handler` value.
- A response that the remote server writes to its socket is returned as a `Response` record: status, headers in order, body bytes.
- Calls into libraries whose text formats are not modelled become function parameters:
  - the SSH session is `run`, from command to outcome;
  - `json.loads` is `parse`, which yields a document, a `JSONDecodeError`, or another exception;
  - `json.dumps` in its two configurations is a `Serializer`;
  - `urllib.parse.unquote` is `unquote`;
  - the clock is a `timestamp` string.
- The files the remote server can read are a map from path to `Readable(content)` or `Unreadable`. `Unreadable` means `open`/`read` raises.

## Model

| member | source | states |
|---|---|---|
| `LegacyClient.Interpret` | local-server/app.py:58-79 | The remote document is passed through exactly when the command completed with exit status 0 and `json.loads` returns a document for the stripped stdout, and it is that document. Every other outcome is an error envelope naming the filename. For each failing branch the result is exactly the error envelope for the filename with that branch's diagnostic. An exception raised by the session, or by `json.loads` with anything other than `JSONDecodeError`, gets the except-clause diagnostic. A non-zero exit gets the exit-status diagnostic. A `JSONDecodeError` gets `Invalid response format: ` followed by the stripped stdout. |
| `LegacyClient.SubmitFileRequest` | local-server/app.py:34-79 | The remote document is returned only if the quoted proxy command completed with exit status 0. Every other result is an error envelope naming the filename. No path raises. |
| `LegacyClient.FailureDiagnostic` | local-server/app.py:71-79 | The except clauses apply in order. An authentication failure gets the authentication prefix, even though it is also an SSH failure. Another SSH failure gets the SSH prefix. Any other exception is reported by its text alone, and exactly then is the diagnostic equal to that text. With a prefix, the diagnostic is exactly that prefix followed by the text. |
| `LegacyClient.ExitStatusDiagnostic` | local-server/app.py:69 | The non-zero exit diagnostic starts with `Legacy system processing failed - Exit code: `, the decimal status and `, `. It ends with `Error: ` followed by the error stream, and nothing else lies between the two parts. |
| `LegacyClient.ExitStatusDiagnosticInjective` | local-server/app.py:69 | Two equal exit diagnostics come from the same exit status and the same error stream. |
| `LegacyClient.ParseFailureReportedAsSessionFailure` | local-server/app.py:62-79 | An exception from `json.loads` other than `JSONDecodeError` is not caught at line 64. It gives exactly the reply an exception raised by the session would give. |
| `LegacyClient.NonZeroExitIgnoresStdout` | local-server/app.py:58-69 | With a non-zero exit status, the standard output has no influence on the result. |
| `LegacyClient.ErrorResponse` | local-server/app.py:81-86 | The error envelope has status "error" and empty data. Its message starts with the filename prefix, ends with `, ` followed by the diagnostic, and has exactly the length of those parts. |
| `LegacyClient.MessageKeepsDiagnostic` | local-server/app.py:85 | Any suffix or substring of the diagnostic is also one of the final message. |
| `LegacyClient.Command` | local-server/app.py:45 | The command starts with the script path, a space and an opening quote. It ends with the filename and a closing quote, and it is exactly three characters longer than script and filename together, so nothing is escaped. |
| `LegacyClient.CommandQuotesPlainFilename` | local-server/app.py:45 | For a filename without a single quote, a POSIX shell reads the script path, then the whole filename as the quoted argument, and nothing after it. |
| `LegacyClient.CommandQuoteEndsEarly` | local-server/app.py:45 | For a filename whose first single quote is at index k, the quoted argument is only the first k characters. The rest of the filename and the closing quote follow the first quoted region, so the shell starts reading them outside quotes (up to their own next quote, if they have one). |
| `LegacyClient.QuotedArgumentIsFilenameIff` | local-server/app.py:45 | The filename reaches the script intact as the single quoted argument if and only if it contains no single quote. |
| `LegacyClient.QuoteBreakout` | local-server/app.py:45 | For a filename `name'injected'` with `name` quote-free, the quoted argument is `name`. The text after the first quoted region is `injected` followed by `''`, so the remote shell starts reading `injected` outside any quotes, as shell syntax (up to its own next quote, if it has one). |
| `LegacyClient.GetFile` | local-server/app.py:89-100 | `GET /file/<filename>` is HTTP 200 with the result of the request as body, given a `JOB_TIMEOUT` that parses as an integer. When that result is an error, the body reads back as the same envelope, naming the filename. |
| `LegacyClient.HealthCheck` | local-server/app.py:102-108 | HTTP 200 with status "healthy", service "local-server" and the given timestamp. |
| `Envelopes.ToJsonRoundTrip` | local-server/app.py:82-86 | An envelope written as a JSON object reads back as the same envelope. |
| `Strings.Strip` | local-server/app.py:59 | `strip()` returns a slice of the input that has only whitespace before and after it, and whose first and last characters are not whitespace. |
| `Strings.StripUnique` | local-server/app.py:59 | Any such slice with non-whitespace ends is the result of `strip()`, so the two properties above characterise it. |
| `Strings.StripIdempotent` | local-server/app.py:59 | Stripping an already stripped output changes nothing. |
| `Decimal.IntToString` | remote-server-2/file_server.py:64 | `str(n)` is non-empty, starts with `-` exactly for negative `n`, is otherwise made of decimal digits, and has no leading zero unless it is `0` itself (also used for the exit status in local-server/app.py:69). |
| `Decimal.IntToStringRoundTrip` | remote-server-2/file_server.py:64 | `str(n)` of every integer reads back as `n`. A `Content-Length` value therefore determines the byte count it was made from (also the exit status in local-server/app.py:69). |
| `Decimal.IntToStringInjective` | local-server/app.py:69 | Distinct exit statuses give distinct `Exit code:` texts. |
| `FileServer.DoGet` | remote-server-2/file_server.py:14-23 | A path starting with `/file/` is a file request for the unquoted remainder after six characters. Exactly `/health` is the health check. Every other path, and only those, gets status 404 with `Invalid endpoint`. |
| `FileServer.LookupPath` | remote-server-2/file_server.py:27 | The looked-up path is the directory prefix followed by the basename of the request, and its own basename is that of the request. |
| `FileServer.IsFile` | remote-server-2/file_server.py:29 | A path is a regular file only if it is in the file map and does not end with `/`. A last component that is empty, `.` or `..` never names one. |
| `FileServer.FileEnvelope` | remote-server-2/file_server.py:25-41 | Success, with the file's content and `data returned`, happens exactly when the joined path is a regular file that can be read. Otherwise the result is an error whose message is the prefix followed by the filename as received. |
| `FileServer.ServeFile` | remote-server-2/file_server.py:25-41 | A file request is answered with HTTP 200 whether or not the file was read, and carries the envelope. |
| `FileServer.ServedFileIsInDirectory` | remote-server-2/file_server.py:27-31 | Whatever is served is the file at the configured directory, a separator, and one component that has no `/` and is not empty, `.` or `..`. No request reaches a file outside that directory. |
| `FileServer.DirectoryComponentsIgnored` | remote-server-2/file_server.py:27 | Directory components in a request do not change whether or what is served. |
| `FileServer.HealthRecord` | remote-server-2/file_server.py:44-49 | The health record has status "healthy", service "remote-server-2", and mode "Windows" or "Unix" following the handler's setting. |
| `FileServer.HealthCheck` | remote-server-2/file_server.py:43-49 | The health response is HTTP 200 and carries the health record. |
| `FileServer.JsonResponse` | remote-server-2/file_server.py:51-66 | The response has the requested status. Its body is the UTF-8 encoding of the mode's rendering of the data. `Content-Type` is `application/json`. `Server` is the IIS value in Windows mode and the Python value otherwise. `Content-Length` reads back as the exact number of body bytes. |
| `FileServer.ErrorResponse` | remote-server-2/file_server.py:68-73 | The response carries the envelope with status "error", empty data and the given message, with the given status code. |
| `FileServer.LfToCrLf` | remote-server-2/file_server.py:55 | After the rewrite, every line feed is preceded by a carriage return. Text without line feeds is unchanged. |
| `FileServer.LfToCrLfRoundTrip` | remote-server-2/file_server.py:55 | Turning CRLF back into LF recovers the serialised text exactly, so the rewrite loses nothing. |
| `PosixPath.Basename` | remote-server-2/file_server.py:27 | The basename is a suffix of the path without any `/`. When it is shorter than the path, a `/` precedes it. |
| `PosixPath.BasenameOfPlainName` | remote-server-2/file_server.py:27 | A name without `/` is its own basename. |
| `PosixPath.BasenameIgnoresDirectories` | remote-server-2/file_server.py:27 | `basename(dir + "/" + name) == basename(name)` for every `dir` and `name`. |
| `PosixPath.Join` | remote-server-2/file_server.py:27 | An absolute second argument replaces the first. Otherwise the result is the first argument, then one `/` only when the first is non-empty and does not already end with one, then the second. |
| `PosixPath.JoinBasenameStaysInDirectory` | remote-server-2/file_server.py:27 | Joining the directory with the basename of any request gives the directory, a separator where needed, and that one component. The absolute-path case of `join` is never reached. |
| `PosixPath.JoinKeepsBasename` | remote-server-2/file_server.py:27-29 | The component joined onto the directory is the basename of the joined path, which is what `isfile` judges. |
| `Utf8.Encode` | remote-server-2/file_server.py:64-66 | The UTF-8 encoding of the body has at least as many bytes as the body has characters. |
| `Utf8.EncodeCharRoundTrip` | remote-server-2/file_server.py:64-66 | The bytes of each character decode back to its code point. |
| `Utf8.EncodeLengthIsCharCountIffAscii` | remote-server-2/file_server.py:64 | The byte length used for `Content-Length` equals the character count if and only if the body is ASCII. |

## Left out

- SSH itself: `paramiko.SSHClient`, `AutoAddPolicy`, `connect` and `exec_command` are not modelled. The session is the parameter `run`, which maps the command to its exit status and decoded output streams, or to the exception raised. A `UnicodeDecodeError` from decoding the streams is an exception like any other, reported by its text.
- Timeouts: the connect timeout of 30 seconds and `JOB_TIMEOUT` are configuration only. The code reads `job_timeout` but never applies it to the remote command, and the model follows the code.
- `JOB_TIMEOUT`: the `LegacySystemClient` constructor (local-server/app.py:31) runs `int(...)` on it outside any `try`, in every `/file` request (local-server/app.py:94). A value that is not an integer makes each such request raise, and Flask answers 500. The model assumes the setting parses, so `GetFile` always answers 200.
- Environment variables (`LEGACY_HOST`, `LEGACY_USER`, `SSH_KEY_PATH`, `FILES_DIRECTORY`, `WINDOWS_MODE`, `PORT`, `HOST`): the two settings of the remote handler are the fields of `Handler`. The parsing of `WINDOWS_MODE` is not modelled.
- JSON text: `json.loads` and `json.dumps` are parameters, so the model does not fix the exact text the two serialiser configurations produce.
- FileServer.LfToCrLf: `Serializer.compact` is unconstrained, so the Windows-mode rewrite is modelled as a general rewrite. In the source it never changes anything, because `json.dumps` with compact separators writes no line feed and escapes line feeds inside strings.
- The default `ensure_ascii=True` of `json.dumps` makes every body ASCII, so its byte length equals its character count. The model does not assume this; `Utf8.EncodeLengthIsCharCountIffAscii` states when that equality holds.
- URL handling: `urlparse` is left out, and `DoGet` receives the path component. `unquote` is a parameter.
- Flask routing: the `<filename>` converter (which does not match `/`) and Flask's own 404 for other paths are not modelled. `GetFile` accepts any filename.
- Logging, request timing, `datetime.now()` (the timestamp is a parameter), and `main`/`app.run` server start-up.
- HTTP plumbing: `send_response`, which also adds its own `Server` and `Date` headers, `end_headers` and the socket write. The `Response` record holds the headers `json_response` sets and the bytes it writes.
- The real filesystem: it is a map of regular files keyed by the exact path string that `join` produces. `FILES_DIRECTORY` is joined as given and never normalised, so with a non-normalised directory such as `/app/./files` the model finds no file where `isfile` and `open` would find one. Only a normalised directory setting matches the real lookup. Symbolic links, permissions and the decoding of file bytes with `errors='replace'` are not modelled. `Readable` holds the text that reading returns.
- Concurrency between requests: no state is shared between requests in either server.
