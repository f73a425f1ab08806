# ejabberd external authentication, modelled in Dafny

This project models the protocol engine of `ejabberd_external_auth.php`. It is the base class that an
ejabberd server runs as an external authentication program.

The server writes request frames to the program's standard input. Each frame is a two-byte big-endian
length followed by a payload such as `auth:user:server:password`. For every request it can parse, the
program answers with a four-byte frame: the length 2, then 1 or 0. The one exception is a request whose
provider method throws. It gets no answer, and the loop ends there.

The modules follow the program's own structure:

- `Octets`: bytes and the 16-bit big-endian integers of `pack`/`unpack` format `n`.
- `Transport`: `read`. Both of its reads go through a model of `fgets`, which stops early after a 0x0A
  byte. End of input is when the header read runs out of input before it has two bytes or a newline.
- `Parser`: `parseMessage`. It is `explode(':')` with no limit, then a positional reading of the fields.
- `Dispatch`: the command table of the two `switch` blocks, gated by whether the provider implements
  `EjabberdExternalAuth_UserManagement`.
- `Response`: `respond`, that is `pack('nn', 2, status)`.
- `Logger`: the severity filter of `log`. It uses the `$logLevel` in force, which is a parameter because the
  property is public and static.
- `Engine`: the `while (true)` loop of `work` and the constructor around it.
  - `Requests` is what framing and parsing make of the input bytes.
  - `Serve` dispatches a list of requests.
  - `Run` is the loop over bytes. `RunServes` proves that `Run` is the two layers composed.
  - `Construct` adds the constructor's log calls and its `catch`.
- `Scenarios`: three whole exchanges with their exact output bytes.

The provider is abstract.
- A flag says whether it has the user-management methods.
- A function gives the answer to each call: a boolean, or an exception. The function also receives the
  calls made before, so providers that keep state, such as a database, can be expressed.

Two consequences of how the code is arranged:

- An exception thrown by a provider method ends the loop. The provider calls sit outside the inner `try`
  (lines 82-88), which only catches `UnexpectedValueException` from `read` and `parseMessage`. So the
  exception reaches the constructor's `catch` (lines 65-69), which logs it and exits.
- Invalid lengths and too-short messages are logged by the inner `catch` (line 86) at `LOG_ERR`, the
  default severity of `log` (line 157).

The line-oriented reads are kept as written. The model proves what they do to some frames:

- A payload with an inner 0x0A byte is cut after that byte. The bytes after it are read as the next
  header (`EmbeddedNewlineCutsPayload`).
- A payload of 2560 to 2815 bytes has 0x0A as its first length byte, so it is rejected as an invalid
  length (`NewlineLengthByteRejectsFrame`).
- A lone 0x0A byte left at the end is read by the header `fgets` without reaching the end of input. So it
  is logged as an invalid length, and only the next read finds the pipe broken (`TrailingNewline`,
  `TrailingNewlineLogged`).

## Model

| member | source | states |
|---|---|---|
| Octets.Unpack16 | ejabberd_external_auth.php:131 | `unpack('n')` of two bytes is a value below 65536 whose high and low bytes are the two bytes read |
| Octets.Pack16 | ejabberd_external_auth.php:152 | `pack('n')` gives two bytes that `unpack('n')` reads back as the packed value |
| Octets.PackUnpack | ejabberd_external_auth.php:131-152 | every pair of bytes is the packing of the value it unpacks to |
| Octets.PackInjective | ejabberd_external_auth.php:152 | distinct 16-bit values pack to distinct byte pairs |
| Transport.ReadUpTo | ejabberd_external_auth.php:125-136 | `fgets` with limit max+1 splits the input into the bytes read and the bytes left, reads at most max bytes and no newline before its last byte, and stops short of max only at a newline or at end of input |
| Transport.FgetsStopUnique | ejabberd_external_auth.php:125-136 | the stopping rule of `fgets` allows only one stopping point |
| Transport.ReadUpToCharacterized | ejabberd_external_auth.php:125-136 | any split that obeys the stopping rule is the one `fgets` makes |
| Transport.AtEndIsExhaustedRead | ejabberd_external_auth.php:125-129 | `feof` after the header read holds exactly when that `fgets` took all the input and stopped neither at two bytes nor after a newline |
| Transport.ReadFrame | ejabberd_external_auth.php:124-138 | a header read that runs out of input is "Pipe broken"; a header cut by a leading 0x0A, including a lone trailing 0x0A, or a zero length is an invalid length; both consume the header bytes read; otherwise the payload follows the header, is never longer than the declared length, and ends where `fgets` stops; every outcome except end of input consumes input and leaves a suffix |
| Transport.EncodeFrame | ejabberd_external_auth.php:131-136 | the frame a peer sends is the big-endian length, which reads back as the payload length, followed by the payload |
| Transport.FrameRoundTrip | ejabberd_external_auth.php:124-138 | a frame whose payload has no inner newline, and whose length does not start with 0x0A, is read back whole, and reading resumes right after it |
| Transport.EmbeddedNewlineCutsPayload | ejabberd_external_auth.php:136 | a newline inside the payload ends the payload read right after it, leaving the rest of the payload in the input |
| Transport.NewlineLengthByteRejectsFrame | ejabberd_external_auth.php:125-133 | a frame of 2560 to 2815 payload bytes is rejected as an invalid length after one header byte |
| Transport.TrailingNewline | ejabberd_external_auth.php:125-134 | a lone 0x0A at the end is an invalid length, and only the empty input after it is a broken pipe |
| Parser.Split | ejabberd_external_auth.php:141 | `explode(':')` gives one more field than there are colons; no field holds a colon; joining the fields with colons gives back the payload |
| Parser.SplitJoin | ejabberd_external_auth.php:141-143 | splitting undoes joining for fields without colons |
| Parser.ParseMessage | ejabberd_external_auth.php:140-149 | a payload is too short exactly when it has fewer than two colons, and the error carries the payload rebuilt by `join`; otherwise the result is the request the payload describes: its first three fields, then the fourth as password or none, and nothing after it |
| Parser.ParseDescribed | ejabberd_external_auth.php:141-148 | every payload that describes a request parses to that request, so a payload describes at most one request |
| Parser.ParseExtended | ejabberd_external_auth.php:146-147 | fields after the fourth are read and dropped |
| Parser.ParseFormat | ejabberd_external_auth.php:140-149 | a request whose fields hold no colon is parsed back unchanged from its payload |
| Parser.ColonInPasswordTruncates | ejabberd_external_auth.php:141-147 | a password holding a colon reaches the provider cut at its first colon |
| Dispatch.Route | ejabberd_external_auth.php:92-118 | an unrecognised command, or a user-management command to a provider without that capability, reaches no method; a recognised one reaches the method it names, with the request's user and server, and its password exactly when the method takes one (`removeuser` and `isuser` do not) |
| Dispatch.CommandNamesDistinct | ejabberd_external_auth.php:94-117 | no two methods share a command name |
| Dispatch.RouteRequestFor | ejabberd_external_auth.php:92-118 | the request for a method reaches exactly that method when the provider has the method's capability, and no method otherwise |
| Engine.RoutedCalls | ejabberd_external_auth.php:92-118 | the methods a run of requests reaches number at most one per request, and none needs user management unless the provider has it |
| Engine.Handle | ejabberd_external_auth.php:92-120 | handling one request calls the method it reaches and nothing else; an unrouted request is answered false; a routed one is answered with what the method returns, or throws what it throws |
| Engine.Serve | ejabberd_external_auth.php:81-121 | requests are answered one status each, all of them unless a provider call throws, with at most one call per request answered plus the one that threw |
| Engine.ServeCalls | ejabberd_external_auth.php:92-118 | the calls made are exactly the methods the handled requests reach, in order; provider answers never change which methods are called |
| Engine.ServeStatus | ejabberd_external_auth.php:92-120 | the i-th status is what handling the i-th request gives, after the calls of all earlier requests |
| Engine.ServeFault | ejabberd_external_auth.php:92-118 | a run stops only at a request whose method throws, with that exception |
| Engine.ServeNeverThrows | ejabberd_external_auth.php:81-121 | with a provider that never throws, every request is answered |
| Engine.ServeUnrouted | ejabberd_external_auth.php:92-101 | requests that reach no method are all answered false, and nothing is called |
| Engine.Receive | ejabberd_external_auth.php:82-88 | one `read` and `parseMessage` ends the input exactly when the header read runs out of input; otherwise it consumes input and leaves a suffix of it |
| Engine.Run | ejabberd_external_auth.php:78-122 | the loop stops at end of input only where the header read runs out of input |
| Engine.RunAtEnd | ejabberd_external_auth.php:125-129 | at end of input the loop stops at once, with no output, call or log line |
| Engine.RunServes | ejabberd_external_auth.php:78-122 | the loop over bytes sends the statuses, makes the calls and ends as dispatching the parsed requests does |
| Engine.RunOutput | ejabberd_external_auth.php:120-154 | the loop's output is one response frame per status, in order, and nothing else |
| Engine.OutputFrames | ejabberd_external_auth.php:120-154 | the output is four bytes per status, and reading it back as frames gives the statuses |
| Engine.LoopIsServe | ejabberd_external_auth.php:78-122 | the loop's statuses, calls and ending match those of dispatching the parsed requests |
| Engine.LoopCalls | ejabberd_external_auth.php:81-121 | the loop handles the parsed requests in order, all of them when it ends at end of input; its calls are exactly the methods the handled requests reach |
| Engine.CoreProviderGate | ejabberd_external_auth.php:103 | a provider without user management only ever receives `authenticate` and `exists` calls |
| Engine.LoopStatus | ejabberd_external_auth.php:92-120 | the i-th response answers the i-th parsed request, handled after the calls of all requests before it |
| Engine.LoopFault | ejabberd_external_auth.php:65-69 | the loop ends before the end of input only at a request whose method threw, with that exception |
| Engine.LoopNeverThrows | ejabberd_external_auth.php:81-128 | with a provider that never throws, the loop answers every parsed request and ends at end of input |
| Engine.LoopUnrouted | ejabberd_external_auth.php:92-120 | input whose requests reach no method is answered false for every request, with no call |
| Engine.ZeroLengthResumes | ejabberd_external_auth.php:131-134 | a zero-length header writes nothing and calls nothing; it logs one error, and the loop goes on right after the header |
| Engine.TrailingNewlineLogged | ejabberd_external_auth.php:125-134 | a lone trailing 0x0A writes and calls nothing, logs one invalid-length error, and then the loop ends at end of input |
| Engine.TooShortResumes | ejabberd_external_auth.php:142-144 | a payload with fewer than two colons writes nothing and calls nothing; it logs one error carrying the payload, and the loop goes on right after it |
| Engine.ReceiveFrame | ejabberd_external_auth.php:83-84 | a well-framed request without inner newlines is received whole, and reading resumes after its frame |
| Engine.RequestsOfFrame | ejabberd_external_auth.php:81-88 | the requests parsed from such a frame and what follows are that request, then the requests of what follows |
| Engine.SessionLines | ejabberd_external_auth.php:63-71 | when the log is open and takes info and error lines, the start, the loop entry, the exception that ended the loop and the exit are always written, around what the loop writes; with no log open, nothing is |
| Engine.Construct | ejabberd_external_auth.php:52-72 | the constructor's output is four bytes per status and reads back as the loop's statuses; the log gets no line when none is open and only severities in `$logLevel`, so no debug line unless `$logLevel` includes debug |
| Engine.ConstructLog | ejabberd_external_auth.php:63-71 | when the log is open and takes info and error lines, it opens with the start and closes with the caught exception and then the exit, however the loop ended |
| Response.Encode | ejabberd_external_auth.php:151-152 | a response is four bytes that read as the length 2 and then 1 for true or 0 for false |
| Response.WireBytes | ejabberd_external_auth.php:152 | the two responses are exactly `00 02 00 01` and `00 02 00 00` |
| Response.DecodeEncode | ejabberd_external_auth.php:152 | a frame reads back as a status exactly when it is that status's encoding |
| Response.Responses | ejabberd_external_auth.php:120-154 | the output for a run of statuses is four bytes per status, and the i-th four bytes are the i-th status's frame |
| Response.DecodeAllResponses | ejabberd_external_auth.php:152-154 | the output for a run of statuses reads back as those statuses |
| Logger.EnabledSeverities | ejabberd_external_auth.php:39 | under the default `$logLevel`, an open log takes exactly the calls whose severity is not notice or debug; with no log open, none |
| Logger.Written | ejabberd_external_auth.php:157-158 | the lines written are no more than the calls, all have a severity in the `$logLevel` in force, and there are none with no log open |
| Logger.WrittenMembers | ejabberd_external_auth.php:158 | every line written is one of the calls, and every enabled call is written |
| Logger.WrittenQuiet | ejabberd_external_auth.php:39 | under the default `$logLevel`, notice and debug calls never reach the log |
| Logger.WrittenAppend | ejabberd_external_auth.php:157-158 | filtering two stretches of calls is filtering each in turn |
| Scenarios.AuthScenario | ejabberd_external_auth.php:94-97 | the frame `00 0A` "auth:bob:x" calls `authenticate("bob", "x", null)`; when that returns true, the output is `00 02 00 01` |
| Scenarios.ShortScenario | ejabberd_external_auth.php:141-144 | the frame `00 05` "ab:cd" writes and calls nothing, logs one error, and leaves the frames after it to be read as if it were not there |
| Scenarios.RemoveUserScenario | ejabberd_external_auth.php:103-113 | a provider without user management gets no call for "removeuser:bob:x", and the output is `00 02 00 00` |

## Left out

- Stream plumbing is not modelled: `fopen` of standard input, standard output and the log file, plus `fwrite` and buffering. Standard input and output are byte sequences, and the log is the list of `log` calls.
- The PDO handle and the `db()` accessor are not modelled. They are an opaque dependency that only concrete providers use.
- `set_error_handler` and `errorHandler` are not modelled. They depend on PHP runtime warnings.
  - A header cut short by a 0x0A byte is modelled as PHP 7 behaves: `unpack` warns, `current` of its `false` result warns and gives no length, and the frame is an invalid length.
  - Under PHP 7 the handler also logs those warnings, with the warning level as severity (`E_WARNING`, the same number as `LOG_CRIT`). The model's log leaves these lines out.
  - Under PHP 8 either `current(false)` at line 131 throws a `TypeError`, or the first warning reaches the five-parameter `errorHandler` (line 176) with four arguments and throws an `ArgumentCountError`. Both are `Error`s, which `catch (Exception $e)` at line 67 does not catch. That run is not modelled.
- `feof` is modelled as true exactly when the header `fgets` ran out of input before it had two bytes or a newline. Otherwise, the end-of-file flag of a pipe is not modelled.
- Log lines are not formatted: date, process id, `%9s` padding, and the `json_encode` and `bin2hex` texts. Each `log` call is an event with an abstract severity.
- The numeric syslog constants are left out. `LOG_EMERG` and `LOG_KERN` share a value, so in PHP the name table collapses. The model keeps them as distinct severities.
- Concrete providers are left out, and so is the `(int)` cast of non-boolean provider results. Provider methods answer a boolean or throw.
- PHP `Error` throwables are not modelled. They are not caught by `catch (Exception $e)`, so the program would end without logging "Exiting...". Provider failures are modelled as exceptions only.
- Engine.Run: its own contract states only the end-of-input bound. Output, calls and ending are stated by RunOutput, RunServes and the Loop lemmas.
