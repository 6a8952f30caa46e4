# webpowerswitch, modelled in Dafny

A model of the command-line client for an 8-outlet Web Power Switch
(`webpowerswitch.go`). The client turns one outlet, or all of them, on, off or
power-cycles them by sending HTTP GET requests with basic authentication to
`http://{address}:{port}/outlet?...`. It reports the result only through the
process exit code.

The HTTP transport is an oracle `Transport = Request -> Status`: for each
request it either delivers it or reports a transport error. What an operation
does is then fully described by an `Exchange`: the requests it sent, in order,
and the error it returned, if any. Within one run no request is sent twice
(`PowerSwitch.OnRequestsDistinct`: each on-request decodes to its own outlet,
through `Decimal.FormatRoundTrip`). So an oracle that looks only at the request
is as general as one that also looks at the history.

Files:

- `wrappers.dfy`: module `Wrappers`, the `Option` type.
- `decimal.dfy`: module `Decimal`, Go's `%d` formatting (`Format`) and its exact inverse (`Parse`, which accepts only what `%d` writes: no leading zero, no `-0`).
- `powerswitch.dfy`: module `PowerSwitch`.
  - The `WebSwitch` connection settings.
  - Request building (`Url`, `NewRequest`, `Do`).
  - The six outlet operations, including the loop `OutletAllOn`. It is specified by `AllOn`: the eight on-requests sent in order by `SendUntilError`, which stops after the first transport error.
  - A decoder for the device's endpoint grammar (`Decode`, `DecodePath`). It is the inverse that every path builder is proved against.
  - `PathFor`, the path written for an instruction (`outlet?` target `=` action). Every path builder is proved to write `PathFor` of its instruction, and a path decodes to an instruction if and only if it is `PathFor` of it (`DecodePathExact`), so a decoded URL pins the request's URL character for character.
- `cli.dfy`: module `Cli`.
  - `Run`, the argument checks and dispatch of `main`, step by step. Its `switch` on the command word is `ParseCommand`.
  - The functions that specify `Run`: `ParseTarget`, `Perform` and `ExitCode`.

The tool is sometimes described as reading "all" and the commands
case-insensitively. The model follows the code, which does not: it
accepts only the exact spellings `all`/`ALL`, `on`/`ON`, `off`/`OFF` and
`cycle`/`CYCLE` (webpowerswitch.go:102, 113, 119, 125). `On` is an unknown
command, and `All` is read as an outlet number.

In Go, `OutletAllOn` and the other operations return only an error; the
requests they send are their effect on the network. In the model each
operation returns both, as an `Exchange`. `Run` returns the requests sent and
the exit code that `main` passes to `os.Exit`, or 0 when `main` returns.

## Model

| member | source | states |
|---|---|---|
| Decimal.NatDigits | webpowerswitch.go:38 | The digits of a natural number are non-empty, all decimal digits, and have no leading zero (the first is '0' only for 0). |
| Decimal.Format | webpowerswitch.go:38 | `%d` output is non-empty. It starts with '-' exactly for negative numbers and is otherwise decimal digits, so it holds no '=' or '/'. |
| Decimal.Parse | webpowerswitch.go:38 | A string read as a number is non-empty, begins with '-' exactly when the number is negative, and is otherwise canonical digits (no leading zero). |
| Decimal.DigitsValuePositive | webpowerswitch.go:38 | Digits without a leading zero stand for at least 1, and for at least 10 when there are two or more. |
| Decimal.DigitsCanonical | webpowerswitch.go:38 | Canonical digits are exactly the digits `%d` writes for their value. |
| Decimal.ParseCanonical | webpowerswitch.go:38 | Whatever Parse reads as i is exactly `%d` of i, character for character. |
| Decimal.DigitsRoundTrip | webpowerswitch.go:38 | Reading the digits of n back gives n. |
| Decimal.FormatRoundTrip | webpowerswitch.go:38 | Parsing what `%d` wrote gives back the number, for every int. |
| Decimal.FormatInjective | webpowerswitch.go:38 | Two numbers are formatted alike exactly when they are equal. |
| Decimal.ParseInjective | webpowerswitch.go:38 | Two strings read as the same number are the same string. |
| PowerSwitch.Url | webpowerswitch.go:38 | The URL `http://{address}:{port}/{path}` of this switch gives back exactly its path (`UrlPath`). |
| PowerSwitch.UrlPath | webpowerswitch.go:38 | A recovered path p means the URL is exactly `"http://" + address + ":" + decimal(port) + "/" + p`. |
| PowerSwitch.NewRequest | webpowerswitch.go:38-39 | The request carries the given method and the switch's username and password, and its URL gives back exactly the given path. |
| PowerSwitch.Do | webpowerswitch.go:37-42 | One call sends exactly one request, built for the given method and path, and returns the transport's verdict on that request. |
| PowerSwitch.PathForDecodes | webpowerswitch.go:45-73 | The path written for any instruction (outlet n or all, on/off/cycle) decodes back to that instruction. |
| PowerSwitch.DecodedPathIsPathFor | webpowerswitch.go:45-73 | A path that decodes to an instruction is character for character the path written for it. |
| PowerSwitch.DecodePathExact | webpowerswitch.go:45-73 | A path decodes to an instruction if and only if it is the path written for that instruction. |
| PowerSwitch.DecodeExact | webpowerswitch.go:38-73 | A URL decodes to an instruction if and only if it is this switch's URL of the path written for that instruction. |
| PowerSwitch.OnPath | webpowerswitch.go:45 | `outlet?{n}=ON` is the path written for "outlet n, on", for every int n. |
| PowerSwitch.OffPath | webpowerswitch.go:60 | `outlet?{n}=OFF` is the path written for "outlet n, off". |
| PowerSwitch.CyclePath | webpowerswitch.go:68 | `outlet?{n}=CCL` is the path written for "outlet n, cycle". |
| PowerSwitch.AllOffPath | webpowerswitch.go:64 | `outlet?a=OFF` is the path written for "all outlets, off". |
| PowerSwitch.AllCyclePath | webpowerswitch.go:73 | `outlet?a=CCL` is the path written for "all outlets, cycle". |
| PowerSwitch.OnRequestDecodes | webpowerswitch.go:44-46 | The on-request of outlet n is a GET with the switch's credentials whose URL asks this switch to switch outlet n on. |
| PowerSwitch.OutletOn | webpowerswitch.go:44-46 | OutletOn(n) sends exactly the on-request of outlet n and returns the transport's verdict on it. |
| PowerSwitch.OutletOff | webpowerswitch.go:59-61 | OutletOff(n) sends exactly one request, the GET for `outlet?{n}=OFF` with the switch's credentials. Its URL asks for "outlet n, off", and its verdict is returned. |
| PowerSwitch.OutletCycle | webpowerswitch.go:67-69 | OutletCycle(n) sends exactly one request, the GET for `outlet?{n}=CCL` with the switch's credentials. Its URL asks for "outlet n, cycle", and its verdict is returned. |
| PowerSwitch.OutletAllOff | webpowerswitch.go:63-65 | All-off sends exactly one request, the authenticated GET for `outlet?a=OFF`, whose URL asks for "all outlets, off". No per-outlet request is sent. |
| PowerSwitch.OutletCycleAll | webpowerswitch.go:71-74 | Cycle-all sends exactly one request, the authenticated GET for `outlet?a=CCL`, whose URL asks for "all outlets, cycle". No per-outlet request is sent. |
| PowerSwitch.SingleOutletPaths | webpowerswitch.go:45 | For outlets 1..8 the paths are exactly `outlet?` + the outlet's digit + `=ON`, `=OFF` or `=CCL`. |
| PowerSwitch.OnRequestsDistinct | webpowerswitch.go:45 | Different outlets give different on-requests. |
| PowerSwitch.OnRequests | webpowerswitch.go:50-51 | The loop's requests are eight, the j-th the on-request of outlet j+1. |
| PowerSwitch.SendUntilError | webpowerswitch.go:50-56 | Sending in order until the first error sends a prefix of the requests, non-empty when there are any, and all of them when the result is success. |
| PowerSwitch.AllOn | webpowerswitch.go:50-56 | All-on sends the first one to eight on-requests, in order, and all eight when it succeeds. |
| PowerSwitch.SendUntilFirstFailure | webpowerswitch.go:50-55 | If request k is the first the transport fails, exactly requests 0..k are sent and the result is k's error. |
| PowerSwitch.SendAllDelivered | webpowerswitch.go:50-56 | If every request is delivered, all of them are sent, in order, and the result is success. |
| PowerSwitch.SendUntilErrorShape | webpowerswitch.go:50-56 | Whatever the transport does, the requests sent are a non-empty prefix of the list. Every one but the last was delivered and the result is the verdict on the last. Success means the whole list was sent. |
| PowerSwitch.OutletAllOn | webpowerswitch.go:48-57 | The loop over outlets 1..8 with its early return on error sends exactly what `AllOn` sends (the eight on-requests, in order, until the first error) and ends the same way. |
| PowerSwitch.AllOnOrder | webpowerswitch.go:48-57 | All-on sends between 1 and 8 requests. Request j switches on outlet j+1, so the outlets are 1, 2, ... in strictly ascending order. Every request but the last was delivered, and the result is the verdict on the last request sent. |
| PowerSwitch.AllOnStopsAtFirstFailure | webpowerswitch.go:50-55 | If outlet k is the first whose request fails, exactly outlets 1..k are requested, in order, and k's error is returned. Outlets after k are never requested. |
| PowerSwitch.AllOnSucceedsWhenAllDelivered | webpowerswitch.go:50-56 | If all eight on-requests are delivered, all-on sends all eight in order and succeeds. |
| PowerSwitch.AllOnSuccessMeansAllDelivered | webpowerswitch.go:50-56 | If all-on succeeds, the on-request of each of the outlets 1..8 was delivered. |
| PowerSwitch.AllOnSucceedsIff | webpowerswitch.go:50-56 | All-on succeeds if and only if all eight on-requests are delivered, and on success it sent exactly those eight, in order. |
| Cli.ParseTarget | webpowerswitch.go:102-110 | The target is "all" exactly for `all` or `ALL`. Otherwise the outlet is the scanned number, accepted only in 1..8. Refusal happens exactly when the argument is neither spelling and the scanned number is outside 1..8, which includes a failed scan's 0. |
| Cli.ParseCommand | webpowerswitch.go:112-131 | `on`/`ON` selects on, `off`/`OFF` off and `cycle`/`CYCLE` cycle. Nothing else is a command. |
| Cli.Perform | webpowerswitch.go:112-130 | The dispatched operation sends one to eight requests. Anything but all-on sends exactly one, the GET written for that target and command, and returns its verdict. |
| Cli.ExitCode | webpowerswitch.go:143-145 | A dispatched operation exits 1 if it returned an error and 0 otherwise. |
| Cli.Run | webpowerswitch.go:96-145 | Checks run in order: argument count, then outlet, then command. A count other than 2 exits 2. A refused outlet exits 1, whatever the command. An unknown command with a valid outlet exits 1. None of these sends a request. Otherwise Run sends exactly what the selected operation sends and exits with that operation's exit code. |
| Cli.PerformRequests | webpowerswitch.go:112-130 | Every operation main can dispatch sends 1 to 8 requests, and only all-on sends more than one. Every request is a GET carrying the switch's username and password (`AsksFor`), and its URL asks this switch for the dispatched command. |
| Cli.PerformSingleOutlet | webpowerswitch.go:112-130 | A single-outlet target sends one request, for that outlet and that command, and its URL is exactly this switch's URL of the path written for them. |

## Left out

- The HTTP transport (`http.Client.Do`): it is the `Transport` oracle. Response status codes and bodies are never read by the source, so they are not modelled.
- The error of `http.NewRequest`, which the source ignores (webpowerswitch.go:38). When the URL does not parse, for example with `-port -1` or an address containing a space, `req` is nil. `SetBasicAuth` on line 39 then panics: no request is sent and the Go runtime exits with status 2. The model does not decide URL validity; `NewRequest` always builds a request.
- Cli.Run: its exit-code contract holds for settings whose URLs parse. For settings that make `http.NewRequest` fail, the source exits 2 on a well-formed command line without sending anything, while `Run` reports the operation's requests and exit code.
- Basic-auth header encoding (`SetBasicAuth`): the model records that the username and password pair is attached to every request, not how it is encoded.
- Flag parsing and its defaults (`192.168.0.100`, `80`, `admin`, `1234`): the settings arrive as a `WebSwitch` value and the positional arguments as a sequence of strings.
- `fmt.Sscanf("%d")`: it is the parameter `scan`, an arbitrary function from the argument to an int. The model does not fix its prefix parsing (for example `3x`), whitespace or overflow behaviour; a failed read gives 0.
- Usage and help text, and the messages written to standard error.
- 64-bit `int`: outlet numbers and the port are unbounded integers. `%d` writes every 64-bit value the same way, and main only passes outlets 1..8.
- Device-side effects, such as outlets actually switching: nothing in the source observes device state.
