# svcnet-demo `--web` address spec, in Dafny

`svcnet-demo.py` is a demo static-file HTTP server that binds to an IPv6
address given on the command line as `--web [host](:port)?`. This project
models the part of it that decides what to bind to: the address-spec match
with the pattern `\[([0-9a-fA-F:]+)\](:([0-9]+))?` under Python's `re.match`,
the extraction of the host and the optional port, and the choice between
`web(ip, int(port))` and `web(ip)`, whose defaults are host `'::'` and port
8080. The model is pure: functions and lemmas in module `SvcnetDemo`
(`svcnet_demo.dfy`), with `Option` in module `Wrappers` (`wrappers.dfy`).

- `Match` is the regular expression written as a character scan. `HostGroup` takes `[`,
  then the longest run of host characters, which must be non-empty, then `]`. `PortGroup`
  takes the longest digit run if `:` and at least one digit follow. Anything after that
  is ignored.
- `IsMatch(s, g)` is the independent reference. It holds when the pattern matches some
  prefix of `s` with groups `g`.
- `Maximal(s, g)` says that match cannot be extended.
- `MatchCharacterized` proves that the scan returns exactly the maximal candidate. This is
  the match a backtracking engine reports, because it tries the longest runs first and the
  optional group before leaving it out.
- `Parse` applies `int()` to the captured digits. `DecimalValue` reads them in base ten.
- `Cli` models `cli()` given the value of `--web`. It returns the `Listener` (host, port)
  that `web()` would bind, or `None` when no server is started.
- `if parsed.web:` and `if port:` are modelled as Python string truthiness (`Truthy`).
  `None` and `""` are false.

TCP ports are 0–65535. The code does not check this, so in this model the
port is any natural number: a larger port such as `[::]:99999` passes the
parse and would fail only when the socket binds, which is not modelled (see
"Left out"). There is no semantic IPv6 check either, so `[:::]` and `[abc]`
are accepted.

## Model

| member | source | states |
|---|---|---|
| `SvcnetDemo.Span` | bin/svcnet-demo.py:27 | the greedy run of a character class: every character inside it is in the class and the next one is not (or the string ends) |
| `SvcnetDemo.HostGroup` | bin/svcnet-demo.py:27 | `\[([0-9a-fA-F:]+)\]` at the start: on success the input starts with `[`, the returned non-empty run of host characters and `]` |
| `SvcnetDemo.PortGroup` | bin/svcnet-demo.py:27 | `(:([0-9]+))?`: present only as `:` and a non-empty digit run that is not followed by another digit; absent only when no `:` and digit follow |
| `SvcnetDemo.Match` | bin/svcnet-demo.py:27 | a reported match is a match of the pattern on a prefix of the input (non-empty host of `[0-9a-fA-F:]`, optional non-empty `[0-9]` port) that cannot be extended |
| `SvcnetDemo.MatchComplete` | bin/svcnet-demo.py:27-28 | whenever the pattern matches a prefix, the scan reports a match with that host, and with a port group at least as long as the candidate's when the candidate has one |
| `SvcnetDemo.MatchCharacterized` | bin/svcnet-demo.py:27-29 | the scan reports groups `g` if and only if `g` is a prefix match that cannot be extended: the match `re.match` reports |
| `SvcnetDemo.DecimalValue` | bin/svcnet-demo.py:31 | `int()` of a captured digit string; its value is 0 exactly when every digit is `0`, so `"0"` and `"00"` give port 0; `DecimalRoundTrip` and `LeadingZerosIgnored` prove it reads decimal text back, with any leading zeros |
| `SvcnetDemo.DecimalRoundTrip` | bin/svcnet-demo.py:31 | `int()` of the decimal text of any natural number gives that number back |
| `SvcnetDemo.LeadingZerosIgnored` | bin/svcnet-demo.py:31 | any number of leading zeros in front of the decimal text of `p` still read as `p` |
| `SvcnetDemo.Parse` | bin/svcnet-demo.py:27-31 | success exactly when the pattern matches; on success the host is non-empty, made of `[0-9a-fA-F:]` and sits between `[` and `]` at the start of the input |
| `SvcnetDemo.ParseMaximal` | bin/svcnet-demo.py:27-31 | a prefix match that cannot be extended parses to its host and the base-ten value of its digits, or no port |
| `SvcnetDemo.ParseShape` | bin/svcnet-demo.py:27-29 | parse succeeds with host `h` if and only if the input starts with `[`, `h` and `]` for a non-empty `h` of host characters |
| `SvcnetDemo.ParseWithPort` | bin/svcnet-demo.py:27-31 | `[h]:d` followed by anything that does not start with a digit parses to host `h` and the decimal value of the whole run `d` |
| `SvcnetDemo.ParseWithoutPort` | bin/svcnet-demo.py:27-30 | `[h]` followed by anything other than `:` and a digit (including a lone `:`) parses to host `h` with the port absent |
| `SvcnetDemo.RoundTrip` | bin/svcnet-demo.py:27-31 | `[h]:` plus the decimal text of `p` parses to `(h, p)` and `[h]` parses to `(h, absent)` for every valid host and every natural `p` |
| `SvcnetDemo.Truthy` | bin/svcnet-demo.py:26-30 | Python truthiness of `parsed.web` (line 26) and of the port capture (line 30): `None` and `""` are false; `ExampleFailures` proves an absent or empty `--web` starts nothing and `PortZeroKept` that a captured `"0"` is true |
| `SvcnetDemo.Web` | bin/svcnet-demo.py:16 | `web(ip='::', port=8080)` reduced to the (host, port) it binds; `WebDefaults` proves the defaults and `NoPortDefaults` that `web(ip)` binds port 8080 |
| `SvcnetDemo.Launch` | bin/svcnet-demo.py:28-33 | no server exactly when the parse failed; otherwise a server on the parsed host with the captured port, or 8080 when none was captured |
| `SvcnetDemo.Cli` | bin/svcnet-demo.py:26-33 | a server is started only for a present `--web` value that parses |
| `SvcnetDemo.CliLaunches` | bin/svcnet-demo.py:26-33 | a server is started if and only if the value is present and parses; it gets the parsed host and the captured port or 8080 |
| `SvcnetDemo.WebDefaults` | bin/svcnet-demo.py:16 | `web()` without arguments binds `::` on port 8080 |
| `SvcnetDemo.NoPortDefaults` | bin/svcnet-demo.py:16 | `[h]` starts a server on host `h`, port 8080 |
| `SvcnetDemo.PortZeroKept` | bin/svcnet-demo.py:30-31 | `[h]:0` starts a server on port 0: a captured `"0"` is truthy and is not replaced by 8080 |
| `SvcnetDemo.DecimalExamples` | bin/svcnet-demo.py:31 | `int()` of `9090`, `0`, `80`, `0080` and `99999` |
| `SvcnetDemo.ExampleWithPort` | bin/svcnet-demo.py:27-31 | `[::1]:9090` parses to `("::1", 9090)` |
| `SvcnetDemo.ExampleUnspecifiedHost` | bin/svcnet-demo.py:27-30 | `[::]` parses to host `::` with the port absent |
| `SvcnetDemo.ExampleTrailingHostText` | bin/svcnet-demo.py:27 | `[::1]xyz` parses to host `::1` with the port absent |
| `SvcnetDemo.ExampleColonWithoutDigits` | bin/svcnet-demo.py:27-30 | `[::1]:` succeeds with the port absent |
| `SvcnetDemo.ExampleSyntacticHosts` | bin/svcnet-demo.py:27 | `[:::]` and `[abc]` are accepted: the host check is purely syntactic |
| `SvcnetDemo.ExamplePortZero` | bin/svcnet-demo.py:27-31 | `[::]:0` parses to `("::", 0)` |
| `SvcnetDemo.ExampleTrailingText` | bin/svcnet-demo.py:27 | `[::1]:80abc` parses to `("::1", 80)` |
| `SvcnetDemo.ExampleLeadingZeros` | bin/svcnet-demo.py:31 | `[::]:0080` parses to `("::", 80)` |
| `SvcnetDemo.ExampleLargePort` | bin/svcnet-demo.py:31 | `[::]:99999` parses to `("::", 99999)` |
| `SvcnetDemo.ExampleFailures` | bin/svcnet-demo.py:26-28 | `not-an-address`, `[]`, `[::1` and ` [::1]` fail; an absent or empty `--web` starts nothing |

## Left out

- `HTTPServer6`, the server construction in `web()` and `serve_forever()` (bin/svcnet-demo.py:13-18) are socket binding, the accept loop and network I/O. `web` is modelled only as the (host, port) pair it would bind. Bind failures are not modelled, including the rejection of a port above 65535 when the socket binds.
- `FileSender` (bin/svcnet-demo.py:9-11) only forwards to the standard library's file responder, whose code is not part of this model.
- `argparse` flag handling (bin/svcnet-demo.py:21-24) is library plumbing. `Cli` takes the value of `--web` directly, with `None` standing for an absent flag.
- Group 2 of the pattern (`":" + port`) is discarded by the program (`ip, _, port`), so `Groups` does not carry it.
- Three defects in the script are not reproduced:
  - `argparse` is used but never imported (bin/svcnet-demo.py:2-7).
  - Line 27 reads `parsed.http`, but the flag is stored in `parsed.web`. The model parses the `--web` value.
  - Line 36 calls `main()`, which is not defined. The entry point meant is `cli()`.
- There is no 0–65535 port range check and no semantic IPv6 validation, because the code does neither.
- Strings are sequences of Unicode characters. The character classes are the ASCII ranges the pattern names.
