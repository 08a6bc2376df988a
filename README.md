# essh: target selection for ssh(1) arguments

essh is a wrapper around `ssh`. It forwards its command-line arguments to
`ssh`. Before and after the session it runs the hook scripts
`~/.ssh/pre.d/<dest>` and `~/.ssh/post.d/<dest>`, where `<dest>` is the
connection target picked from those arguments.

This project models that choice of target in Dafny (module `EsshArgs`,
`essh_args.dfy`):

- `ArgImpliesValueLater` decides whether a flag token takes a following
  value. It checks the character right after the dash against the 21
  value-taking ssh option letters `BbcDEeFIiJLlmOopQRSWw`.
- `ParseArgs` is the two-state scanner. It walks the tokens with one boolean,
  `expecting`. It skips empty tokens and consumes the first non-empty token
  after a value-taking flag. It returns the first token that remains and is
  not a flag, or `""` when there is none.

Both are methods with the source's loops, early returns and `continue`s.
`ArgImpliesValueLater` is proved against the predicate `ImpliesValue`.
`ParseArgs` is proved against `Scan(args, expecting)`, a recursive function
over the tokens still to read. A second, independent definition states the
target left to right. `PendingAt(args, i)` is the value `expecting` has when
token `i` is reached. `IsTargetAt(args, i)` says that token `i` qualifies as a
target. The lemmas `NoTargetExactlyWhenEmpty`, `FoundTargetIsFirst` and
`FirstTargetIsFound` prove that `Scan` returns the earliest qualifying token,
and returns `""` exactly when no token qualifies.

The model follows main.cpp as written:

- Only `arg[1]` is inspected. A cluster such as `-vp` is not scanned letter
  by letter, so it takes no value, while `-pv` does.
- There is no verbosity counter.
- "No target" is the empty string, not an absent value.
- A flag is a token of length greater than 1 that starts with `-`. A lone
  `-` is therefore a target candidate.

## Model

| member | source | states |
|---|---|---|
| `EsshArgs.ArgImpliesValueLater` | main.cpp:8-16 | the loop over the letter table returns true exactly when `arg[1]` is one of the table's letters; it is called only on tokens of length at least 2 |
| `EsshArgs.ValueLettersTable` | main.cpp:9 | the table holds exactly 21 distinct ASCII letters |
| `EsshArgs.ImpliesValueReadsSecondOnly` | main.cpp:11 | two flags with the same second character are classified alike; no other character matters |
| `EsshArgs.NoClusterScan` | main.cpp:8-16 | `-vp` takes no value although `p` does, `-pv` takes one, and `-v`, `-N`, `-T` take none |
| `EsshArgs.ParseArgs` | main.cpp:18-37 | the scanner loop returns `Scan(args, false)`; its call of `ArgImpliesValueLater` sits behind the length guard, which meets that method's precondition (main.cpp:27-29) |
| `EsshArgs.NoTargetExactlyWhenEmpty` | main.cpp:19-36 | the result is `""` exactly when no token is non-empty, unconsumed and not a flag (both directions) |
| `EsshArgs.FoundTargetIsFirst` | main.cpp:19-34 | a non-empty result is a token at an index that qualifies, with no qualifying token before it |
| `EsshArgs.FirstTargetIsFound` | main.cpp:19-34 | the earliest qualifying token is the result: first match wins |
| `EsshArgs.TargetShape` | main.cpp:21-34 | the result is `""` or an element of the list that is non-empty and not a flag |
| `EsshArgs.ValueTokenSkipped` | main.cpp:22-31 | once a value-taking flag is read, the next non-empty token is consumed whatever its shape; the result is the scan of the tokens after it |
| `EsshArgs.ValueTokenNeverTarget` | main.cpp:22-31 | a token consumed as a flag's value, even after intervening empty tokens, never qualifies as the target |
| `EsshArgs.EmptyTokensIgnored` | main.cpp:21 | removing all empty tokens changes neither the result nor the pending value expectation |
| `EsshArgs.LaterTokensIgnored` | main.cpp:34 | first match wins: tokens appended after a found target do not change it |
| `EsshArgs.NoFlagsFirstNonEmpty` | main.cpp:20-34 | when no token is a flag, the result is the first non-empty token |
| `EsshArgs.NoCandidateNoTarget` | main.cpp:36 | a list of only empty tokens and flags that take no value yields `""` |
| `EsshArgs.LoneDashIsTarget` | main.cpp:27 | a lone `-` is returned as the target, because it is not a flag |
| `EsshArgs.PrefilledSlotsIgnored` | main.cpp:41 | the ten empty slots put before the real arguments do not change the target |
| `EsshArgs.Examples` | main.cpp:18-37 | `["-p", "", "2222", "h"]` gives `h`, `["-l", "root", "10.0.0.1"]` gives `10.0.0.1`, `["-v", "-p", "2222", "host1", "ls"]` gives `host1`, and `[]` gives `""` |

## Left out

- `main` (main.cpp:39-74) is process glue and is not modelled. It reads `HOME`, probes the file system for the hook scripts, runs subprocesses with `system` and writes to the console.
- The `ssh` command line is not modelled. `main` builds it as `"ssh "` followed by the tokens concatenated with no separator (main.cpp:50-51).
- `main` prints `args[i]` by the argument's position (main.cpp:48). `args` starts with ten empty slots and `argv[k]` is appended at index 9+k (main.cpp:41, 47), so for i up to 9 this prints an empty slot and for i from 10 on it prints `argv[i-9]`, an earlier argument. Console output is not modelled.
- C++ `std::string` holds bytes, while a Dafny `string` holds characters. The classification does not depend on this: it tests only `arg[0] == '-'`, a length greater than 1 and an ASCII letter at index 1, which give the same answer whether the token is read byte by byte or decoded as UTF-8.
- `NoCandidateNoTarget`: covers only lists without value-taking flags. Lists that also contain consumed values are covered by `NoTargetExactlyWhenEmpty`.
- Verbosity counting, whole-cluster flag scanning, credential files and the password helper do not appear in main.cpp, so nothing models them.
