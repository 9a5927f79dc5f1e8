# nano-fullnet-testing: env files and voting-weight split, in Dafny

This project models the two pieces of pure logic in the harness that stands
up a test network of Nano nodes.

- **Env files** (`common.py`). `load_env_data_as_dict` reads a `KEY=value`
  file into a dict. It skips blank lines and lines starting with `#`. It
  deletes newlines from the lines it keeps and splits each one at `=`. Then
  `dict()` builds the result, and it raises `ValueError` on a line that does
  not split into exactly two parts. `env_data_to_list` renders a dict back
  into `key=value` strings. The reader is modelled over the lines that
  `readlines()` returns, not over a path.
- **Voting-weight split** (`nanotest/setup.py`).
  `distribute_voting_weight_uniform` creates `count` representative wallets.
  It subtracts a reserve from the genesis balance and floor-divides the rest
  among the representatives. It checks two assertions, then sends each
  representative the same share. The node calls become data: the n-th
  created wallet is `Rep(n)` and each send is a `Transfer` in a list.

Modules:

- `Results` (`results.dfy`): the `Ok`/`Err` outcome of an operation.
- `Strings` (`strings.dfy`): the Python `str` operations the reader uses.
  These are `strip()` with Python's whitespace set, `startswith`,
  `replace(c, "")` and `split(c)`. `Join` is not called by the reader. It is
  there as the reference inverse that pins down what `Split` returns.
- `OrderedDict` (`ordered_dict.dfy`): an insertion-ordered `dict[str, str]`
  and its assignment `d[k] = v`.
- `EnvFile` (`env_file.dfy`): the filter, `dict()`, `Parse`, `Render`, and
  the round trip between them.
- `VotingWeight` (`voting_weight.dfy`): `Distribute` and its arithmetic.

## Model

| member | source | states |
|---|---|---|
| Strings.Strip | common.py:6 | `strip()` gives an empty (falsy) string exactly when the line is all whitespace; otherwise the result starts and ends with a non-whitespace character |
| Strings.BlankIffStripEmpty | common.py:6 | the blank-line test used by the filter agrees with `line.strip()` being empty |
| Strings.Remove | common.py:4 | `replace("\n", "")` leaves no newline, drops exactly the newlines, and keeps every other character |
| Strings.Blank | common.py:6 | the filter's whitespace-only test: a line is blank exactly when `strip()` leaves nothing, as `Strings.BlankIffStripEmpty` and `Strings.BlankIffAllSpace` state |
| Strings.StartsWith | common.py:6 | `startswith("#")` looks at the first character only; `EnvFile.IndentedHashIsEntry` shows that leading whitespace defeats it |
| Strings.Count | common.py:4 | the number of `=` signs in a line; `Strings.Split` returns one more part than this count, and `EnvFile.WellFormed` asks it to be 1 |
| Strings.Split | common.py:4 | `split("=")` returns one more part than the text has `=` signs, and no part contains `=` |
| Strings.JoinSplit | common.py:4 | joining the parts of `split` with the separator gives back the original text |
| Strings.Join | common.py:4 | not called by the reader; the reference inverse of `split`, tied to it by `Strings.JoinSplit` and `Strings.SplitJoin` |
| Strings.SplitJoin | common.py:4 | splitting parts that were joined gives back the parts, provided no part holds the separator |
| Strings.SplitPair | common.py:4 | `k + "=" + v` splits into `[k, v]` when neither side contains `=` |
| OrderedDict.Put | common.py:3-7 | dict assignment keeps the dict well formed; a repeated key keeps its position and takes the new value; a new key goes last |
| OrderedDict.MappedKeysAreListed | common.py:3-7 | a dict maps no key outside its iteration order, which `EnvFile.RenderCoversEveryEntry` uses to show that every entry is rendered |
| EnvFile.Kept | common.py:6 | the generator's condition: a line is read unless it is whitespace-only or its first character is `#`; `EnvFile.SkippedLineIgnored` and `EnvFile.IndentedHashIsEntry` state its effect on the result |
| EnvFile.KeptLines | common.py:5-6 | the filtered lines, no more than the input and each one kept; `EnvFile.KeptLinesSound`, `EnvFile.KeptLinesComplete` and `EnvFile.KeptLinesAppend` fix which lines and in what order |
| EnvFile.Fields | common.py:4 | the tuple of a kept line: newlines deleted, then split at every `=`; `EnvFile.NewlinesOnlyRemoved` and `EnvFile.KeyValueAroundSeparator` state what it yields |
| EnvFile.WellFormed | common.py:4 | a kept line yields a pair exactly when it has one `=`; `EnvFile.ParseFailsIffMalformedLine` ties this to the parse failing |
| EnvFile.Elements | common.py:4-6 | the generator expression: one field tuple per kept line, in file order; `EnvFile.FirstMalformedLineReported` and `EnvFile.ParseAppendLine` state how `dict()` consumes it |
| EnvFile.Parse | common.py:1-7 | `load_env_data_as_dict` on the file's lines: a success is a well-formed dict and a failure names a kept line whose tuple does not have length 2; `EnvFile.ParseFailsIffMalformedLine`, `EnvFile.FirstMalformedLineReported`, `EnvFile.SkippedLineIgnored` and `EnvFile.RoundTrip` state when each happens and what the dict holds |
| EnvFile.Build | common.py:3-7 | `dict()` over the generated tuples succeeds exactly when every tuple has length 2; on failure the error names the first bad tuple and its length |
| EnvFile.KeptLinesAppend | common.py:5-6 | the line filter distributes over concatenation of the input lines |
| EnvFile.KeptLinesSound | common.py:5-6 | every line the filter passes is a non-blank, non-`#` line of the input |
| EnvFile.KeptLinesComplete | common.py:5-6 | every non-blank line not starting with `#` passes the filter |
| EnvFile.SkippedLineIgnored | common.py:6 | inserting a whitespace-only line or a `#` line anywhere leaves the parse result unchanged, including the error index |
| EnvFile.IndentedHashIsEntry | common.py:6 | a `#` preceded by whitespace does not make a comment: the line is read as an entry |
| EnvFile.NewlinesOnlyRemoved | common.py:4 | only newlines are removed before splitting, so spaces and `\r` stay in keys and values |
| EnvFile.KeyValueAroundSeparator | common.py:4 | for a line with exactly one `=`, with or without the trailing newline `readlines()` leaves, the key is the text before the `=` and the value is the text after it |
| EnvFile.ParseFailsIffMalformedLine | common.py:3-6 | the parse fails exactly when some kept line has no `=` or more than one |
| EnvFile.FirstMalformedLineReported | common.py:3-6 | the `ValueError` reports the first malformed kept line: its index among kept lines and its number of fields |
| EnvFile.BuildKeys | common.py:3-7 | the dict holds exactly the keys read from the lines |
| EnvFile.BuildLastValueWins | common.py:3-7 | when a key repeats, the value from its last line wins |
| EnvFile.BuildKeyOrder | common.py:3-7 | keys iterate in the order of their first occurrence |
| EnvFile.ParseAppendLine | common.py:3-7 | appending a well-formed line assigns its key on top of the earlier result |
| EnvFile.Render | common.py:15-16 | `env_data_to_list` returns one `key=value` string per entry, in iteration order, as many as the dict has entries |
| EnvFile.RenderCoversEveryEntry | common.py:16 | iterating over `items()` visits every entry: each key of the dict appears, with its value, in some rendered string |
| EnvFile.RenderedLine | common.py:4-6 | a rendered entry, newline-terminated, is kept by the filter and splits back into its key and value |
| EnvFile.BuildOfEntries | common.py:3 | `dict()` over a dict's own entries, in order, rebuilds that dict |
| EnvFile.RoundTrip | common.py:1-16 | parsing the newline-terminated lines of a rendered dict gives back the same dict, in the same order, when no key or value contains `=` or a newline and no key starts with `#` |
| VotingWeight.FloorDiv | nanotest/setup.py:15 | Python's `//` is the floor of the quotient, for a positive and for a negative divisor |
| VotingWeight.CreateReps | nanotest/setup.py:8 | `count` representatives are created, in creation order, and none when `count` is not positive |
| VotingWeight.Seed | nanotest/setup.py:20-23 | the loop sends every representative the same amount, once each, in order |
| VotingWeight.Distribute | nanotest/setup.py:7-25 | a negative reserve, and only that, fails the assertion at line 13; after that, `count == 0`, and only that, fails the division; the line-16 assertion fails exactly when `count != 0` and the floor share times `count` exceeds the balance; the call succeeds exactly otherwise, so always when `count > 0`; on success `count != 0`, the share is Python's `balance_left // count` for either sign of `count`, and the reps, in creation order, are each sent the share |
| VotingWeight.Total | nanotest/setup.py:20-23 | the sum of the amounts the loop sends; `VotingWeight.TotalOfUniformSeed` and `VotingWeight.DistributedWithinBalance` fix its value |
| VotingWeight.TotalOfUniformSeed | nanotest/setup.py:20-23 | the total sent is the share times the number of representatives |
| VotingWeight.DistributedWithinBalance | nanotest/setup.py:12-23 | after a successful call, the total sent equals the share times the rep count and never exceeds the genesis balance |
| VotingWeight.UndistributedRemainder | nanotest/setup.py:12-15 | with `count > 0` and a non-negative reserve, the call succeeds and the part of `balance_left` left undistributed lies in `[0, count)` |
| VotingWeight.SecondAssertionImplied | nanotest/setup.py:12-16 | whenever the line-13 assertion passes and `count > 0`, the line-16 assertion passes too |
| VotingWeight.NegativeCountMayFailSecondAssertion | nanotest/setup.py:8-16 | with a negative `count`, floor division rounds toward minus infinity, so the line-16 assertion can fail (balance 10, reserve 0, count -3) |

## Left out

- Opening the file and `readlines()` (common.py:2, 5) are left out. The input is the list of lines instead. Python reads text files with universal newlines, so a real line never contains `\r`. The `\r` case in `NewlinesOnlyRemoved` applies to the line-level input only.
- OrderedDict: keys and values are `str`. `env_data_to_list` also formats non-string values through the f-string, and that is not modelled.
- EnvFile.RoundTrip is stated over the lines, not over a file. A `\r` inside a value is allowed there. Written to a real file and read back with universal newlines, it would end the line and break the entry in two.
- EnvFile.RoundTrip compares dicts including key order. Python's `==` on dicts ignores order, so this is a stronger statement than the source needs.
- `Strings.IsSpace` hard-codes the characters `str.isspace()` accepts. The Unicode database itself is not modelled.
- VotingWeight.Distribute takes the genesis balance as a non-negative integer (`nat`), since ledger balances are never negative. `VotingWeight.DistributedWithinBalance` relies on this when `count` is negative.
- VotingWeight.Distribute reads the genesis balance once. The source reads the `balance` property at lines 12, 13 and 16. No send happens between those reads.
- VotingWeight.Distribute on failure returns only the error. The wallets created at line 8 stay on the node. Node state is not modelled.
- VotingWeight.Seed records a send of any amount, including zero or negative shares when the reserve exceeds the balance. Whether the node accepts such a send is outside the model.
- Wallet creation, `send`, the `title_bar` decorator and the `print` calls in nanotest/setup.py are node RPC or output, so they are left out. `setup_voting_weight_uniform` (nanotest/setup.py:28-34) only starts a network and creates a setup node, and then does nothing else.
- nano_docker.py is container lifecycle, RPC clients, a readiness retry loop and printing, all of which need the external services. It is not part of this model.
- tests.py drives live nodes and uses a `Chain` class whose source is not part of this model. The account-chain builder, the block queue and the convergence checker are not part of this model for the same reason.
