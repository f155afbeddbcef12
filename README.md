# Vault secret references ("symlinks")

A field of a Vault secret can hold a reference to a field of another secret,
written `vault://<path>#<field>` or `vault://<path>#<field>@<version>`. The Vault
provider resolves such references before handing a secret out. It looks at every
top-level value of the decoded secret. While the value is a reference, it decodes
the reference with the pattern

    vault://(?P<Path>.*)#(?P<Secret>\w+)(@(?P<Version>\d+)?)?

reads the secret at that path and version, and replaces the value with the named
field of what it read. The first read that fails ends the whole resolution with
that error.

The project has two modules.

- `Symlink` (`symlink.dfy`) models field values, the reference test and the
  decoder.
  - `IsSymlink` is the reference test: a string with the prefix `vault://`.
  - `Extract` is the decoder, written as a scan.
  - Go's leftmost-first regexp semantics for this one pattern are written out as
    a separate reference definition (`GreedyMatchAt`, `LeftmostMatch`). In these
    semantics the match is unanchored, `.` stops at a newline, and `.*`, `\w+` and
    the optional `@` group take as much as they can.
  - Lemmas prove that `Extract` and that definition agree in both directions. The
    round trips, the unit-test examples and the no-match case follow from this.
- `Resolver` (`resolver.dfy`) models the resolver.
  - `Follow` is the specification function: the chain of reads that one value
    starts, and what it leaves behind.
  - `RunOf` is the state of the whole map after visiting a given sequence of keys.
  - `Client` is a class with the imperative resolver. `ResolveLink` is one pass of
    the inner loop, `ResolveKey` the inner loop and `ResolveSymlink` the outer loop.
    `ResolveLink` returns `StepOf` of readSecret's answer, the link that `Follow`
    also takes. `ResolveKey` is proved against `Follow` and `ResolveSymlink` against
    `RunOf`.
  - `SecretData` is the Go `map[string]any`. It is a class because the Go map is a
    reference: writes made before an error are visible to the caller.

Modelling decisions:

- **readSecret.** It is an oracle, a `Backend`: a table of answers plus the answer
  to every request the table does not list. A ghost field `calls` records every
  request in order.
- **Decoder.** `Follow` and `RunOf` take the decoder as a parameter. A `Client`'s
  decoder is always `Extract`; its constructor sets it so.
- **Fuel.** The source's inner loop does not terminate on a reference cycle. The
  model bounds each key's chain by `fuel` reads, and a chain that uses up its fuel
  ends with the model-only outcome `OutOfFuel`. `FollowFuelMonotone` shows that the
  bound changes nothing for every chain that stops by itself.
- **Key order.** Go visits map keys in an unspecified order. The model picks each
  next key nondeterministically and returns the visit order as a ghost
  out-parameter.
- **Strings** are `seq<char>`. Go works on UTF-8 text, but the pattern's
  delimiters (`#`, `@` and the newline) and its classes `\w` and `\d` are all
  ASCII, so the captures are the same.

`isSymlink` checks only the prefix, so a value such as `vault://test` counts as a
reference even though the pattern does not match it. It is then followed with a
read of the empty path and version, and the field named "" is taken
(`Symlink.ExtractPrefixOnly`, `Resolver.UnmatchedReference`). The unit tests treat
`vault://test` as a reference, so the model keeps this behaviour. The comment on
`isSymlink` says that it tests the pattern; the code tests only the prefix, and the
model follows the code.

## Model

| member | source | states |
|---|---|---|
| Symlink.SymlinkIsPrefixedString | pkg/provider/vault/symlink.go:36-42 | a value is a reference exactly when it is a string made of the prefix `vault://` and some rest; no other kind of value is one |
| Symlink.IsSymlinkExamples | pkg/provider/vault/symlink_test.go:27-34 | "vault://test" is a reference and "test" is not; nil, numbers, booleans and other values are not |
| Symlink.FirstMatch | pkg/provider/vault/symlink.go:46-47 | the index found is where the pattern can start, and no index before it (from the starting point) is one; -1 only when there is none |
| Symlink.LastSeparator | pkg/provider/vault/symlink.go:27 | the `#` chosen for `(?P<Path>.*)#` is followed by a word character, lies in the window, and no later one in the window qualifies |
| Symlink.WordEnd | pkg/provider/vault/symlink.go:29 | `\w+` takes a run of word characters that cannot be extended |
| Symlink.DigitEnd | pkg/provider/vault/symlink.go:31 | `\d+` takes a run of digits that cannot be extended |
| Symlink.CapturesAt | pkg/provider/vault/symlink.go:47-54 | the Secret capture of a match is a non-empty word and the Version capture is all digits |
| Symlink.Extract | pkg/provider/vault/symlink.go:44-57 | the captures read by extractSymlinkParts: Secret is a word and Version is digits; when Secret is empty, every capture is "" (no match, so the result map is empty) |
| Symlink.MatchesAtIff | pkg/provider/vault/symlink.go:23-32 | the scan finds a match at i exactly when the pattern can match there: the prefix, then a `#` and a word character with no newline in between |
| Symlink.ExtractFindsMatch | pkg/provider/vault/symlink.go:46-54 | Extract yields a secret name exactly when the pattern matches somewhere in the string |
| Symlink.CapturesAreGreedy | pkg/provider/vault/symlink.go:23-32 | the captures computed at a match start are those of the greedy match there |
| Symlink.GreedyMatchIsCaptures | pkg/provider/vault/symlink.go:23-32 | a greedy match at i means the scan matches at i and computes exactly its captures |
| Symlink.GreedyMatchIsMatch | pkg/provider/vault/symlink.go:27 | at the start of a greedy match the scan finds a match, and its separator is where the captured path ends |
| Symlink.ExtractIsGreedyMatch | pkg/provider/vault/symlink.go:46-54 | Extract's captures are those of a greedy match at the first match start |
| Symlink.ExtractIsLeftmostMatch | pkg/provider/vault/symlink.go:46-54 | Extract reports the leftmost-first match: greedy captures, and no match starts earlier |
| Symlink.LeftmostMatchIsExtract | pkg/provider/vault/symlink.go:46-54 | any leftmost-first match of the pattern is the one Extract reports (the converse direction) |
| Symlink.LastSeparatorCaptures | pkg/provider/vault/symlink.go:27 | the path ends at a `#` that the greedy `.*` would choose: later separators lie beyond the end of the line |
| Symlink.PathCapturedIsLastSeparator | pkg/provider/vault/symlink.go:27 | a greedy path capture ends at the separator that the scan chooses |
| Symlink.SecretCapturedIsWordEnd | pkg/provider/vault/symlink.go:29 | a greedy secret capture ends where WordEnd says |
| Symlink.VersionCapturedIff | pkg/provider/vault/symlink.go:31 | a version capture is greedy exactly when it is the digits after an `@` right behind the secret name, and "" otherwise |
| Symlink.PathFollowsPrefix | pkg/provider/vault/symlink.go:25-27 | for a prefixed string without newlines, the match starts at 0 and the path is the text after `vault://` up to a `#` |
| Symlink.NoSeparatorNoMatch | pkg/provider/vault/symlink.go:47-54 | with no `#` followed by a word character at index 8 (the length of `vault://`) or later, every capture is "" |
| Symlink.ExtractPrefixOnly | pkg/provider/vault/symlink_test.go:28 | "vault://test", a reference according to isSymlink, decodes to all-empty captures |
| Symlink.ExtractEncoded | pkg/provider/vault/symlink.go:23-32 | decoding `vault://` + path + `#` + secret + tail gives back path, secret and the version, when the tail is "" or `@` followed by digits |
| Symlink.ExtractWithoutVersion | pkg/provider/vault/symlink.go:23-32 | round trip of `vault://path#secret`: the version is "" |
| Symlink.ExtractWithVersion | pkg/provider/vault/symlink.go:23-32 | round trip of `vault://path#secret@digits`, and a bare `@` gives the version "" |
| Symlink.ExtractPathAndSecret | pkg/provider/vault/symlink_test.go:53-58 | "vault://test#KEY" gives path "test", secret "KEY" and version "" |
| Symlink.ExtractPathSecretAndVersion | pkg/provider/vault/symlink_test.go:59-64 | "vault://test#KEY@21" gives path "test", secret "KEY" and version "21" |
| Symlink.ExtractLastSeparatorWins | pkg/provider/vault/symlink.go:26-27 | the path runs to the last separator: "vault://a#b#KEY" gives path "a#b" and secret "KEY" |
| Symlink.ExtractBareAt | pkg/provider/vault/symlink.go:31 | "vault://test#KEY@" gives version "" (an `@` with no digits after it) |
| Resolver.FollowStep | pkg/provider/vault/symlink.go:62-71 | one link of a chain: the read for the reference's Path and Version captures; a failed read ends the chain with its error after that one read, and otherwise the chain continues from the named field of the fetched secret |
| Resolver.FollowEnds | pkg/provider/vault/symlink.go:62-72 | a chain makes at most `fuel` reads; when it is done, the value it leaves is no reference, and any other end leaves a reference |
| Resolver.FollowPlainValue | pkg/provider/vault/symlink.go:62 | a value that is no reference is kept as it is, with no read |
| Resolver.FollowCalls | pkg/provider/vault/symlink.go:63-68 | a chain's first read is for the Path and Version of the reference it starts at; a failed chain ends with the read that failed; a chain out of fuel made exactly `fuel` reads |
| Resolver.FollowFuelMonotone | pkg/provider/vault/symlink.go:62 | once a chain stops by itself, more fuel changes neither its reads nor its end |
| Resolver.FollowSplit | pkg/provider/vault/symlink.go:62-72 | chains compose: running out of fuel at u and then following u is following v with both fuels |
| Resolver.MissingFieldIsNil | pkg/provider/vault/symlink.go:70 | a field missing from the fetched secret resolves to nil, after one read and without error |
| Resolver.UnmatchedReference | pkg/provider/vault/symlink.go:62-70 | a reference without a match is still followed: one read of ("", "") and then the field named "" |
| Resolver.FollowLink | pkg/provider/vault/symlink.go:62-71 | `vault://path#secret` is followed by one read of (path, "") and then by the chain of that field |
| Resolver.TwoLinkChain | pkg/provider/vault/symlink.go:62-72 | a chain of two references makes two reads, in order, and resolves to the plain value at its end |
| Resolver.FreshIsDistinctKeys | pkg/provider/vault/symlink.go:61 | a visit order is fresh exactly when it lists distinct keys of the map |
| Resolver.RunStep | pkg/provider/vault/symlink.go:61-72 | visiting one more key while the run is resolving follows that key's current value, writes back what the chain leaves, appends its reads, and continues or stops with it |
| Resolver.RunStopsAtFailure | pkg/provider/vault/symlink.go:66-67 | once a chain fails, no further key is visited and no further read is made |
| Resolver.RunKeepsKeys | pkg/provider/vault/symlink.go:71 | resolution only overwrites existing keys: the key set never changes |
| Resolver.RunKeepsUnvisited | pkg/provider/vault/symlink.go:61-72 | a key not yet visited keeps its original value |
| Resolver.RunKeepsPlainValues | pkg/provider/vault/symlink.go:62 | a value that is no reference is kept unchanged, visited or not |
| Resolver.RunResolvesVisited | pkg/provider/vault/symlink.go:61-73 | while the run resolves, every visited key holds a value that is no reference |
| Resolver.NoneLeft | pkg/provider/vault/symlink.go:61-75 | a resolving run over all keys leaves no reference in the map |
| Resolver.RunValues | pkg/provider/vault/symlink.go:61-72 | while the run resolves, every visited key holds the end of the chain of its own original value, whatever the other keys hold |
| Resolver.OrderIndependent | pkg/provider/vault/symlink.go:61 | any two visit orders that cover the whole map and resolve leave the same map |
| Resolver.Client.ReadSecret | pkg/provider/vault/symlink.go:65 | returns the oracle's answer for (path, version) and records that one request |
| Resolver.Client.ResolveLink | pkg/provider/vault/symlink.go:63-71 | records exactly one request, for the Path and Version captures of the reference, and returns the read's error when it fails and otherwise the field named by the Secret capture (nil when missing) |
| Resolver.ChainAdvance | pkg/provider/vault/symlink.go:62-72 | one pass of the inner loop keeps its invariant: a failed read ends the whole chain right after its own read, and otherwise the reads so far plus the field's chain still make up the whole chain |
| Resolver.Client.ResolveKey | pkg/provider/vault/symlink.go:62-72 | the map afterwards differs only at the key, which holds what the chain leaves; the reads made are the chain's reads, and the outcome is the chain's end |
| Resolver.Client.ResolveSymlink | pkg/provider/vault/symlink.go:60-76 | keys are visited once each. Map, reads and outcome are those of RunOf for the visit order, and the key set is unchanged. On success it returns the same map, in which every key holds the end of its own original value's chain (so the result does not depend on the order) and no reference is left. On error it returns nil after the failing key, and earlier writes remain |

## Left out

- The Vault client, the context argument and the HTTP requests behind readSecret are not modelled. readSecret is an oracle given by a finite table plus a default answer. Its error is a string, not a Go `error`.
- The regular expression is not compiled (`regexp.MustCompile` is replaced by the scan in `Extract`). The unnamed group `(@...)`, which extractSymlinkParts also stores under the key "", is not modelled, because the resolver reads only Path, Secret and Version.
- Go's map iteration order is randomised. The model replaces it with a nondeterministic choice of the next key.
- Resolver.Client.ResolveSymlink: a cycle of references makes the source loop forever. The model stops a key's chain after `fuel` reads and reports `OutOfFuel` with result null, an outcome the source does not have.
- Resolver.Client.ResolveKey: shares the fuel bound of ResolveSymlink, so it does not model a chain longer than `fuel`.
- Go's type switch on `any` is reduced to the `Value` kinds. Nested maps and lists are `Other` and are never looked into, as in the source.
- Strings are sequences of characters, not UTF-8 bytes. Go's `\w`, `\d` and `#` are ASCII, so the captures are the same.
