# Cilium file poller and policy-API helpers in Dafny

This project models two small parts of Cilium and proves properties about them.

**The polling file watcher** (`pkg/fswatcher`). A `Watcher` tracks a fixed set
of paths. The paths need not exist yet. On every tick it `Lstat`s each path.
For a symlink it also reads the link and `Stat`s the target. It then reports
`Create`, `Write` or `Remove` events, or errors, by comparing the new
observation with the stored `state`. The model has these parts:

- `Op` is a 32-bit set of operation bits.
- The per-path state step is the pure function `FsWatcher.Step`. It is split into the
  three branches of the source: the path vanished, a regular file, a symlink.
- One polling cycle over the whole registry is the method `FsWatcherRegistry.Tick`.
  It is checked against reference definitions of the registry, events and errors after a cycle.
- The constructor `New` builds the initial registry and picks the polling interval.

**The policy-API helpers** (`pkg/policy/api/utils.go`). The model covers:

- the Envoy resource name qualifier `ResourceQualifiedName` and its inverse `ParseQualifiedName`;
- the layer-4 protocol parser and validator;
- the `Equal`, `Compare` and `Exists` helpers for HTTP, DNS and generic L7 port rules,
  header matches and secrets.

Strings are sequences of code points. A helper module `Strings` supplies the Go
library functions these helpers use, with their own contracts: `IndexOf` (for `strings.IndexRune`),
`HasPrefix`, `SplitN`, `ToUpper` and `Compare`.

Modules and files:

| file | module | contents |
|---|---|---|
| `wrappers.dfy` | `Wrappers` | `Option` (a nil pointer or a present value) |
| `strings.dfy` | `Strings` | the string library functions |
| `fswatcher.dfy` | `FsWatcher` | `Op`, `Event`, `State`, observations, `Step` |
| `fswatcher_registry.dfy` | `FsWatcherRegistry` | the registry, `New`, `Tick` and its reference definitions |
| `fswatcher_properties.dfy` | `FsWatcherProperties` | invariants, idempotence, multi-cycle runs |
| `policy_api.dfy` | `PolicyApi` | the `utils.go` helpers |
| `policy_api_properties.dfy` | `PolicyApiProperties` | round trips and ordering laws |

Where the code and its own comments disagree, the model follows the code:

- The type comment at `fswatcher.go:72-78` says an error is emitted when a
  symlink's new target does not exist. In the code, a `*fs.PathError` from
  the target's `Stat` is treated as "gone": it sends a `Remove` if the target
  was known before, and never an error. The target path is still stored.
  `FsWatcher.SymlinkStep` states exactly this.

The code can also report `Remove` twice in a row, with no `Create` in between. It
happens when a symlink's target disappears and then the symlink itself
disappears. `FsWatcherProperties.RemoveTwiceWithoutCreate` exhibits this
three-cycle trace. It is the code's behaviour, so it is modelled as written.

## Model

| member | source | states |
|---|---|---|
| FsWatcher.Has | pkg/fswatcher/fswatcher.go:59-60 | An operation set has `h` exactly when the two share a bit. It has every non-empty subset of itself and nothing disjoint from it. |
| FsWatcher.CreationOp | pkg/fswatcher/fswatcher.go:247-252 | A newly seen file is reported with `Create` and never `Remove`; `Write` is added exactly when the file has data. No other bit is ever set, so the op is exactly `Create` or `Create\|Write`. |
| FsWatcher.Step | pkg/fswatcher/fswatcher.go:173-302 | One path's update in a cycle. The path is kept, and every event is named after the watched path, never the symlink target. At most one event and at most one error, never both. An `Lstat` error other than not-exist sends that error and keeps the old state. A failing `Readlink` keeps the old state silently. In every other case the new state records the fresh `Lstat` info. A regular file stores no target. A symlink stores its link target as read when that is absolute, and otherwise that target joined to the directory of the watched path. |
| FsWatcher.VanishedStep | pkg/fswatcher/fswatcher.go:183-198 | A missing path sends `Remove` exactly when it was known before, and the state is then reset to unknown. An unknown missing path changes nothing. It never sends an error. |
| FsWatcher.RegularFileStep | pkg/fswatcher/fswatcher.go:276-301 | A regular file is stored with no target. If it was unknown, exactly one event is sent: `Create`, or `Create\|Write` if non-empty. If it was known, `Write` is sent exactly when its size or modification time changed. |
| FsWatcher.SymlinkStep | pkg/fswatcher/fswatcher.go:207-275 | A symlink is stored with its resolved target. The target info is kept only when `Stat` succeeded. An error is sent exactly for a non-`PathError` failure, and then no event. A `PathError` sends `Remove` exactly when the target was known. A newly seen target sends exactly one event: `Create`, or `Create\|Write` if non-empty. A known target sends `Write` exactly when the target path, size or modification time changed. |
| FsWatcherRegistry.New | pkg/fswatcher/fswatcher.go:124-147 | The registry holds exactly the given paths, each in the unknown state, and satisfies the registry invariant. The interval is the last `WithInterval` option if any, and otherwise the test or production default. |
| FsWatcherRegistry.TickState | pkg/fswatcher/fswatcher.go:173-177 | A cycle neither adds nor removes tracked paths, and every entry keeps its path. |
| FsWatcherRegistry.EnumerationCovers | pkg/fswatcher/fswatcher.go:174 | Visiting distinct keys, as many as there are, visits every key of the registry. |
| FsWatcherRegistry.ApplyStepsUpdatesVisited | pkg/fswatcher/fswatcher.go:174-301 | Visiting distinct keys updates exactly those entries, each to its own step result, and leaves the others unchanged. |
| FsWatcherRegistry.TickEventsNameDistinctKeys | pkg/fswatcher/fswatcher.go:84-88 | Over one pass of distinct keys, every event names a visited key and no key is named twice. There are at most as many events, and as many errors, as keys. |
| FsWatcherRegistry.EnumerationGivesTickState | pkg/fswatcher/fswatcher.go:173-302 | Whatever the iteration order, a full pass gives the same registry as updating every entry independently. |
| FsWatcherRegistry.Tick | pkg/fswatcher/fswatcher.go:173-302 | The in-place loop over the registry agrees with the reference registry, events and errors for the visiting order. No path is added or removed. Every event names a tracked path, and no path gets two events in one cycle. |
| FsWatcherProperties.OpsAreDistinctBits | pkg/fswatcher/fswatcher.go:45-57 | `Create`, `Write` and `Remove` are three distinct single bits. |
| FsWatcherProperties.HasUnion | pkg/fswatcher/fswatcher.go:59-60 | A combined operation has an operation exactly when one of its parts has it. |
| FsWatcherProperties.StepPreservesInvariant | pkg/fswatcher/fswatcher.go:104-110 | A state keeps target info only for a known symlink, and every step preserves this. |
| FsWatcherProperties.StepIdempotent | pkg/fswatcher/fswatcher.go:173-302 | Observing the same filesystem again leaves the state unchanged and sends no event. Only a persistent error repeats. |
| FsWatcherProperties.UnknownNeverRemoved | pkg/fswatcher/fswatcher.go:183-198 | A path never seen before is never reported as removed. |
| FsWatcherProperties.SymlinkRepointIsWrite | pkg/fswatcher/fswatcher.go:259-269 | Re-pointing a known symlink to another existing target is reported as `Write` and nothing else. |
| FsWatcherProperties.RemoveTwiceWithoutCreate | pkg/fswatcher/fswatcher.go:183-198 | A symlink whose target vanishes and which then vanishes itself gives `Create\|Write`, `Remove`, `Remove` over three cycles. |
| FsWatcherProperties.TickPreservesInvariant | pkg/fswatcher/fswatcher.go:173-302 | A cycle keeps every key equal to its entry's path and every entry well formed. |
| FsWatcherProperties.TickIdempotent | pkg/fswatcher/fswatcher.go:173-302 | A second cycle over an unchanged filesystem leaves the registry as it is and sends no events. Only the same errors repeat. |
| FsWatcherProperties.RunPreservesRegistry | pkg/fswatcher/fswatcher.go:160-171 | Any number of cycles keeps the tracked paths and the registry invariant. |
| Strings.IndexOf | pkg/policy/api/utils.go:215 | The index is -1 exactly when the separator is absent. Otherwise it points at the first occurrence. |
| Strings.SplitN | pkg/policy/api/utils.go:233 | At most `n` parts. There are `min(count+1, n)` of them, and rejoining them gives back the input. All but the last are separator-free. |
| Strings.ToUpper | pkg/policy/api/utils.go:176 | Upper-casing keeps the length and maps each character on its own. |
| Strings.ToUpperIdempotent | pkg/policy/api/utils.go:176 | Upper-casing an upper-cased string changes nothing. |
| Strings.Compare | pkg/policy/api/utils.go:43-50 | The result is -1, 0 or 1, and it is 0 exactly for equal strings. |
| Strings.CompareAntisymmetric | pkg/policy/api/utils.go:43-50 | Swapping the arguments negates the result. |
| Strings.CompareNegativeIffLexLess | pkg/policy/api/utils.go:43-50 | The result is negative exactly when the first string is lexicographically smaller. |
| PolicyApi.ResourceQualifiedName | pkg/policy/api/utils.go:206-229 | An empty name passes through unchanged. A qualified result is `namespace/cecName/resourceName`, and an unqualified one is the input. Without `ForceNamespace`, the name is qualified exactly when it is non-empty and slash-free. With it, the name is left alone exactly when its first component is the namespace. |
| PolicyApi.ParseQualifiedName | pkg/policy/api/utils.go:232-238 | A name with fewer than two slashes parses as `("", "", name)`. Otherwise the first two parts are slash-free and rejoining the three parts gives the name back. |
| PolicyApi.Validate | pkg/policy/api/utils.go:160-168 | A protocol is valid exactly when it is `ANY`, `TCP`, `UDP` or `SCTP`, and the error names the rejected protocol. |
| PolicyApi.ParseL4Proto | pkg/policy/api/utils.go:171-178 | An empty string is `ANY` with no error. Anything else is upper-cased and then validated. |
| PolicyApi.SecretEqual | pkg/policy/api/utils.go:74-77 | Two secret references are equal exactly when both are nil or both point at equal secrets. |
| PolicyApi.HeaderMatchEqual | pkg/policy/api/utils.go:98-107 | Header matches are equal exactly when all four fields are. |
| PolicyApi.HttpRuleEqual | pkg/policy/api/utils.go:18-40 | Two HTTP rules are equal exactly when they are structurally equal. |
| PolicyApi.DnsRuleEqual | pkg/policy/api/utils.go:141-144 | A nil DNS rule equals nothing. A present one equals exactly an identical rule. |
| PolicyApi.L7RuleEqual | pkg/policy/api/utils.go:146-157 | Two generic L7 rules are equal exactly when they are the same key-value map. |
| PolicyApi.HeadersEqual | pkg/policy/api/utils.go:28-32 | Two header lists of the same length agree position by position exactly when they are equal. |
| PolicyApi.HeaderMatchesEqual | pkg/policy/api/utils.go:34-38 | Two header-match lists of the same length agree position by position exactly when they are equal. It requires only what keeps Go from panicking: every position the loop reaches, where all earlier matches agree, holds two non-nil matches. |
| PolicyApi.ContainsFunc | pkg/policy/api/utils.go:15 | The predicate needs to be defined only on the elements the search reaches, that is, up to the first one it accepts. The result is true exactly when some element is accepted. When it is false, every element was checked and rejected. |
| PolicyApi.ContainsFuncFindsEqual | pkg/policy/api/utils.go:15 | A predicate that, up to the first `x`, is defined and accepts exactly `x` turns the search into membership of `x`. |
| PolicyApi.HttpRuleExists | pkg/policy/api/utils.go:13-16 | An HTTP rule exists exactly when it is a member of the rule list. It requires only that `Equal` not panic on the rules the search reaches, namely those before the first equal rule and that rule itself. |
| PolicyApi.DnsRuleExists | pkg/policy/api/utils.go:131-134 | A DNS rule exists exactly when it is non-nil and a member of the list. |
| PolicyApi.L7RuleExists | pkg/policy/api/utils.go:136-139 | A generic L7 rule exists exactly when it is a member of the list. |
| PolicyApi.SecretCompare | pkg/policy/api/utils.go:79-96 | The result is -1, 0 or 1. It is 0 exactly for equal references, and nil sorts first. |
| PolicyApi.HeaderMatchCompare | pkg/policy/api/utils.go:109-129 | The result is -1, 0 or 1. It is 0 exactly for equal matches, and nil sorts first. |
| PolicyApi.CompareHeaders | pkg/policy/api/utils.go:56-60 | Comparing two header lists of the same length gives -1, 0 or 1, and 0 exactly when they are equal. |
| PolicyApi.CompareHeaderMatches | pkg/policy/api/utils.go:65-69 | Comparing two header-match lists of the same length gives -1, 0 or 1, and 0 exactly when they are equal. Nil elements are allowed, and they are compared as at utils.go:110-118. |
| PolicyApi.HttpRuleCompare | pkg/policy/api/utils.go:42-72 | The result is 0 exactly for equal rules. The first differing field decides, in the order path, method, host, headers, header matches. A string field gives its string comparison. A difference in header count, or in header-match count once the headers are equal, is returned as that difference. Equal-length lists give their position-wise comparison. |
| PolicyApiProperties.ParseOfThreeComponents | pkg/policy/api/utils.go:232-238 | A name made of two slash-free components and a rest, joined by '/', parses into exactly those three components. |
| PolicyApiProperties.ParseInvertsQualify | pkg/policy/api/utils.go:206-238 | Parsing a name the qualifier produced recovers namespace, CEC name and resource name, provided neither of the first two contains a slash. |
| PolicyApiProperties.QualifiedNameIsFinal | pkg/policy/api/utils.go:206-229 | Qualifying an already qualified name again leaves it as it is, with or without `ForceNamespace` and whatever the CEC name. |
| PolicyApiProperties.QualifyIdempotent | pkg/policy/api/utils.go:206-229 | Applying the qualifier twice gives the same name as applying it once. |
| PolicyApiProperties.ParseL4ProtoIgnoresCase | pkg/policy/api/utils.go:171-178 | Spellings that differ only in case parse the same way. |
| PolicyApiProperties.ParseL4ProtoAccepts | pkg/policy/api/utils.go:171-178 | Parsing succeeds exactly for the empty string and the spellings of `any`, `tcp`, `udp` and `sctp`. |
| PolicyApiProperties.SecretCompareAntisymmetric | pkg/policy/api/utils.go:79-96 | Swapping two secret references negates the comparison. |
| PolicyApiProperties.HeaderMatchCompareAntisymmetric | pkg/policy/api/utils.go:109-129 | Swapping two header matches negates the comparison. |
| PolicyApiProperties.CompareHeadersAntisymmetric | pkg/policy/api/utils.go:53-60 | Swapping two header lists of equal length negates the comparison. |
| PolicyApiProperties.CompareHeaderMatchesAntisymmetric | pkg/policy/api/utils.go:62-69 | Swapping two header-match lists of equal length negates the comparison. |
| PolicyApiProperties.HttpRuleCompareAntisymmetric | pkg/policy/api/utils.go:42-72 | Swapping two HTTP rules negates the comparison. |
| PolicyApiProperties.HttpRuleEqualIffCompareZero | pkg/policy/api/utils.go:18-72 | `Equal` and `Compare` agree: two HTTP rules for which `Equal` does not panic are equal exactly when they compare as 0. |
| PolicyApiProperties.CompareHeadersFirstDifference | pkg/policy/api/utils.go:56-60 | In two header lists of the same length, the first position where they differ decides the comparison. |
| PolicyApiProperties.CompareHeaderMatchesFirstDifference | pkg/policy/api/utils.go:65-69 | In two header-match lists of the same length, the first position where they differ decides the comparison, nil elements included. |

## Left out

- The watcher goroutine, the ticker, `Close` and the stop channel are not modelled. This is concurrency. A send on the unbuffered `Events`/`Errors` channel is modelled as appending to the cycle's output, so an event dropped because `Close` raced with the send is not modelled.
- `os.Lstat`, `os.Readlink` and `os.Stat` are not modelled. They are OS calls. Their results per path and cycle are a parameter, `Observation`. Only the distinctions the code makes are kept: not-exist versus other error for `Lstat`, and `*fs.PathError` versus other error for `Stat`.
- `filepath.IsAbs`, `filepath.Dir` and `filepath.Join` are uninterpreted functions passed in `PathOps`. Path cleaning is library behaviour the watcher does not depend on.
- Go's random map iteration order is a parameter `order`, any enumeration of the keys. Every property holds for every order.
- `time.Time` is an opaque comparable stamp, and durations are integer nanoseconds. `time.Tick` with a non-positive interval is not modelled.
- `testing.Testing()` is a parameter of `New`.
- `FsWatcherRegistry.New` does not model the `error` result, which is always nil.
- `ExtractCidrSet` and the rest of `pkg/policy/api` are not modelled. The `operator/metrics` and `pkg/datapath/loader` files are not part of this model.
- `Strings.ToUpper` upper-cases ASCII letters only. Go's `strings.ToUpper` also maps other Unicode letters, for example 'ſ' to 'S'. So `PolicyApi.ParseL4Proto` may accept a non-ASCII spelling that the model rejects.
- `Strings.Compare` compares code points, where Go compares UTF-8 bytes. The two orders agree on valid UTF-8.
- `strings.IndexRune` returns a byte offset, and the model uses a code-point index. `ResourceQualifiedName` also checks `HasPrefix`, so the outcome is the same.
- `Strings.SplitN` models `n >= 0` only, which is all `ParseQualifiedName` uses.
- `PolicyApi.HttpRuleEqual`, `PolicyApi.HttpRuleExists`, `PolicyApi.L7RuleEqual` and `PolicyApi.L7RuleExists` take values, not pointers. In Go, `Equal` on a nil `*PortRuleHTTP` or `*PortRuleL7` panics, and so does `Exists` on a non-empty list. Those panics are not modelled. `DnsRuleEqual` and `DnsRuleExists` do model the nil receiver, because the source checks for it.
- `PolicyApi.HttpRuleEqual` and `PolicyApi.HeaderMatchesEqual` require that the `Equal` loop reaches no nil header match, because Go's `HeaderMatch.Equal` dereferences both sides and would panic there. A nil element is still a valid list element: `PolicyApi.CompareHeaderMatches` and `PolicyApi.HttpRuleCompare` accept it and order it first, as the source does.
- The values of `ProtoAny`, `ProtoTCP`, `ProtoUDP` and `ProtoSCTP` are "ANY", "TCP", "UDP" and "SCTP". They are defined in `l4.go`, which is not part of this model.
- `Validate`'s error message text is reduced to the rejected protocol.
- `ResourceQualifiedName` options other than `ForceNamespace` are ignored, as in the source.
