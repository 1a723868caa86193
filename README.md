# Hytale name checker, modelled in Dafny

The tool reads candidate user names and asks a remote service, one HTTP request
per name, whether each is still free. It reports how many are available. Its
logic is in two functions of `src/main.rs`:

- `check_username` trims the name. If the trimmed name is shorter than 3 or
  longer than 16 bytes, it answers `Ok(false)` and sends nothing. Otherwise it
  sends one request. A transport failure becomes `Err`, a 2xx status `Ok(true)`,
  and any other status `Ok(false)`.
- `check_group` spawns one task per name into a bounded join set. It then drains
  the completions in whatever order they arrive:
  - an available name adds 1 to the count;
  - an unavailable name is skipped;
  - a task that fails to join is reported and skipped;
  - the first transport error (the `?` on the task's answer) ends the whole
    batch with that error.

The model has four modules:

- `RustCore` (`rust_core.dfy`): `Result`, with the members that let `:-` play
  the part of Rust's `?`.
- `RustStr` (`rust_str.dfy`): `str::trim` over the Unicode White_Space
  characters, and `str::len`. Names are Dafny strings of Unicode scalar values.
  Their stored bytes are given by a UTF-8 encoder (section 3 of RFC 3629), so
  the length bound counts bytes, as `len` does.
- `Probe` (`probe.dfy`): `check_username`. What the request returns is an input
  `Reply`: either `Transport(error)` or `Received(status)`, with status codes
  from 100 to 999.
- `Group` (`group.dfy`): the drain loop of `check_group`, as the method
  `CheckGroup`. It takes the completions in arrival order. Its precondition says
  they are a permutation of one completion per name: the ghost `fates` give, per
  spawned task, the reply it got or that it did not deliver. The method is
  proved equal to `Outcome`. Lemmas about `Outcome` then state the
  order-independent result, the early abort, the skipped completions and the
  two concrete scenarios.

Three consequences of the code are worth stating:

- A transport error aborts the whole batch, and the count is discarded
  (`TransportErrorAbortsBatch`).
- A join failure is printed and skipped (`SkippedCompletion`).
- The length bound counts UTF-8 bytes, not characters (`MultiByteNames`). The
  two agree on ASCII names (`AsciiAdmittedByCharCount`).

## Model

| member | source | states |
|---|---|---|
| `RustStr.IsWhitespace` | src/main.rs:20 | the White_Space set that trim strips; no such character lies outside U+0009..U+3000, and no ASCII letter, digit or underscore is one |
| `RustStr.LeadingWhitespace` | src/main.rs:20 | the number of leading characters trim strips: all of them are whitespace and the next one is not |
| `RustStr.TrailingWhitespace` | src/main.rs:20 | the number of trailing characters trim strips: all of them are whitespace and the one before is not |
| `RustStr.Trim` | src/main.rs:20 | the trimmed name is the slice of the name starting at its first non-whitespace character; everything cut away is whitespace; it neither starts nor ends with whitespace |
| `RustStr.TrimIdempotent` | src/main.rs:20 | trimming an already trimmed name changes nothing |
| `RustStr.TrimIgnoresPadding` | src/main.rs:20 | surrounding a string with whitespace on either side does not change its trim |
| `RustStr.EncodeChar` | src/main.rs:21 | a character takes 1 byte below U+0080, 2 below U+0800, 3 below U+10000 and 4 above; the lead byte lies in the non-overlong range for that length; every later byte is a continuation byte; decoding the bytes gives back the character |
| `RustStr.Utf8` | src/main.rs:21 | a string of n characters takes between n and 4n bytes |
| `RustStr.ByteLen` | src/main.rs:21 | `len` of a string of n characters is between n and 4n bytes |
| `RustStr.Utf8Concat` | src/main.rs:21 | the bytes of a concatenation are the concatenation of the bytes |
| `RustStr.AsciiByteLen` | src/main.rs:21 | for ASCII text the byte length equals the character count |
| `Probe.IsSuccess` | src/main.rs:29 | a status is a success exactly when it is in the 2xx class |
| `Probe.Admitted` | src/main.rs:21 | the guard that lets a request go out; an admitted name's trim has between 1 and 16 characters, and a trim of more than 16 characters is never admitted |
| `Probe.CheckUsername` | src/main.rs:19-33 | a name whose trimmed byte length is outside 3..16 gets Ok(false); for an admitted name the answer is Err exactly on a transport failure, with that failure's error; the answer is Ok(true) exactly for an admitted name answered with a 2xx status |
| `Probe.RejectedNameIgnoresReply` | src/main.rs:20-23 | for a rejected name every possible reply gives the same Ok(false): no request is made |
| `Probe.AsciiAdmittedByCharCount` | src/main.rs:20-23 | when the trimmed name is ASCII, it is admitted exactly when it has 3 to 16 characters |
| `Probe.PaddingIgnored` | src/main.rs:20 | whitespace around a name leaves the answer unchanged for every reply |
| `Probe.MultiByteNames` | src/main.rs:21 | two two-byte characters pass the lower bound, and nine of them fail the upper bound |
| `Group.Task` | src/main.rs:44-47 | a task yields its name's pair exactly when it ran, carrying the untrimmed name; a task that did not run yields its join error; it carries a transport error exactly when it ran for an admitted name whose request failed in transport |
| `Group.Spawned` | src/main.rs:40-48 | exactly one completion per name, the i-th being the task for the i-th name |
| `Group.CountAvailable` | src/main.rs:53-56 | the number of completions reporting an available name, at most the number of completions |
| `Group.FirstFailure` | src/main.rs:50-53 | the position of the first completion carrying a transport error, none before it, or the length when there is none |
| `Group.CheckGroup` | src/main.rs:35-64 | draining the completions returns the first transport error in arrival order if there is one, and otherwise Ok of the number of available names; limit plays no part |
| `Group.CountAvailableConcat` | src/main.rs:55 | counts add up over concatenation |
| `Group.CountAvailablePermutation` | src/main.rs:50-57 | the count is the same for every order of the completions |
| `Group.TaskAvailable` | src/main.rs:44-47 | a task reports its name available exactly when it ran, the name was admitted and the reply was 2xx |
| `Group.GroupOutcome` | src/main.rs:40-63 | in every completion order: the result is Err exactly when some admitted name's request failed in transport, and the error is one of those; otherwise it is the number of names found available, at most the number of names |
| `Group.EmptyGroup` | src/main.rs:40-50 | no names means no completions and a count of 0 |
| `Group.StopsAtFirstFailure` | src/main.rs:53 | the first transport error is returned whatever came before (the count so far is dropped) and whatever comes after (never looked at) |
| `Group.SkippedCompletion` | src/main.rs:51-60 | a join failure or an unavailable name can be removed from anywhere in the completions without changing the result: the loop neither counts nor stops on it |
| `Group.AvailableAddsOne` | src/main.rs:53-56 | one more available completion raises a count of n to n + 1 |
| `Group.PlainNameAdmitted` | src/main.rs:20-23 | an ASCII name without surrounding whitespace is admitted exactly when it has 3 to 16 characters |
| `Group.ScenarioCountsOne` | src/main.rs:19-63 | names of 2, 9, 15 and 20 characters, with only the 9-character one answered with a 2xx status (any status in 200..299), give Ok(1) in every order, whatever the replies for the two rejected names |
| `Group.TransportErrorAbortsBatch` | src/main.rs:53 | a name answered with any 2xx status beside a name whose request fails in transport gives that error, in either order |

## Left out

- The HTTP request (`reqwest::Client`, the URL, the query encoding; src/main.rs:25-28) is a foreign network call. The model takes its outcome as the input `Reply`.
- The bounded concurrency of `bounded_join_set::JoinSet` (src/main.rs:38, 44-47, 50): its scheduling and its in-flight cap are not modelled. The model keeps only the completions, in an arbitrary order that is a permutation of one per name. So `limit` is a parameter that `CheckGroup` never reads.
- A request that never answers is not modelled. The client is built by `Client::new()` with no timeout (src/main.rs:37), so such a task would leave `join_next` (src/main.rs:50) waiting forever. The precondition of `CheckGroup` assumes every spawned task delivers a completion, so the model does not capture that hang.
- Join failures are an input (`Fate.Aborted`). The model does not say when a task panics or is cancelled.
- `Arc` sharing of the client (src/main.rs:37, 42) has no logical content.
- `compile_names` (src/main.rs:66-79) and `main` (src/main.rs:7-18) are file and console I/O. So are the `println!`/`eprintln!` lines (src/main.rs:54, 59).
- Integer width: `available_count` is a `usize`, and the model counts in `nat`. No wrap-around can happen: the count never exceeds the number of names (`CountAvailable`), and that number fits in a `usize`.
- The contents of `reqwest::Error` and of the join error are opaque strings.
