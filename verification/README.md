# hammer: trailing-window request statistics

`hammer` fires HTTP requests at a URL at a target rate. It keeps every
completed request as an event `{t0, t1, statusText}` and repaints a
terminal report of the last second. This project models the deterministic
part of that loop as pure Dafny functions and proves properties about them:

- **Window** (`window.dfy`): the event record and the pruning pass that a
  ticker runs under the lock. It keeps the events whose start lies less
  than one second before `now`.
- **Stats** (`stats.dfy`): the report. It counts the in-window events per
  label, tracks the largest in-window latency starting from zero, and
  returns the labels sorted.
- **Lex** (`lex.dfy`): Go's string order and `sort.Strings`.
- **Status** (`status.dfy`): how a worker labels a fetch. A transport error
  becomes the last `": "`-separated segment of its message (`strings.Split`).
  A response is labelled by its status text.
- **Rate**, **Int32** (`rate.dfy`, `int32.dfy`): the int32 target rate.
  Arrow-up doubles it with wrap-around. Arrow-down halves it, truncating
  toward zero. The dispatcher's pause is `int32(time.Second) / reqQPS`.
- **Clock** (`clock.dfy`): clock readings and `time.Duration` as integer
  nanoseconds. `time.Time.Sub` saturates at the int64 bounds.

The clock (`time.Now`) becomes a parameter `now`. Timestamps are integers
on a monotonic clock. The mutex-protected critical sections become
functions of the event slice.

Some facts about the code that shape the model:
- Expiry is a rescan of the slice every 10 ms (main.go:195-208).
- The dispatcher sleeps `int32(time.Second) / reqQPS` nanoseconds between
  permissions to send (main.go:136).
- A rate of zero is not guarded. It panics (see Findings).
- The worker count is a flag fixed at start-up (main.go:19).
- The pruner and the report both read `time.Now()` before taking the lock
  (main.go:197-198, 212-213). A prune stamped after a report's `now` can
  therefore run first, and the report then shows the window as of the
  prune's reading (`Stats.ReportAfterPrune`).

## Model

| member | source | states |
|---|---|---|
| Clock.Sub | main.go:201 | `t.Sub(u)` is an int64 Duration: the exact difference whenever that fits, the largest Duration when the difference is above it, and the smallest when it is below |
| Clock.SubBelowIff | main.go:201 | Comparing a saturated `Sub` result with the one-second bound gives the same answer as comparing the exact difference |
| Window.InWindow | main.go:201 | The test `now.Sub(e.t0) < interval` holds exactly when `now < t0 + 1s`, including readings before `t0` and readings so far apart that `Sub` saturates |
| Window.InWindowEarlier | main.go:201 | An event in the window at `now` is in the window at every earlier instant |
| Window.Prune | main.go:199-205 | The rebuilt slice is never longer than the old one, and every event it keeps is in the window |
| Window.PruneSelects | main.go:199-205 | Pruning reads `es` at a strictly increasing list of indices; an index is kept iff its event is in the window, so the kept events are exactly the in-window ones, in their original order |
| Window.PruneMembership | main.go:199-205 | An event survives pruning iff it was in the slice and is in the window |
| Window.PruneCompose | main.go:195-208 | Pruning at `a` then at `b` equals pruning once at the later of the two instants |
| Window.PruneIdempotent | main.go:199-205 | Pruning twice at the same instant equals pruning once |
| Stats.Latency | main.go:217 | `e.t1.Sub(e.t0)` is an int64 Duration: `t1 - t0` whenever that fits, and saturated to the nearer int64 bound otherwise |
| Stats.MakeReport | main.go:210-232 | The report's labels are strictly ascending and are exactly the keys of the count map, every count is at least 1, and the largest latency is never negative |
| Stats.Tally | main.go:214-216 | Every label present in the count map has a count of at least 1 |
| Stats.TallyCounts | main.go:214-216 | The count of each label equals the number of in-window events that carry it, and a label is a key iff some in-window event carries it |
| Stats.TallyDomain | main.go:214-216 | A label is a key iff an in-window event of the slice carries it, so events that aged out contribute no key and no key stays at 0 |
| Stats.CountsSumToWindowSize | main.go:214-216 | The counts of the reported labels sum to the number of in-window events |
| Stats.MaxLatency | main.go:217-220 | The maximum latency is non-negative and bounds the latency of every in-window event. It is either 0 or the latency of some in-window event, so it is 0 when the window is empty |
| Stats.KeysAreSortedDomain | main.go:226-229 | The reported labels are strictly ascending, so they have no duplicates, and they are exactly the keys of the count map |
| Stats.KeysOrderIndependent | main.go:226-229 | Sorting any duplicate-free listing of the map's keys, whatever the map's iteration order, gives the reported labels |
| Stats.ReportAfterPrune | main.go:197-216 | A report at `now` over a slice pruned at `p` equals the report at the later of `p` and `now` over the unpruned slice, for any order in which the two readings of the clock were taken |
| Stats.ReportIgnoresEarlierPrune | main.go:199-216 | A report at `now` is the same whether or not the slice was pruned at any instant up to `now`; both passes use the same window test |
| Stats.RecordVisibleUntilExpiry | main.go:187-222 | An appended event adds one to its label's count in every report before `t0 + 1s`, and changes no report from `t0 + 1s` on |
| Lex.Less | main.go:229 | `a < b` holds exactly when, at the first position where the strings differ, `a` has the smaller character, or, when they do not differ before one ends, `a` is the shorter |
| Lex.Sort | main.go:229 | The sorted list is strictly ascending and holds exactly the listed strings |
| Lex.SortedUnique | main.go:229 | Two strictly ascending lists with the same elements are equal |
| Lex.LessTransitive | main.go:229 | The string order used by the sort is transitive |
| Lex.LessTotal | main.go:229 | Any two distinct strings are ordered one way or the other |
| Status.Split | main.go:118 | `strings.Split` on `": "` always yields at least one piece, and no piece contains the separator |
| Status.SplitJoin | main.go:118 | Joining the pieces with `": "` restores the message |
| Status.JoinSplit | main.go:118 | Splitting a join of separator-free pieces gives those pieces back |
| Status.LastSegment | main.go:118-119 | `parts[len(parts)-1]` has no separator, is the whole message when the message has none, and is always a suffix of the message |
| Status.LastSegmentShape | main.go:118-119 | The last piece is the whole message when the message has no separator. Otherwise the message ends with `": "` followed by the last piece |
| Status.LastSegmentUnique | main.go:118-119 | Whenever a message is written as `p + ": " + l` with `l` free of the separator, `l` is its last piece |
| Status.Classify | main.go:116-122 | A transport error's label has no separator and is a suffix of the error message: the whole message when it has no separator, otherwise what follows `": "` at the message's end. A response's label is its status text |
| Int32.Wrap | main.go:64 | The stored value is the one int32 congruent to the exact product modulo 2^32 |
| Int32.Quot | main.go:68 | Go's division leaves a remainder smaller than the divisor with the dividend's sign |
| Rate.Up | main.go:63-64 | Arrow-up stores the int32 congruent to `2q` modulo 2^32, which is `2q` itself whenever that fits |
| Rate.Down | main.go:67-68 | Arrow-down halves a non-negative rate rounding down, and a negative one rounding toward zero |
| Rate.UpDoubles | main.go:63-64 | Arrow-up doubles the rate exactly while the double fits in an int32 |
| Rate.DownUp | main.go:63-68 | Arrow-down undoes arrow-up whenever the doubled rate fits in an int32 |
| Rate.SleepNanos | main.go:136 | The pause panics iff the rate is 0. A positive rate `q` gives the largest pause `d` with `d * q <= 1s`. A negative rate gives a pause of at most 0 |
| Rate.Press | main.go:61-69 | Arrow-up doubles the rate modulo 2^32; arrow-down leaves a remainder `q - 2r` of at most 1 in magnitude, with the sign of `q` |
| Rate.PressAllAppend | main.go:58-77 | Pressing one run of keys and then another gives the same rate as pressing their concatenation |
| Rate.PressAll | main.go:58-77 | Any sequence of arrow keys keeps the rate an int32 |
| Rate.DownFromInitialPanics | main.go:66-68 | From the start-up rate of 1, one arrow-down stores 0 and the next pause computation divides by zero |
| Rate.UpsFromInitialOverflow | main.go:62-64 | From the start-up rate, 31 arrow-ups wrap the rate to the most negative int32, so the dispatcher stops pausing; 32 wrap it to 0, which panics |
| Rate.GuardedUp | main.go:62-64 | The corrected arrow-up doubles the rate and saturates at the largest int32, keeping the rate positive |
| Rate.GuardedDown | main.go:66-68 | The corrected arrow-down halves the rate but never goes below 1 |
| Rate.GuardedDownUp | main.go:62-68 | The corrected keys still undo each other while doubling fits |
| Rate.GuardedNeverPanics | main.go:136 | With the corrected keys, no key sequence from start-up makes the pause computation panic, and every pause is at most a second |

## Findings

| source | as written | input that shows it | evidently intended | confidence | as-written member | corrected member |
|---|---|---|---|---|---|---|
| main.go:66-68 | `q/2` stores 0 when the rate is 1, and main.go:136 then divides by zero | one arrow-down right after start-up (`reqQPS` starts at 1) | the rate stays at least 1 so the dispatcher can always pace | medium, not executed | Rate.DownFromInitialPanics | Rate.GuardedNeverPanics |
| main.go:62-64 | `2*q` wraps around in int32 | 31 arrow-ups give -2147483648, so the pause is 0; 32 give 0, which panics at main.go:136 | the rate saturates at the largest int32 | medium, not executed | Rate.UpsFromInitialOverflow | Rate.GuardedNeverPanics |

## Left out

- Terminal UI (`draw`, `tbprint`, key polling, `sendTermboxInterrupts`, main.go:45-77, 143-182): terminal I/O. Key presses are modelled only by their effect on the rate (`Rate.PressAll`).
- Fetching (HTTP client, `curl` subprocess, response-body reading and closing, the `noop` and unknown-fetcher labels, main.go:96-115, 124-127): network and process calls whose results are not visible. `Status.Fetch` stands for their outcome.
- `http.StatusText` and `time.Now`: the status text is an opaque string and `now` is an integer parameter.
- Goroutines, channels, `sync.Mutex`, `atomic`, `time.Tick` and `time.Sleep` (main.go:53-56, 80-92, 132-141, 184-193): concurrency and timing plumbing. Only the bodies of the critical sections are modelled, as functions of the slice.
- Flag parsing and the worker count (main.go:19-20, 37-43): configuration, fixed at start-up.
- Lex.Less: compares characters (code points), while Go compares the bytes of UTF-8. The two orders agree on valid UTF-8 but not on invalid byte sequences, which are not modelled.
- Status.Split: splits a sequence of characters, while Go splits bytes. The separator is ASCII, so the two agree on valid UTF-8.
- Lex.Sort: drops repeated strings, which `sort.Strings` keeps. The keys of a Go map never repeat, so the result is the same (`Stats.KeysOrderIndependent`).
