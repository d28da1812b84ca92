# w32_select in Dafny

A model of `w32_select` from `win32-select.c`: POSIX `select` emulated on
Win32. The call does the following, in order:

1. It converts the `struct timeval` timeout into a DWORD millisecond count.
2. It resolves every descriptor below 64 that is set in the read, write and
   except sets to a handle (`_get_osfhandle`). It collects those handles into
   `hMultiple` and records them per role in `hRead`, `hWrite` and `hExcept`.
3. It traps (`DebugBreak`) on any invalid handle, and on any handle that is
   not a disk file, character device or pipe.
4. It waits. With `nfds == 0` it sleeps; otherwise it waits on every collected
   handle at once.
5. After a multi-wait `WAIT_TIMEOUT` it zeroes the sets and returns 0. After
   `WAIT_FAILED` it returns -1.
6. Otherwise it re-tests each mapped handle with a zero-timeout wait:
   - `WAIT_TIMEOUT` clears the descriptor's bit;
   - `WAIT_OBJECT_0` keeps the bit and counts one toward the result;
   - any other result traps.

The model also covers the fixed-width descriptor set `w32_fd_set` and its
macros:
- the set is 32 words of 32 bits, so `unsigned long` is a `bv32`;
- `W32_FD_SET`, `W32_FD_CLR`, `W32_FD_ZERO` and `W32_FD_COPY` are methods
  that update an `array<bv32>` in place;
- `W32_FD_ISSET`, `w32_fdset_mask` and `w32_howmany` are functions.

Modules:

- `Win32` (`win32.dfy`) holds the following:
  - the DWORD, LONG and HANDLE types;
  - the constants compared against;
  - `Os`, which holds the four operating-system calls as fixed functions
    supplied by the caller: `_get_osfhandle`, `GetFileType`,
    `WaitForMultipleObjects` (as a function of the handle list and the
    timeout) and `WaitForSingleObject(h, 0)`.
- `W32FdSet` (`fdset.dfy`) models the descriptor set and its macros.
- `Timeout` (`timeout.dfy`) models the timeout conversion.
- `W32Select` (`select.dfy`) models `w32_select`:
  - one method per loop of the source (`MapRole`, `CheckHandles`,
    `CheckFileTypes`, `ClassifyRole`);
  - methods for the phases those loops form (`MapAll`, `ZeroAll`,
    `ClassifyAll`);
  - `Select` for the whole call;
  - functions that state what each loop computes (`Slots`, `Gathered`,
    `Collected`, `Classified`, `Ready`), with lemmas about those functions.

`Select` returns an `Outcome` and a `Blocking` value:
- `Outcome` is either `Returned(retval)` or `Aborted(cause)`. The causes are
  the failed `assert(nfds < MAXIMUM_WAIT_OBJECTS)` and the three
  `DebugBreak` traps.
- `Blocking` records what the call slept or waited on.

The three set arguments are nullable arrays, and they may be the same array.
The only precondition is the one the source needs to stay in bounds: at most
64 set bits below 64 across the three sets. The source never checks that
`hMultiple` has room.

The timeout conversion is modelled as written:
`dwMilliseconds = 0; dwMilliseconds += tv_sec * 1000; dwMilliseconds += tv_usec / 100`.
The arithmetic is 32-bit unsigned and the division truncates.
- Dividing microseconds by 100 rather than by 1000 makes the
  microsecond part of the timeout ten times too long.
  `Timeout.MicrosecondsTenfold` states the excess exactly and
  `Timeout.HalfSecond` shows half a second becoming five.
- The wrap-around can turn a finite timeout into `INFINITE`
  (`Timeout.FiniteCanBeInfinite`).
- The rest of the model uses the conversion as written, because that is
  the value the code passes to `Sleep` and `WaitForMultipleObjects`.

## Model

| member | source | states |
|---|---|---|
| W32FdSet.HowMany | win32-select.c:13 | `w32_howmany(x, y)` is `x / y` rounded up: `x <= r*y < x + y` |
| W32FdSet.WordCount | win32-select.c:9-16 | a set has `w32_howmany(1024, 32) == 32` words, exactly enough for 1024 descriptors |
| W32FdSet.MaskOneBit | win32-select.c:12 | `w32_fdset_mask(n)` has exactly one bit set: it is nonzero and `m & (m - 1) == 0` |
| W32FdSet.IsSetContainsMask | win32-select.c:21 | `W32_FD_ISSET(n, p)` holds exactly when word `n / 32` contains the whole mask of `n` |
| W32FdSet.MaskDisjoint | win32-select.c:12 | descriptors at different bit positions have masks with no common bit |
| W32FdSet.SameSlot | win32-select.c:19-22 | two descriptors are equal exactly when they have the same word index `n / 32` and bit index `n % 32` |
| W32FdSet.SetSame | win32-select.c:21-22 | after `W32_FD_SET(n, p)`, `W32_FD_ISSET(n, p)` holds |
| W32FdSet.SetOther | win32-select.c:21-22 | `W32_FD_SET(n, p)` leaves every other descriptor, in the same word or another, as it was |
| W32FdSet.SetSemantics | win32-select.c:21-22 | after `W32_FD_SET(n, p)`, `m` is set exactly when `m == n` or it was set before |
| W32FdSet.ClrSame | win32-select.c:19-21 | after `W32_FD_CLR(n, p)`, `W32_FD_ISSET(n, p)` fails |
| W32FdSet.ClrOther | win32-select.c:19-21 | `W32_FD_CLR(n, p)` leaves every other descriptor as it was |
| W32FdSet.ClrSemantics | win32-select.c:19-21 | after `W32_FD_CLR(n, p)`, `m` is set exactly when `m != n` and it was set before |
| W32FdSet.ClrAbsent | win32-select.c:19 | clearing a descriptor that is not set leaves every word unchanged |
| W32FdSet.MembersWithBit | win32-select.c:22 | `W32_FD_SET` adds exactly `{n}` to the set of members |
| W32FdSet.MembersWithoutBit | win32-select.c:19 | `W32_FD_CLR` removes exactly `{n}` from the set of members |
| W32FdSet.EmptyHasNoMembers | win32-select.c:23-30 | after `W32_FD_ZERO` no descriptor below 1024 is set |
| W32FdSet.Set | win32-select.c:22 | the array afterwards is the old words with bit `n % 32` of word `n / 32` or-ed in |
| W32FdSet.Clr | win32-select.c:19 | the array afterwards is the old words with bit `n % 32` of word `n / 32` masked out |
| W32FdSet.Copy | win32-select.c:20 | the target afterwards holds the source's words and so its members; a source aliasing the target is read before it is written |
| W32FdSet.Zero | win32-select.c:23-30 | the countdown loop leaves all 32 words zero |
| Timeout.TruncDiv | win32-select.c:63 | C integer division: it truncates toward zero, so the remainder has the dividend's sign |
| Timeout.Wrap | win32-select.c:61-63 | storing into a DWORD keeps the residue modulo 2^32 |
| Timeout.WrapSum | win32-select.c:61-63 | wrapping the intermediate sum at line 62 does not change the final DWORD |
| Timeout.Milliseconds | win32-select.c:58-64 | NULL gives `INFINITE`; otherwise the result is `(tv_sec*1000 + tv_usec/100) mod 2^32` with truncating division |
| Timeout.MicrosecondsTenfold | win32-select.c:63 | with normalised `tv_usec` and no wrap, the result is `tv_sec*1000 + tv_usec/100`; the microsecond part contributes between `10*(usec/1000)` and `10*(usec/1000) + 9` ms, which is `9*(usec/1000) + (usec%1000)/100` more than a microsecond-to-millisecond conversion gives |
| Timeout.HalfSecond | win32-select.c:63 | `{0, 500000}` becomes 5000 ms where 500 ms is meant |
| Timeout.ZeroPolls | win32-select.c:61-63 | `{0, 0}` gives a zero wait |
| Timeout.FiniteCanBeInfinite | win32-select.c:58-64 | `{4294967, 29500}` and `{0, -100}` both wrap to `INFINITE` |
| Timeout.SmallNegativeMicroseconds | win32-select.c:63 | `{0, -50}` gives 0, because C division truncates, where Euclidean division would give -1 |
| W32Select.SetIndicesExact | win32-select.c:68-69 | the descriptors a mapping loop meets are exactly the set ones below `k`, each once, strictly ascending |
| W32Select.GatheredIsImage | win32-select.c:68-73 | the handles a mapping loop appends are `_get_osfhandle` of those descriptors, in that order |
| W32Select.IndicesCount | win32-select.c:68-71 | a mapping loop appends one handle per set descriptor below 64 |
| W32Select.CollectedCount | win32-select.c:66-106 | `countMultiple` after the three mapping loops is the number of set bits below 64, summed over the sets passed |
| W32Select.GatheredAgrees | win32-select.c:68-71 | two sets that agree on descriptors `0..k-1` give a mapping loop the same handles up to `k` |
| W32Select.MappingIgnoresHighBits | win32-select.c:68-76 | the mapping loops read only descriptors `0..63`: sets agreeing there give the same role array and the same handles, whatever bits 64..1023 hold |
| W32Select.MapSlot | win32-select.c:69-76 | one pass for descriptor `i` takes the loop from descriptors `0..i-1` to `0..i`: the handle list grows by the descriptor's handle if set, and role slot `i` becomes that handle or NULL |
| W32Select.MapRole | win32-select.c:67-78 | after one mapping loop, `hMultiple[..newCount]` is the old prefix followed by the handles of the set descriptors in ascending order; the tail is unchanged; the role array is `_get_osfhandle(i)` where bit `i` is set and NULL elsewhere |
| W32Select.MapAll | win32-select.c:66-106 | `hMultiple[0..countMultiple)` lists read, then write, then except handles; each role array given is that set's slots |
| W32Select.CheckHandles | win32-select.c:108-113 | passes exactly when no collected handle is `INVALID_HANDLE_VALUE` |
| W32Select.CheckFileTypes | win32-select.c:115-121 | passes exactly when every collected handle's type is DISK, CHAR or PIPE |
| W32Select.ClassifyRole | win32-select.c:151-168 | stops at 64, or at the first slot whose single wait is neither `WAIT_TIMEOUT` nor `WAIT_OBJECT_0` (the trap); the set is the input with every timed-out slot so far cleared; `ready` counts the signalled slots so far |
| W32Select.ClassifiedAt | win32-select.c:151-168 | after slots `0..k-1`, `m` is set exactly when it was set and slot `m < k` did not time out |
| W32Select.ClassifiedKeepsHighWords | win32-select.c:152-157 | words 2..31, which hold descriptors 64..1023, are never written by classification |
| W32Select.ClassifiedMembers | win32-select.c:150-168 | a full classification loop removes exactly the timed-out slots' descriptors; the result is a subset of the input |
| W32Select.ClassifiedNoop | win32-select.c:153-158 | classifying a set with no timed-out descriptor set changes nothing |
| W32Select.ClassifiedIdempotent | win32-select.c:150-208 | classifying twice against the same role array equals classifying once, so a set passed in two roles ends as if passed in one |
| W32Select.RoleReadyCount | win32-select.c:150-168 | one classification loop adds to `retval` the number of set descriptors below 64 whose handle is non-NULL and answers `WAIT_OBJECT_0` |
| W32Select.TotalReadyCounts | win32-select.c:150-211 | `retval` after classification counts (role, descriptor) pairs that are ready |
| W32Select.SharedSetCountsTwice | win32-select.c:150-188 | one set passed as both read and write set counts each ready descriptor twice |
| W32Select.AfterAt | win32-select.c:150-168 | after classification `m` is set exactly when it was set and is not a timed-out descriptor below 64 |
| W32Select.AfterMembers | win32-select.c:150-208 | each set's members afterwards are its input members minus the timed-out descriptors below 64, and so a subset of the input |
| W32Select.AfterKeepsHighBits | win32-select.c:152-157 | descriptors 64..1023 and the words holding them survive classification unchanged |
| W32Select.AfterSlots | win32-select.c:69-75 | a role array rebuilt from a classified set has NULL for every timed-out descriptor and is otherwise unchanged |
| W32Select.AfterIdempotent | win32-select.c:66-208 | mapping and classifying an output set again, with its role array rebuilt from it and the handles in the same state, leaves it unchanged, finds the same ready descriptors and count, and gets through classification exactly when the first pass did |
| W32Select.GatheringShrinks | win32-select.c:66-106 | every handle mapped from a classified set was mapped from the set before classification |
| W32Select.ValidatedAgain | win32-select.c:108-121 | a call that got past the validation loops gets past them again on the sets it produced, whose collected handles are among the first call's |
| W32Select.SleepingCallClassifiesAgain | win32-select.c:123-126 | with `nfds == 0` a call that reached classification reaches it again on the sets it produced |
| W32Select.NothingLowSet | win32-select.c:66-168 | a set with no descriptor below 64 maps to no handle, classifies without a trap, adds 0 and comes back unchanged |
| W32Select.NothingToWaitFor | win32-select.c:66-211 | when no set has a descriptor below 64, nothing is collected and classification returns 0 with every set unchanged |
| W32Select.ZeroAll | win32-select.c:135-144 | each non-NULL set becomes all zero; NULL sets are untouched |
| W32Select.ClassifyArg | win32-select.c:151-168 | a NULL set finishes with 0; otherwise the loop finishes exactly when every mapped slot's wait is conclusive, leaving the classified set and its ready count, even when an aliasing role already classified the array |
| W32Select.ClassifyAll | win32-select.c:150-211 | if all three loops get through, the result is `Returned(total ready pairs)` and each set is classified; otherwise `Aborted(SingleWaitFailed)` |
| W32Select.Select | win32-select.c:34-212 | `nfds >= 64` aborts; an invalid handle or unsupported type aborts, with the sets untouched; otherwise it sleeps (`nfds == 0`) or waits on exactly the collected handles with the converted timeout; `WAIT_FAILED` returns -1 with the sets untouched; `WAIT_TIMEOUT` returns 0 with the sets zeroed; any other result, and the sleep, lead to classification, which returns the ready-pair count with the sets classified or aborts on an inconclusive single wait |

## Left out

- The Win32 and CRT calls (`_get_osfhandle`, `GetFileType`,
  `WaitForMultipleObjects`, `WaitForSingleObject`) are foreign calls. They are
  fields of `Os`: functions fixed for one call, chosen by the caller.
- Handles that change state during the call (between the multi-wait and the
  re-tests, or between two re-tests) are operating-system concurrency and are
  not modelled. `waitOne` is one fixed function.
- `Sleep` and the actual blocking are not modelled, nor is elapsed time.
  `Select` reports what it would block on, as a `Blocking` value.
- W32Select.Select: with `nfds == 0` and a converted timeout of `INFINITE`
  (a NULL `tv`, or a timeval that wraps onto `INFINITE` as in
  `Timeout.FiniteCanBeInfinite`), `Sleep` never returns. The outcome and set
  contents stated after `Slept(INFINITE)` are then never produced.
- `PrintLastError` is diagnostic output and is not modelled.
- `DebugBreak` is modelled as the end of the call (`Aborted`). A debugger
  that resumes execution after the trap is not modelled.
- `assert` is modelled as active (`Aborted(NfdsTooLarge)`). A build with
  `NDEBUG`, in which the assertion vanishes, is not modelled.
- The index `k` of a `WAIT_OBJECT_0 + k` or `WAIT_ABANDONED_0 + k` result is
  ignored, as the source ignores it. Every multi-wait result other than
  `WAIT_FAILED` and `WAIT_TIMEOUT` goes on to classification.
- Timeout.Milliseconds: `tv_sec * 1000` is a signed 32-bit product, whose
  overflow is undefined in C. The model assumes it wraps, as the DWORD
  stores that follow do.
- W32Select.AfterIdempotent: with `nfds != 0`, a second call waits on the
  shorter handle list of the output sets. The multi-wait is a free function,
  so nothing says that this wait reaches classification: it may report
  `WAIT_TIMEOUT` (zeroing the sets) or `WAIT_FAILED`. The lemma covers the
  mapping and classification of the second call, `ValidatedAgain` its
  validation, and `SleepingCallClassifiesAgain` the whole second call when
  `nfds == 0`.
- W32Select.Select: after `Aborted(SingleWaitFailed)` the contents of the sets
  are not stated. Part of one classification loop has run by then.
- W32Select.Select: more than 64 handles would overflow `hMultiple`, which the
  source does not guard. This is a precondition (at most 64 set bits below
  64 across the sets whenever `nfds < 64`), not a modelled behaviour.
- The role arrays of NULL sets, and the tail of `hMultiple`, are
  uninitialised in the source and are never read. The model allocates them
  without stating their contents.
- Descriptor arguments are natural numbers: the macros are only ever applied
  to `0 <= i < 64` here, and negative descriptors are not modelled.
