/** `w32_select`: POSIX `select` emulated on Win32 by resolving the
    descriptors in the three sets to handles, waiting on all of them at once,
    and then re-testing each handle with a zero-timeout wait to decide which
    bits to keep. */
module W32Select {
  import opened Win32
  import opened W32FdSet
  import opened Timeout

  /** The ways the call can stop without returning: the failed assertion on
      `nfds` and the three `DebugBreak` traps. */
  datatype Fatal = NfdsTooLarge | InvalidHandle | UnsupportedFileType | SingleWaitFailed

  datatype Outcome = Returned(retval: int) | Aborted(cause: Fatal)

  /** What the call blocked on before classifying. */
  datatype Blocking = NotBlocked | Slept(ms: Dword) | WaitedForAny(handles: seq<Handle>, ms: Dword)

  /** The values of the three set arguments, `None` for a NULL pointer. */
  datatype Sets = Sets(read: Option<seq<Word>>, write: Option<seq<Word>>, except: Option<seq<Word>>)

  function Bits(p: array?<Word>): Option<seq<Word>>
    reads p
  {
    if p == null then None else Some(p[..])
  }

  function SetsOf(readfds: array?<Word>, writefds: array?<Word>, exceptfds: array?<Word>): Sets
    reads readfds, writefds, exceptfds
  {
    Sets(Bits(readfds), Bits(writefds), Bits(exceptfds))
  }

  predicate ArgOk(r: Option<seq<Word>>) {
    r.Some? ==> WellFormed(r.value)
  }

  predicate SetsOk(s: Sets) {
    ArgOk(s.read) && ArgOk(s.write) && ArgOk(s.except)
  }

  // ---------------------------------------------------------------------
  // Mapping descriptors to handles

  /** The role array (`hRead`, `hWrite` or `hExcept`) a set maps to: slot `i`
      holds the handle of descriptor `i` when its bit is set, NULL otherwise. */
  function Slots(bits: seq<Word>, osf: int -> Handle): (r: seq<Handle>)
    requires WellFormed(bits)
    ensures |r| == MAXIMUM_WAIT_OBJECTS
  {
    seq(MAXIMUM_WAIT_OBJECTS, i requires 0 <= i < MAXIMUM_WAIT_OBJECTS => SlotOf(bits, osf, i))
  }

  function SlotOf(bits: seq<Word>, osf: int -> Handle, i: nat): Handle
    requires WellFormed(bits) && i < SETSIZE
  {
    if IsSet(bits, i) then osf(i) else NULL
  }

  /** The descriptors below `k` whose bit is set, in the order a mapping
      loop meets them (`SetIndicesExact` says what that order is). */
  function SetIndices(bits: seq<Word>, k: nat): (r: seq<nat>)
    requires WellFormed(bits) && k <= SETSIZE
    ensures |r| <= k
  {
    if k == 0 then []
    else SetIndices(bits, k - 1) + (if IsSet(bits, k - 1) then [k - 1] else [])
  }

  /** The descriptors a mapping loop meets are exactly the set ones below
      `k`, each once, in strictly ascending order. */
  lemma {:induction false} SetIndicesExact(bits: seq<Word>, k: nat)
    requires WellFormed(bits) && k <= SETSIZE
    ensures forall j :: 0 <= j < |SetIndices(bits, k)| ==> SetIndices(bits, k)[j] < k && IsSet(bits, SetIndices(bits, k)[j])
    ensures forall i :: 0 <= i < k && IsSet(bits, i) ==> i in SetIndices(bits, k)
    ensures forall j, j' :: 0 <= j < j' < |SetIndices(bits, k)| ==> SetIndices(bits, k)[j] < SetIndices(bits, k)[j']
  {
    if k > 0 {
      SetIndicesExact(bits, k - 1);
    }
  }

  /** The handles one mapping loop appends to `hMultiple` after scanning
      descriptors `0 .. k-1`: one per set descriptor (`GatheredIsImage` says
      which, and in what order). */
  function Gathered(bits: seq<Word>, osf: int -> Handle, k: nat): (r: seq<Handle>)
    requires WellFormed(bits) && k <= SETSIZE
    ensures |r| <= k
  {
    if k == 0 then []
    else Gathered(bits, osf, k - 1) + (if IsSet(bits, k - 1) then [osf(k - 1)] else [])
  }

  /** The handles a mapping loop appends are those of the set descriptors,
      in ascending descriptor order. */
  lemma {:induction false} GatheredIsImage(bits: seq<Word>, osf: int -> Handle, k: nat)
    requires WellFormed(bits) && k <= SETSIZE
    ensures |Gathered(bits, osf, k)| == |SetIndices(bits, k)|
    ensures forall j :: 0 <= j < |Gathered(bits, osf, k)| ==> Gathered(bits, osf, k)[j] == osf(SetIndices(bits, k)[j])
  {
    if k > 0 {
      GatheredIsImage(bits, osf, k - 1);
    }
  }

  lemma {:induction false} GatheredGrows(bits: seq<Word>, osf: int -> Handle, i: nat, k: nat)
    requires WellFormed(bits) && i <= k <= SETSIZE
    ensures |Gathered(bits, osf, i)| <= |Gathered(bits, osf, k)|
    decreases k
  {
    if i < k {
      GatheredGrows(bits, osf, i, k - 1);
    }
  }

  function Gathering(r: Option<seq<Word>>, osf: int -> Handle): seq<Handle>
    requires ArgOk(r)
  {
    if r.Some? then Gathered(r.value, osf, MAXIMUM_WAIT_OBJECTS) else []
  }

  /** `hMultiple[0 .. countMultiple)` after the three mapping loops. */
  function Collected(s: Sets, osf: int -> Handle): seq<Handle>
    requires SetsOk(s)
  {
    Gathering(s.read, osf) + Gathering(s.write, osf) + Gathering(s.except, osf)
  }

  /** The descriptors below `k` whose bit is set, as a set. */
  ghost function SetBelow(bits: seq<Word>, k: nat): set<nat>
    requires WellFormed(bits) && k <= SETSIZE
  {
    set i: nat | i < k && IsSet(bits, i)
  }

  /** A mapping loop appends one handle per set descriptor below 64. */
  lemma IndicesCount(bits: seq<Word>, k: nat)
    requires WellFormed(bits) && k <= SETSIZE
    ensures |SetIndices(bits, k)| == |SetBelow(bits, k)|
  {
    var p := (i: nat) => i < SETSIZE && IsSet(bits, i);
    IndicesCounted(bits, p, k);
    CountBelowIsSize(p, k);
    assert SetBelow(bits, k) == Below(p, k);
  }

  /** The descriptors below 64 set in a possibly NULL set argument. */
  ghost function LowMembers(r: Option<seq<Word>>): set<nat>
    requires ArgOk(r)
  {
    if r.Some? then SetBelow(r.value, MAXIMUM_WAIT_OBJECTS) else {}
  }

  /** `countMultiple` after the mapping loops is the number of set bits below
      64, summed over the sets passed. */
  lemma CollectedCount(s: Sets, osf: int -> Handle)
    requires SetsOk(s)
    ensures |Collected(s, osf)| == |LowMembers(s.read)| + |LowMembers(s.write)| + |LowMembers(s.except)|
  {
    if s.read.Some? {
      GatheredIsImage(s.read.value, osf, MAXIMUM_WAIT_OBJECTS);
      IndicesCount(s.read.value, MAXIMUM_WAIT_OBJECTS);
    }
    if s.write.Some? {
      GatheredIsImage(s.write.value, osf, MAXIMUM_WAIT_OBJECTS);
      IndicesCount(s.write.value, MAXIMUM_WAIT_OBJECTS);
    }
    if s.except.Some? {
      GatheredIsImage(s.except.value, osf, MAXIMUM_WAIT_OBJECTS);
      IndicesCount(s.except.value, MAXIMUM_WAIT_OBJECTS);
    }
  }

  /** Two sets that agree on descriptors `0 .. k-1` give the same handles
      to a mapping loop that has scanned that far. */
  lemma {:induction false} GatheredAgrees(b1: seq<Word>, b2: seq<Word>, osf: int -> Handle, k: nat)
    requires WellFormed(b1) && WellFormed(b2) && k <= SETSIZE
    requires forall i: nat :: i < k ==> (IsSet(b1, i) <==> IsSet(b2, i))
    ensures Gathered(b1, osf, k) == Gathered(b2, osf, k)
  {
    if k > 0 {
      GatheredAgrees(b1, b2, osf, k - 1);
    }
  }

  /** The mapping loops read only descriptors `0 .. 63`: two sets that agree
      there give the same role array and the same handles, whatever their
      bits 64 .. 1023 hold. */
  lemma MappingIgnoresHighBits(b1: seq<Word>, b2: seq<Word>, osf: int -> Handle)
    requires WellFormed(b1) && WellFormed(b2)
    requires forall i: nat :: i < MAXIMUM_WAIT_OBJECTS ==> (IsSet(b1, i) <==> IsSet(b2, i))
    ensures Slots(b1, osf) == Slots(b2, osf)
    ensures Gathered(b1, osf, MAXIMUM_WAIT_OBJECTS) == Gathered(b2, osf, MAXIMUM_WAIT_OBJECTS)
  {
    GatheredAgrees(b1, b2, osf, MAXIMUM_WAIT_OBJECTS);
    assert forall i :: 0 <= i < MAXIMUM_WAIT_OBJECTS ==> Slots(b1, osf)[i] == Slots(b2, osf)[i];
  }

  lemma {:induction false} IndicesCounted(bits: seq<Word>, p: nat -> bool, k: nat)
    requires WellFormed(bits) && k <= SETSIZE
    requires forall i: nat :: i < SETSIZE ==> p(i) == IsSet(bits, i)
    ensures |SetIndices(bits, k)| == CountBelow(p, k)
  {
    if k > 0 {
      IndicesCounted(bits, p, k - 1);
    }
  }

  /** The naturals below `k` that satisfy `p`. */
  ghost function Below(p: nat -> bool, k: nat): set<nat> {
    set i: nat | i < k && p(i)
  }

  /** The naturals below `k` that satisfy `p`, counted one at a time. */
  function CountBelow(p: nat -> bool, k: nat): nat {
    if k == 0 then 0 else CountBelow(p, k - 1) + (if p(k - 1) then 1 else 0)
  }

  lemma BelowStep(p: nat -> bool, k: nat)
    ensures Below(p, k + 1) == if p(k) then Below(p, k) + {k} else Below(p, k)
  {
  }

  /** Counting one at a time gives the size of the set. */
  lemma {:induction false} CountBelowIsSize(p: nat -> bool, k: nat)
    ensures CountBelow(p, k) == |Below(p, k)|
  {
    if k > 0 {
      CountBelowIsSize(p, k - 1);
      BelowStep(p, k - 1);
    }
  }

  /** The handle, if any, that a mapping loop appends for descriptor `i`. */
  function Appended(bits: seq<Word>, osf: int -> Handle, i: nat): seq<Handle>
    requires WellFormed(bits) && i < SETSIZE
  {
    if IsSet(bits, i) then [osf(i)] else []
  }

  lemma GatheredStep(bits: seq<Word>, osf: int -> Handle, i: nat)
    requires WellFormed(bits) && i < SETSIZE
    ensures Gathered(bits, osf, i + 1) == Gathered(bits, osf, i) + Appended(bits, osf, i)
  {
  }

  /** `after` is `before` with `ins` written over it from index `at` on. */
  predicate Spliced(before: seq<Handle>, after: seq<Handle>, at: nat, ins: seq<Handle>) {
    |after| == |before| && at + |ins| <= |before| &&
    forall k :: 0 <= k < |after| ==> after[k] == if at <= k < at + |ins| then ins[k - at] else before[k]
  }

  lemma SplicedTwice(s0: seq<Handle>, s1: seq<Handle>, s2: seq<Handle>, at: nat, ins: seq<Handle>, more: seq<Handle>)
    requires Spliced(s0, s1, at, ins) && Spliced(s1, s2, at + |ins|, more)
    ensures Spliced(s0, s2, at, ins + more)
  {
  }

  lemma SplicedSlices(before: seq<Handle>, after: seq<Handle>, at: nat, ins: seq<Handle>)
    requires Spliced(before, after, at, ins)
    ensures after[..at + |ins|] == before[..at] + ins
    ensures after[at + |ins|..] == before[at + |ins|..]
  {
    assert after[..at + |ins|] == after[..at] + after[at..at + |ins|];
    assert after[at..at + |ins|] == ins;
  }

  lemma SlotsStep(bits: seq<Word>, osf: int -> Handle, r0: seq<Handle>, r1: seq<Handle>, i: nat)
    requires WellFormed(bits) && i < MAXIMUM_WAIT_OBJECTS && |r0| == MAXIMUM_WAIT_OBJECTS
    requires r0[..i] == Slots(bits, osf)[..i]
    requires r1 == r0[i := SlotOf(bits, osf, i)]
    ensures r1[..i + 1] == Slots(bits, osf)[..i + 1]
  {
    assert r1[..i + 1] == r0[..i] + [SlotOf(bits, osf, i)];
  }

  /** One pass of a mapping loop, for descriptor `i`: a set bit appends the
      descriptor's handle to `hMultiple` and stores it in the role array, a
      clear bit stores NULL there.  Stated as what the pass adds to the
      loop's progress over descriptors `0 .. i - 1`, where `orig` is
      `hMultiple` before the loop. */
  method MapSlot(bits: seq<Word>, osf: int -> Handle, hMultiple: array<Handle>, count: nat, role: array<Handle>,
                 i: nat, current: nat, ghost orig: seq<Handle>)
    returns (newCount: nat)
    requires WellFormed(bits) && i < MAXIMUM_WAIT_OBJECTS
    requires hMultiple.Length == MAXIMUM_WAIT_OBJECTS && role.Length == MAXIMUM_WAIT_OBJECTS
    requires hMultiple != role
    requires count + |Gathered(bits, osf, MAXIMUM_WAIT_OBJECTS)| <= MAXIMUM_WAIT_OBJECTS
    requires current == count + |Gathered(bits, osf, i)|
    requires Spliced(orig, hMultiple[..], count, Gathered(bits, osf, i))
    requires role[..i] == Slots(bits, osf)[..i]
    modifies hMultiple, role
    ensures newCount == count + |Gathered(bits, osf, i + 1)|
    ensures Spliced(orig, hMultiple[..], count, Gathered(bits, osf, i + 1))
    ensures role[..i + 1] == Slots(bits, osf)[..i + 1]
  {
    GatheredGrows(bits, osf, i + 1, MAXIMUM_WAIT_OBJECTS);
    GatheredStep(bits, osf, i);
    ghost var before := hMultiple[..];
    ghost var roles := role[..];
    newCount := current;
    if IsSet(bits, i) {
      var hTemp := osf(i);
      hMultiple[newCount] := hTemp;
      newCount := newCount + 1;
      role[i] := hTemp;
    } else {
      role[i] := NULL;
    }
    SplicedTwice(orig, before, hMultiple[..], count, Gathered(bits, osf, i), Appended(bits, osf, i));
    SlotsStep(bits, osf, roles, role[..], i);
  }

  /** One mapping loop (`/* map readfds */` and its two siblings): scans
      descriptors `0 .. 63` of the set `bits`, fills `role` and appends the
      handles of set descriptors to `hMultiple` from `count` on. */
  method MapRole(bits: seq<Word>, osf: int -> Handle, hMultiple: array<Handle>, count: nat, role: array<Handle>)
    returns (newCount: nat)
    requires WellFormed(bits)
    requires hMultiple.Length == MAXIMUM_WAIT_OBJECTS && role.Length == MAXIMUM_WAIT_OBJECTS
    requires hMultiple != role
    requires count + |Gathered(bits, osf, MAXIMUM_WAIT_OBJECTS)| <= MAXIMUM_WAIT_OBJECTS
    modifies hMultiple, role
    ensures newCount == count + |Gathered(bits, osf, MAXIMUM_WAIT_OBJECTS)|
    ensures hMultiple[..newCount] == old(hMultiple[..count]) + Gathered(bits, osf, MAXIMUM_WAIT_OBJECTS)
    ensures hMultiple[newCount..] == old(hMultiple[newCount..])
    ensures role[..] == Slots(bits, osf)
  {
    newCount := count;
    var i := 0;
    while i != MAXIMUM_WAIT_OBJECTS
      invariant 0 <= i <= MAXIMUM_WAIT_OBJECTS
      invariant newCount == count + |Gathered(bits, osf, i)|
      invariant Spliced(old(hMultiple[..]), hMultiple[..], count, Gathered(bits, osf, i))
      invariant role[..i] == Slots(bits, osf)[..i]
    {
      newCount := MapSlot(bits, osf, hMultiple, count, role, i, newCount, old(hMultiple[..]));
      i := i + 1;
    }
    SplicedSlices(old(hMultiple[..]), hMultiple[..], count, Gathered(bits, osf, MAXIMUM_WAIT_OBJECTS));
  }

  // ---------------------------------------------------------------------
  // Validation

  predicate NoneInvalid(hs: seq<Handle>) {
    forall k :: 0 <= k < |hs| ==> hs[k] != INVALID_HANDLE_VALUE
  }

  predicate Supported(t: Dword) {
    t == FILE_TYPE_DISK || t == FILE_TYPE_CHAR || t == FILE_TYPE_PIPE
  }

  predicate AllSupported(hs: seq<Handle>, fileType: Handle -> Dword) {
    forall k :: 0 <= k < |hs| ==> Supported(fileType(hs[k]))
  }

  /** `/* check for invalid handles */`: succeeds exactly when no collected
      handle is `INVALID_HANDLE_VALUE`; otherwise the call traps. */
  method CheckHandles(hMultiple: array<Handle>, count: nat) returns (ok: bool)
    requires count <= hMultiple.Length
    ensures ok <==> NoneInvalid(hMultiple[..count])
  {
    for i := 0 to count
      invariant forall k :: 0 <= k < i ==> hMultiple[k] != INVALID_HANDLE_VALUE
    {
      if hMultiple[i] == INVALID_HANDLE_VALUE {
        assert hMultiple[..count][i] == INVALID_HANDLE_VALUE;
        return false;
      }
    }
    return true;
  }

  /** `/* check for invalid file types */`: succeeds exactly when every
      collected handle is a disk file, a character device or a pipe. */
  method CheckFileTypes(hMultiple: array<Handle>, count: nat, fileType: Handle -> Dword) returns (ok: bool)
    requires count <= hMultiple.Length
    ensures ok <==> AllSupported(hMultiple[..count], fileType)
  {
    for i := 0 to count
      invariant forall k :: 0 <= k < i ==> Supported(fileType(hMultiple[k]))
    {
      var dwType := fileType(hMultiple[i]);
      if dwType != FILE_TYPE_DISK && dwType != FILE_TYPE_CHAR && dwType != FILE_TYPE_PIPE {
        assert hMultiple[..count][i] == hMultiple[i];
        return false;
      }
    }
    return true;
  }

  // ---------------------------------------------------------------------
  // Classification

  /** A zero-timeout wait on a mapped handle says it is not ready. */
  predicate TimedOut(h: Handle, waitOne: Handle -> Dword) {
    h != NULL && waitOne(h) == WAIT_TIMEOUT
  }

  /** A zero-timeout wait on a mapped handle says it is ready. */
  predicate Signalled(h: Handle, waitOne: Handle -> Dword) {
    h != NULL && waitOne(h) == WAIT_OBJECT_0
  }

  /** A slot the classification loop gets past: unmapped, or with a wait
      result the `switch` handles. */
  predicate Conclusive(h: Handle, waitOne: Handle -> Dword) {
    h == NULL || waitOne(h) == WAIT_TIMEOUT || waitOne(h) == WAIT_OBJECT_0
  }

  predicate AllConclusive(slots: seq<Handle>, waitOne: Handle -> Dword, k: nat)
    requires k <= |slots|
  {
    forall i :: 0 <= i < k ==> Conclusive(slots[i], waitOne)
  }

  /** A set after a classification loop has looked at slots `0 .. k-1`: the
      bit of every timed-out slot cleared with `W32_FD_CLR`. */
  function Classified(bits: seq<Word>, slots: seq<Handle>, waitOne: Handle -> Dword, k: nat): (r: seq<Word>)
    requires WellFormed(bits) && k <= |slots| && k <= SETSIZE
    ensures WellFormed(r)
  {
    if k == 0 then bits
    else
      var b := Classified(bits, slots, waitOne, k - 1);
      if TimedOut(slots[k - 1], waitOne) then WithoutBit(b, k - 1) else b
  }

  /** What a classification loop adds to `retval` after slots `0 .. k-1`. */
  function Ready(slots: seq<Handle>, waitOne: Handle -> Dword, k: nat): nat
    requires k <= |slots|
  {
    if k == 0 then 0
    else Ready(slots, waitOne, k - 1) + (if Signalled(slots[k - 1], waitOne) then 1 else 0)
  }

  /** One classification loop (`/* scan read handles ... */` and its two
      siblings).  It stops at `stop == 64` after the whole scan, or at the
      first slot whose wait result is neither `WAIT_TIMEOUT` nor
      `WAIT_OBJECT_0`, where the source traps. */
  method ClassifyRole(fds: array<Word>, role: array<Handle>, waitOne: Handle -> Dword) returns (stop: nat, ready: nat)
    requires WellFormed(fds[..]) && role.Length == MAXIMUM_WAIT_OBJECTS
    modifies fds
    ensures stop <= MAXIMUM_WAIT_OBJECTS
    ensures AllConclusive(role[..], waitOne, stop)
    ensures stop < MAXIMUM_WAIT_OBJECTS ==> !Conclusive(role[stop], waitOne)
    ensures fds[..] == Classified(old(fds[..]), role[..], waitOne, stop)
    ensures ready == Ready(role[..], waitOne, stop)
  {
    ready := 0;
    var i := 0;
    while i != MAXIMUM_WAIT_OBJECTS
      invariant 0 <= i <= MAXIMUM_WAIT_OBJECTS
      invariant AllConclusive(role[..], waitOne, i)
      invariant fds[..] == Classified(old(fds[..]), role[..], waitOne, i)
      invariant ready == Ready(role[..], waitOne, i)
    {
      if role[i] != NULL {
        var dwError := waitOne(role[i]);
        if dwError == WAIT_TIMEOUT {
          Clr(i, fds);
        } else if dwError == WAIT_OBJECT_0 {
          ready := ready + 1;
        } else {
          return i, ready;
        }
      }
      i := i + 1;
    }
    return i, ready;
  }

  /** After slots `0 .. k-1`, descriptor `m` is in the set exactly when it
      was before and is not a timed-out slot below `k`. */
  lemma {:induction false} ClassifiedAt(bits: seq<Word>, slots: seq<Handle>, waitOne: Handle -> Dword, k: nat, m: nat)
    requires WellFormed(bits) && k <= |slots| && k <= SETSIZE && m < SETSIZE
    ensures IsSet(Classified(bits, slots, waitOne, k), m)
        <==> IsSet(bits, m) && !(m < k && TimedOut(slots[m], waitOne))
  {
    if k > 0 {
      ClassifiedAt(bits, slots, waitOne, k - 1, m);
      if TimedOut(slots[k - 1], waitOne) {
        ClrSemantics(Classified(bits, slots, waitOne, k - 1), k - 1, m);
      }
    }
  }

  /** The words holding descriptors 64 and up are never written by
      classification. */
  lemma {:induction false} ClassifiedKeepsHighWords(bits: seq<Word>, slots: seq<Handle>, waitOne: Handle -> Dword, k: nat, w: nat)
    requires WellFormed(bits) && k <= |slots| && k <= MAXIMUM_WAIT_OBJECTS
    requires MAXIMUM_WAIT_OBJECTS / NFDBITS <= w < WORDS
    ensures Classified(bits, slots, waitOne, k)[w] == bits[w]
  {
    if k > 0 {
      ClassifiedKeepsHighWords(bits, slots, waitOne, k - 1, w);
    }
  }

  /** A full classification loop removes exactly the timed-out descriptors. */
  lemma ClassifiedMembers(bits: seq<Word>, slots: seq<Handle>, waitOne: Handle -> Dword)
    requires WellFormed(bits) && |slots| == MAXIMUM_WAIT_OBJECTS
    ensures Members(Classified(bits, slots, waitOne, MAXIMUM_WAIT_OBJECTS))
         == Members(bits) - set i: nat | i < MAXIMUM_WAIT_OBJECTS && TimedOut(slots[i], waitOne)
    ensures Members(Classified(bits, slots, waitOne, MAXIMUM_WAIT_OBJECTS)) <= Members(bits)
  {
    var r := Classified(bits, slots, waitOne, MAXIMUM_WAIT_OBJECTS);
    forall m: nat | m < SETSIZE
      ensures IsSet(r, m) <==> IsSet(bits, m) && !(m < MAXIMUM_WAIT_OBJECTS && TimedOut(slots[m], waitOne))
    {
      ClassifiedAt(bits, slots, waitOne, MAXIMUM_WAIT_OBJECTS, m);
    }
  }

  /** Classifying a set none of whose timed-out slots is set changes nothing. */
  lemma {:induction false} ClassifiedNoop(bits: seq<Word>, slots: seq<Handle>, waitOne: Handle -> Dword, k: nat)
    requires WellFormed(bits) && k <= |slots| && k <= SETSIZE
    requires forall i :: 0 <= i < k && TimedOut(slots[i], waitOne) ==> !IsSet(bits, i)
    ensures Classified(bits, slots, waitOne, k) == bits
  {
    if k > 0 {
      ClassifiedNoop(bits, slots, waitOne, k - 1);
      if TimedOut(slots[k - 1], waitOne) {
        ClrAbsent(bits, k - 1);
      }
    }
  }

  /** Classifying twice against the same slots is classifying once, so a set
      passed in two roles ends as if passed in one. */
  lemma ClassifiedIdempotent(bits: seq<Word>, slots: seq<Handle>, waitOne: Handle -> Dword)
    requires WellFormed(bits) && |slots| == MAXIMUM_WAIT_OBJECTS
    ensures var once := Classified(bits, slots, waitOne, MAXIMUM_WAIT_OBJECTS);
      Classified(once, slots, waitOne, MAXIMUM_WAIT_OBJECTS) == once
  {
    var once := Classified(bits, slots, waitOne, MAXIMUM_WAIT_OBJECTS);
    forall i | 0 <= i < MAXIMUM_WAIT_OBJECTS && TimedOut(slots[i], waitOne)
      ensures !IsSet(once, i)
    {
      ClassifiedAt(bits, slots, waitOne, MAXIMUM_WAIT_OBJECTS, i);
    }
    ClassifiedNoop(once, slots, waitOne, MAXIMUM_WAIT_OBJECTS);
  }

  /** A classification loop adds one for each ready slot. */
  lemma {:induction false} ReadyCounted(slots: seq<Handle>, waitOne: Handle -> Dword, p: nat -> bool, k: nat)
    requires k <= |slots|
    requires forall i: nat :: i < |slots| ==> p(i) == Signalled(slots[i], waitOne)
    ensures Ready(slots, waitOne, k) == CountBelow(p, k)
  {
    if k > 0 {
      ReadyCounted(slots, waitOne, p, k - 1);
    }
  }

  /** What a classification loop adds to `retval` is the number of set
      descriptors below 64 whose handle is non-NULL and answers
      `WAIT_OBJECT_0`. */
  lemma RoleReadyCount(bits: seq<Word>, osf: int -> Handle, waitOne: Handle -> Dword)
    requires WellFormed(bits)
    ensures Ready(Slots(bits, osf), waitOne, MAXIMUM_WAIT_OBJECTS)
         == |set i: nat | i < MAXIMUM_WAIT_OBJECTS && IsSet(bits, i) && Signalled(osf(i), waitOne)|
  {
    var slots := Slots(bits, osf);
    var p := (i: nat) => i < MAXIMUM_WAIT_OBJECTS && IsSet(bits, i) && Signalled(osf(i), waitOne);
    forall i: nat | i < |slots|
      ensures p(i) == Signalled(slots[i], waitOne)
    {
      assert slots[i] == SlotOf(bits, osf, i);
    }
    ReadyCounted(slots, waitOne, p, MAXIMUM_WAIT_OBJECTS);
    CountBelowIsSize(p, MAXIMUM_WAIT_OBJECTS);
    assert Below(p, MAXIMUM_WAIT_OBJECTS)
        == set i: nat | i < MAXIMUM_WAIT_OBJECTS && IsSet(bits, i) && Signalled(osf(i), waitOne);
  }

  // ---------------------------------------------------------------------
  // The whole call

  /** What a classification loop leaves in one set argument. */
  function After(r: Option<seq<Word>>, os: Os): (a: Option<seq<Word>>)
    requires ArgOk(r)
    ensures ArgOk(a)
  {
    if r.Some? then Some(Classified(r.value, Slots(r.value, os.osfHandle), os.waitOne, MAXIMUM_WAIT_OBJECTS))
    else None
  }

  /** What the three classification loops leave in the set arguments. */
  function AfterAll(s: Sets, os: Os): Sets
    requires SetsOk(s)
  {
    Sets(After(s.read, os), After(s.write, os), After(s.except, os))
  }

  /** What one classification loop adds to `retval`. */
  function RoleReady(r: Option<seq<Word>>, os: Os): nat
    requires ArgOk(r)
  {
    if r.Some? then Ready(Slots(r.value, os.osfHandle), os.waitOne, MAXIMUM_WAIT_OBJECTS) else 0
  }

  /** `retval` after the three classification loops. */
  function TotalReady(s: Sets, os: Os): nat
    requires SetsOk(s)
  {
    RoleReady(s.read, os) + RoleReady(s.write, os) + RoleReady(s.except, os)
  }

  /** Whether a classification loop runs to its end. */
  predicate RoleConclusive(r: Option<seq<Word>>, os: Os)
    requires ArgOk(r)
  {
    r.Some? ==> AllConclusive(Slots(r.value, os.osfHandle), os.waitOne, MAXIMUM_WAIT_OBJECTS)
  }

  predicate AllRolesConclusive(s: Sets, os: Os)
    requires SetsOk(s)
  {
    RoleConclusive(s.read, os) && RoleConclusive(s.write, os) && RoleConclusive(s.except, os)
  }

  /** The descriptors below 64 that are set in `r` and whose handle answers
      a zero-timeout wait with `WAIT_OBJECT_0`. */
  ghost function ReadyIn(r: Option<seq<Word>>, os: Os): set<nat>
    requires ArgOk(r)
  {
    if r.Some? then set i: nat | i < MAXIMUM_WAIT_OBJECTS && IsSet(r.value, i) && Signalled(os.osfHandle(i), os.waitOne)
    else {}
  }

  /** The descriptors below 64 that are set in `r` and whose handle answers
      a zero-timeout wait with `WAIT_TIMEOUT`. */
  ghost function TimedOutIn(r: Option<seq<Word>>, os: Os): set<nat>
    requires ArgOk(r)
  {
    if r.Some? then set i: nat | i < MAXIMUM_WAIT_OBJECTS && IsSet(r.value, i) && TimedOut(os.osfHandle(i), os.waitOne)
    else {}
  }

  /** `retval` counts (role, descriptor) pairs: each role adds its own ready
      descriptors. */
  lemma TotalReadyCounts(s: Sets, os: Os)
    requires SetsOk(s)
    ensures TotalReady(s, os) == |ReadyIn(s.read, os)| + |ReadyIn(s.write, os)| + |ReadyIn(s.except, os)|
  {
    if s.read.Some? {
      RoleReadyCount(s.read.value, os.osfHandle, os.waitOne);
    }
    if s.write.Some? {
      RoleReadyCount(s.write.value, os.osfHandle, os.waitOne);
    }
    if s.except.Some? {
      RoleReadyCount(s.except.value, os.osfHandle, os.waitOne);
    }
  }

  /** The same set passed for reading and for writing counts each of its
      ready descriptors twice. */
  lemma SharedSetCountsTwice(bits: seq<Word>, os: Os)
    requires WellFormed(bits)
    ensures TotalReady(Sets(Some(bits), Some(bits), None), os) == 2 * |ReadyIn(Some(bits), os)|
  {
    TotalReadyCounts(Sets(Some(bits), Some(bits), None), os);
  }

  /** A descriptor is in a set after classification exactly when it was in it
      before and is not a timed-out descriptor below 64. */
  lemma AfterAt(r: Option<seq<Word>>, os: Os, m: nat)
    requires ArgOk(r) && r.Some? && m < SETSIZE
    ensures IsSet(After(r, os).value, m) <==> IsSet(r.value, m) && m !in TimedOutIn(r, os)
  {
    var slots := Slots(r.value, os.osfHandle);
    ClassifiedAt(r.value, slots, os.waitOne, MAXIMUM_WAIT_OBJECTS, m);
    if m < MAXIMUM_WAIT_OBJECTS {
      assert slots[m] == SlotOf(r.value, os.osfHandle, m);
    }
  }

  /** Classification removes exactly the timed-out descriptors below 64, so
      the output set is a subset of the input set. */
  lemma AfterMembers(r: Option<seq<Word>>, os: Os)
    requires ArgOk(r) && r.Some?
    ensures Members(After(r, os).value) == Members(r.value) - TimedOutIn(r, os)
    ensures Members(After(r, os).value) <= Members(r.value)
  {
    forall m: nat | m < SETSIZE
      ensures m in Members(After(r, os).value) <==> m in Members(r.value) - TimedOutIn(r, os)
    {
      AfterAt(r, os, m);
    }
  }

  /** Classification never touches descriptors 64 and up, nor the words that
      hold them. */
  lemma AfterKeepsHighBits(r: Option<seq<Word>>, os: Os)
    requires ArgOk(r) && r.Some?
    ensures forall m: nat :: MAXIMUM_WAIT_OBJECTS <= m < SETSIZE ==> (IsSet(After(r, os).value, m) <==> IsSet(r.value, m))
    ensures forall w :: MAXIMUM_WAIT_OBJECTS / NFDBITS <= w < WORDS ==> After(r, os).value[w] == r.value[w]
  {
    forall m: nat | MAXIMUM_WAIT_OBJECTS <= m < SETSIZE
      ensures IsSet(After(r, os).value, m) <==> IsSet(r.value, m)
    {
      AfterAt(r, os, m);
    }
    forall w | MAXIMUM_WAIT_OBJECTS / NFDBITS <= w < WORDS
      ensures After(r, os).value[w] == r.value[w]
    {
      ClassifiedKeepsHighWords(r.value, Slots(r.value, os.osfHandle), os.waitOne, MAXIMUM_WAIT_OBJECTS, w);
    }
  }

  /** The role array rebuilt from a classified set: the slot of every
      timed-out descriptor is NULL, every other slot is as before. */
  lemma AfterSlots(r: Option<seq<Word>>, os: Os, i: nat)
    requires ArgOk(r) && r.Some? && i < MAXIMUM_WAIT_OBJECTS
    ensures Slots(After(r, os).value, os.osfHandle)[i]
         == if i in TimedOutIn(r, os) then NULL else Slots(r.value, os.osfHandle)[i]
  {
    AfterAt(r, os, i);
  }

  /** Calling again on the sets a call produced, with the handles in the
      same state, maps the kept descriptors afresh and changes nothing more:
      the sets stay as they are, the same descriptors are ready, and the
      second classification loop gets through exactly when the first did. */
  lemma AfterIdempotent(r: Option<seq<Word>>, os: Os)
    requires ArgOk(r) && r.Some?
    ensures After(After(r, os), os) == After(r, os)
    ensures ReadyIn(After(r, os), os) == ReadyIn(r, os)
    ensures RoleReady(After(r, os), os) == RoleReady(r, os)
    ensures RoleConclusive(After(r, os), os) <==> RoleConclusive(r, os)
  {
    var a := After(r, os);
    var slots := Slots(r.value, os.osfHandle);
    var again := Slots(a.value, os.osfHandle);
    forall i | 0 <= i < MAXIMUM_WAIT_OBJECTS
      ensures again[i] == if i in TimedOutIn(r, os) then NULL else slots[i]
      ensures TimedOut(again[i], os.waitOne) ==> !IsSet(a.value, i)
      ensures Conclusive(again[i], os.waitOne) <==> Conclusive(slots[i], os.waitOne)
    {
      AfterSlots(r, os, i);
      AfterAt(r, os, i);
      assert slots[i] == SlotOf(r.value, os.osfHandle, i);
      assert again[i] == SlotOf(a.value, os.osfHandle, i);
    }
    ClassifiedNoop(a.value, again, os.waitOne, MAXIMUM_WAIT_OBJECTS);
    forall i: nat | i < MAXIMUM_WAIT_OBJECTS
      ensures i in ReadyIn(a, os) <==> i in ReadyIn(r, os)
    {
      AfterAt(r, os, i);
    }
    RoleReadyCount(a.value, os.osfHandle, os.waitOne);
    RoleReadyCount(r.value, os.osfHandle, os.waitOne);
  }

  /** Every handle mapped from a classified set was mapped from the set
      before classification. */
  lemma GatheringShrinks(r: Option<seq<Word>>, os: Os)
    requires ArgOk(r)
    ensures forall h :: h in Gathering(After(r, os), os.osfHandle) ==> h in Gathering(r, os.osfHandle)
  {
    if r.Some? {
      var a := After(r, os).value;
      var osf := os.osfHandle;
      GatheredIsImage(a, osf, MAXIMUM_WAIT_OBJECTS);
      GatheredIsImage(r.value, osf, MAXIMUM_WAIT_OBJECTS);
      SetIndicesExact(a, MAXIMUM_WAIT_OBJECTS);
      SetIndicesExact(r.value, MAXIMUM_WAIT_OBJECTS);
      forall j | 0 <= j < |Gathered(a, osf, MAXIMUM_WAIT_OBJECTS)|
        ensures Gathered(a, osf, MAXIMUM_WAIT_OBJECTS)[j] in Gathered(r.value, osf, MAXIMUM_WAIT_OBJECTS)
      {
        var i := SetIndices(a, MAXIMUM_WAIT_OBJECTS)[j];
        AfterAt(r, os, i);
        var j' :| 0 <= j' < |SetIndices(r.value, MAXIMUM_WAIT_OBJECTS)| && SetIndices(r.value, MAXIMUM_WAIT_OBJECTS)[j'] == i;
        assert Gathered(r.value, osf, MAXIMUM_WAIT_OBJECTS)[j'] == osf(i);
      }
    }
  }

  /** A call that got past validation would get past it again on the sets
      it produced: the handles collected then are among those collected
      now. */
  lemma ValidatedAgain(nfds: int, s: Sets, os: Os)
    requires SetsOk(s) && Validated(nfds, s, os)
    ensures Validated(nfds, AfterAll(s, os), os)
    ensures forall h :: h in Collected(AfterAll(s, os), os.osfHandle) ==> h in Collected(s, os.osfHandle)
  {
    GatheringShrinks(s.read, os);
    GatheringShrinks(s.write, os);
    GatheringShrinks(s.except, os);
    var hs := Collected(s, os.osfHandle);
    var again := Collected(AfterAll(s, os), os.osfHandle);
    var g1, g2, g3 := Gathering(s.read, os.osfHandle), Gathering(s.write, os.osfHandle), Gathering(s.except, os.osfHandle);
    var a1, a2, a3 := Gathering(After(s.read, os), os.osfHandle), Gathering(After(s.write, os), os.osfHandle),
                      Gathering(After(s.except, os), os.osfHandle);
    assert hs == g1 + g2 + g3 && again == a1 + a2 + a3;
    forall k | 0 <= k < |again|
      ensures again[k] in hs
    {
      if k < |a1| {
        assert again[k] == a1[k];
      } else if k < |a1| + |a2| {
        assert again[k] == a2[k - |a1|];
      } else {
        assert again[k] == a3[k - |a1| - |a2|];
      }
    }
    forall k | 0 <= k < |again|
      ensures again[k] != INVALID_HANDLE_VALUE && Supported(os.fileType(again[k]))
    {
      var k' :| 0 <= k' < |hs| && hs[k'] == again[k];
    }
  }

  /** With `nfds == 0` there is no multi-wait, so a call that reached
      classification reaches it again on the sets it produced. */
  lemma SleepingCallClassifiesAgain(s: Sets, ms: Dword, os: Os)
    requires SetsOk(s) && Classifies(0, s, ms, os)
    ensures Classifies(0, AfterAll(s, os), ms, os)
  {
    ValidatedAgain(0, s, os);
  }

  /** A set with no descriptor below 64 (the case `nfds == 0` is meant for)
      maps to no handle, classifies without a trap, adds nothing to
      `retval` and comes back unchanged. */
  lemma NothingLowSet(r: Option<seq<Word>>, os: Os)
    requires ArgOk(r) && LowMembers(r) == {}
    ensures Gathering(r, os.osfHandle) == []
    ensures RoleConclusive(r, os) && RoleReady(r, os) == 0 && After(r, os) == r
  {
    if r.Some? {
      var slots := Slots(r.value, os.osfHandle);
      forall i | 0 <= i < MAXIMUM_WAIT_OBJECTS
        ensures !IsSet(r.value, i) && slots[i] == NULL
      {
        assert i !in SetBelow(r.value, MAXIMUM_WAIT_OBJECTS);
        assert slots[i] == SlotOf(r.value, os.osfHandle, i);
      }
      GatheredIsImage(r.value, os.osfHandle, MAXIMUM_WAIT_OBJECTS);
      IndicesCount(r.value, MAXIMUM_WAIT_OBJECTS);
      ClassifiedNoop(r.value, slots, os.waitOne, MAXIMUM_WAIT_OBJECTS);
      RoleReadyCount(r.value, os.osfHandle, os.waitOne);
      assert ReadyIn(r, os) == {};
    }
  }

  /** When no set has a descriptor below 64, nothing is waited on and
      classification returns 0 with every set unchanged. */
  lemma NothingToWaitFor(s: Sets, os: Os)
    requires SetsOk(s)
    requires LowMembers(s.read) == {} && LowMembers(s.write) == {} && LowMembers(s.except) == {}
    ensures Collected(s, os.osfHandle) == []
    ensures AllRolesConclusive(s, os) && TotalReady(s, os) == 0 && AfterAll(s, os) == s
  {
    NothingLowSet(s.read, os);
    NothingLowSet(s.write, os);
    NothingLowSet(s.except, os);
  }

  /** The set arguments after `W32_FD_ZERO` of each non-NULL one. */
  function Zeroed(s: Sets): Sets {
    Sets(if s.read.Some? then Some(Empty()) else None,
         if s.write.Some? then Some(Empty()) else None,
         if s.except.Some? then Some(Empty()) else None)
  }

  /** Whether the call gets past the assertion on `nfds` and both validation
      loops. */
  predicate Validated(nfds: int, s: Sets, os: Os)
    requires SetsOk(s)
  {
    var hs := Collected(s, os.osfHandle);
    nfds < MAXIMUM_WAIT_OBJECTS && NoneInvalid(hs) && AllSupported(hs, os.fileType)
  }

  /** The result of the multi-wait on a validated call with `nfds != 0`. */
  function WaitResult(s: Sets, ms: Dword, os: Os): Dword
    requires SetsOk(s)
  {
    os.waitMultiple(Collected(s, os.osfHandle), ms)
  }

  /** Whether the call goes on to classification: after the sleep, or after a
      multi-wait whose result is neither `WAIT_FAILED` nor `WAIT_TIMEOUT`
      (a signalled or abandoned index is ignored). */
  predicate Classifies(nfds: int, s: Sets, ms: Dword, os: Os)
    requires SetsOk(s)
  {
    Validated(nfds, s, os) &&
    (nfds == 0 || (WaitResult(s, ms, os) != WAIT_FAILED && WaitResult(s, ms, os) != WAIT_TIMEOUT))
  }

  /** The three mapping loops, with the local arrays they fill. */
  method MapAll(s: Sets, osf: int -> Handle)
    returns (hMultiple: array<Handle>, count: nat, hRead: array<Handle>, hWrite: array<Handle>, hExcept: array<Handle>)
    requires SetsOk(s) && |Collected(s, osf)| <= MAXIMUM_WAIT_OBJECTS
    ensures fresh(hMultiple) && fresh(hRead) && fresh(hWrite) && fresh(hExcept)
    ensures hMultiple.Length == MAXIMUM_WAIT_OBJECTS && hRead.Length == MAXIMUM_WAIT_OBJECTS
    ensures hWrite.Length == MAXIMUM_WAIT_OBJECTS && hExcept.Length == MAXIMUM_WAIT_OBJECTS
    ensures count <= MAXIMUM_WAIT_OBJECTS && hMultiple[..count] == Collected(s, osf)
    ensures s.read.Some? ==> hRead[..] == Slots(s.read.value, osf)
    ensures s.write.Some? ==> hWrite[..] == Slots(s.write.value, osf)
    ensures s.except.Some? ==> hExcept[..] == Slots(s.except.value, osf)
  {
    hMultiple := new Handle[MAXIMUM_WAIT_OBJECTS];
    count := 0;
    hRead := new Handle[MAXIMUM_WAIT_OBJECTS];
    hWrite := new Handle[MAXIMUM_WAIT_OBJECTS];
    hExcept := new Handle[MAXIMUM_WAIT_OBJECTS];
    if s.read.Some? {
      count := MapRole(s.read.value, osf, hMultiple, count, hRead);
    }
    assert hMultiple[..count] == Gathering(s.read, osf);
    if s.write.Some? {
      count := MapRole(s.write.value, osf, hMultiple, count, hWrite);
    }
    assert hMultiple[..count] == Gathering(s.read, osf) + Gathering(s.write, osf);
    if s.except.Some? {
      count := MapRole(s.except.value, osf, hMultiple, count, hExcept);
    }
  }

  /** The `WAIT_TIMEOUT` branch: `W32_FD_ZERO` of each non-NULL set. */
  method ZeroAll(readfds: array?<Word>, writefds: array?<Word>, exceptfds: array?<Word>)
    requires SetsOk(SetsOf(readfds, writefds, exceptfds))
    modifies readfds, writefds, exceptfds
    ensures SetsOf(readfds, writefds, exceptfds) == Zeroed(old(SetsOf(readfds, writefds, exceptfds)))
  {
    if readfds != null {
      Zero(readfds);
    }
    if writefds != null {
      Zero(writefds);
    }
    if exceptfds != null {
      Zero(exceptfds);
    }
  }

  /** One classification loop over a possibly NULL set whose original value
      was `orig`; the set may already have been classified once through
      another role it shares an array with. */
  method ClassifyArg(fds: array?<Word>, role: array<Handle>, os: Os, ghost orig: Option<seq<Word>>)
    returns (finished: bool, ready: nat)
    requires ArgOk(orig) && (fds == null <==> orig.None?)
    requires role.Length == MAXIMUM_WAIT_OBJECTS
    requires orig.Some? ==> role[..] == Slots(orig.value, os.osfHandle)
    requires orig.Some? ==> Bits(fds) == orig || Bits(fds) == After(orig, os)
    modifies fds
    ensures finished <==> RoleConclusive(orig, os)
    ensures finished ==> Bits(fds) == After(orig, os) && ready == RoleReady(orig, os)
  {
    if fds == null {
      return true, 0;
    }
    ghost var bits := orig.value;
    ghost var slots := Slots(bits, os.osfHandle);
    if fds[..] != bits {
      ClassifiedIdempotent(bits, slots, os.waitOne);
    }
    var stop;
    stop, ready := ClassifyRole(fds, role, os.waitOne);
    finished := stop == MAXIMUM_WAIT_OBJECTS;
  }

  /** The three classification loops.  `retval` is the total of ready slots
      over the three roles; a wait result other than `WAIT_TIMEOUT` and
      `WAIT_OBJECT_0` on any mapped handle traps. */
  method ClassifyAll(readfds: array?<Word>, writefds: array?<Word>, exceptfds: array?<Word>,
                     hRead: array<Handle>, hWrite: array<Handle>, hExcept: array<Handle>, os: Os)
    returns (outcome: Outcome)
    requires SetsOk(SetsOf(readfds, writefds, exceptfds))
    requires hRead.Length == MAXIMUM_WAIT_OBJECTS && hWrite.Length == MAXIMUM_WAIT_OBJECTS
    requires hExcept.Length == MAXIMUM_WAIT_OBJECTS
    requires readfds != null ==> hRead[..] == Slots(readfds[..], os.osfHandle)
    requires writefds != null ==> hWrite[..] == Slots(writefds[..], os.osfHandle)
    requires exceptfds != null ==> hExcept[..] == Slots(exceptfds[..], os.osfHandle)
    modifies readfds, writefds, exceptfds
    ensures var s := old(SetsOf(readfds, writefds, exceptfds));
      outcome == if AllRolesConclusive(s, os) then Returned(TotalReady(s, os)) else Aborted(SingleWaitFailed)
    ensures var s := old(SetsOf(readfds, writefds, exceptfds));
      AllRolesConclusive(s, os) ==> SetsOf(readfds, writefds, exceptfds) == AfterAll(s, os)
  {
    ghost var s := SetsOf(readfds, writefds, exceptfds);
    var retval := 0;
    var finished, ready := ClassifyArg(readfds, hRead, os, s.read);
    if !finished {
      return Aborted(SingleWaitFailed);
    }
    retval := retval + ready;
    finished, ready := ClassifyArg(writefds, hWrite, os, s.write);
    if !finished {
      return Aborted(SingleWaitFailed);
    }
    retval := retval + ready;
    finished, ready := ClassifyArg(exceptfds, hExcept, os, s.except);
    if !finished {
      return Aborted(SingleWaitFailed);
    }
    retval := retval + ready;
    return Returned(retval);
  }

  /** `w32_select(nfds, readfds, writefds, exceptfds, tv)`.  The sets may be
      NULL and may be the same array.  The only thing asked of the caller is
      what keeps `hMultiple` in bounds: at most 64 set bits below 64 across
      the three sets. */
  method Select(nfds: int, readfds: array?<Word>, writefds: array?<Word>, exceptfds: array?<Word>,
                tv: Option<Timeval>, os: Os)
    returns (outcome: Outcome, blocked: Blocking)
    requires SetsOk(SetsOf(readfds, writefds, exceptfds))
    requires nfds < MAXIMUM_WAIT_OBJECTS ==>
      |Collected(SetsOf(readfds, writefds, exceptfds), os.osfHandle)| <= MAXIMUM_WAIT_OBJECTS
    modifies readfds, writefds, exceptfds
    // the assertion on nfds and the two validation traps
    ensures nfds >= MAXIMUM_WAIT_OBJECTS ==> outcome == Aborted(NfdsTooLarge)
    ensures var s := old(SetsOf(readfds, writefds, exceptfds)); var hs := Collected(s, os.osfHandle);
      nfds < MAXIMUM_WAIT_OBJECTS && !NoneInvalid(hs) ==> outcome == Aborted(InvalidHandle)
    ensures var s := old(SetsOf(readfds, writefds, exceptfds)); var hs := Collected(s, os.osfHandle);
      nfds < MAXIMUM_WAIT_OBJECTS && NoneInvalid(hs) && !AllSupported(hs, os.fileType) ==>
        outcome == Aborted(UnsupportedFileType)
    ensures var s := old(SetsOf(readfds, writefds, exceptfds));
      !Validated(nfds, s, os) ==> blocked == NotBlocked && SetsOf(readfds, writefds, exceptfds) == s
    // the sleep or the wait
    ensures var s := old(SetsOf(readfds, writefds, exceptfds));
      Validated(nfds, s, os) ==>
        blocked == if nfds == 0 then Slept(Milliseconds(tv))
                   else WaitedForAny(Collected(s, os.osfHandle), Milliseconds(tv))
    ensures var s := old(SetsOf(readfds, writefds, exceptfds));
      Validated(nfds, s, os) && nfds != 0 && WaitResult(s, Milliseconds(tv), os) == WAIT_FAILED ==>
        outcome == Returned(-1) && SetsOf(readfds, writefds, exceptfds) == s
    ensures var s := old(SetsOf(readfds, writefds, exceptfds));
      Validated(nfds, s, os) && nfds != 0 && WaitResult(s, Milliseconds(tv), os) == WAIT_TIMEOUT ==>
        outcome == Returned(0) && SetsOf(readfds, writefds, exceptfds) == Zeroed(s)
    // classification
    ensures var s := old(SetsOf(readfds, writefds, exceptfds));
      Classifies(nfds, s, Milliseconds(tv), os) ==>
        outcome == if AllRolesConclusive(s, os) then Returned(TotalReady(s, os)) else Aborted(SingleWaitFailed)
    ensures var s := old(SetsOf(readfds, writefds, exceptfds));
      Classifies(nfds, s, Milliseconds(tv), os) && AllRolesConclusive(s, os) ==>
        SetsOf(readfds, writefds, exceptfds) == AfterAll(s, os)
  {
    var s := SetsOf(readfds, writefds, exceptfds);
    if nfds >= MAXIMUM_WAIT_OBJECTS {
      return Aborted(NfdsTooLarge), NotBlocked;
    }
    var dwMilliseconds := Milliseconds(tv);

    var hMultiple, countMultiple, hRead, hWrite, hExcept := MapAll(s, os.osfHandle);

    var ok := CheckHandles(hMultiple, countMultiple);
    if !ok {
      return Aborted(InvalidHandle), NotBlocked;
    }
    ok := CheckFileTypes(hMultiple, countMultiple, os.fileType);
    if !ok {
      return Aborted(UnsupportedFileType), NotBlocked;
    }

    if nfds == 0 {
      blocked := Slept(dwMilliseconds);
    } else {
      blocked := WaitedForAny(hMultiple[..countMultiple], dwMilliseconds);
      var dwError := os.waitMultiple(hMultiple[..countMultiple], dwMilliseconds);
      if dwError == WAIT_FAILED {
        return Returned(-1), blocked;
      } else if dwError == WAIT_TIMEOUT {
        ZeroAll(readfds, writefds, exceptfds);
        return Returned(0), blocked;
      }
    }

    outcome := ClassifyAll(readfds, writefds, exceptfds, hRead, hWrite, hExcept, os);
  }
}
