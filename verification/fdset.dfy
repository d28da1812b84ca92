/** The fixed-width descriptor set `w32_fd_set`: an array of `WORDS` machine
    words of `NFDBITS` bits each, where descriptor `n` is bit `n % NFDBITS` of
    word `n / NFDBITS`.  `unsigned long` is 32 bits wide on Win32, so a word is
    a `bv32`.  The macros that update a set in place (`W32_FD_SET`,
    `W32_FD_CLR`, `W32_FD_ZERO`) are methods on an `array<Word>`; the ones that
    only compute are functions. */
module W32FdSet {

  type Word = bv32

  const SETSIZE: nat := 1024
  /** `sizeof(unsigned long) * 8` on Win32. */
  const NFDBITS: nat := 32

  /** `w32_howmany(x, y)`: the number of `y`-sized chunks needed to hold `x`
      items, that is, `x / y` rounded up. */
  function HowMany(x: nat, y: nat): (r: nat)
    requires y > 0
    ensures x <= r * y < x + y
  {
    var r := (x + (y - 1)) / y;
    assert r * y <= x + (y - 1) < (r + 1) * y;
    r
  }

  /** The number of words in a `w32_fd_set`, `w32_howmany(W32_FD_SETSIZE,
      W32_NFDBITS)`; `WordCount` shows the two agree. */
  const WORDS: nat := 32

  /** The array bound of `w32_fd_set` is exactly enough words for `SETSIZE`
      descriptors. */
  lemma WordCount()
    ensures HowMany(SETSIZE, NFDBITS) == WORDS
    ensures (WORDS - 1) * NFDBITS < SETSIZE <= WORDS * NFDBITS
  {
  }

  /** A well-formed descriptor set, seen as the value of its words. */
  predicate WellFormed(bits: seq<Word>) {
    |bits| == WORDS
  }

  /** `w32_fdset_mask(n)`: the single bit of descriptor `n` within its word. */
  function Mask(n: nat): Word {
    (1 as Word) << (n % NFDBITS)
  }

  /** Whether word `w` has any of the bits of `mask`; with a one-bit mask,
      whether it has that bit. */
  predicate HasBit(w: Word, mask: Word) {
    w & mask != 0
  }

  /** `W32_FD_ISSET(n, p)`: whether descriptor `n` is in the set. */
  predicate IsSet(bits: seq<Word>, n: nat)
    requires WellFormed(bits) && n < SETSIZE
  {
    HasBit(bits[n / NFDBITS], Mask(n))
  }

  /** `W32_FD_ISSET` tests the word against the mask for any common bit;
      since the mask has one bit, that is the word containing the whole
      mask. */
  lemma IsSetContainsMask(bits: seq<Word>, n: nat)
    requires WellFormed(bits) && n < SETSIZE
    ensures IsSet(bits, n) <==> bits[n / NFDBITS] & Mask(n) == Mask(n)
  {
    MaskOneBit(n);
    SingleBitAnd(bits[n / NFDBITS], Mask(n));
  }

  /** The value of a set after `W32_FD_SET(n, p)`. */
  function WithBit(bits: seq<Word>, n: nat): (r: seq<Word>)
    requires WellFormed(bits) && n < SETSIZE
    ensures WellFormed(r)
  {
    bits[n / NFDBITS := bits[n / NFDBITS] | Mask(n)]
  }

  /** The value of a set after `W32_FD_CLR(n, p)`. */
  function WithoutBit(bits: seq<Word>, n: nat): (r: seq<Word>)
    requires WellFormed(bits) && n < SETSIZE
    ensures WellFormed(r)
  {
    bits[n / NFDBITS := bits[n / NFDBITS] & !Mask(n)]
  }

  /** The value of a set after `W32_FD_ZERO(p)`. */
  function Empty(): (r: seq<Word>)
    ensures WellFormed(r)
  {
    seq(WORDS, _ => 0)
  }

  /** The descriptors a set holds. */
  ghost function Members(bits: seq<Word>): set<nat>
    requires WellFormed(bits)
  {
    set n: nat | n < SETSIZE && IsSet(bits, n)
  }

  /** Two descriptors are equal exactly when they share a word and a bit
      position. */
  lemma SameSlot(n: nat, m: nat)
    ensures n == m <==> n / NFDBITS == m / NFDBITS && n % NFDBITS == m % NFDBITS
  {
    if n / NFDBITS == m / NFDBITS && n % NFDBITS == m % NFDBITS {
      assert n == NFDBITS * (n / NFDBITS) + n % NFDBITS;
      assert m == NFDBITS * (m / NFDBITS) + m % NFDBITS;
    }
  }

  /** A one-bit shift has exactly one bit set. */
  lemma ShiftOneBit(k: nat)
    requires k < NFDBITS
    ensures (1 as Word) << k != 0
    ensures ((1 as Word) << k) & (((1 as Word) << k) - 1) == 0
  {
  }

  /** Against a one-bit mask, sharing a bit is containing the mask. */
  lemma SingleBitAnd(w: Word, m: Word)
    requires m != 0 && m & (m - 1) == 0
    ensures w & m != 0 <==> w & m == m
  {
  }

  /** One-bit shifts by different amounts share no bit. */
  lemma ShiftDisjoint(i: nat, j: nat)
    requires i < NFDBITS && j < NFDBITS && i != j
    ensures ((1 as Word) << i) & ((1 as Word) << j) == 0
  {
  }

  /** A descriptor's mask has exactly one bit set: it is nonzero, and
      clearing its lowest set bit (`m & (m - 1)`) leaves nothing. */
  lemma MaskOneBit(n: nat)
    ensures Mask(n) != 0 && Mask(n) & (Mask(n) - 1) == 0
  {
    ShiftOneBit(n % NFDBITS);
  }

  /** Descriptors at different bit positions have disjoint masks. */
  lemma MaskDisjoint(n: nat, m: nat)
    requires n % NFDBITS != m % NFDBITS
    ensures Mask(n) & Mask(m) == 0
  {
    ShiftDisjoint(n % NFDBITS, m % NFDBITS);
  }

  lemma OrSame(w: Word, a: Word)
    requires a != 0
    ensures HasBit(w | a, a)
  {
  }

  lemma OrOther(w: Word, a: Word, b: Word)
    requires a & b == 0
    ensures HasBit(w | a, b) <==> HasBit(w, b)
  {
    assert (w | a) & b == w & b;
  }

  lemma AndNotSame(w: Word, a: Word)
    ensures !HasBit(w & !a, a)
  {
  }

  lemma AndNotOther(w: Word, a: Word, b: Word)
    requires a & b == 0
    ensures HasBit(w & !a, b) <==> HasBit(w, b)
  {
    assert (w & !a) & b == w & b;
  }

  lemma AndNotAbsent(w: Word, a: Word)
    requires !HasBit(w, a)
    ensures w & !a == w
  {
  }

  /** `W32_FD_SET(n, p)` puts `n` in the set. */
  lemma SetSame(bits: seq<Word>, n: nat)
    requires WellFormed(bits) && n < SETSIZE
    ensures IsSet(WithBit(bits, n), n)
  {
    MaskOneBit(n);
    OrSame(bits[n / NFDBITS], Mask(n));
  }

  /** Two different descriptors in the same word sit at different bit
      positions. */
  lemma SameWordOtherBit(n: nat, m: nat)
    requires n != m && n / NFDBITS == m / NFDBITS
    ensures n % NFDBITS != m % NFDBITS
  {
    SameSlot(n, m);
  }

  /** Updating one word leaves every other word's descriptors as they were. */
  lemma OtherWord(bits: seq<Word>, n: nat, m: nat, w: Word)
    requires WellFormed(bits) && n < SETSIZE && m < SETSIZE && m / NFDBITS != n / NFDBITS
    ensures IsSet(bits[n / NFDBITS := w], m) <==> IsSet(bits, m)
  {
    assert bits[n / NFDBITS := w][m / NFDBITS] == bits[m / NFDBITS];
  }

  lemma SetOtherSameWord(bits: seq<Word>, n: nat, m: nat)
    requires WellFormed(bits) && n < SETSIZE && m < SETSIZE
    requires m / NFDBITS == n / NFDBITS && n % NFDBITS != m % NFDBITS
    ensures IsSet(WithBit(bits, n), m) <==> IsSet(bits, m)
  {
    MaskDisjoint(n, m);
    OrOther(bits[n / NFDBITS], Mask(n), Mask(m));
  }

  /** `W32_FD_SET(n, p)` leaves every other descriptor as it was. */
  lemma SetOther(bits: seq<Word>, n: nat, m: nat)
    requires WellFormed(bits) && n < SETSIZE && m < SETSIZE && m != n
    ensures IsSet(WithBit(bits, n), m) <==> IsSet(bits, m)
  {
    if m / NFDBITS == n / NFDBITS {
      SameWordOtherBit(n, m);
      SetOtherSameWord(bits, n, m);
    } else {
      OtherWord(bits, n, m, bits[n / NFDBITS] | Mask(n));
    }
  }

  /** After `W32_FD_SET(n, p)` descriptor `n` is in the set and every other
      descriptor is in it exactly when it was before. */
  lemma SetSemantics(bits: seq<Word>, n: nat, m: nat)
    requires WellFormed(bits) && n < SETSIZE && m < SETSIZE
    ensures IsSet(WithBit(bits, n), m) <==> m == n || IsSet(bits, m)
  {
    if m == n {
      SetSame(bits, n);
    } else {
      SetOther(bits, n, m);
    }
  }

  /** `W32_FD_CLR(n, p)` takes `n` out of the set. */
  lemma ClrSame(bits: seq<Word>, n: nat)
    requires WellFormed(bits) && n < SETSIZE
    ensures !IsSet(WithoutBit(bits, n), n)
  {
    AndNotSame(bits[n / NFDBITS], Mask(n));
  }

  lemma ClrOtherSameWord(bits: seq<Word>, n: nat, m: nat)
    requires WellFormed(bits) && n < SETSIZE && m < SETSIZE
    requires m / NFDBITS == n / NFDBITS && n % NFDBITS != m % NFDBITS
    ensures IsSet(WithoutBit(bits, n), m) <==> IsSet(bits, m)
  {
    MaskDisjoint(n, m);
    AndNotOther(bits[n / NFDBITS], Mask(n), Mask(m));
  }

  /** `W32_FD_CLR(n, p)` leaves every other descriptor as it was. */
  lemma ClrOther(bits: seq<Word>, n: nat, m: nat)
    requires WellFormed(bits) && n < SETSIZE && m < SETSIZE && m != n
    ensures IsSet(WithoutBit(bits, n), m) <==> IsSet(bits, m)
  {
    if m / NFDBITS == n / NFDBITS {
      SameWordOtherBit(n, m);
      ClrOtherSameWord(bits, n, m);
    } else {
      OtherWord(bits, n, m, bits[n / NFDBITS] & !Mask(n));
    }
  }

  /** After `W32_FD_CLR(n, p)` descriptor `n` is not in the set and every other
      descriptor is in it exactly when it was before. */
  lemma ClrSemantics(bits: seq<Word>, n: nat, m: nat)
    requires WellFormed(bits) && n < SETSIZE && m < SETSIZE
    ensures IsSet(WithoutBit(bits, n), m) <==> m != n && IsSet(bits, m)
  {
    if m == n {
      ClrSame(bits, n);
    } else {
      ClrOther(bits, n, m);
    }
  }

  /** `W32_FD_CLR` of a descriptor that is not in the set changes nothing. */
  lemma ClrAbsent(bits: seq<Word>, n: nat)
    requires WellFormed(bits) && n < SETSIZE && !IsSet(bits, n)
    ensures WithoutBit(bits, n) == bits
  {
    AndNotAbsent(bits[n / NFDBITS], Mask(n));
  }

  /** `W32_FD_SET` adds exactly one descriptor. */
  lemma MembersWithBit(bits: seq<Word>, n: nat)
    requires WellFormed(bits) && n < SETSIZE
    ensures Members(WithBit(bits, n)) == Members(bits) + {n}
  {
    forall m: nat | m < SETSIZE
      ensures m in Members(WithBit(bits, n)) <==> m in Members(bits) + {n}
    {
      SetSemantics(bits, n, m);
    }
  }

  /** `W32_FD_CLR` removes exactly one descriptor. */
  lemma MembersWithoutBit(bits: seq<Word>, n: nat)
    requires WellFormed(bits) && n < SETSIZE
    ensures Members(WithoutBit(bits, n)) == Members(bits) - {n}
  {
    forall m: nat | m < SETSIZE
      ensures m in Members(WithoutBit(bits, n)) <==> m in Members(bits) - {n}
    {
      ClrSemantics(bits, n, m);
    }
  }

  /** After `W32_FD_ZERO` no descriptor is in the set. */
  lemma EmptyHasNoMembers()
    ensures Members(Empty()) == {}
    ensures forall m: nat :: m < SETSIZE ==> !IsSet(Empty(), m)
  {
    forall m: nat | m < SETSIZE
      ensures !IsSet(Empty(), m)
    {
      assert Empty()[m / NFDBITS] == 0;
    }
  }

  /** `W32_FD_SET(n, p)`. */
  method Set(n: nat, p: array<Word>)
    requires WellFormed(p[..]) && n < SETSIZE
    modifies p
    ensures p[..] == WithBit(old(p[..]), n)
  {
    p[n / NFDBITS] := p[n / NFDBITS] | Mask(n);
  }

  /** `W32_FD_CLR(n, p)`. */
  method Clr(n: nat, p: array<Word>)
    requires WellFormed(p[..]) && n < SETSIZE
    modifies p
    ensures p[..] == WithoutBit(old(p[..]), n)
  {
    p[n / NFDBITS] := p[n / NFDBITS] & !Mask(n);
  }

  /** `W32_FD_COPY(f, t)`: a whole-struct assignment `*t = *f`. */
  method Copy(f: array<Word>, t: array<Word>)
    requires WellFormed(f[..]) && WellFormed(t[..])
    modifies t
    ensures t[..] == old(f[..])
    ensures Members(t[..]) == Members(old(f[..]))
  {
    forall i | 0 <= i < t.Length {
      t[i] := f[i];
    }
  }

  /** `W32_FD_ZERO(p)`: the count `k` runs down from the word count, and each
      pass clears the word it has just counted past. */
  method Zero(p: array<Word>)
    requires WellFormed(p[..])
    modifies p
    ensures p[..] == Empty()
  {
    var k := WORDS;
    while k > 0
      invariant 0 <= k <= WORDS
      invariant forall j :: k <= j < WORDS ==> p[j] == 0
    {
      k := k - 1;
      p[k] := 0;
    }
  }
}
