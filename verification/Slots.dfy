/** The bitmap of the slots a cluster owns, and handing slots from one cluster to another. */
module Slots {
  type byte8 = bv8

  /** `1 << j` */
  function Mask(j: nat): byte8
    requires j < 8
  {
    if j == 0 then 1 else if j == 1 then 2 else if j == 2 then 4 else if j == 3 then 8
    else if j == 4 then 16 else if j == 5 then 32 else if j == 6 then 64 else 128
  }

  predicate Bit(b: byte8, j: nat)
    requires j < 8
  {
    b & Mask(j) != 0
  }

  lemma MaskIsShift(j: nat)
    requires j < 8
    ensures Mask(j) == 1 << j
  {
  }

  lemma BitIsShift(b: byte8, j: nat)
    requires j < 8
    ensures Bit(b, j) <==> (b >> j) & 1 == 1
  {
  }

  /** A byte as its bits, the lowest first. */
  function View(b: byte8): (v: seq<bool>)
    ensures |v| == 8
  {
    seq(8, k requires 0 <= k < 8 => Bit(b, k))
  }

  lemma SetBit(b: byte8, j: nat, k: nat)
    requires j < 8 && k < 8
    ensures Bit(b | Mask(j), k) <==> k == j || Bit(b, k)
    ensures Bit(b & !Mask(j), k) <==> k != j && Bit(b, k)
  {
  }

  lemma ViewSet(b: byte8, j: nat)
    requires j < 8
    ensures View(b | Mask(j)) == View(b)[j := true] && View(b & !Mask(j)) == View(b)[j := false]
  {
    var raised, cleared := View(b | Mask(j)), View(b & !Mask(j));
    forall k | 0 <= k < 8
      ensures raised[k] == View(b)[j := true][k] && cleared[k] == View(b)[j := false][k]
    {
      SetBit(b, j, k);
    }
  }

  lemma BitOps(b: byte8, v: byte8, k: nat)
    requires k < 8
    ensures Bit(b | v, k) <==> Bit(b, k) || Bit(v, k)
    ensures Bit(b & !v, k) <==> Bit(b, k) && !Bit(v, k)
  {
  }

  lemma ViewOps(b: byte8, v: byte8, k: nat, or: seq<bool>, minus: seq<bool>)
    requires k < 8 && or == View(b | v) && minus == View(b & !v)
    ensures or[k] <==> View(b)[k] || View(v)[k]
    ensures minus[k] <==> View(b)[k] && !View(v)[k]
  {
    BitOps(b, v, k);
  }

  lemma BitsDetermine(a: byte8, b: byte8)
    requires forall k :: 0 <= k < 8 ==> Bit(a, k) == Bit(b, k)
    ensures a == b
  {
    assert Bit(a, 0) == Bit(b, 0) && Bit(a, 1) == Bit(b, 1) && Bit(a, 2) == Bit(b, 2) && Bit(a, 3) == Bit(b, 3);
    assert Bit(a, 4) == Bit(b, 4) && Bit(a, 5) == Bit(b, 5) && Bit(a, 6) == Bit(b, 6) && Bit(a, 7) == Bit(b, 7);
  }

  lemma ViewsDetermine(a: byte8, b: byte8)
    requires View(a) == View(b)
    ensures a == b
  {
    forall k | 0 <= k < 8
      ensures Bit(a, k) == Bit(b, k)
    {
      assert View(a)[k] == View(b)[k];
    }
    BitsDetermine(a, b);
  }

  lemma ZeroView()
    ensures forall k {:trigger View(0)[k]} :: 0 <= k < 8 ==> !View(0)[k]
  {
  }

  // ---------- bits ----------

  /** How many of the bits from `j` on are set. */
  function OnesFrom(v: seq<bool>, j: nat): (n: nat)
    requires j <= |v|
    decreases |v| - j
  {
    if j == |v| then 0 else (if v[j] then 1 else 0) + OnesFrom(v, j + 1)
  }

  lemma {:induction false} SameOnes(v: seq<bool>, w: seq<bool>, j: nat)
    requires j <= |v| == |w| && forall k :: j <= k < |v| ==> v[k] == w[k]
    ensures OnesFrom(v, j) == OnesFrom(w, j)
    decreases |v| - j
  {
    if j < |v| {
      SameOnes(v, w, j + 1);
    }
  }

  lemma {:induction false} NoOnesBelow(v: seq<bool>, j: nat)
    requires j <= |v| && forall k :: 0 <= k < j ==> !v[k]
    ensures OnesFrom(v, 0) == OnesFrom(v, j)
  {
    if j > 0 {
      NoOnesBelow(v, j - 1);
    }
  }

  // ---------- the slots of a bitmap ----------

  predicate Has(bits: seq<byte8>, s: nat) {
    s < 8 * |bits| && View(bits[s / 8])[s % 8]
  }

  ghost function SlotsOf(bits: seq<byte8>): set<nat> {
    set s | 0 <= s < 8 * |bits| && Has(bits, s)
  }

  /** Slot `s` is bit `s % 8`, counted from the lowest, of byte `s / 8`. */
  lemma SlotIsBit(bits: seq<byte8>, s: nat)
    ensures s in SlotsOf(bits) <==> s < 8 * |bits| && (bits[s / 8] >> (s % 8)) & 1 == 1
  {
    if s < 8 * |bits| {
      BitIsShift(bits[s / 8], s % 8);
    }
  }

  lemma ByteOfSlot(i: nat, k: nat)
    requires k < 8
    ensures (8 * i + k) / 8 == i && (8 * i + k) % 8 == k
  {
  }

  lemma HasAt(bits: seq<byte8>, i: nat, k: nat)
    requires i < |bits| && k < 8
    ensures Has(bits, 8 * i + k) <==> View(bits[i])[k]
  {
    ByteOfSlot(i, k);
  }

  lemma HasBit(bits: seq<byte8>, i: nat, k: nat, s: nat)
    requires i < |bits| && k < 8 && s == 8 * i + k
    ensures Has(bits, s) == Bit(bits[i], k) == View(bits[i])[k]
  {
    HasAt(bits, i, k);
  }

  /** Bitmaps of one length are equal when they have the same slots. */
  lemma SlotsDetermine(a: seq<byte8>, b: seq<byte8>)
    requires |a| == |b| && SlotsOf(a) == SlotsOf(b)
    ensures a == b
  {
    forall i | 0 <= i < |a|
      ensures a[i] == b[i]
    {
      forall k | 0 <= k < 8
        ensures View(a[i])[k] == View(b[i])[k]
      {
        HasAt(a, i, k);
        HasAt(b, i, k);
        assert 8 * i + k in SlotsOf(a) <==> 8 * i + k in SlotsOf(b);
      }
      ViewsDetermine(a[i], b[i]);
    }
  }

  /** How many slots the first `n` bytes have. */
  function Count(bits: seq<byte8>, n: nat): nat
    requires n <= |bits|
  {
    if n == 0 then 0 else Count(bits, n - 1) + OnesFrom(View(bits[n - 1]), 0)
  }

  ghost function SlotsBelow(bits: seq<byte8>, m: nat): set<nat> {
    set s | 0 <= s < m && Has(bits, s)
  }

  lemma OneSlotMore(bits: seq<byte8>, m: nat)
    ensures |SlotsBelow(bits, m + 1)| == |SlotsBelow(bits, m)| + if Has(bits, m) then 1 else 0
  {
    if Has(bits, m) {
      assert SlotsBelow(bits, m + 1) == SlotsBelow(bits, m) + {m};
    } else {
      assert SlotsBelow(bits, m + 1) == SlotsBelow(bits, m);
    }
  }

  lemma {:induction false} OnesAreSlots(bits: seq<byte8>, i: nat, j: nat)
    requires i < |bits| && j <= 8
    ensures |SlotsBelow(bits, 8 * i + 8)| == |SlotsBelow(bits, 8 * i + j)| + OnesFrom(View(bits[i]), j)
    decreases 8 - j
  {
    if j < 8 {
      HasBit(bits, i, j, 8 * i + j);
      OneSlotMore(bits, 8 * i + j);
      OnesAreSlots(bits, i, j + 1);
    }
  }

  /** The number of set bits is the number of slots. */
  lemma {:induction false} CountIsSlots(bits: seq<byte8>, n: nat)
    requires n <= |bits|
    ensures Count(bits, n) == |SlotsBelow(bits, 8 * n)|
  {
    if n > 0 {
      CountIsSlots(bits, n - 1);
      OnesAreSlots(bits, n - 1, 0);
    }
  }

  lemma CountIsSize(bits: seq<byte8>)
    ensures Count(bits, |bits|) == |SlotsOf(bits)|
  {
    CountIsSlots(bits, |bits|);
    assert SlotsBelow(bits, 8 * |bits|) == SlotsOf(bits);
  }

  // ---------- exporting from one byte ----------

  /** `out` is the highest set bits of `b`, as many as there are up to `n`; `rest` is the others. */
  ghost predicate Split(b: seq<bool>, rest: seq<bool>, out: seq<bool>, n: int, left: int)
    requires |b| == |rest| == |out|
  {
    && (forall k {:trigger rest[k]} {:trigger out[k]} :: 0 <= k < |b| ==>
          rest[k] == (b[k] && !out[k]) && (out[k] ==> b[k]))
    && (forall j, k {:trigger out[j], rest[k]} :: 0 <= j < |b| && 0 <= k < |b| && out[j] && rest[k] ==> k < j)
    && left == n - OnesFrom(out, 0) && left >= 0
    && (left > 0 ==> forall k {:trigger rest[k]} :: 0 <= k < |b| ==> !rest[k])
  }

  /** The same, with the bits below `j` still to be looked at. */
  ghost predicate SplitFrom(b: seq<bool>, rest: seq<bool>, out: seq<bool>, n: int, left: int, j: nat)
    requires |b| == |rest| == |out| && j <= |b|
  {
    && (forall k {:trigger rest[k]} {:trigger out[k]} :: j <= k < |b| ==> !rest[k] && b[k] == out[k])
    && (forall k {:trigger rest[k]} {:trigger out[k]} :: 0 <= k < j ==> rest[k] == b[k] && !out[k])
    && left == n - OnesFrom(out, j) && left > 0
  }

  /** Bit `j` is moved over. */
  lemma TakeBit(b: seq<bool>, rest: seq<bool>, out: seq<bool>, n: int, left: int, j: nat)
    requires |b| == |rest| == |out| && j < |b| && SplitFrom(b, rest, out, n, left, j + 1) && b[j]
    ensures var rest', out' := rest[j := false], out[j := true];
            if left == 1 then Split(b, rest', out', n, 0) else SplitFrom(b, rest', out', n, left - 1, j)
  {
    var out' := out[j := true];
    SameOnes(out, out', j + 1);
    NoOnesBelow(out', j);
  }

  lemma SkipBit(b: seq<bool>, rest: seq<bool>, out: seq<bool>, n: int, left: int, j: nat)
    requires |b| == |rest| == |out| && j < |b| && SplitFrom(b, rest, out, n, left, j + 1) && !b[j]
    ensures SplitFrom(b, rest, out, n, left, j)
  {
    assert !rest[j] && !out[j];
  }

  lemma AllSplit(b: seq<bool>, rest: seq<bool>, out: seq<bool>, n: int, left: int)
    requires |b| == |rest| == |out| && SplitFrom(b, rest, out, n, left, 0)
    ensures Split(b, rest, out, n, left)
  {
  }

  method ExportByte(b: byte8, n: int) returns (rest: byte8, out: byte8, left: int)
    requires n > 0
    ensures Split(View(b), View(rest), View(out), n, left)
  {
    rest, out, left := b, 0, n;
    ZeroView();
    var j := 8;
    while j > 0
      invariant 0 <= j <= 8
      invariant if left > 0 then SplitFrom(View(b), View(rest), View(out), n, left, j)
                else Split(View(b), View(rest), View(out), n, left)
    {
      if left <= 0 {
        break;
      }
      j := j - 1;
      if Bit(b, j) {
        TakeBit(View(b), View(rest), View(out), n, left, j);
        ViewSet(out, j);
        ViewSet(rest, j);
        out := out | Mask(j);
        rest := rest & !Mask(j);
        left := left - 1;
      } else {
        SkipBit(View(b), View(rest), View(out), n, left, j);
      }
    }
    if left > 0 {
      AllSplit(View(b), View(rest), View(out), n, left);
    }
  }

  // ---------- the bitmap ----------

  /** `out` is the highest slots of `was`, as many as there are up to `num`; `rest` is the others. */
  ghost predicate Exported(was: seq<byte8>, rest: seq<byte8>, out: seq<byte8>, num: int) {
    && |rest| == |out| == |was|
    && SlotsOf(rest) == SlotsOf(was) - SlotsOf(out) && SlotsOf(out) <= SlotsOf(was)
    && (forall s, r :: s in SlotsOf(out) && r in SlotsOf(rest) ==> r < s)
    && |SlotsOf(out)| == if num <= 0 then 0 else if num < |SlotsOf(was)| then num else |SlotsOf(was)|
  }

  /** The bytes from `i` on have been parted, the others not touched. */
  ghost predicate Parted(was: seq<byte8>, now: seq<byte8>, out: seq<byte8>, i: nat) {
    && |now| == |out| == |was| && i <= |was|
    && (forall x {:trigger now[x]} {:trigger out[x]} :: 0 <= x < i ==> now[x] == was[x] && out[x] == 0)
    && (forall x, k {:trigger View(now[x])[k]} {:trigger View(out[x])[k]} :: i <= x < |was| && 0 <= k < 8 ==>
          View(now[x])[k] == (View(was[x])[k] && !View(out[x])[k]) && (View(out[x])[k] ==> View(was[x])[k]))
  }

  /** What is left in the bytes from `i` on is below everything taken out. */
  ghost predicate HighestOut(now: seq<byte8>, out: seq<byte8>, i: nat)
    requires |now| == |out|
  {
    forall x, j, y, k {:trigger View(out[x])[j], View(now[y])[k]} ::
      i <= x < |out| && i <= y < |now| && 0 <= j < 8 && 0 <= k < 8 && View(out[x])[j] && View(now[y])[k] ==>
        8 * y + k < 8 * x + j
  }

  ghost predicate NoneLeft(now: seq<byte8>, i: nat) {
    forall y, k {:trigger View(now[y])[k]} :: i <= y < |now| && 0 <= k < 8 ==> !View(now[y])[k]
  }

  /** The bytes from `i` on have been exported from; `left` more slots are wanted. */
  ghost predicate ExportedFrom(was: seq<byte8>, now: seq<byte8>, out: seq<byte8>, num: int, left: int, i: nat) {
    && Parted(was, now, out, i) && HighestOut(now, out, i)
    && Count(out, |out|) == num - left && left >= 0 && (left > 0 ==> NoneLeft(now, i))
  }

  lemma {:induction false} CountUpdate(out: seq<byte8>, i: nat, eb: byte8, n: nat)
    requires n <= |out| && i < |out| && out[i] == 0
    ensures Count(out[i := eb], n) == Count(out, n) + if i < n then OnesFrom(View(eb), 0) else 0
  {
    if n > 0 {
      CountUpdate(out, i, eb, n - 1);
      if i == n - 1 {
        ZeroView();
        NoOnesBelow(View(0), 8);
      }
    }
  }

  lemma {:induction false} CountZero(out: seq<byte8>, n: nat)
    requires n <= |out| && forall x :: 0 <= x < |out| ==> out[x] == 0
    ensures Count(out, n) == 0
  {
    if n > 0 {
      CountZero(out, n - 1);
      ZeroView();
      NoOnesBelow(View(0), 8);
    }
  }

  lemma PartedStep(was: seq<byte8>, now: seq<byte8>, out: seq<byte8>, left: int, i: nat, rest: byte8, eb: byte8,
                   left': int)
    requires i < |was| && Parted(was, now, out, i + 1)
    requires Split(View(was[i]), View(rest), View(eb), left, left')
    ensures Parted(was, now[i := rest], out[i := eb], i)
  {
  }

  lemma HighestStep(now: seq<byte8>, out: seq<byte8>, i: nat, rest: byte8, eb: byte8)
    requires i < |now| == |out| && NoneLeft(now, i + 1)
    requires forall j, k {:trigger View(eb)[j], View(rest)[k]} ::
             0 <= j < 8 && 0 <= k < 8 && View(eb)[j] && View(rest)[k] ==> k < j
    ensures HighestOut(now[i := rest], out[i := eb], i)
  {
    var now', out' := now[i := rest], out[i := eb];
    forall x, j, y, k {:trigger View(out'[x])[j], View(now'[y])[k]} |
      i <= x < |out| && i <= y < |now| && 0 <= j < 8 && 0 <= k < 8
      ensures View(out'[x])[j] && View(now'[y])[k] ==> 8 * y + k < 8 * x + j
    {
      assert y > i ==> !View(now[y])[k];
      assert y == i && x == i ==> View(now'[y]) == View(rest) && View(out'[x]) == View(eb);
    }
  }

  /** One byte more has been exported from. */
  lemma ExportStep(was: seq<byte8>, now: seq<byte8>, out: seq<byte8>, num: int, left: int, i: nat,
                   rest: byte8, eb: byte8, left': int)
    requires i < |was| && ExportedFrom(was, now, out, num, left, i + 1) && left > 0
    requires Split(View(was[i]), View(rest), View(eb), left, left')
    ensures ExportedFrom(was, now[i := rest], out[i := eb], num, left', i)
  {
    CountUpdate(out, i, eb, |out|);
    PartedStep(was, now, out, left, i, rest, eb, left');
    HighestStep(now, out, i, rest, eb);
    if left' > 0 {
      NoneLeftStep(now, i, rest);
    }
  }

  lemma NoneLeftStep(now: seq<byte8>, i: nat, rest: byte8)
    requires i < |now| && NoneLeft(now, i + 1) && forall k {:trigger View(rest)[k]} :: 0 <= k < 8 ==> !View(rest)[k]
    ensures NoneLeft(now[i := rest], i)
  {
    var now' := now[i := rest];
    forall y, k {:trigger View(now'[y])[k]} | i <= y < |now| && 0 <= k < 8
      ensures !View(now'[y])[k]
    {
      assert y > i ==> !View(now[y])[k];
    }
  }

  lemma HasIsView(bits: seq<byte8>, s: nat)
    requires s < 8 * |bits|
    ensures s in SlotsOf(bits) <==> View(bits[s / 8])[s % 8]
  {
  }

  lemma ExportDone(was: seq<byte8>, now: seq<byte8>, out: seq<byte8>, num: int, left: int, i: nat)
    requires ExportedFrom(was, now, out, num, left, i) && num > 0 && (left == 0 || i == 0)
    ensures Exported(was, now, out, num)
  {
    ZeroView();
    forall s: nat | s < 8 * |was|
      ensures s in SlotsOf(now) <==> s in SlotsOf(was) && s !in SlotsOf(out)
      ensures s in SlotsOf(out) ==> s in SlotsOf(was) && s >= 8 * i
      ensures left > 0 ==> s !in SlotsOf(now)
    {
      HasIsView(was, s);
      HasIsView(now, s);
      HasIsView(out, s);
      assert View(now[s / 8])[s % 8] || !View(now[s / 8])[s % 8];
      assert View(out[s / 8])[s % 8] || !View(out[s / 8])[s % 8];
    }
    forall s, r | s in SlotsOf(out) && r in SlotsOf(now)
      ensures r < s
    {
      if r >= 8 * i {
        assert View(out[s / 8])[s % 8] && View(now[r / 8])[r % 8];
      }
    }
    CountIsSize(out);
    if left == 0 {
      Subset(SlotsOf(out), SlotsOf(was));
    } else {
      assert SlotsOf(out) == SlotsOf(was);
    }
  }

  lemma NothingExported(was: seq<byte8>, out: seq<byte8>, num: int)
    requires num <= 0 && |out| == |was| && forall x :: 0 <= x < |out| ==> out[x] == 0
    ensures Exported(was, was, out, num)
  {
    ZeroView();
    forall s: nat | s < 8 * |was|
      ensures s !in SlotsOf(out)
    {
      HasIsView(out, s);
    }
    assert SlotsOf(out) == {};
  }

  lemma Subset(a: set<nat>, b: set<nat>)
    requires a <= b
    ensures |a| <= |b|
  {
    assert b == a + (b - a);
  }

  /** The slots below `m`, in rising order. */
  ghost predicate Listed(bits: seq<byte8>, slots: seq<nat>, m: nat) {
    && (forall s: nat {:trigger s in slots} :: s in slots <==> s < m && Has(bits, s))
    && (forall x, y {:trigger slots[x], slots[y]} :: 0 <= x < y < |slots| ==> slots[x] < slots[y])
  }

  lemma ListedBits(bits: seq<byte8>, slots: seq<nat>)
    requires Listed(bits, slots, 8 * |bits|)
    ensures forall s: nat :: s in slots <==> s < 8 * |bits| && (bits[s / 8] >> (s % 8)) & 1 == 1
  {
    forall s: nat
      ensures s in slots <==> s < 8 * |bits| && (bits[s / 8] >> (s % 8)) & 1 == 1
    {
      SlotIsBit(bits, s);
    }
  }

  lemma ListMore(bits: seq<byte8>, slots: seq<nat>, m: nat)
    requires Listed(bits, slots, m)
    ensures Listed(bits, if Has(bits, m) then slots + [m] else slots, m + 1)
  {
    var more := if Has(bits, m) then slots + [m] else slots;
    forall x {:trigger slots[x]} | 0 <= x < |slots|
      ensures slots[x] < m
    {
      assert slots[x] in slots;
    }
    forall s: nat
      ensures s in more <==> s < m + 1 && Has(bits, s)
    {
      assert s in more <==> s in slots || (s == m && Has(bits, m));
    }
  }

  function Cleaned(was: seq<byte8>, slots: seq<byte8>): (now: seq<byte8>)
    ensures |now| == |was|
  {
    seq(|was|, i requires 0 <= i < |was| =>
      if i + |slots| - |was| >= 0 then was[i] & !slots[i + |slots| - |was|] else was[i])
  }

  /** Whether slot `s` of a bitmap of `m` bytes stands in `slots` when the last bytes of the two are aligned. */
  predicate HasAligned(slots: seq<byte8>, m: nat, s: nat) {
    var d := 8 * (|slots| - m);
    s + d >= 0 && Has(slots, s + d)
  }

  ghost function Aligned(slots: seq<byte8>, m: nat): set<nat> {
    set s | 0 <= s < 8 * m && HasAligned(slots, m, s)
  }

  lemma SameAligned(slots: seq<byte8>)
    ensures Aligned(slots, |slots|) == SlotsOf(slots)
  {
  }

  lemma CleanedSlot(was: seq<byte8>, slots: seq<byte8>, now: seq<byte8>, i: nat, k: nat)
    requires i < |was| && k < 8 && now == Cleaned(was, slots)
    ensures Has(now, 8 * i + k) <==> Has(was, 8 * i + k) && !HasAligned(slots, |was|, 8 * i + k)
  {
    HasAt(was, i, k);
    HasAt(now, i, k);
    var j := i + |slots| - |was|;
    AlignedAt(slots, |was|, i, j, k);
    if j >= 0 {
      CleanedBit(was[i], slots[j], now[i], k);
    }
  }

  lemma AlignedAt(slots: seq<byte8>, m: nat, i: nat, j: int, k: nat)
    requires i < m && k < 8 && j == i + |slots| - m
    ensures HasAligned(slots, m, 8 * i + k) <==> j >= 0 && View(slots[j])[k]
  {
    assert 8 * i + k + 8 * (|slots| - m) == 8 * j + k;
    if j >= 0 {
      HasAt(slots, j, k);
    }
  }

  lemma CleanedBit(a: byte8, v: byte8, now: byte8, k: nat)
    requires k < 8 && now == a & !v
    ensures View(now)[k] <==> View(a)[k] && !View(v)[k]
  {
    ViewOps(a, v, k, View(a | v), View(now));
  }

  /** Cleaning takes away, for bitmaps of any lengths, exactly the given slots as they are aligned at the end. */
  lemma CleanedSlots(was: seq<byte8>, slots: seq<byte8>, now: seq<byte8>)
    requires now == Cleaned(was, slots)
    ensures SlotsOf(now) == SlotsOf(was) - Aligned(slots, |was|)
  {
    forall s: nat | s < 8 * |was|
      ensures s in SlotsOf(now) <==> s in SlotsOf(was) && s !in Aligned(slots, |was|)
    {
      CleanedSlot(was, slots, now, s / 8, s % 8);
    }
  }

  /**
   So it takes the given slots away if and only if every slot owned is given exactly when it is after the alignment.
   */
  lemma CleansGivenSlots(was: seq<byte8>, slots: seq<byte8>, now: seq<byte8>)
    requires now == Cleaned(was, slots)
    ensures SlotsOf(now) == SlotsOf(was) - SlotsOf(slots)
       <==> forall s {:trigger Has(was, s)} :: s in SlotsOf(was) ==> (Has(slots, s) <==> HasAligned(slots, |was|, s))
    ensures |slots| == |was| ==> SlotsOf(now) == SlotsOf(was) - SlotsOf(slots)
  {
    CleanedSlots(was, slots, now);
    if |slots| == |was| {
      SameAligned(slots);
    }
    var less, given := SlotsOf(now), SlotsOf(was) - SlotsOf(slots);
    forall s | s in SlotsOf(was)
      ensures (s in less <==> s in given) <==> (Has(slots, s) <==> HasAligned(slots, |was|, s))
    {
    }
    assert less <= SlotsOf(was) && given <= SlotsOf(was);
    if forall s :: s in SlotsOf(was) ==> (Has(slots, s) <==> HasAligned(slots, |was|, s)) {
      assert less == given;
    } else {
      var s :| s in SlotsOf(was) && !(Has(slots, s) <==> HasAligned(slots, |was|, s));
      assert s in less <==> s !in given;
    }
  }

  /** `b` is `a` with the bytes at `i` of the first `n` bitmaps added. */
  ghost predicate MergedByte(a: byte8, bs: seq<seq<byte8>>, i: nat, n: nat, b: byte8)
    requires n <= |bs|
  {
    forall k {:trigger View(b)[k]} :: 0 <= k < 8 ==>
      (View(b)[k] <==> View(a)[k] || exists j :: 0 <= j < n && i < |bs[j]| && View(bs[j][i])[k])
  }

  lemma MergeMore(a: byte8, bs: seq<seq<byte8>>, i: nat, n: nat, b: byte8, v: byte8, c: byte8)
    requires n < |bs| && i < |bs[n]| && MergedByte(a, bs, i, n, b) && v == bs[n][i]
    requires forall k {:trigger View(c)[k]} :: 0 <= k < 8 ==> View(c)[k] == (View(b)[k] || View(v)[k])
    ensures MergedByte(a, bs, i, n + 1, c)
  {
    forall k {:trigger View(c)[k]} | 0 <= k < 8
      ensures View(c)[k] <==> View(a)[k] || exists j :: 0 <= j < n + 1 && i < |bs[j]| && View(bs[j][i])[k]
    {
      assert View(b)[k] <==> View(a)[k] || exists j :: 0 <= j < n && i < |bs[j]| && View(bs[j][i])[k];
    }
  }

  lemma OrViews(b: byte8, v: byte8, c: byte8)
    requires c == b | v
    ensures forall k {:trigger View(c)[k]} :: 0 <= k < 8 ==> View(c)[k] == (View(b)[k] || View(v)[k])
  {
    forall k {:trigger View(c)[k]} | 0 <= k < 8
      ensures View(c)[k] == (View(b)[k] || View(v)[k])
    {
      ViewOps(b, v, k, View(c), View(b & !v));
    }
  }

  /** The slots below `m` that some of these bitmaps have. */
  ghost function SlotsOfAny(bs: seq<seq<byte8>>, m: nat): set<nat> {
    set s | 0 <= s < m && HasAny(bs, s)
  }

  ghost predicate HasAny(bs: seq<seq<byte8>>, s: nat) {
    exists j :: 0 <= j < |bs| && Has(bs[j], s)
  }

  lemma MergedSlots(was: seq<byte8>, bs: seq<seq<byte8>>, now: seq<byte8>)
    requires |now| == |was| && forall x :: 0 <= x < |was| ==> MergedByte(was[x], bs, x, |bs|, now[x])
    ensures SlotsOf(now) == SlotsOf(was) + SlotsOfAny(bs, 8 * |was|)
  {
    forall s: nat | s < 8 * |was|
      ensures s in SlotsOf(now) <==> s in SlotsOf(was) || s in SlotsOfAny(bs, 8 * |was|)
    {
      var i, k := s / 8, s % 8;
      assert MergedByte(was[i], bs, i, |bs|, now[i]);
      assert View(now[i])[k] <==> View(was[i])[k] || exists j :: 0 <= j < |bs| && i < |bs[j]| && View(bs[j][i])[k];
      assert forall j :: 0 <= j < |bs| ==> (Has(bs[j], s) <==> i < |bs[j]| && View(bs[j][i])[k]);
    }
  }

  lemma NextSlot(bits: seq<byte8>, i: nat, j: nat, slots: seq<nat>, m: nat)
    requires i < |bits| && j < 8 && m == 8 * i + j && Listed(bits, slots, m)
    ensures Listed(bits, if Bit(bits[i], j) then slots + [m] else slots, m + 1)
  {
    HasBit(bits, i, j, m);
    ListMore(bits, slots, m);
  }

  /** The slots of one byte more. */
  method ListByte(bits: seq<byte8>, i: nat, before: seq<nat>) returns (slots: seq<nat>)
    requires i < |bits| && Listed(bits, before, 8 * i)
    ensures Listed(bits, slots, 8 * i + 8)
  {
    slots := before;
    var b, j := bits[i], 0;
    while j < 8
      invariant 0 <= j <= 8 && Listed(bits, slots, 8 * i + j)
    {
      var m := 8 * i + j;
      NextSlot(bits, i, j, slots, m);
      if Bit(b, j) {
        slots := slots + [m];
      }
      j := j + 1;
    }
  }

  /** The byte with one bit raised or cleared. */
  method WithBit(b: byte8, pos: nat, v: bool) returns (r: byte8)
    requires pos < 8
    ensures View(r) == View(b)[pos := v]
    ensures r == if v then b | (1 << pos) else b & !(1 << pos)
  {
    ViewSet(b, pos);
    MaskIsShift(pos);
    if v {
      r := b | Mask(pos);
    } else {
      r := b & !Mask(pos);
    }
  }

  class SlotBitMap {
    var bits: array<byte8>
    var slotNum: int

    constructor (slotNum: nat)
      ensures this.slotNum == slotNum && fresh(bits) && slotNum <= 8 * bits.Length < slotNum + 8
      ensures SlotsOf(bits[..]) == {}
    {
      this.slotNum := slotNum;
      bits := new byte8[if slotNum % 8 == 0 then slotNum / 8 else slotNum / 8 + 1](_ => 0);
      new;
      ZeroView();
      assert forall s :: 0 <= s < 8 * |bits[..]| ==> !Has(bits[..], s);
    }

    constructor WithBits(bits: array<byte8>)
      ensures this.bits == bits && slotNum == 0
    {
      this.bits, slotNum := bits, 0;
    }

    method SetSlot(num: nat, v: bool)
      requires num / 8 < bits.Length
      modifies bits
      ensures SlotsOf(bits[..]) == if v then SlotsOf(old(bits[..])) + {num} else SlotsOf(old(bits[..])) - {num}
      ensures var b := old(bits[num / 8]); bits[num / 8] == if v then b | (1 << (num % 8)) else b & !(1 << (num % 8))
      ensures forall i :: 0 <= i < bits.Length && i != num / 8 ==> bits[i] == old(bits[i])
    {
      var index, pos := num / 8, num % 8;
      ghost var was := bits[..];
      var b := WithBit(bits[index], pos, v);
      OneChanged(was, was[index := b], num, v);
      bits[index] := b;
      assert bits[..] == was[index := b];
    }

    /** The highest `num` slots move to the result. */
    method ExportSlots(num: int) returns (exportBits: array<byte8>)
      modifies bits
      ensures fresh(exportBits) && Exported(old(bits[..]), bits[..], exportBits[..], num)
    {
      ghost var was := bits[..];
      exportBits := new byte8[bits.Length](_ => 0);
      if num <= 0 {
        NothingExported(was, exportBits[..], num);
        return;
      }
      CountZero(exportBits[..], |exportBits[..]|);
      var exportNum := num;
      var i := bits.Length;
      while i > 0
        invariant 0 <= i <= bits.Length && ExportedFrom(was, bits[..], exportBits[..], num, exportNum, i)
      {
        if exportNum <= 0 {
          break;
        }
        i := i - 1;
        ghost var now, out := bits[..], exportBits[..];
        var b, eb, left := ExportByte(bits[i], exportNum);
        bits[i] := b;
        exportBits[i] := eb;
        assert bits[..] == now[i := b];
        assert exportBits[..] == out[i := eb];
        ExportStep(was, now, out, num, exportNum, i, b, eb, left);
        exportNum := left;
      }
      ExportDone(was, bits[..], exportBits[..], num, exportNum, i);
    }

    method GetVaildSlotNum() returns (count: nat)
      ensures count == |SlotsOf(bits[..])|
    {
      count := 0;
      var i := 0;
      while i < bits.Length
        invariant i <= bits.Length && count == Count(bits[..], i)
      {
        var b, j := bits[i], 8;
        ghost var before := count;
        while j > 0
          invariant 0 <= j <= 8 && count == before + OnesFrom(View(b), j)
        {
          j := j - 1;
          if Bit(b, j) {
            count := count + 1;
          }
        }
        i := i + 1;
      }
      CountIsSize(bits[..]);
    }

    /** The slots in rising order. */
    method GetVaildSlots() returns (slots: seq<nat>)
      ensures forall s :: s in slots <==> s in SlotsOf(bits[..])
      ensures forall s: nat :: s in slots <==> s < 8 * bits.Length && (bits[s / 8] >> (s % 8)) & 1 == 1
      ensures forall x, y :: 0 <= x < y < |slots| ==> slots[x] < slots[y]
    {
      slots := [];
      var i := 0;
      while i < bits.Length
        invariant i <= bits.Length && Listed(bits[..], slots, 8 * i)
      {
        slots := ListByte(bits[..], i, slots);
        i := i + 1;
      }
      ListedBits(bits[..], slots);
    }

    /** Takes away what stands in `slots`, the last byte of it aligned with the last byte of the bitmap. */
    method CleanSlots(slots: seq<byte8>)
      modifies bits
      ensures bits[..] == Cleaned(old(bits[..]), slots)
      ensures forall i :: 0 <= i < bits.Length ==>
                var j := i + |slots| - bits.Length; bits[i] == if j < 0 then old(bits[i]) else old(bits[i]) & !slots[j]
      ensures SlotsOf(bits[..]) == SlotsOf(old(bits[..])) - Aligned(slots, bits.Length)
    {
      ghost var was := bits[..];
      if |slots| == 0 {
        assert Cleaned(was, slots) == was;
        assert was == bits[..];
        CleanedSlots(was, slots, was);
        return;
      }
      var i := bits.Length;
      while i > 0
        invariant 0 <= i <= bits.Length
        invariant forall x {:trigger bits[x]} :: 0 <= x < i ==> bits[x] == was[x]
        invariant forall x {:trigger bits[x]} :: i <= x < bits.Length ==> bits[x] == Cleaned(was, slots)[x]
      {
        i := i - 1;
        var b := bits[i];
        if |slots| - (bits.Length - i) >= 0 {
          b := b & !slots[|slots| - (bits.Length - i)];
        }
        bits[i] := b;
      }
      CleanedSlots(was, slots, bits[..]);
    }

    /** Adds the slots of the other bitmaps, as far as they reach into this one. */
    method MergeSlots(bs: seq<seq<byte8>>)
      modifies bits
      ensures SlotsOf(bits[..]) == SlotsOf(old(bits[..])) + SlotsOfAny(bs, 8 * bits.Length)
    {
      if |bs| == 0 {
        return;
      }
      ghost var was := bits[..];
      var i := 0;
      while i < bits.Length
        invariant i <= bits.Length
        invariant forall x {:trigger bits[x]} :: i <= x < bits.Length ==> bits[x] == was[x]
        invariant forall x {:trigger bits[x]} :: 0 <= x < i ==> MergedByte(was[x], bs, x, |bs|, bits[x])
      {
        var b, j := bits[i], 0;
        ghost var now := bits[..];
        while j < |bs|
          invariant j <= |bs| && MergedByte(was[i], bs, i, j, b) && bits[..] == now
        {
          if i < |bs[j]| {
            var v := bs[j][i];
            OrViews(b, v, b | v);
            MergeMore(was[i], bs, i, j, b, v, b | v);
            b := b | v;
          }
          j := j + 1;
        }
        bits[i] := b;
        assert forall x :: 0 <= x < bits.Length && x != i ==> bits[x] == now[x];
        i := i + 1;
      }
      MergedSlots(was, bs, bits[..]);
    }

    function GetSlot(num: nat): (r: bool)
      requires num / 8 < bits.Length
      reads this, bits
      ensures r <==> num in SlotsOf(bits[..])
      ensures r <==> (bits[num / 8] >> (num % 8)) & 1 == 1
    {
      BitIsShift(bits[num / 8], num % 8);
      Bit(bits[num / 8], num % 8)
    }
  }

  lemma OneChanged(was: seq<byte8>, now: seq<byte8>, num: nat, v: bool)
    requires |now| == |was| && num / 8 < |was|
    requires now == was[num / 8 := now[num / 8]] && View(now[num / 8]) == View(was[num / 8])[num % 8 := v]
    ensures SlotsOf(now) == if v then SlotsOf(was) + {num} else SlotsOf(was) - {num}
  {
    forall s | 0 <= s < 8 * |was|
      ensures Has(now, s) <==> if s == num then v else Has(was, s)
    {
    }
  }

  // ---------- handing slots over ----------

  /** Merging what was exported restores the bitmap. */
  lemma ExportThenMerge(was: seq<byte8>, rest: seq<byte8>, out: seq<byte8>, num: int, merged: seq<byte8>)
    requires Exported(was, rest, out, num) && |merged| == |was|
    requires SlotsOf(merged) == SlotsOf(rest) + SlotsOfAny([out], 8 * |rest|)
    ensures merged == was
  {
    forall s: nat | s < 8 * |was|
      ensures s in SlotsOfAny([out], 8 * |rest|) <==> s in SlotsOf(out)
    {
      assert [out][0] == out;
    }
    assert SlotsOf(merged) == SlotsOf(was);
    SlotsDetermine(merged, was);
  }

  /** Cleaning an equal copy of what was exported gives the bits that exporting left. */
  lemma ExportIsClean(was: seq<byte8>, rest: seq<byte8>, out: seq<byte8>, num: int)
    requires Exported(was, rest, out, num)
    ensures Cleaned(was, out) == rest
  {
    CleansGivenSlots(was, out, Cleaned(was, out));
    SlotsDetermine(Cleaned(was, out), rest);
  }

  /** Given the slot 0 in a shorter bitmap, cleaning leaves slot 0 alone and takes slot 8 away. */
  method CleansAnotherSlot() returns (m: SlotBitMap, given: seq<byte8>, ghost was: set<nat>)
    ensures SlotsOf(given) == {0} && was == {0, 8} && SlotsOf(m.bits[..]) == {0}
  {
    m := new SlotBitMap(16);
    m.SetSlot(0, true);
    m.SetSlot(8, true);
    was := SlotsOf(m.bits[..]);
    var one := new SlotBitMap(8);
    one.SetSlot(0, true);
    given := one.bits[..];
    m.CleanSlots(given);
    assert Has(given, 0) && !Has(given, 8);
    assert HasAligned(given, 2, 8) && !HasAligned(given, 2, 0);
  }

  datatype Containment = Contains(yes: bool) | OutOfRange

  /** Compares byte by byte over the length of the first bitmap. */
  method SlotsContains(b: seq<byte8>, sub: seq<byte8>) returns (r: Containment)
    ensures |b| == |sub| ==> r == Contains(SlotsOf(sub) <= SlotsOf(b))
    ensures |b| < |sub| ==> r == Contains(false)
    ensures |b| > |sub| ==> r == if SlotsOf(sub) <= SlotsOf(b) then OutOfRange else Contains(false)
  {
    if |b| < |sub| {
      return Contains(false);
    }
    var i := 0;
    while i < |b|
      invariant i <= |sub|
      invariant forall s {:trigger s in SlotsOf(sub)} :: s in SlotsOf(sub) && s < 8 * i ==> s in SlotsOf(b)
    {
      if i >= |sub| {
        return OutOfRange;
      }
      var j := 0;
      while j < 8
        invariant 0 <= j <= 8
        invariant forall s {:trigger s in SlotsOf(sub)} :: s in SlotsOf(sub) && s < 8 * i + j ==> s in SlotsOf(b)
      {
        HasAt(b, i, j);
        HasAt(sub, i, j);
        if Bit(sub[i], j) && !Bit(b[i], j) {
          assert 8 * i + j in SlotsOf(sub) && 8 * i + j !in SlotsOf(b);
          return Contains(false);
        }
        j := j + 1;
      }
      i := i + 1;
    }
    r := Contains(true);
  }
}
