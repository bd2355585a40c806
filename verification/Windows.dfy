/** The circular buffer stands for a map on unbounded packet numbers, cut down to a sliding window. */
module Windows {
  import opened Wrappers
  import opened Sequence
  import opened Modular
  import opened Buffers

  /** A map on packet numbers, all of them below `high`. */
  datatype Window<T> = Window(high: int, live: map<int, T>)

  /** The sizes at which a buffer keeps its promise: they divide the number space and stay well below half of it. */
  predicate Fits(n: nat) {
    2 <= n <= 16384 && 65536 % n == 0
  }

  /** What a buffer holds when its high-water mark is packet number `high`. */
  ghost function Abs<T>(b: Buffer<T>, high: int): (w: Window<T>)
    requires b.WellFormed()
    ensures w.high == high
  {
    Window(high, map k | high - b.Size() <= k < high && b.Exists(Wrap(k)) :: b.entries[b.Index(Wrap(k))])
  }

  /** Every occupied slot holds a number of the window, at its own index, and every other slot is blank. */
  ghost predicate Inv<T>(b: Buffer<T>, high: int) {
    && b.WellFormed() && b.Size() <= 16384
    && b.sequence == Wrap(high)
    && (forall i :: 0 <= i < b.Size() && b.slots[i].Some? ==> SlotInWindow(b, high, i))
    && (forall i :: 0 <= i < b.Size() && b.slots[i].None? ==> b.entries[i] == b.blank)
  }

  ghost predicate SlotInWindow<T>(b: Buffer<T>, high: int, i: nat)
    requires b.WellFormed() && i < b.Size() && b.slots[i].Some?
  {
    b.Index(b.slots[i].value) == i && high - b.Size() <= Unwrap(high, b.slots[i].value) < high
  }

  // ---------------------------------------------------------------- the operations on packet numbers

  ghost function AdvanceTo<T>(w: Window<T>, n: nat, k: int): Window<T> {
    if k < w.high then w
    else Window(k + 1, map j | j in w.live && k + 1 - n <= j :: w.live[j])
  }

  ghost function SetAt<T>(w: Window<T>, n: nat, k: int, v: T): Window<T> {
    var moved := AdvanceTo(w, n, k);
    moved.(live := moved.live[k := v])
  }

  // ---------------------------------------------------------------- when numbers count as new or stale

  /** "Newer" reaches 32767 numbers ahead; at the very last of them numeric order decides. */
  lemma NewerExactly<T>(b: Buffer<T>, high: int, s: u16)
    requires b.sequence == Wrap(high)
    ensures var k := Unwrap(high, s);
            b.Newer(s) <==> high <= k < high + 32767 || (k == high + 32767 && Wrap(s + 1) > b.sequence)
  {
    var k := Unwrap(high, s);
    WrapOfSum(k, 1);
    ComparesPacketNumbers(k + 1, high);
  }

  /** What counts as stale: the numbers behind the window, and those so far ahead that they look behind it. */
  lemma StaleExactly<T>(b: Buffer<T>, high: int, s: u16)
    requires b.sequence == Wrap(high) && 0 < b.Size() < HALF
    ensures var k := Unwrap(high, s);
            b.Stale(s) <==> k < high - b.Size() || k > high + 32768 - b.Size()
                            || (k == high + 32768 - b.Size() && Wrap(high - b.Size()) > s)
  {
    var k := Unwrap(high, s);
    var low := high - b.Size();
    WrapOfSum(high, 0 - b.Size());
    if low - k >= -HALF {
      ComparesPacketNumbers(low, k);
    } else {
      ComparesPacketNumbers(low + 65536, k);
      WrapOfTurn(low);
    }
  }

  lemma WrapOfTurn(a: int)
    ensures Wrap(a + 65536) == Wrap(a)
  {
  }

  /** The forward distances at which the two inserts part: there `insert` refuses and leaves the buffer alone
      while `insert_advance_first` moves the window. Everywhere else they agree in result and state. */
  predicate InsertsPart(n: nat, sequence: u16, s: u16) {
    var distance := Forward(Wrap(s + 1), sequence);
    || 32770 - n <= distance <= 32767
    || (distance == 32769 - n && Wrap(sequence - n) > s)
    || (distance == 32768 && Wrap(s + 1) > sequence)
  }

  lemma InsertsPartExactly<T>(b: Buffer<T>, s: u16, v: T)
    requires b.WellFormed() && 2 <= b.Size() < HALF
    ensures InsertsPart(b.Size(), b.sequence, s)
            ==> b.Insert(s, v) == None && b.InsertAdvanceFirst(s, v).Some?
                && b.InsertAdvanceFirst(s, v).value.sequence == Wrap(s + 1)
    ensures !InsertsPart(b.Size(), b.sequence, s) ==> b.Insert(s, v) == b.InsertAdvanceFirst(s, v)
  {
    NewerAndStaleExactly(b, s);
  }

  lemma NewerAndStaleExactly<T>(b: Buffer<T>, s: u16)
    requires 2 <= b.Size() < HALF
    ensures b.Newer(s) && b.Stale(s) <==> InsertsPart(b.Size(), b.sequence, s)
  {
    NewerExactly(b, b.sequence, s);
    StaleExactly(b, b.sequence, s);
    DistanceAhead(b.sequence, s);
  }

  lemma DistanceAhead(high: u16, s: u16)
    ensures var distance := Forward(Wrap(s + 1), high);
            Unwrap(high, s) + 1 - high == if distance <= 32768 then distance else distance - 65536
  {
    var k := Unwrap(high, s);
    WrapOfSum(k, 1);
    WrapOfSum(s + 1, 0 - high);
    WrapOfSum(k, 1 - high);
    WrapNear(k + 1 - high);
  }

  lemma WrapNear(d: int)
    requires -32768 < d <= 32768
    ensures d == if Wrap(d) <= 32768 then Wrap(d) else Wrap(d) - 65536
  {
  }

  // ---------------------------------------------------------------- indices

  lemma IndexOfNumber(n: nat, k: int)
    requires Fits(n)
    ensures Wrap(k) % n == k % n
  {
    ReduceFirst(k, 65536, n);
  }

  lemma UnwrapIs(high: int, k: int)
    requires high - 32768 <= k < high + 32768
    ensures Unwrap(high, Wrap(k)) == k
  {
  }

  lemma RangeLength(high: int, k: int)
    requires high <= k < high + 65536
    ensures Last(Wrap(high), Wrap(k)) - Wrap(high) == k - high
  {
    WrapOfDifference(k, high);
    WrapOfSmall(k - high);
  }

  /** Which of the indices the ranged clear hits, in packet numbers. */
  lemma ClearedIndex(n: nat, high: int, k: int, j: int)
    requires Fits(n) && high <= k < high + 32768 && k - n < j <= k
    ensures InRange(Wrap(high), Wrap(k), n, Wrap(j) % n) <==> high <= j
  {
    RangeLength(high, k);
    IndexOfNumber(n, j);
    IndexOfNumber(n, high);
    SameDistance(j % n, j, Wrap(high), high, n);
    if high <= j {
      if j - high < n {
        RemainderIs(j - high, n, 0, j - high);
      }
    } else {
      RemainderIs(j - high, n, -1, j - high + n);
    }
  }

  lemma SameDistance(i: int, j: int, a: int, b: int, n: int)
    requires n > 0 && i == j % n && a % n == b % n
    ensures (i - a) % n == (j - b) % n
  {
    assert i % n == j % n by { RemainderIs(i, n, 0, i); }
    SameShift(i, j, -a, n);
    NegatedShift(j, a, b, n);
  }

  lemma NegatedShift(j: int, a: int, b: int, n: int)
    requires n > 0 && a % n == b % n
    ensures (j - a) % n == (j - b) % n
  {
    SameShift(a, b, -a - b, n);
    assert a + (-a - b) == -b && b + (-a - b) == -a;
    SameShift(-b, -a, j, n);
  }

  /** Two numbers of one window with the same index are the same number. */
  lemma SameIndexSameNumber(n: nat, j: int, k: int)
    requires Fits(n) && 0 - n < j - k < n
    ensures Wrap(j) % n == Wrap(k) % n ==> j == k
  {
    IndexOfNumber(n, j);
    IndexOfNumber(n, k);
    if j % n == k % n {
      CloseAndCongruent(j, k, n);
    }
  }

  // ---------------------------------------------------------------- refinement

  /** What an occupied slot holds, as a packet number. */
  lemma NumberInSlot<T>(b: Buffer<T>, high: int, i: nat) returns (k: int)
    requires Inv(b, high) && i < b.Size() && b.slots[i].Some?
    ensures high - b.Size() <= k < high && b.slots[i] == Some(Wrap(k)) && b.Index(Wrap(k)) == i && b.Exists(Wrap(k))
  {
    assert SlotInWindow(b, high, i);
    k := Unwrap(high, b.slots[i].value);
  }

  /** The ranged clear and the clear-all branch drop exactly what leaves the window. */
  lemma AdvanceKeepsSlots<T>(b: Buffer<T>, high: int, s: u16, j: int)
    requires Inv(b, high) && Fits(b.Size()) && b.Newer(s)
    requires var k := Unwrap(high, s); k - b.Size() < j <= k
    ensures var i := b.Index(Wrap(j));
            && (j < high ==> b.Advance(s).slots[i] == b.slots[i] && b.Advance(s).entries[i] == b.entries[i])
            && (j >= high ==> b.Advance(s).slots[i] == None && b.Advance(s).entries[i] == b.blank)
  {
    NewerExactly(b, high, s);
    ClearedIndex(b.Size(), high, Unwrap(high, s), j);
  }

  /** Every index is the index of some number of the window. */
  lemma NumberOfIndex(n: nat, high: int, i: nat) returns (j: int)
    requires Fits(n) && i < n
    ensures high - n <= j < high && Wrap(j) % n == i
  {
    var d := (i - (high - n)) % n;
    j := high - n + d;
    StepsFrom(high - n, n, i, d);
    IndexOfNumber(n, j);
  }

  lemma AdvanceInv<T>(b: Buffer<T>, high: int, s: u16)
    requires Inv(b, high) && Fits(b.Size()) && b.Newer(s)
    ensures Unwrap(high, s) >= high && Inv(b.Advance(s), Unwrap(high, s) + 1)
  {
    NewerExactly(b, high, s);
    var k := Unwrap(high, s);
    var b' := b.Advance(s);
    WrapOfSum(k, 1);
    forall i | 0 <= i < b.Size()
      ensures b'.slots[i].Some? ==> SlotInWindow(b', k + 1, i)
      ensures b'.slots[i].None? ==> b'.entries[i] == b'.blank
    {
      var j := NumberOfIndex(b.Size(), k + 1, i);
      AdvanceKeepsSlots(b, high, s, j);
      if b'.slots[i].Some? {
        var m := NumberInSlot(b, high, i);
        SameIndexSameNumber(b.Size(), m, j);
        UnwrapIs(k + 1, m);
      }
    }
  }

  lemma AbsIs<T>(b: Buffer<T>, high: int, w: Window<T>)
    requires b.WellFormed() && w.high == high
    requires forall j :: j in w.live ==> high - b.Size() <= j < high
    requires forall j :: high - b.Size() <= j < high ==> (b.Exists(Wrap(j)) <==> j in w.live)
    requires forall j :: high - b.Size() <= j < high && b.Exists(Wrap(j)) ==> b.entries[b.Index(Wrap(j))] == w.live[j]
    ensures Abs(b, high) == w
  {
    assert Abs(b, high).live == w.live;
  }

  /** Advancing on 16-bit numbers is advancing on packet numbers. */
  lemma AdvanceRefines<T>(b: Buffer<T>, high: int, s: u16)
    requires Inv(b, high) && Fits(b.Size())
    ensures var k := Unwrap(high, s);
            if b.Newer(s) then
              k >= high && Inv(b.Advance(s), k + 1) && Abs(b.Advance(s), k + 1) == AdvanceTo(Abs(b, high), b.Size(), k)
            else b.Advance(s) == b
  {
    if b.Newer(s) {
      AdvanceInv(b, high, s);
      AdvanceAbs(b, high, s, Unwrap(high, s));
    }
  }

  lemma AdvanceAbs<T>(b: Buffer<T>, high: int, s: u16, k: int)
    requires Inv(b, high) && Fits(b.Size()) && b.Newer(s) && k == Unwrap(high, s) >= high
    ensures Abs(b.Advance(s), k + 1) == AdvanceTo(Abs(b, high), b.Size(), k)
  {
    var b' := b.Advance(s);
    var w := AdvanceTo(Abs(b, high), b.Size(), k);
    forall j | k + 1 - b.Size() <= j < k + 1
      ensures b'.Exists(Wrap(j)) <==> j in w.live
      ensures b'.Exists(Wrap(j)) ==> b'.entries[b'.Index(Wrap(j))] == w.live[j]
    {
      AdvanceKeepsSlots(b, high, s, j);
    }
    AbsIs(b', k + 1, w);
  }

  /** Writing an entry inside the window touches no other live entry. */
  lemma PutRefines<T>(b: Buffer<T>, high: int, k: int, v: T)
    requires Inv(b, high) && Fits(b.Size()) && high - b.Size() <= k < high
    ensures Inv(b.Put(Wrap(k), v), high)
    ensures Abs(b.Put(Wrap(k), v), high) == Window(high, Abs(b, high).live[k := v])
  {
    var b' := b.Put(Wrap(k), v);
    UnwrapIs(high, k);
    forall i | 0 <= i < b.Size() && b'.slots[i].Some?
      ensures SlotInWindow(b', high, i)
    {
      if i != b.Index(Wrap(k)) {
        assert SlotInWindow(b, high, i);
      }
    }
    var w := Window(high, Abs(b, high).live[k := v]);
    forall j | high - b.Size() <= j < high
      ensures b'.Exists(Wrap(j)) <==> j in w.live
      ensures b'.Exists(Wrap(j)) ==> b'.entries[b'.Index(Wrap(j))] == w.live[j]
    {
      SameIndexSameNumber(b.Size(), j, k);
    }
    AbsIs(b', high, w);
  }

  /** `insert` sets the entry of the packet number, moving the window up to it when it is ahead, for exactly the
      numbers from the bottom of the window to 32767 - n ahead of its top, and 32768 - n ahead if numeric order says
      so; everything else is refused. */
  lemma InsertRefines<T>(b: Buffer<T>, high: int, s: u16, v: T)
    requires Inv(b, high) && Fits(b.Size())
    ensures var n, k := b.Size(), Unwrap(high, s);
            && (b.Insert(s, v).Some? <==>
                  || high - n <= k < high + 32768 - n
                  || (k == high + 32768 - n && s >= Wrap(high - n)))
            && (b.Insert(s, v).Some? ==>
                  var b', high' := b.Insert(s, v).value, if k < high then high else k + 1;
                  Inv(b', high') && Abs(b', high') == SetAt(Abs(b, high), n, k, v))
  {
    hide Wrap, SlotInWindow, Abs, Buffer.Stale, Buffer.Newer, Buffer.Advance, Buffer.Put;
    StaleExactly(b, high, s);
    NewerExactly(b, high, s);
    AdvanceRefines(b, high, s);
    var k := Unwrap(high, s);
    if !b.Stale(s) {
      PutRefines(b.Advance(s), if k < high then high else k + 1, k, v);
    }
  }

  /** `insert_advance_first` does the same for exactly the numbers from the bottom of the window to 32766 ahead of its
      top, and 32767 ahead if numeric order says so. */
  lemma InsertAdvanceFirstRefines<T>(b: Buffer<T>, high: int, s: u16, v: T)
    requires Inv(b, high) && Fits(b.Size())
    ensures var n, k := b.Size(), Unwrap(high, s);
            && (b.InsertAdvanceFirst(s, v).Some? <==>
                  || high - n <= k < high + 32767
                  || (k == high + 32767 && Wrap(s + 1) > b.sequence))
            && (b.InsertAdvanceFirst(s, v).Some? ==>
                  var b', high' := b.InsertAdvanceFirst(s, v).value, if k < high then high else k + 1;
                  Inv(b', high') && Abs(b', high') == SetAt(Abs(b, high), n, k, v))
  {
    StaleExactly(b, high, s);
    NewerExactly(b, high, s);
    AdvanceRefines(b, high, s);
    var k := Unwrap(high, s);
    if b.Newer(s) || !b.Stale(s) {
      PutRefines(b.Advance(s), if k < high then high else k + 1, k, v);
    }
  }

  /** Looking up a 16-bit number looks up the packet number nearest to the high-water mark. */
  lemma FindRefines<T>(b: Buffer<T>, high: int, s: u16)
    requires Inv(b, high)
    ensures var k := Unwrap(high, s);
            b.Find(s) == if k in Abs(b, high).live then Some(Abs(b, high).live[k]) else None
  {
    if b.Exists(s) {
      assert SlotInWindow(b, high, b.Index(s));
    }
  }

  /** A number that is held is not ahead of the window. */
  lemma LiveIsNotNewer<T>(b: Buffer<T>, high: int, s: u16)
    requires Inv(b, high) && b.Exists(s)
    ensures !b.Newer(s)
  {
    assert SlotInWindow(b, high, b.Index(s));
    NewerExactly(b, high, s);
  }

  /** Removing goes by index: it frees the number of the window that shares the index, and nothing else. */
  lemma RemoveRefines<T>(b: Buffer<T>, high: int, k: int)
    requires Inv(b, high) && Fits(b.Size()) && high - b.Size() <= k < high
    ensures Inv(b.Remove(Wrap(k)), high)
    ensures Abs(b.Remove(Wrap(k)), high) == Window(high, Abs(b, high).live - {k})
  {
    var b' := b.Remove(Wrap(k));
    forall i | 0 <= i < b.Size() && b'.slots[i].Some?
      ensures SlotInWindow(b', high, i)
    {
      assert SlotInWindow(b, high, i);
    }
    if b.slots[b.Index(Wrap(k))].Some? {
      var m := NumberInSlot(b, high, b.Index(Wrap(k)));
      SameIndexSameNumber(b.Size(), m, k);
    }
    var w := Window(high, Abs(b, high).live - {k});
    forall j | high - b.Size() <= j < high
      ensures b'.Exists(Wrap(j)) <==> j in w.live
      ensures b'.Exists(Wrap(j)) ==> b'.entries[b'.Index(Wrap(j))] == w.live[j]
    {
      SameIndexSameNumber(b.Size(), j, k);
    }
    AbsIs(b', high, w);
  }

  lemma EmptyRefines<T>(n: nat, blank: T)
    requires 0 < n <= 16384
    ensures Inv(Empty(n, blank), 0) && Abs(Empty(n, blank), 0) == Window(0, map[])
  {
  }

  // ---------------------------------------------------------------- which sizes work

  /** The number right at the high-water mark can be inserted, on a fresh buffer and for ever after, exactly when
      the size reduced to 16 bits is below one half of the number space. */
  lemma NextAlwaysFitsExactly<T>(n: nat, blank: T)
    requires n > 0
    ensures Empty(n, blank).Stale(0) <==> n % 65536 >= HALF
    ensures n % 65536 < HALF ==> forall b: Buffer<T> :: b.Size() == n ==> !b.Stale(b.sequence)
  {
    var m := n % 65536;
    forall b: Buffer<T> | b.Size() == n && (m < HALF || b.sequence == 0)
      ensures b.Stale(b.sequence) <==> m >= HALF
    {
      SizeReduced(b.sequence, n);
      GreaterThanIsForwardDistance(Wrap(b.sequence - n), b.sequence);
      DistanceBehind(b.sequence, m);
    }
  }

  lemma SizeReduced(q: u16, n: nat)
    ensures Wrap(q - n) == Wrap(q - n % 65536)
  {
  }

  lemma DistanceBehind(q: u16, m: u16)
    ensures Forward(Wrap(q - m), q) == if m == 0 then 0 else 65536 - m
    ensures q == 0 && m > 0 ==> Wrap(q - m) > q
  {
  }

  /** For this buffer, `insert` does what the window on packet numbers calls for. */
  ghost predicate InsertAgrees(b: Buffer<bool>, high: int, s: u16)
    requires Inv(b, high)
  {
    b.Insert(s, true).Some? ==>
      var k := Unwrap(high, s);
      Abs(b.Insert(s, true).value, if k < high then high else k + 1) == SetAt(Abs(b, high), b.Size(), k, true)
  }

  /** A full buffer right before packet number 65536. */
  function FullBeforeWrap(n: nat): Buffer<bool>
    requires 2 <= n <= 16384
  {
    Buffer(0, seq(n, i requires 0 <= i < n => Some(NewestAt(n, i))), seq(n, _ => true), false)
  }

  /** The newest number below 65536 with index `i`. */
  function NewestAt(n: nat, i: nat): (k: u16)
    requires i < n <= 16384
    ensures 65536 - n <= k && k % n == i
  {
    var d := (i - (65536 - n)) % n;
    StepsFrom(65536 - n, n, i, d);
    65536 - n + d
  }

  /** Inserting the number right at the mark succeeds and touches its own slot only. */
  lemma InsertAtMark(b: Buffer<bool>, i: nat)
    requires b.WellFormed() && 2 <= b.Size() <= 16384 && i < b.Size()
    ensures b.Insert(b.sequence, true).Some?
    ensures var b' := b.Insert(b.sequence, true).value;
            && b'.sequence == Wrap(b.sequence + 1)
            && if i == b.Index(b.sequence) then b'.slots[i] == Some(b.sequence) && b'.entries[i]
               else b'.slots[i] == b.slots[i] && b'.entries[i] == b.entries[i]
  {
    hide Wrap;
    NextAlwaysFitsExactly(b.Size(), false);
    NextIsNewer(b.sequence);
    if InRange(b.sequence, b.sequence, b.Size(), i) {
      StepsFrom(b.sequence, b.Size(), i, 0);
    }
  }

  lemma NextIsNewer(q: u16)
    ensures GreaterThan(Wrap(q + 1), q) && Wrap(q) == q
  {
  }

  /** What inserting the numbers below `h`, one after the other, makes of an empty buffer. */
  function InsertedBelow(n: nat, h: nat): (b: Buffer<bool>)
    requires 2 <= n <= 16384 && h <= 65536
    ensures b.WellFormed() && b.Size() == n && b.sequence == Wrap(h) && b.blank == false
    decreases h, n
  {
    if h == 0 then Empty(n, false)
    else
      var before := InsertedBelow(n, h - 1);
      InsertAtMark(before, 0);
      NextIsNewer(h - 1);
      before.Insert(before.sequence, true).value
  }

  /** The newest number below `h` with index `i`. */
  function NewestBelow(n: nat, h: nat, i: nat): int
    requires i < n
  {
    h - 1 - (h - 1 - i) % n
  }

  lemma NextNewest(n: nat, h: nat, i: nat)
    requires 2 <= n && i < n
    ensures i == h % n ==> NewestBelow(n, h + 1, i) == h
    ensures i != h % n ==> NewestBelow(n, h + 1, i) == NewestBelow(n, h, i)
    ensures i < h ==> 0 <= NewestBelow(n, h, i) < h
  {
    var r, q := (h - 1 - i) % n, (h - 1 - i) / n;
    assert h - 1 - i == q * n + r;
    if r + 1 < n {
      RemainderIs(h - i, n, q, r + 1);
      if i == h % n {
        CloseRemainder(h, i, n);
      }
    } else {
      assert h - i == (q + 1) * n + 0;
      RemainderIs(h - i, n, q + 1, 0);
      Shifted(i, n, q + 1);
      RemainderIs(i, n, 0, i);
    }
    if i < h && q < 0 {
      Product(0, q, n);
    }
    if i < h {
      Monotonic(q, n);
    }
  }

  lemma Monotonic(q: int, n: nat)
    requires q >= 0
    ensures q * n >= 0
  {
  }

  lemma CloseRemainder(h: int, i: int, n: int)
    requires n > 0 && i == h % n
    ensures (h - i) % n == 0
  {
    RemainderIs(h - i, n, h / n, 0);
  }

  /** Slot `i` holds the newest number below `h` that belongs there, if there is one. */
  ghost predicate HoldsNewest(b: Buffer<bool>, h: nat, i: nat) {
    && b.WellFormed() && i < b.Size()
    && if i < h then
         && 0 <= NewestBelow(b.Size(), h, i) < h
         && b.slots[i] == Some(Wrap(NewestBelow(b.Size(), h, i))) && b.entries[i]
       else b.slots[i] == None && !b.entries[i]
  }

  lemma InsertKeepsNewest(b: Buffer<bool>, h: u16, i: nat)
    requires HoldsNewest(b, h, i) && 2 <= b.Size() <= 16384 && b.sequence == h
    ensures b.Insert(h, true).Some? && HoldsNewest(b.Insert(h, true).value, h + 1, i)
  {
    hide NewestBelow, Wrap, Buffer.Insert;
    NextNewest(b.Size(), h, i);
    NextNewest(b.Size(), h + 1, i);
    NextIsNewer(h);
    if h < b.Size() {
      RemainderIs(h, b.Size(), 0, h);
    }
    InsertAtMark(b, i);
  }

  lemma {:induction false} InsertedBelowIs(n: nat, h: nat, i: nat)
    requires 2 <= n <= 16384 && h <= 65536 && i < n
    ensures HoldsNewest(InsertedBelow(n, h), h, i)
    decreases h, n
  {
    hide HoldsNewest, Buffer.Insert, Wrap;
    if h == 0 {
      EmptyHoldsNothing(n, i);
    } else {
      InsertedBelowIs(n, h - 1, i);
      NextIsNewer(h - 1);
      InsertKeepsNewest(InsertedBelow(n, h - 1), h - 1, i);
    }
  }

  lemma EmptyHoldsNothing(n: nat, i: nat)
    requires i < n
    ensures HoldsNewest(Empty(n, false), 0, i)
  {
  }

  /** The failing state of the next lemma is not made up: inserting 0, 1 and so on to 65535 leads to it. */
  lemma FullIsReached(n: nat)
    requires 2 <= n <= 16384
    ensures InsertedBelow(n, 65536) == FullBeforeWrap(n)
  {
    hide InsertedBelow, NewestBelow, NewestAt;
    var b, full := InsertedBelow(n, 65536), FullBeforeWrap(n);
    forall i | 0 <= i < n
      ensures b.slots[i] == full.slots[i] && b.entries[i] == full.entries[i]
    {
      InsertedBelowIs(n, 65536, i);
      NewestIsUnique(n, i);
    }
    assert b.slots == full.slots && b.entries == full.entries;
  }

  lemma NewestIsUnique(n: nat, i: nat)
    requires i < n <= 16384
    ensures NewestBelow(n, 65536, i) == NewestAt(n, i)
  {
    var k, r, q := NewestBelow(n, 65536, i), (65535 - i) % n, (65535 - i) / n;
    assert 65535 - i == q * n + r;
    assert k == q * n + i;
    Shifted(i, n, q);
    RemainderIs(i, n, 0, i);
    CloseAndCongruent(k, NewestAt(n, i), n);
  }

  /** The buffer keeps its promise at every state exactly for the sizes that divide the number space: at any other
      size inserting packet 65536 overwrites an entry that is still inside the window. */
  lemma InsertAgreesExactlyWhenSizeDivides(n: nat)
    requires 2 <= n <= 16384
    ensures (forall b, high, s :: Inv(b, high) && b.Size() == n ==> InsertAgrees(b, high, s)) <==> 65536 % n == 0
    ensures Inv(InsertedBelow(n, 65536), 65536)
    ensures InsertAgrees(InsertedBelow(n, 65536), 65536, 0) <==> 65536 % n == 0
  {
    FullIsReached(n);
    FullInv(n);
    if 65536 % n == 0 {
      forall b, high, s | Inv(b, high) && b.Size() == n
        ensures InsertAgrees(b, high, s)
      {
        InsertRefines(b, high, s, true);
      }
    } else {
      WrapOverwrites(n);
    }
  }

  lemma FullInv(n: nat)
    requires 2 <= n <= 16384
    ensures Inv(FullBeforeWrap(n), 65536)
  {
    var b := FullBeforeWrap(n);
    forall i | 0 <= i < n
      ensures SlotInWindow(b, 65536, i)
    {
      UnwrapIs(65536, NewestAt(n, i));
    }
  }

  lemma WrapOverwrites(n: nat)
    requires 2 <= n <= 16384 && 65536 % n != 0
    requires Inv(FullBeforeWrap(n), 65536)
    ensures !InsertAgrees(FullBeforeWrap(n), 65536, 0)
  {
    var b := FullBeforeWrap(n);
    UnwrapIs(65536, 65536);
    StaleExactly(b, 65536, 0);
    var victim := NewestAt(n, 0);
    VictimInWindow(n, victim);
    WrapOfSmall(victim);
    var expected := SetAt(Abs(b, 65536), n, 65536, true);
    assert b.Exists(victim);
    assert victim as int in Abs(b, 65536).live;
    assert victim as int in expected.live;
    var b' := b.Insert(0, true).value;
    assert b'.slots[0] == Some(0) by { RemainderIs(0, n, 0, 0); }
    assert !b'.Exists(victim);
    assert victim as int !in Abs(b', 65537).live;
  }

  lemma VictimInWindow(n: nat, victim: int)
    requires 0 < n && 65536 % n != 0 && victim % n == 0 && 65536 - n <= victim
    ensures 65537 - n <= victim
  {
    Shifted(victim, n, 1);
  }
}
