/** The circular buffer indexed by sequence number (src/sequence_buffer.rs): its value, what each operation
    makes of that value, and the class that works on it in place. */
module Buffers {
  import opened Wrappers
  import opened Sequence
  import opened Modular
  import opened Codec

  /** The state of a buffer. `blank` is the default entry. */
  datatype Buffer<T> = Buffer(sequence: u16, slots: seq<Option<u16>>, entries: seq<T>, blank: T) {

    ghost predicate WellFormed() {
      |slots| == |entries| > 0
    }

    function Size(): nat {
      |slots|
    }

    function Index(s: u16): nat
      requires WellFormed()
      ensures Index(s) < Size()
    {
      s % Size()
    }

    predicate Newer(s: u16) {
      GreaterThan(Wrap(s + 1), sequence)
    }

    /** Too old to be inserted. */
    predicate Stale(s: u16) {
      LessThan(s, Wrap(sequence - Size()))
    }

    predicate Exists(s: u16)
      requires WellFormed()
    {
      slots[Index(s)] == Some(s)
    }

    function Find(s: u16): Option<T>
      requires WellFormed()
    {
      if Exists(s) then Some(entries[Index(s)]) else None
    }

    function ClearRange(start: u16, finish: u16): (b: Buffer<T>)
      requires WellFormed()
      ensures b.WellFormed() && b.Size() == Size() && b.sequence == sequence && b.blank == blank
    {
      this.(slots := seq(Size(), i requires 0 <= i < Size() =>
                         if InRange(start, finish, Size(), i) then None else slots[i]),
            entries := seq(Size(), i requires 0 <= i < Size() =>
                           if InRange(start, finish, Size(), i) then blank else entries[i]))
    }

    function Advance(s: u16): (b: Buffer<T>)
      requires WellFormed()
      ensures b.WellFormed() && b.Size() == Size() && b.blank == blank
    {
      if Newer(s) then ClearRange(sequence, s).(sequence := Wrap(s + 1)) else this
    }

    function Put(s: u16, v: T): (b: Buffer<T>)
      requires WellFormed()
      ensures b.WellFormed() && b.Size() == Size() && b.blank == blank
    {
      this.(slots := slots[Index(s) := Some(s)], entries := entries[Index(s) := v])
    }

    /** `insert`, with `v` stored through the reference it returns. */
    function Insert(s: u16, v: T): (r: Option<Buffer<T>>)
      requires WellFormed()
      ensures r.Some? ==> r.value.WellFormed() && r.value.Size() == Size() && r.value.blank == blank
    {
      if Stale(s) then None else Some(Advance(s).Put(s, v))
    }

    function InsertAdvanceFirst(s: u16, v: T): (r: Option<Buffer<T>>)
      requires WellFormed()
      ensures r.Some? ==> r.value.WellFormed() && r.value.Size() == Size() && r.value.blank == blank
    {
      if !Newer(s) && Stale(s) then None else Some(Advance(s).Put(s, v))
    }

    function Remove(s: u16): (b: Buffer<T>)
      requires WellFormed()
      ensures b.WellFormed() && b.Size() == Size() && b.blank == blank && b.sequence == sequence
    {
      if slots[Index(s)] == None then this
      else this.(slots := slots[Index(s) := None], entries := entries[Index(s) := blank])
    }

    function Ack(): u16 {
      Wrap(sequence - 1)
    }

    function AckFlags(): (flags: seq<bool>)
      requires WellFormed()
      ensures |flags| == 32
    {
      seq(32, i requires 0 <= i < 32 => Exists(Wrap(Ack() - i)))
    }

    function AckBits(): u32
      requires WellFormed()
    {
      FromBitsBelow(AckFlags());
      FromBits(AckFlags())
    }
  }

  function Empty<T>(size: nat, blank: T): (b: Buffer<T>)
    requires size > 0
    ensures b.WellFormed()
  {
    Buffer(0, seq(size, _ => None), seq(size, _ => blank), blank)
  }

  /** The end of the range from `start` to `finish`, counted past the wrap. */
  function Last(start: u16, finish: u16): nat {
    if finish < start then finish + 65536 else finish
  }

  /** Whether index `i` of `n` is the index of some number from `start` to `finish`. */
  predicate InRange(start: u16, finish: u16, n: nat, i: nat)
    requires n > 0
  {
    (i - start) % n <= Last(start, finish) - start
  }

  /** `InRange` says what it should. */
  lemma InRangeIsMembership(start: u16, finish: u16, n: nat, i: nat)
    requires i < n
    ensures InRange(start, finish, n, i) <==> exists x: nat :: start <= x <= Last(start, finish) && x % n == i
  {
    if InRange(start, finish, n, i) {
      var x := start + (i - start) % n;
      StepsFrom(start, n, i, (i - start) % n);
      assert start <= x <= Last(start, finish) && x % n == i;
    }
    forall x: nat | start <= x <= Last(start, finish) && x % n == i
      ensures InRange(start, finish, n, i)
    {
      if x - start < n {
        StepsFrom(start, n, i, x - start);
      }
    }
  }

  function FromBits(bits: seq<bool>): (x: nat)
    ensures x < Power2(|bits|)
  {
    if bits == [] then 0 else BitValue(bits[0]) + 2 * FromBits(bits[1..])
  }

  lemma {:induction false} FromBitsAppend(bits: seq<bool>, b: bool)
    ensures FromBits(bits + [b]) == FromBits(bits) + (if b then Power2(|bits|) else 0)
  {
    if bits == [] {
      assert bits + [b] == [b] && [b][1..] == [];
    } else {
      assert (bits + [b])[1..] == bits[1..] + [b];
      FromBitsAppend(bits[1..], b);
    }
  }

  /** Each bit of the number is the flag it was made from. */
  lemma {:induction false} BitOfFromBits(bits: seq<bool>, i: nat)
    ensures Bit(FromBits(bits), i) <==> i < |bits| && bits[i]
    decreases i
  {
    if bits == [] {
      NoBitsInZero(i);
    } else {
      var rest := FromBits(bits[1..]);
      assert (BitValue(bits[0]) + 2 * rest) / 2 == rest;
      if i > 0 {
        BitOfFromBits(bits[1..], i - 1);
      }
    }
  }

  lemma NoBitsInZero(i: nat)
    ensures !Bit(0, i)
  {
  }

  class SequenceBuffer<T> {
    const blank: T
    var sequence: u16
    const entrySequence: array<Option<u16>>
    const entries: array<T>

    function Repr(): set<object> {
      {this, entrySequence, entries}
    }

    ghost predicate Valid()
      reads this, entrySequence, entries
    {
      && entrySequence.Length == entries.Length > 0
      && entrySequence as object != entries as object
    }

    ghost function State(): Buffer<T>
      reads this, entrySequence, entries
    {
      Buffer(sequence, entrySequence[..], entries[..], blank)
    }

    constructor (numEntries: nat, blank: T)
      requires numEntries > 0
      ensures Valid() && fresh(Repr())
      ensures State() == Empty(numEntries, blank)
    {
      this.blank := blank;
      this.sequence := 0;
      entrySequence := new Option<u16>[numEntries](_ => None);
      entries := new T[numEntries](_ => blank);
    }

    method Reset()
      requires Valid()
      modifies this, entrySequence, entries
      ensures Valid()
      ensures State() == Empty(entries.Length, blank)
    {
      sequence := 0;
      for i := 0 to entries.Length
        invariant sequence == 0 && Valid()
        invariant forall j :: 0 <= j < i ==> entrySequence[j] == None && entries[j] == blank
      {
        entrySequence[i] := None;
        entries[i] := blank;
      }
    }

    method RemoveEntries(startSequence: u16, finishSequence: u16)
      requires Valid()
      modifies entrySequence, entries
      ensures Valid()
      ensures State() == old(State()).ClearRange(startSequence, finishSequence)
    {
      var numEntries := entries.Length;
      var start: nat := startSequence;
      var finish: nat := finishSequence;
      if finish < start {
        finish := finish + 65536;
      }
      if finish - start < numEntries {
        ghost var steps := seq(numEntries, i => (i - start) % numEntries);
        for s := start to finish + 1
          invariant Valid() && sequence == old(sequence)
          invariant forall i :: 0 <= i < numEntries ==>
            entrySequence[i] == if steps[i] < s - start then None else old(entrySequence[i])
          invariant forall i :: 0 <= i < numEntries ==>
            entries[i] == if steps[i] < s - start then blank else old(entries[i])
        {
          var index := s % numEntries;
          forall i | 0 <= i < numEntries
            ensures steps[i] == s - start <==> i == index
          {
            StepsFrom(start, numEntries, i, s - start);
          }
          entrySequence[index] := None;
          entries[index] := blank;
        }
        forall i | 0 <= i < numEntries
          ensures InRange(startSequence, finishSequence, numEntries, i) <==> steps[i] < finish + 1 - start
        {
        }
      } else {
        for index := 0 to numEntries
          invariant Valid() && sequence == old(sequence)
          invariant forall i :: 0 <= i < index ==> entrySequence[i] == None && entries[i] == blank
        {
          entrySequence[index] := None;
          entries[index] := blank;
        }
      }
      assert State() == old(State()).ClearRange(startSequence, finishSequence);
    }

    predicate CanInsert(s: u16)
      requires Valid()
      reads this, entrySequence, entries
      ensures CanInsert(s) <==> !State().Stale(s)
    {
      !LessThan(s, Wrap(sequence - entries.Length))
    }

    /** Reserves a blank entry and returns where it is, or None if the sequence is stale. */
    method Insert(s: u16) returns (index: Option<nat>)
      requires Valid()
      modifies this, entrySequence, entries
      ensures Valid()
      ensures index == if old(State()).Stale(s) then None else Some(old(State()).Index(s))
      ensures index.None? ==> State() == old(State())
      ensures index.Some? ==> old(State()).Insert(s, blank) == Some(State())
    {
      if LessThan(s, Wrap(sequence - entries.Length)) {
        return None;
      }
      if GreaterThan(Wrap(s + 1), sequence) {
        RemoveEntries(sequence, s);
        sequence := Wrap(s + 1);
      }
      var i := s % entries.Length;
      entrySequence[i] := Some(s);
      entries[i] := blank;
      index := Some(i);
      assert State() == old(State()).Advance(s).Put(s, blank);
    }

    method InsertAdvanceFirst(s: u16) returns (index: Option<nat>)
      requires Valid()
      modifies this, entrySequence, entries
      ensures Valid()
      ensures index.Some? ==> index == Some(old(State()).Index(s))
      ensures index.None? ==> State() == old(State()) && old(State()).InsertAdvanceFirst(s, blank) == None
      ensures index.Some? ==> old(State()).InsertAdvanceFirst(s, blank) == Some(State())
    {
      if GreaterThan(Wrap(s + 1), sequence) {
        RemoveEntries(sequence, s);
        sequence := Wrap(s + 1);
      } else if LessThan(s, Wrap(sequence - entries.Length)) {
        return None;
      }
      var i := s % entries.Length;
      entrySequence[i] := Some(s);
      entries[i] := blank;
      index := Some(i);
      assert State() == old(State()).Advance(s).Put(s, blank);
    }

    method Advance(s: u16)
      requires Valid()
      modifies this, entrySequence, entries
      ensures Valid()
      ensures State() == old(State()).Advance(s)
    {
      if GreaterThan(Wrap(s + 1), sequence) {
        RemoveEntries(sequence, s);
        sequence := Wrap(s + 1);
      }
    }

    method Remove(s: u16)
      requires Valid()
      modifies entrySequence, entries
      ensures Valid()
      ensures State() == old(State()).Remove(s)
    {
      var index := s % entries.Length;
      if entrySequence[index].Some? {
        entrySequence[index] := None;
        entries[index] := blank;
      }
      assert State() == old(State()).Remove(s);
    }

    /** Overwrites an entry in place, as the source does through a mutable reference to it. */
    method Store(index: nat, v: T)
      requires Valid() && index < entries.Length
      modifies entries
      ensures Valid()
      ensures State() == old(State()).(entries := old(entries[..])[index := v])
    {
      entries[index] := v;
    }

    predicate Exists(s: u16)
      requires Valid()
      reads this, entrySequence, entries
      ensures Exists(s) <==> State().Exists(s)
    {
      entrySequence[s % entries.Length] == Some(s)
    }

    function Find(s: u16): (r: Option<T>)
      requires Valid()
      reads this, entrySequence, entries
      ensures r == State().Find(s)
    {
      var index := s % entries.Length;
      if entrySequence[index] == Some(s) then Some(entries[index]) else None
    }

    method GenerateAckBits() returns (ack: u16, ackBits: u32)
      requires Valid()
      ensures ack == State().Ack()
      ensures ackBits == State().AckBits()
    {
      ack := Wrap(sequence - 1);
      ackBits := 0;
      var mask: u32 := 1;
      ghost var flags := State().AckFlags();
      for i := 0 to 32
        invariant i < 32 ==> mask == Power2(i)
        invariant ackBits == FromBits(flags[..i])
      {
        NextAckBit(flags, i);
        FlagAt(State(), i, Wrap(ack - i));
        if Exists(Wrap(ack - i)) {
          ackBits := ackBits + mask;
        }
        mask := ShiftLeft(mask);
      }
      assert flags[..32] == flags;
    }
  }

  lemma FlagAt<T>(b: Buffer<T>, i: nat, s: u16)
    requires b.WellFormed() && i < 32 && s == Wrap(b.Ack() - i)
    ensures b.AckFlags()[i] <==> b.Exists(s)
  {
  }

  /** Shifts a 32-bit word by one, dropping the top bit. */
  function ShiftLeft(mask: u32): u32 {
    mask * 2 % 0x1_0000_0000
  }

  lemma NextAckBit(flags: seq<bool>, i: nat)
    requires i < |flags| == 32
    ensures FromBits(flags[..i + 1]) == FromBits(flags[..i]) + (if flags[i] then Power2(i) else 0) < 0x1_0000_0000
    ensures Power2(i) < 0x1_0000_0000
    ensures i < 31 ==> ShiftLeft(Power2(i)) == Power2(i + 1)
  {
    assert flags[..i + 1] == flags[..i] + [flags[i]];
    FromBitsAppend(flags[..i], flags[i]);
    FromBitsBelow(flags[..i + 1]);
    PowerBelow(i);
    PowerBelow(i + 1);
  }

  lemma FromBitsBelow(bits: seq<bool>)
    requires |bits| <= 32
    ensures FromBits(bits) < 0x1_0000_0000
  {
    PowerBelow(|bits|);
  }

  lemma PowerBelow(n: nat)
    requires n <= 32
    ensures Power2(n) <= 0x1_0000_0000
    ensures n < 32 ==> Power2(n) < 0x1_0000_0000
  {
    assert Power2(8) == 0x100;
    assert Power2(16) == 0x1_0000;
    assert Power2(24) == 0x100_0000;
    assert Power2(32) == 0x1_0000_0000;
    PowersGrow(n, 32);
    if n < 32 {
      PowersGrow(n, 31);
    }
  }

  lemma PowersGrow(m: nat, n: nat)
    requires m <= n
    ensures 0 < Power2(m) <= Power2(n)
  {
  }
}
