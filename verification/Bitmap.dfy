/** Bitmaps of lib/kernel/bitmap.c: an array of bits kept in an array of 32-bit words. */
module Bitmaps {

  const ELEM_BITS: nat := 32

  datatype Found = NotFound | At(index: nat)

  /** Bit k of a word; bit_mask is the word that has only that bit. */
  predicate Bit(w: bv32, k: bv5) {
    w & (1 << k) != 0
  }

  lemma MarkedBits(w: bv32, j: bv5, k: bv5)
    ensures Bit(w | (1 << k), j) <==> j == k || Bit(w, j)
  {
  }

  lemma ResetBits(w: bv32, j: bv5, k: bv5)
    ensures Bit(w & !(1 << k), j) <==> j != k && Bit(w, j)
  {
  }

  lemma FlippedBits(w: bv32, j: bv5, k: bv5)
    ensures Bit(w ^ (1 << k), j) <==> (if j == k then !Bit(w, j) else Bit(w, j))
  {
  }

  /** The or of bitmap_mark. */
  function WithBit(w: bv32, k: bv5): (r: bv32)
    ensures forall j: bv5 :: Bit(r, j) <==> j == k || Bit(w, j)
  {
    forall j: bv5 ensures Bit(w | (1 << k), j) <==> j == k || Bit(w, j) { MarkedBits(w, j, k); }
    w | (1 << k)
  }

  /** The and of bitmap_reset. */
  function WithoutBit(w: bv32, k: bv5): (r: bv32)
    ensures forall j: bv5 :: Bit(r, j) <==> j != k && Bit(w, j)
  {
    forall j: bv5 ensures Bit(w & !(1 << k), j) <==> j != k && Bit(w, j) { ResetBits(w, j, k); }
    w & !(1 << k)
  }

  /** The exclusive or of bitmap_flip. */
  function WithBitFlipped(w: bv32, k: bv5): (r: bv32)
    ensures forall j: bv5 :: Bit(r, j) <==> (if j == k then !Bit(w, j) else Bit(w, j))
  {
    forall j: bv5 ensures Bit(w ^ (1 << k), j) <==> (if j == k then !Bit(w, j) else Bit(w, j)) { FlippedBits(w, j, k); }
    w ^ (1 << k)
  }

  /** The position of bit i in its word. */
  function Offset(i: nat): (k: bv5)
    ensures k as int == i % ELEM_BITS
  {
    (i % ELEM_BITS) as bv5
  }

  lemma SameWord(i: nat, j: nat)
    requires i / ELEM_BITS == j / ELEM_BITS
    ensures Offset(i) == Offset(j) <==> i == j
  {
    if Offset(i) == Offset(j) {
      assert i % ELEM_BITS == j % ELEM_BITS;
    }
  }

  /** The bits that an array of words stands for. */
  function BitsOf(words: seq<bv32>, cnt: nat): (s: seq<bool>)
    requires |words| == (cnt + ELEM_BITS - 1) / ELEM_BITS
    ensures |s| == cnt
    ensures forall i :: 0 <= i < cnt ==> s[i] == Bit(words[i / ELEM_BITS], Offset(i))
  {
    seq(cnt, i requires 0 <= i < cnt => Bit(words[i / ELEM_BITS], Offset(i)))
  }

  /** What changing one bit of one word does to the bits. */
  lemma WordChanged(words: seq<bv32>, cnt: nat, i: nat, w: bv32, value: bool)
    requires |words| == (cnt + ELEM_BITS - 1) / ELEM_BITS && i < cnt
    requires forall j: bv5 :: Bit(w, j) == if j == Offset(i) then value else Bit(words[i / ELEM_BITS], j)
    ensures BitsOf(words[i / ELEM_BITS := w], cnt) == BitsOf(words, cnt)[i := value]
  {
    forall j | 0 <= j < cnt
      ensures BitsOf(words[i / ELEM_BITS := w], cnt)[j] == if j == i then value else BitsOf(words, cnt)[j]
    {
      if j / ELEM_BITS == i / ELEM_BITS {
        SameWord(i, j);
      }
    }
  }

  // ----- What the operations mean on sequences of bits --------------------------------------------

  predicate AllAre(s: seq<bool>, start: nat, cnt: nat, value: bool)
    requires start + cnt <= |s|
  {
    forall i :: start <= i < start + cnt ==> s[i] == value
  }

  function Filled(s: seq<bool>, start: nat, cnt: nat, value: bool): (r: seq<bool>)
    requires start + cnt <= |s|
    ensures |r| == |s|
    ensures forall i :: 0 <= i < |s| ==> r[i] == if start <= i < start + cnt then value else s[i]
  {
    s[..start] + seq(cnt, i => value) + s[start + cnt..]
  }

  /** The first group of cnt bits at or after start that are all equal to value. */
  ghost predicate IsFirstFit(s: seq<bool>, start: nat, cnt: nat, value: bool, r: Found) {
    match r
    case At(i) =>
      && start <= i && i + cnt <= |s| && AllAre(s, i, cnt, value)
      && forall j :: start <= j < i ==> !AllAre(s, j, cnt, value)
    case NotFound => forall j :: start <= j && j + cnt <= |s| ==> !AllAre(s, j, cnt, value)
  }

  lemma FirstFitUnique(s: seq<bool>, start: nat, cnt: nat, value: bool, r: Found, r': Found)
    requires IsFirstFit(s, start, cnt, value, r) && IsFirstFit(s, start, cnt, value, r')
    ensures r == r'
  {
    hide AllAre;
  }

  /** struct bitmap. Bits of the last word beyond bitCnt mean nothing. */
  class Bitmap {
    const bitCnt: nat
    const bits: array<bv32>

    ghost predicate Valid() {
      bits.Length == (bitCnt + ELEM_BITS - 1) / ELEM_BITS
    }

    ghost function Contents(): (s: seq<bool>)
      requires Valid()
      reads bits
      ensures |s| == bitCnt
    {
      BitsOf(bits[..], bitCnt)
    }

    /** bitmap_create. */
    constructor (cnt: nat)
      ensures Valid() && fresh(bits) && bitCnt == cnt
      ensures Contents() == seq(cnt, i => false)
    {
      bitCnt := cnt;
      bits := new bv32[(cnt + ELEM_BITS - 1) / ELEM_BITS];
      new;
      SetMultiple(0, cnt, false);
      assert forall i :: 0 <= i < cnt ==> Contents()[i] == false;
    }

    /** bitmap_mark. */
    method Mark(i: nat)
      requires Valid() && i < bitCnt
      modifies bits
      ensures Contents() == old(Contents())[i := true]
    {
      hide Bit, BitsOf, WithBit;
      var idx := i / ELEM_BITS;
      var w := WithBit(bits[idx], Offset(i));
      WordChanged(bits[..], bitCnt, i, w, true);
      bits[idx] := w;
      assert bits[..] == old(bits[..])[idx := w];
    }

    /** bitmap_reset. */
    method Reset(i: nat)
      requires Valid() && i < bitCnt
      modifies bits
      ensures Contents() == old(Contents())[i := false]
    {
      hide Bit, BitsOf, WithoutBit;
      var idx := i / ELEM_BITS;
      var w := WithoutBit(bits[idx], Offset(i));
      WordChanged(bits[..], bitCnt, i, w, false);
      bits[idx] := w;
      assert bits[..] == old(bits[..])[idx := w];
    }

    /** bitmap_flip. */
    method Flip(i: nat)
      requires Valid() && i < bitCnt
      modifies bits
      ensures Contents() == old(Contents())[i := !old(Contents())[i]]
    {
      hide Bit, BitsOf, WithBitFlipped;
      var idx := i / ELEM_BITS;
      var w := WithBitFlipped(bits[idx], Offset(i));
      WordChanged(bits[..], bitCnt, i, w, !Contents()[i]);
      bits[idx] := w;
      assert bits[..] == old(bits[..])[idx := w];
    }

    /** bitmap_set. */
    method Set(i: nat, value: bool)
      requires Valid() && i < bitCnt
      modifies bits
      ensures Contents() == old(Contents())[i := value]
    {
      if value {
        Mark(i);
      } else {
        Reset(i);
      }
    }

    /** bitmap_test. */
    method Test(i: nat) returns (value: bool)
      requires Valid() && i < bitCnt
      ensures value == Contents()[i]
    {
      value := bits[i / ELEM_BITS] & (1 << Offset(i)) != 0;
    }

    /** bitmap_set_multiple. */
    method SetMultiple(start: nat, cnt: nat, value: bool)
      requires Valid() && start + cnt <= bitCnt
      modifies bits
      ensures Contents() == Filled(old(Contents()), start, cnt, value)
    {
      var i := 0;
      while i < cnt
        invariant i <= cnt
        invariant forall k :: 0 <= k < bitCnt ==> Contents()[k] == if start <= k < start + i then value else old(Contents())[k]
      {
        Set(start + i, value);
        i := i + 1;
      }
    }

    /** bitmap_contains. */
    method Contains(start: nat, cnt: nat, value: bool) returns (r: bool)
      requires Valid() && start + cnt <= bitCnt
      ensures r <==> !AllAre(Contents(), start, cnt, !value)
    {
      var i := 0;
      while i < cnt
        invariant i <= cnt
        invariant forall k :: start <= k < start + i ==> Contents()[k] != value
      {
        var bit := Test(start + i);
        if bit == value {
          return true;
        }
        i := i + 1;
      }
      return false;
    }

    /** bitmap_scan. */
    method Scan(start: nat, cnt: nat, value: bool) returns (r: Found)
      requires Valid() && start <= bitCnt
      ensures IsFirstFit(Contents(), start, cnt, value, r)
    {
      if cnt <= bitCnt {
        var last := bitCnt - cnt;
        var i := start;
        while i <= last
          invariant start <= i
          invariant forall j :: start <= j < i && j + cnt <= bitCnt ==> !AllAre(Contents(), j, cnt, value)
        {
          var other := Contains(i, cnt, !value);
          if !other {
            return At(i);
          }
          i := i + 1;
        }
      }
      return NotFound;
    }

    /** bitmap_scan_and_flip. */
    method ScanAndFlip(start: nat, cnt: nat, value: bool) returns (r: Found)
      requires Valid() && start <= bitCnt
      modifies bits
      ensures IsFirstFit(old(Contents()), start, cnt, value, r)
      ensures Contents() == if r.At? then Filled(old(Contents()), r.index, cnt, !value) else old(Contents())
    {
      r := Scan(start, cnt, value);
      if r.At? {
        SetMultiple(r.index, cnt, !value);
      }
    }
  }
}
