/** Headers of ustar archives (lib/ustar.c) and the octal printing they rely on (lib/stdio.c): the
    "ustar Interchange Format" of the pax utility in POSIX.1-2001. Characters are bytes. */
module Ustar {
  import opened Wrappers

  type Byte = x: int | 0 <= x < 256
  type Int32 = x: int | -0x8000_0000 <= x < 0x8000_0000

  const NUL: Byte := 0
  const SPACE: Byte := 32
  const DOT: Byte := 46
  const SLASH: Byte := 47
  const ZERO: Byte := 48
  const UINT32: nat := 0x1_0000_0000
  const INT_MAX: nat := 0x7fff_ffff
  const HEADER_SIZE: nat := 512

  /** The characters of a C string, without the null byte that ends it. */
  predicate IsString(s: seq<Byte>) {
    NUL !in s
  }

  // ---------------------------------------------------------------------------------------------
  // Printing and reading octal numbers

  function Digit(v: nat): Byte {
    ZERO + v % 8
  }

  /** The last w octal digits of v, as characters. */
  function Octal(v: nat, w: nat): (s: seq<Byte>)
    ensures |s| == w
  {
    if w == 0 then [] else Octal(v / 8, w - 1) + [Digit(v)]
  }

  function Digits(v: nat): nat {
    if v == 0 then 0 else 1 + Digits(v / 8)
  }

  predicate IsOctal(c: Byte) {
    ZERO <= c <= ZERO + 7
  }

  /** The number a string of octal digits stands for. */
  function OctalValue(s: seq<Byte>): nat
    requires forall i | 0 <= i < |s| :: IsOctal(s[i])
  {
    if s == [] then 0
    else assert IsOctal(s[|s| - 1]); OctalValue(s[..|s| - 1]) * 8 + (s[|s| - 1] - ZERO)
  }

  lemma {:induction false} OctalIsDigits(v: nat, w: nat)
    ensures forall i | 0 <= i < w :: IsOctal(Octal(v, w)[i])
  {
    if w > 0 {
      OctalIsDigits(v / 8, w - 1);
    }
  }

  /** A number printed with enough digits is the number read. */
  lemma {:induction false} ValueOfOctal(v: nat, w: nat)
    requires Digits(v) <= w
    ensures forall i | 0 <= i < w :: IsOctal(Octal(v, w)[i])
    ensures OctalValue(Octal(v, w)) == v
  {
    OctalIsDigits(v, w);
    if w > 0 {
      ValueOfOctal(v / 8, w - 1);
      assert Octal(v, w)[..w - 1] == Octal(v / 8, w - 1);
    }
  }

  function Pow8(w: nat): nat {
    if w == 0 then 1 else 8 * Pow8(w - 1)
  }

  lemma {:induction false} DigitsBelow(v: nat, w: nat)
    ensures Digits(v) <= w <==> v < Pow8(w)
  {
    if w > 0 {
      DigitsBelow(v / 8, w - 1);
    } else if v > 0 {
      assert Digits(v) >= 1;
    }
  }

  lemma {:induction false} OctalZeros(w: nat)
    ensures forall i | 0 <= i < w :: Octal(0, w)[i] == ZERO
  {
    if w > 0 {
      OctalZeros(w - 1);
    }
  }

  /** v0 is printed by printing v and then the digits ds. */
  ghost predicate StillToPrint(v0: nat, v: nat, ds: seq<Byte>) {
    forall m: nat :: Octal(v0, |ds| + m) == Octal(v, m) + ds
  }

  lemma PrintedOne(v0: nat, v: nat, ds: seq<Byte>)
    requires StillToPrint(v0, v, ds)
    ensures StillToPrint(v0, v / 8, [Digit(v)] + ds)
  {
    var d: Byte := Digit(v);
    forall m: nat
      ensures Octal(v0, |[d] + ds| + m) == Octal(v / 8, m) + ([d] + ds)
    {
      assert Octal(v0, |ds| + (m + 1)) == Octal(v, m + 1) + ds;
      assert |[d] + ds| + m == |ds| + (m + 1);
      assert Octal(v / 8, m) + [d] + ds == Octal(v / 8, m) + ([d] + ds);
    }
  }

  function Reversed(s: seq<Byte>): (r: seq<Byte>)
    ensures |r| == |s|
  {
    if s == [] then [] else [s[|s| - 1]] + Reversed(s[..|s| - 1])
  }

  /** format_integer for the conversion "%0<width>o": the digits go into a buffer from the last to the
      first, and come out in the other order after the padding. */
  method FormatOctal(value: nat, width: nat) returns (out: seq<Byte>)
    requires value < UINT32
    ensures width > 0 && value < Pow8(width) ==> out == Octal(value, width)
    ensures |out| >= width && out == Octal(value, |out|) && value < Pow8(|out|)
  {
    hide *;
    var buf := new Byte[64];
    var cp := FillDigits(buf, value);
    ghost var ds := Reversed(buf[..cp]);
    var pad := if width > cp then width - cp else 0;
    PaddedOctal(value, ds, pad);
    out := OutputDup(pad);
    while cp > 0
      invariant 0 <= cp <= 64
      invariant out + Reversed(buf[..cp]) == Octal(0, pad) + ds
    {
      cp := cp - 1;
      ReversedLast(buf[..cp], buf[cp]);
      assert buf[..cp + 1] == buf[..cp] + [buf[cp]];
      assert out + ([buf[cp]] + Reversed(buf[..cp])) == out + [buf[cp]] + Reversed(buf[..cp]);
      out := out + [buf[cp]];
    }
    NothingReversed(buf[..cp]);
    DigitsBelow(value, width);
    DigitsBelow(value, |out|);
  }

  lemma PaddedOctal(value: nat, ds: seq<Byte>, pad: nat)
    requires StillToPrint(value, 0, ds)
    ensures Octal(0, pad) + ds == Octal(value, |ds| + pad)
    ensures |Octal(0, pad)| == pad
  {
  }

  lemma ReversedLast(s: seq<Byte>, c: Byte)
    ensures Reversed(s + [c]) == [c] + Reversed(s)
  {
    assert (s + [c])[..|s|] == s;
  }

  lemma NothingReversed(s: seq<Byte>)
    ensures s == [] ==> Reversed(s) == []
  {
  }

  lemma NothingPrinted(v: nat)
    ensures StillToPrint(v, v, Reversed([]))
  {
    forall m: nat
      ensures Octal(v, |Reversed([])| + m) == Octal(v, m) + Reversed([])
    {
    }
  }

  lemma DigitsOf32Bits(v: nat)
    requires v < UINT32
    ensures Digits(v) <= 11
  {
    DigitsBelow(v, 11);
    assert Pow8(11) >= UINT32 by {
      assert Pow8(3) == 512;
      assert Pow8(6) == 512 * 512;
      assert Pow8(9) == 512 * 512 * 512;
    }
  }

  lemma OneDigit(v: nat)
    ensures v > 0 ==> Digits(v) == 1 + Digits(v / 8)
    ensures v == 0 ==> Digits(v) == 0 && Digit(v) == ZERO
  {
  }

  /** The digits of a number, at least one, from the last to the first. */
  method FillDigits(buf: array<Byte>, value: nat) returns (cp: nat)
    requires value < UINT32 && buf.Length == 64
    modifies buf
    ensures cp <= 64 && StillToPrint(value, 0, Reversed(buf[..cp]))
    ensures cp == if Digits(value) > 1 then Digits(value) else 1
  {
    hide *;
    cp := 0;
    var v := value;
    DigitsOf32Bits(value);
    NothingPrinted(value);
    OneDigit(value);
    assert buf[..cp] == [];
    while v > 0
      invariant cp + Digits(v) == Digits(value) <= 11
      invariant StillToPrint(value, v, Reversed(buf[..cp]))
    {
      OneDigit(v);
      PrintedOne(value, v, Reversed(buf[..cp]));
      ReversedLast(buf[..cp], Digit(v));
      ghost var before := buf[..cp];
      buf[cp] := Digit(v);
      assert buf[..cp + 1] == before + [Digit(v)];
      v := v / 8;
      cp := cp + 1;
    }
    OneDigit(v);
    if cp < 1 {
      PrintedOne(value, 0, Reversed(buf[..cp]));
      ReversedLast(buf[..cp], ZERO);
      ghost var before := buf[..cp];
      buf[cp] := ZERO;
      assert buf[..cp + 1] == before + [ZERO];
      cp := cp + 1;
    }
  }

  /** output_dup with the padding character. */
  method OutputDup(cnt: nat) returns (out: seq<Byte>)
    ensures out == Octal(0, cnt)
  {
    out := [];
    var n := cnt;
    while n > 0
      invariant 0 <= n <= cnt
      invariant out == Octal(0, cnt - n)
    {
      AnotherZero(cnt - n);
      out := out + [ZERO];
      n := n - 1;
    }
  }

  lemma AnotherZero(w: nat)
    ensures Octal(0, w + 1) == Octal(0, w) + [ZERO]
  {
  }

  /** The position of the first character that is not an octal digit. */
  function FieldEnd(s: seq<Byte>): (k: nat)
    ensures k <= |s|
    ensures forall i | 0 <= i < k :: IsOctal(s[i])
    ensures k < |s| ==> !IsOctal(s[k])
  {
    if s == [] || !IsOctal(s[0]) then 0 else 1 + FieldEnd(s[1..])
  }

  lemma {:induction false} FieldEndUnique(s: seq<Byte>, k: nat)
    requires k <= |s| && (forall i | 0 <= i < k :: IsOctal(s[i])) && (k < |s| ==> !IsOctal(s[k]))
    ensures FieldEnd(s) == k
  {
    if k > 0 {
      FieldEndUnique(s[1..], k - 1);
    }
  }

  /** What an octal field says: at least one digit, then a space or a null byte within the field, and a
      number of 32 bits. */
  function OctalField(s: seq<Byte>): Option<nat> {
    var k := FieldEnd(s);
    if 0 < k < |s| && (s[k] == SPACE || s[k] == NUL) && OctalValue(s[..k]) < UINT32
    then Some(OctalValue(s[..k]))
    else None
  }

  lemma {:induction false} ValueGrows(s: seq<Byte>, i: nat, k: nat)
    requires i <= k <= |s| && forall j | 0 <= j < k :: IsOctal(s[j])
    ensures OctalValue(s[..i]) <= OctalValue(s[..k])
    decreases k
  {
    if i < k {
      ValueGrows(s, i, k - 1);
      assert s[..k][..k - 1] == s[..k - 1];
    }
  }

  /** parse_octal_field, with its test for overflow before each step. */
  method ParseOctalField(s: seq<Byte>) returns (r: Option<nat>)
    ensures r == OctalField(s)
  {
    var value := 0;
    var ofs := 0;
    while ofs < |s|
      invariant 0 <= ofs <= |s|
      invariant forall i | 0 <= i < ofs :: IsOctal(s[i])
      invariant value == OctalValue(s[..ofs]) < UINT32
    {
      var c := s[ofs];
      if ZERO <= c <= ZERO + 7 {
        assert s[..ofs + 1][..ofs] == s[..ofs];
        if value > (UINT32 - 1) / 8 {
          Overflows(s, ofs);
          return None;
        }
        value := c - ZERO + value * 8;
      } else {
        FieldEndUnique(s, ofs);
        if c == SPACE || c == NUL {
          return if ofs > 0 then Some(value) else None;
        } else {
          return None;
        }
      }
      ofs := ofs + 1;
    }
    FieldEndUnique(s, ofs);
    return None;
  }

  lemma Overflows(s: seq<Byte>, ofs: nat)
    requires ofs < |s| && forall i | 0 <= i <= ofs :: IsOctal(s[i])
    requires OctalValue(s[..ofs]) > (UINT32 - 1) / 8
    ensures OctalField(s) == None
  {
    var k := FieldEnd(s);
    assert ofs < k;
    assert s[..ofs + 1][..ofs] == s[..ofs];
    ValueGrows(s, ofs + 1, k);
  }

  /** An octal field has a value exactly if it starts with digits, at least one, that are followed by a space or
      a null byte and denote a number of 32 bits. */
  lemma OctalFieldIff(s: seq<Byte>, v: nat)
    ensures OctalField(s) == Some(v) <==> exists k ::
      0 < k < |s| && (forall i | 0 <= i < k :: '0' as int <= s[i] <= '7' as int) && (s[k] == ' ' as int || s[k] == 0)
      && OctalValue(s[..k]) == v && v < 0x1_0000_0000
  {
    if OctalField(s) == Some(v) {
      var k := FieldEnd(s);
      assert OctalValue(s[..k]) == v;
    }
    forall k | 0 < k < |s| && (forall i | 0 <= i < k :: IsOctal(s[i])) && (s[k] == SPACE || s[k] == NUL)
      ensures FieldEnd(s) == k
    {
      FieldEndUnique(s, k);
    }
  }

  /** Reading a printed number gives the number. */
  lemma PrintedIsRead(v: nat, w: nat)
    requires v < UINT32 && v < Pow8(w) && w > 0
    ensures OctalField(Octal(v, w) + [NUL]) == Some(v)
  {
    DigitsBelow(v, w);
    ValueOfOctal(v, w);
    var s := Octal(v, w) + [NUL];
    FieldEndUnique(s, w);
    assert s[..w] == Octal(v, w);
  }

  // ---------------------------------------------------------------------------------------------
  // File names

  /** A name that starts with "/", "./" or "../". */
  predicate Antisocial(s: seq<Byte>) {
    || (|s| > 0 && s[0] == SLASH)
    || (|s| > 1 && s[0] == DOT && s[1] == SLASH)
    || (|s| > 2 && s[0] == DOT && s[1] == DOT && s[2] == SLASH)
  }

  /** The part behind the first slash. */
  function AfterSlash(s: seq<Byte>): (r: seq<Byte>)
    requires SLASH in s
    ensures |r| < |s| && r == s[|s| - |r|..] && s[|s| - |r| - 1] == SLASH
    ensures SLASH !in s[..|s| - |r| - 1]
  {
    if s[0] == SLASH then s[1..] else AfterSlash(s[1..])
  }

  function Strip(s: seq<Byte>): seq<Byte> {
    if Antisocial(s) then Strip(AfterSlash(s))
    else if s == [] || s == [DOT, DOT] then [DOT]
    else s
  }

  /** strip_antisocial_prefixes, with a position in the string for the pointer. */
  method StripAntisocialPrefixes(name: seq<Byte>) returns (r: seq<Byte>)
    requires IsString(name)
    ensures r == Strip(name)
  {
    var p := 0;
    while Antisocial(name[p..])
      invariant 0 <= p <= |name|
      invariant Strip(name[p..]) == Strip(name)
      decreases |name| - p
    {
      var next := AfterSlash(name[p..]);
      p := |name| - |next|;
      assert name[p..] == next;
    }
    r := if name[p..] == [] || name[p..] == [DOT, DOT] then [DOT] else name[p..];
  }

  /** A stripped name is not empty, starts neither with a slash nor with a step to this or the parent
      directory, is not the parent directory, and is a tail of the name unless it is ".". Stripping again
      changes nothing. */
  lemma {:induction false} StrippedIsClean(s: seq<Byte>)
    ensures Strip(s) != [] && !Antisocial(Strip(s)) && Strip(s) != [DOT, DOT]
    ensures Strip(s) == [DOT] || (|Strip(s)| <= |s| && Strip(s) == s[|s| - |Strip(s)|..])
    ensures Strip(Strip(s)) == Strip(s)
    decreases |s|
  {
    if Antisocial(s) {
      StrippedIsClean(AfterSlash(s));
    }
  }

  function Concat(parts: seq<seq<Byte>>): seq<Byte> {
    if parts == [] then [] else parts[0] + Concat(parts[1..])
  }

  /** A slash, or a step to this or the parent directory. */
  predicate Step(p: seq<Byte>) {
    p == [SLASH] || p == [DOT, SLASH] || p == [DOT, DOT, SLASH]
  }

  /** Stripping takes off just the slashes and the steps to this or the parent directory at the front. */
  lemma {:induction false} StripsPrefixes(parts: seq<seq<Byte>>, s: seq<Byte>)
    requires forall i | 0 <= i < |parts| :: Step(parts[i])
    ensures Strip(Concat(parts) + s) == Strip(s)
  {
    hide Strip, Step;
    if parts == [] {
      assert Concat(parts) + s == s;
    } else {
      StripsPrefixes(parts[1..], s);
      StripsOne(parts[0], Concat(parts[1..]) + s);
      assert Concat(parts) + s == parts[0] + (Concat(parts[1..]) + s);
    }
  }

  lemma StripsOne(p: seq<Byte>, rest: seq<Byte>)
    requires Step(p)
    ensures Strip(p + rest) == Strip(rest)
  {
    var s := p + rest;
    assert s[|p| - 1] == SLASH && Antisocial(s);
    AfterFirstSlash(s, |p| - 1);
    assert s[|p|..] == rest;
  }

  lemma {:induction false} AfterFirstSlash(s: seq<Byte>, k: nat)
    requires k < |s| && s[k] == SLASH && SLASH !in s[..k]
    ensures SLASH in s && AfterSlash(s) == s[k + 1..]
  {
    if k > 0 {
      assert s[0] == s[..k][0];
      assert s[1..][..k - 1] == s[..k][1..];
      AfterFirstSlash(s[1..], k - 1);
    }
  }

  /** Only names that are already clean are kept as they are. */
  lemma StripKeepsIff(s: seq<Byte>)
    ensures Strip(s) == s <==> !Antisocial(s) && s != [] && s != [DOT, DOT]
  {
    StrippedIsClean(s);
  }

  lemma StrippedIsString(s: seq<Byte>)
    requires IsString(s)
    ensures IsString(Strip(s))
  {
    StrippedIsClean(s);
    var r := Strip(s);
    if r != [DOT] {
      assert forall i | 0 <= i < |r| :: r[i] == s[|s| - |r| + i];
    }
  }

  // ---------------------------------------------------------------------------------------------
  // The header

  datatype Kind = Regular | Directory

  datatype Parsed = EndOfArchive | Entry(name: seq<Byte>, kind: Kind, size: nat) | Bad(reason: string)

  function TypeFlag(kind: Kind): Byte {
    if kind == Regular then ZERO else ZERO + 5
  }

  const USTAR: seq<Byte> := [117, 115, 116, 97, 114]
  const ROOT: seq<Byte> := [114, 111, 111, 116]
  const MTIME: nat := 1136102400

  function Zeros(n: nat): (s: seq<Byte>)
    ensures |s| == n && forall i | 0 <= i < n :: s[i] == NUL
  {
    seq(n, _ => NUL)
  }

  function Padded(s: seq<Byte>, n: nat): (r: seq<Byte>)
    requires |s| <= n
    ensures |r| == n
  {
    s + Zeros(n - |s|)
  }

  function Field(h: seq<Byte>, at: nat, n: nat): (f: seq<Byte>)
    requires at + n <= |h|
    ensures |f| == n
  {
    h[at..at + n]
  }

  /** An octal field of w digits and a null byte. */
  function OctalText(v: nat, w: nat): (s: seq<Byte>)
    ensures |s| == w + 1
  {
    Octal(v, w) + [NUL]
  }

  /** The int is printed as an unsigned number. */
  function AsUnsigned(size: Int32): nat
  {
    if size < 0 then size + UINT32 else size
  }

  /** The sum of the first n bytes, where those of the checksum field count as spaces. */
  function SumTo(h: seq<Byte>, n: nat): (r: nat)
    requires n <= |h|
    ensures r <= 255 * n
  {
    if n == 0 then 0
    else SumTo(h, n - 1) + if 148 <= n - 1 < 156 then SPACE else h[n - 1]
  }

  function Checksum(h: seq<Byte>): nat
    requires |h| == HEADER_SIZE
  {
    SumTo(h, HEADER_SIZE)
  }

  /** Every field of the header of a file or directory. */
  predicate IsHeader(h: seq<Byte>, name: seq<Byte>, kind: Kind, size: Int32)
  {
    && |h| == HEADER_SIZE && |name| <= 99
    && FieldsButChecksum(h, name, kind, size)
    && Field(h, 148, 8) == OctalText(Checksum(h), 7)
  }

  predicate FieldsButChecksum(h: seq<Byte>, name: seq<Byte>, kind: Kind, size: Int32)
    requires |h| == HEADER_SIZE && |name| <= 99
  {
    && Field(h, 0, 100) == Padded(name, 100)
    && Field(h, 100, 8) == OctalText(if kind == Regular then 420 else 493, 7)
    && Field(h, 108, 8) == OctalText(0, 7)
    && Field(h, 116, 8) == OctalText(0, 7)
    && Field(h, 124, 12) == OctalText(AsUnsigned(size), 11)
    && Field(h, 136, 12) == OctalText(MTIME, 11)
    && Field(h, 156, 1) == [TypeFlag(kind)]
    && Field(h, 157, 100) == Zeros(100)
    && Field(h, 257, 6) == Padded(USTAR, 6)
    && Field(h, 263, 2) == [ZERO, ZERO]
    && Field(h, 265, 32) == Padded(ROOT, 32)
    && Field(h, 297, 32) == Padded(ROOT, 32)
    && Field(h, 329, 183) == Zeros(183)
  }

  lemma SameField(h: seq<Byte>, g: seq<Byte>, at: nat, n: nat)
    requires at + n <= |h| == |g| && Field(h, at, n) == Field(g, at, n)
    ensures forall i | at <= i < at + n :: h[i] == g[i]
  {
    forall i | at <= i < at + n
      ensures h[i] == g[i]
    {
      assert Field(h, at, n)[i - at] == Field(g, at, n)[i - at];
    }
  }

  /** Bytes of the checksum field do not matter for the checksum, and every other byte does. */
  lemma {:induction false} ChecksumIgnoresItself(h: seq<Byte>, g: seq<Byte>, n: nat)
    requires n <= |h| == |g|
    requires forall i | 0 <= i < n && !(148 <= i < 156) :: h[i] == g[i]
    ensures SumTo(h, n) == SumTo(g, n)
  {
    if n > 0 {
      ChecksumIgnoresItself(h, g, n - 1);
    }
  }

  lemma {:induction false} ChecksumCounts(h: seq<Byte>, i: nat, b: Byte, n: nat)
    requires n <= |h| && i < |h| && !(148 <= i < 156)
    ensures SumTo(h[i := b], n) == SumTo(h, n) + if i < n then b - h[i] else 0
  {
    if n > 0 {
      ChecksumCounts(h, i, b, n - 1);
    }
  }

  /** The checksum of nothing but zeros is that of the eight spaces. */
  lemma {:induction false} ChecksumOfZeros(n: nat)
    requires n <= HEADER_SIZE
    ensures SumTo(Zeros(HEADER_SIZE), n) == 32 * if n <= 148 then 0 else if n <= 156 then n - 148 else 8
  {
    if n > 0 {
      ChecksumOfZeros(n - 1);
    }
  }

  lemma FieldsAgree(h: seq<Byte>, g: seq<Byte>, name: seq<Byte>, kind: Kind, size: Int32)
    requires |h| == |g| == HEADER_SIZE && |name| <= 99
    requires FieldsButChecksum(h, name, kind, size) && FieldsButChecksum(g, name, kind, size)
    ensures forall i | 0 <= i < HEADER_SIZE && !(148 <= i < 156) :: h[i] == g[i]
  {
    hide Field, OctalText, Padded, Zeros;
    SameField(h, g, 0, 100);
    SameField(h, g, 100, 8);
    SameField(h, g, 108, 8);
    SameField(h, g, 116, 8);
    SameField(h, g, 124, 12);
    SameField(h, g, 136, 12);
    SameField(h, g, 156, 1);
    SameField(h, g, 157, 100);
    SameField(h, g, 257, 6);
    SameField(h, g, 263, 2);
    SameField(h, g, 265, 32);
    SameField(h, g, 297, 32);
    SameField(h, g, 329, 183);
  }

  /** The fields determine all bytes of the header. */
  lemma HeaderUnique(h: seq<Byte>, g: seq<Byte>, name: seq<Byte>, kind: Kind, size: Int32)
    requires IsHeader(h, name, kind, size) && IsHeader(g, name, kind, size)
    ensures h == g
  {
    hide Field, OctalText, FieldsButChecksum;
    FieldsAgree(h, g, name, kind, size);
    ChecksumIgnoresItself(h, g, HEADER_SIZE);
    SameField(h, g, 148, 8);
  }

  /** calculate_chksum. */
  method CalculateChksum(header: array<Byte>) returns (chksum: nat)
    requires header.Length == HEADER_SIZE
    ensures chksum == Checksum(header[..])
    ensures chksum < UINT32
  {
    chksum := 0;
    for i := 0 to HEADER_SIZE
      invariant chksum == SumTo(header[..], i)
    {
      var inChksumField := i >= 148 && i < 148 + 8;
      chksum := chksum + if inChksumField then SPACE else header[i];
    }
  }

  /** Writes bytes at a place and leaves all other bytes alone. */
  method WriteBytes(header: array<Byte>, at: nat, s: seq<Byte>)
    requires at + |s| <= header.Length
    modifies header
    ensures Field(header[..], at, |s|) == s
    ensures forall i | 0 <= i < header.Length && !(at <= i < at + |s|) :: header[i] == old(header[i])
  {
    for i := 0 to |s|
      invariant forall k | 0 <= k < i :: header[at + k] == s[k]
      invariant forall k | 0 <= k < header.Length && !(at <= k < at + i) :: header[k] == old(header[k])
    {
      header[at + i] := s[i];
    }
    assert header[..][at..at + |s|] == s;
  }

  /** One field is written and the others keep what they hold. */
  method WriteField(header: array<Byte>, at: nat, s: seq<Byte>)
    requires at + |s| <= header.Length
    modifies header
    ensures Field(header[..], at, |s|) == s
    ensures forall x: nat, n: nat | x + n <= header.Length && (x + n <= at || at + |s| <= x) ::
      Field(header[..], x, n) == Field(old(header[..]), x, n)
  {
    ghost var before := header[..];
    WriteBytes(header, at, s);
    forall x: nat, n: nat | x + n <= header.Length && (x + n <= at || at + |s| <= x)
      ensures Field(header[..], x, n) == Field(before, x, n)
    {
      forall i | x <= i < x + n
        ensures header[..][i] == before[i]
      {
      }
    }
  }

  /** strlcpy to a field that is all zeros. */
  method CopyString(header: array<Byte>, at: nat, n: nat, s: seq<Byte>)
    requires at + n <= header.Length && |s| < n && Field(header[..], at, n) == Zeros(n)
    modifies header
    ensures Field(header[..], at, n) == Padded(s, n)
    ensures forall x: nat, m: nat | x + m <= header.Length && (x + m <= at || at + n <= x) ::
      Field(header[..], x, m) == Field(old(header[..]), x, m)
  {
    ghost var before := header[..];
    assert Field(before, at + |s| + 1, n - |s| - 1) == Zeros(n)[|s| + 1..];
    WriteField(header, at, s + [NUL]);
    var h := header[..];
    assert Field(h, at, n) == Field(h, at, |s| + 1) + Field(h, at + |s| + 1, n - |s| - 1);
  }

  lemma ChecksumSmall(h: seq<Byte>)
    requires |h| == HEADER_SIZE
    ensures Checksum(h) < UINT32 && Checksum(h) < Pow8(7)
  {
    assert Pow8(3) == 512;
    assert Pow8(7) == 8 * 8 * 8 * 8 * Pow8(3);
  }

  lemma NumbersFit(size: Int32)
    ensures AsUnsigned(size) < UINT32 && MTIME < UINT32
    ensures AsUnsigned(size) < Pow8(11) && MTIME < Pow8(11)
    ensures 420 < Pow8(7) && 493 < Pow8(7) && 0 < Pow8(7)
  {
    assert Pow8(3) == 512;
    assert Pow8(7) == 8 * 8 * 8 * 8 * Pow8(3);
    assert Pow8(11) == 8 * 8 * 8 * 8 * Pow8(7);
  }

  /** snprintf of an octal number to a field of w + 1 bytes: the digits and a null byte. */
  method PrintField(header: array<Byte>, at: nat, v: nat, w: nat)
    requires at + w + 1 <= header.Length && w > 0 && v < UINT32 && v < Pow8(w)
    modifies header
    ensures Field(header[..], at, w + 1) == OctalText(v, w)
    ensures forall x: nat, n: nat | x + n <= header.Length && (x + n <= at || at + w + 1 <= x) ::
      Field(header[..], x, n) == Field(old(header[..]), x, n)
  {
    hide Field;
    var s := FormatOctal(v, w);
    WriteField(header, at, s + [NUL]);
  }

  /** ustar_make_header writes every field of the header, or fails and leaves the buffer alone. It fails
      exactly when more than 99 characters are left after stripping. */
  method MakeHeader(fileName: seq<Byte>, kind: Kind, size: Int32, header: array<Byte>) returns (ok: bool)
    requires IsString(fileName) && header.Length == HEADER_SIZE
    modifies header
    ensures ok <==> |Strip(fileName)| <= 99
    ensures ok ==> IsHeader(header[..], Strip(fileName), kind, size)
    ensures !ok ==> header[..] == old(header[..])
  {
    hide Octal, Pow8, SumTo, Checksum, Field, Strip, IsHeader, FieldsButChecksum, OctalText;
    var name := StripAntisocialPrefixes(fileName);
    if |name| > 99 {
      return false;
    }
    FillFields(header, name, kind, size);
    var chksum := CalculateChksum(header);
    ghost var h := header[..];
    ChecksumSmall(h);
    PrintField(header, 148, chksum, 7);
    ChecksumWritten(h, header[..], name, kind, size);
    return true;
  }

  lemma ChecksumWritten(h: seq<Byte>, g: seq<Byte>, name: seq<Byte>, kind: Kind, size: Int32)
    requires |h| == |g| == HEADER_SIZE && |name| <= 99 && FieldsButChecksum(h, name, kind, size)
    requires Field(g, 148, 8) == OctalText(Checksum(h), 7)
    requires forall x: nat, n: nat | x + n <= HEADER_SIZE && (x + n <= 148 || 148 + 8 <= x) ::
      Field(g, x, n) == Field(h, x, n)
    ensures IsHeader(g, name, kind, size)
  {
    hide Field, OctalText;
    FieldsAgree(h, g, name, kind, size);
    ChecksumIgnoresItself(h, g, HEADER_SIZE);
  }

  /** Everything in the header but the checksum. */
  method FillFields(header: array<Byte>, name: seq<Byte>, kind: Kind, size: Int32)
    requires header.Length == HEADER_SIZE && |name| <= 99
    modifies header
    ensures FieldsButChecksum(header[..], name, kind, size)
  {
    hide Field, OctalText, Padded, Zeros, Octal, Pow8, AsUnsigned;
    WriteBytes(header, 0, Zeros(HEADER_SIZE));
    AllZero(header[..]);
    NumbersFit(size);
    CopyString(header, 0, 100, name);
    PrintField(header, 100, if kind == Regular then 420 else 493, 7);
    PrintField(header, 108, 0, 7);
    PrintField(header, 116, 0, 7);
    PrintField(header, 124, AsUnsigned(size), 11);
    PrintField(header, 136, MTIME, 11);
    WriteField(header, 156, [TypeFlag(kind)]);
    CopyString(header, 257, 6, USTAR);
    WriteField(header, 263, [ZERO, ZERO]);
    CopyString(header, 297, 32, ROOT);
    CopyString(header, 265, 32, ROOT);
  }

  lemma AllZero(h: seq<Byte>)
    requires |h| == HEADER_SIZE && Field(h, 0, HEADER_SIZE) == Zeros(HEADER_SIZE)
    ensures Field(h, 0, 100) == Zeros(100) && Field(h, 157, 100) == Zeros(100)
    ensures Field(h, 257, 6) == Zeros(6) && Field(h, 265, 32) == Zeros(32) && Field(h, 297, 32) == Zeros(32)
    ensures Field(h, 329, 183) == Zeros(183)
  {
    assert h == Field(h, 0, HEADER_SIZE);
  }

  /** The bytes of a text, as characters of ASCII. */
  function Chars(s: string): (r: seq<Byte>)
    requires forall i | 0 <= i < |s| :: s[i] as int < 256
    ensures |r| == |s|
  {
    seq(|s|, i requires 0 <= i < |s| => s[i] as int)
  }

  /** The fields of constant content as the standard spells them: mode, owner and group, time, type, magic,
      version and names. */
  lemma HeaderSpelled(h: seq<Byte>, name: seq<Byte>, kind: Kind, size: Int32)
    requires IsHeader(h, name, kind, size)
    ensures Field(h, 100, 8) == Chars(if kind == Regular then "0000644" else "0000755") + [0]
    ensures Field(h, 108, 8) == Field(h, 116, 8) == Chars("0000000") + [0]
    ensures Field(h, 136, 12) == Chars("10355706000") + [0]
    ensures h[156] == (if kind == Regular then '0' else '5') as int
    ensures Field(h, 257, 8) == Chars("ustar") + [0] + Chars("00")
    ensures h[265..270] == h[297..302] == Chars("root") + [0]
  {
    OctalModes();
    OctalTime();
    hide Octal, Pow8, Checksum;
    assert h[156] == Field(h, 156, 1)[0];
    assert Field(h, 257, 8) == Field(h, 257, 6) + Field(h, 263, 2);
    assert h[265..270] == Field(h, 265, 32)[..5] && h[297..302] == Field(h, 297, 32)[..5];
  }

  lemma OctalModes()
    ensures Octal(420, 7) == Chars("0000644") && Octal(493, 7) == Chars("0000755") && Octal(0, 7) == Chars("0000000")
  {
    OctalZeros(7);
    OctalZeros(4);
    assert Octal(0, 4) == Chars("0000");
    NextDigit(6, 4, "0000");
    NextDigit(52, 5, "00006");
    NextDigit(420, 6, "000064");
    NextDigit(7, 4, "0000");
    NextDigit(61, 5, "00007");
    NextDigit(493, 6, "000075");
    hide Octal;
  }

  lemma NextDigit(v: nat, w: nat, s: string)
    requires (forall i | 0 <= i < |s| :: s[i] as int < 256) && Octal(v / 8, w) == Chars(s)
    ensures Octal(v, w + 1) == Chars(s + ['0' + (v % 8) as char])
  {
    hide Octal;
    OctalUnfolds(v, w);
    assert Chars(s + ['0' + (v % 8) as char]) == Chars(s) + [Digit(v)];
  }

  lemma OctalUnfolds(v: nat, w: nat)
    ensures Octal(v, w + 1) == Octal(v / 8, w) + [Digit(v)]
  {
  }

  lemma OctalTime()
    ensures Octal(MTIME, 11) == Chars("10355706000")
  {
    OctalHours();
    NextDigit(277368, 6, "103557");
    NextDigit(2218950, 7, "1035570");
    NextDigit(17751600, 8, "10355706");
    NextDigit(142012800, 9, "103557060");
    NextDigit(1136102400, 10, "1035570600");
    hide Octal;
  }

  lemma OctalHours()
    ensures Octal(34671, 6) == Chars("103557")
  {
    assert Octal(0, 0) == Chars("");
    hide Octal, Chars;
    NextDigit(1, 0, "");
    NextDigit(8, 1, "1");
    NextDigit(67, 2, "10");
    NextDigit(541, 3, "103");
    NextDigit(4333, 4, "1035");
    NextDigit(34671, 5, "10355");
  }

  // ---------------------------------------------------------------------------------------------
  // Parsing

  /** The string at the start of s: all characters before the first null byte. */
  function CString(s: seq<Byte>): (r: seq<Byte>)
    requires NUL in s
    ensures |r| < |s| && r == s[..|r|] && s[|r|] == NUL && IsString(r)
  {
    if s[0] == NUL then [] else [s[0]] + CString(s[1..])
  }

  lemma {:induction false} CStringUnique(s: seq<Byte>, k: nat)
    requires k < |s| && s[k] == NUL && IsString(s[..k])
    ensures CString(s) == s[..k]
  {
    if k > 0 {
      assert s[0] == s[..k][0];
      assert s[1..][..k - 1] == s[..k][1..];
      CStringUnique(s[1..], k - 1);
    }
  }

  lemma LastIsNull(s: seq<Byte>)
    requires |s| > 0 && s[|s| - 1] == NUL
    ensures NUL in s
  {
  }

  /** What ustar_parse_header says of a header, test by test. */
  function Parse(h: seq<Byte>): Parsed
    requires |h| == HEADER_SIZE
  {
    if forall c | c in h :: c == NUL then EndOfArchive
    else if Field(h, 257, 6) != USTAR + [NUL] then Bad("not a ustar archive")
    else if h[263] != ZERO || h[264] != ZERO then Bad("invalid ustar version")
    else if OctalField(Field(h, 148, 8)) == None then Bad("corrupt chksum field")
    else if OctalField(Field(h, 148, 8)).value != Checksum(h) then Bad("checksum mismatch")
    else if h[99] != NUL || h[345] != NUL then Bad("file name too long")
    else if h[156] != TypeFlag(Regular) && h[156] != TypeFlag(Directory) then Bad("unimplemented file type")
    else if h[156] == TypeFlag(Regular) && OctalField(Field(h, 124, 12)) == None then Bad("corrupt file size field")
    else if h[156] == TypeFlag(Regular) && OctalField(Field(h, 124, 12)).value > INT_MAX then Bad("file too large")
    else
      LastIsNull(Field(h, 0, 100));
      Entry(Strip(CString(Field(h, 0, 100))),
            if h[156] == TypeFlag(Regular) then Regular else Directory,
            if h[156] == TypeFlag(Regular) then OctalField(Field(h, 124, 12)).value else 0)
  }

  /** ustar_parse_header. */
  method ParseHeader(header: array<Byte>) returns (r: Parsed)
    requires header.Length == HEADER_SIZE
    ensures r == Parse(header[..])
  {
    var allZeros := IsAllZeros(header);
    if allZeros {
      return EndOfArchive;
    }
    var h := header[..];
    if Field(h, 257, 6) != USTAR + [NUL] {
      return Bad("not a ustar archive");
    }
    if h[263] != ZERO || h[264] != ZERO {
      return Bad("invalid ustar version");
    }
    var chksum := ParseOctalField(Field(h, 148, 8));
    if chksum == None {
      return Bad("corrupt chksum field");
    }
    var sum := CalculateChksum(header);
    if chksum.value != sum {
      return Bad("checksum mismatch");
    }
    if h[99] != NUL || h[345] != NUL {
      return Bad("file name too long");
    }
    if h[156] != TypeFlag(Regular) && h[156] != TypeFlag(Directory) {
      return Bad("unimplemented file type");
    }
    var size := 0;
    if h[156] == TypeFlag(Regular) {
      var field := ParseOctalField(Field(h, 124, 12));
      if field == None {
        return Bad("corrupt file size field");
      }
      if field.value > INT_MAX {
        return Bad("file too large");
      }
      size := field.value;
    }
    assert Field(h, 0, 100)[99] == h[99];
    LastIsNull(Field(h, 0, 100));
    var name := StripAntisocialPrefixes(CString(Field(h, 0, 100)));
    return Entry(name, if h[156] == TypeFlag(Regular) then Regular else Directory, size);
  }

  method IsAllZeros(block: array<Byte>) returns (r: bool)
    ensures r <==> forall c | c in block[..] :: c == NUL
  {
    for i := 0 to block.Length
      invariant forall c | c in block[..i] :: c == NUL
    {
      if block[i] != NUL {
        assert block[i] in block[..];
        return false;
      }
      assert block[..i + 1] == block[..i] + [block[i]];
    }
    assert block[..block.Length] == block[..];
    return true;
  }

  // ---------------------------------------------------------------------------------------------
  // Round trip

  lemma NameIsRead(name: seq<Byte>)
    requires IsString(name) && |name| <= 99
    ensures Padded(name, 100)[99] == NUL
    ensures NUL in Padded(name, 100) && CString(Padded(name, 100)) == name
  {
    var s := Padded(name, 100);
    assert s[..|name|] == name;
    LastIsNull(s);
    CStringUnique(s, |name|);
  }

  /** The first tests pass for every header that was made, whatever its size. */
  lemma MadePasses(h: seq<Byte>, name: seq<Byte>, kind: Kind, size: Int32)
    requires IsString(name) && IsHeader(h, name, kind, size)
    ensures |name| <= 99
    ensures exists c :: c in h && c != NUL
    ensures Field(h, 257, 6) == USTAR + [NUL] && h[263] == ZERO && h[264] == ZERO
    ensures OctalField(Field(h, 148, 8)) == Some(Checksum(h))
    ensures h[99] == NUL && h[345] == NUL && h[156] == TypeFlag(kind)
    ensures OctalField(Field(h, 124, 12)) == Some(AsUnsigned(size))
    ensures Field(h, 0, 100) == Padded(name, 100)
  {
    hide Octal, OctalField, Pow8, SumTo, Checksum, AsUnsigned;
    ChecksumSmall(h);
    NumbersFit(size);
    PrintedIsRead(Checksum(h), 7);
    PrintedIsRead(AsUnsigned(size), 11);
    NameIsRead(name);
    assert Field(h, 263, 2)[0] == h[263] && Field(h, 263, 2)[1] == h[264];
    assert Field(h, 0, 100)[99] == h[99];
    assert Field(h, 329, 183)[16] == h[345];
    assert Field(h, 156, 1)[0] == h[156];
    assert h[263] in h && h[263] != NUL;
    assert Padded(USTAR, 6) == USTAR + [NUL];
  }

  /** Parsing a header just made gives back the stripped name, the type and the size, which is 0 for
      directories. A negative size of a file is printed as an unsigned number and found too large. */
  lemma RoundTrip(h: seq<Byte>, fileName: seq<Byte>, kind: Kind, size: Int32)
    requires IsString(fileName) && IsHeader(h, Strip(fileName), kind, size)
    ensures kind == Directory ==> Parse(h) == Entry(Strip(fileName), Directory, 0)
    ensures kind == Regular && size >= 0 ==> Parse(h) == Entry(Strip(fileName), Regular, size)
    ensures kind == Regular && size < 0 ==> Parse(h) == Bad("file too large")
  {
    hide Octal, OctalField, Pow8, SumTo, Checksum, Field, Padded, IsHeader, Strip, CString;
    var name := Strip(fileName);
    StrippedIsString(fileName);
    StrippedIsClean(fileName);
    MadePasses(h, name, kind, size);
    NameIsRead(name);
  }

  /** Exactly which blocks are taken for the end of the archive, and which for a file or directory. */
  lemma AcceptedIff(h: seq<Byte>)
    requires |h| == HEADER_SIZE
    ensures Parse(h).EndOfArchive? <==> h == Zeros(HEADER_SIZE)
    ensures Parse(h).Entry? <==>
      && Field(h, 257, 8) == Chars("ustar") + [0] + Chars("00")
      && OctalField(Field(h, 148, 8)) == Some(Checksum(h))
      && h[99] == 0 && h[345] == 0
      && var size := OctalField(Field(h, 124, 12));
        h[156] == '5' as int || (h[156] == '0' as int && size.Some? && size.value < 0x8000_0000)
  {
    hide OctalField, Checksum, Strip, CString;
    assert Field(h, 257, 8) == Field(h, 257, 6) + [h[263], h[264]];
    assert USTAR == Chars("ustar") && Chars("00") == [ZERO, ZERO];
    var magic := Chars("ustar") + [0] + Chars("00");
    assert Field(h, 257, 6) == Field(h, 257, 8)[..6] && h[263] == Field(h, 257, 8)[6] && h[264] == Field(h, 257, 8)[7];
    assert magic[..6] == USTAR + [NUL] && magic[6] == ZERO && magic[7] == ZERO && magic == magic[..6] + [magic[6], magic[7]];
    if Field(h, 257, 6) == USTAR + [NUL] {
      assert h[257] == Field(h, 257, 6)[0] && h[257] in h;
    }
    if forall c | c in h :: c == NUL {
      assert forall i | 0 <= i < HEADER_SIZE :: h[i] in h;
      assert h == Zeros(HEADER_SIZE);
    } else {
      var c :| c in h && c != NUL;
      assert c !in Zeros(HEADER_SIZE);
    }
  }

  /** A header that is accepted is no longer accepted once any one byte outside the checksum field has
      changed. */
  lemma DamageIsFound(h: seq<Byte>, i: nat, b: Byte)
    requires |h| == HEADER_SIZE && Parse(h).Entry?
    requires i < HEADER_SIZE && !(148 <= i < 156) && b != h[i]
    ensures Parse(h[i := b]).Bad?
  {
    hide Octal, OctalField, SumTo, Strip, CString;
    var g := h[i := b];
    ChecksumCounts(h, i, b, HEADER_SIZE);
    assert Field(g, 148, 8) == Field(h, 148, 8);
    DigitFirst(Field(h, 148, 8));
    assert g[148] == Field(h, 148, 8)[0];
    assert g[148] in g;
  }

  lemma DigitFirst(s: seq<Byte>)
    requires OctalField(s).Some?
    ensures |s| > 0 && s[0] != NUL
  {
    assert IsOctal(s[0]);
  }
}
