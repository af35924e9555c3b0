/**
 Base-128 varints of the Protocol Buffers wire format, as nanopb writes them and as its 64-bit decoder
 and its separate 32-bit decoder read them.
 */
module Wire {
  import opened Basics
  import opened Bits

  /** The outcome of a read: failure, or a value and the bytes that are left. */
  datatype Parse<+T> = Fail | Done(val: T, rest: seq<byte>)

  //////////////////////////////////////////////////////////////////////////////
  // Varints
  //////////////////////////////////////////////////////////////////////////////

  /** The length of the varint at the front of s, or 0 when no byte ends it. */
  function VarLen(s: seq<byte>): (n: nat)
    ensures n <= |s|
    ensures 0 < n ==> s[n - 1] < 128 && forall k :: 0 <= k < n - 1 ==> 128 <= s[k]
    ensures n == 0 ==> forall k :: 0 <= k < |s| ==> 128 <= s[k]
  {
    if s == [] then 0
    else if s[0] < 128 then 1
    else
      var n := VarLen(s[1..]);
      if n == 0 then 0 else n + 1
  }

  /** The number that the 7-bit groups of s denote, least significant group first. */
  function Groups(s: seq<byte>): nat {
    if s == [] then 0 else s[0] % 128 + 128 * Groups(s[1..])
  }

  function EncVarint(v: nat): (s: seq<byte>)
    ensures 1 <= |s|
  {
    if v < 128 then [v] else [128 + v % 128] + EncVarint(v / 128)
  }

  /** What pb_decode_varint reads: at most ten bytes, groups beyond bit 63 shifted out. */
  function Varint64(s: seq<byte>): Parse<nat> {
    var n := VarLen(s);
    if n == 0 || 10 < n then Fail else Done(Groups(s[..n]) % TWO_TO_64, s[n..])
  }

  /** What pb_decode_varint32 reads. */
  function Varint32(s: seq<byte>): Parse<nat> {
    if s == [] then Fail
    else if s[0] < 128 then Done(s[0], s[1..])
    else Varint32Tail(s[1..], 7, s[0] % 128)
  }

  /** The multibyte loop: it has no length limit, and its 8-bit shift counter wraps around. */
  function Varint32Tail(s: seq<byte>, bitpos: nat, result: nat): Parse<nat> {
    if s == [] then Fail
    else
      var b := s[0];
      if 32 <= bitpos && b % 128 != 0 && (result < TWO_TO_31 || b != SignExtension(bitpos)) then Fail
      else
        var bitpos' := (bitpos + 7) % 256;
        if 128 <= b then Varint32Tail(s[1..], bitpos', Absorb(b, bitpos, result))
        else if bitpos' == 35 && b / 16 % 8 != 0 then Fail
        else Done(Absorb(b, bitpos, result), s[1..])
  }

  /** The 32-bit register after byte b: the low seven bits of b are ored in, shifted by bitpos. */
  function Absorb(b: byte, bitpos: nat, result: nat): nat {
    if 32 <= bitpos then result else Or(result, Shl(b % 128, bitpos) % TWO_TO_32)
  }

  /** The only nonzero byte allowed at a position of 32 or more, in a value with its top bit set. */
  function SignExtension(bitpos: nat): byte {
    if bitpos < 63 then 0xFF else 0x01
  }

  /** pb_skip_varint, which has no length limit. */
  function SkipVarint(s: seq<byte>): Parse<()> {
    var n := VarLen(s);
    if n == 0 then Fail else Done((), s[n..])
  }

  lemma {:induction false} VarLenIs(s: seq<byte>, n: nat)
    requires 0 < n <= |s| && s[n - 1] < 128 && forall k :: 0 <= k < n - 1 ==> 128 <= s[k]
    ensures VarLen(s) == n
  {
    if n != 1 { VarLenIs(s[1..], n - 1); }
  }

  lemma {:induction false} GroupsBound(s: seq<byte>)
    ensures Groups(s) < Pow2(7 * |s|)
  {
    if s != [] {
      GroupsBound(s[1..]);
      Pow2Seven(7 * (|s| - 1));
      assert 7 * (|s| - 1) + 7 == 7 * |s|;
    }
  }

  lemma {:induction false} GroupsAppend(s: seq<byte>, b: byte)
    ensures Groups(s + [b]) == Groups(s) + Shl(b % 128, 7 * |s|)
  {
    if s == [] {
      assert [] + [b] == [b] && [b][1..] == [];
    } else {
      assert (s + [b])[1..] == s[1..] + [b];
      GroupsAppend(s[1..], b);
      ShlSeven(b % 128, 7 * (|s| - 1));
      assert 7 * (|s| - 1) + 7 == 7 * |s|;
    }
  }

  /** An encoding is a complete varint: nothing that follows it is part of it. */
  lemma {:induction false} EncVarintEnds(v: nat, t: seq<byte>)
    ensures VarLen(EncVarint(v) + t) == |EncVarint(v)|
  {
    var e := EncVarint(v);
    if v < 128 {
      VarLenIs(e + t, 1);
    } else {
      EncVarintEnds(v / 128, t);
      assert (e + t)[1..] == EncVarint(v / 128) + t;
    }
  }

  lemma {:induction false} EncVarintValue(v: nat)
    ensures Groups(EncVarint(v)) == v
  {
    var e := EncVarint(v);
    if v < 128 {
      assert e[1..] == [];
    } else {
      EncVarintValue(v / 128);
      assert e[1..] == EncVarint(v / 128);
    }
  }

  lemma {:induction false} EncVarintLength(v: nat, n: nat)
    requires 0 < n && v < Pow2(7 * n)
    ensures |EncVarint(v)| <= n
  {
    if 128 <= v {
      Pow2Seven(7 * (n - 1));
      if n == 1 { Pow2To28(); }
      EncVarintLength(v / 128, n - 1);
    }
  }

  /** No 64-bit value overruns the encoder's ten-byte buffer. */
  lemma EncVarintFits(v: nat)
    requires v < TWO_TO_64
    ensures |EncVarint(v)| <= 10
    ensures v < TWO_TO_32 ==> |EncVarint(v)| <= 5
  {
    Pow2To70(); Pow2To35();
    EncVarintLength(v, 10);
    if v < TWO_TO_32 { EncVarintLength(v, 5); }
  }

  /** The front of a byte string is read as the value that its groups denote, if that has 64 bits. */
  lemma Varint64Is(s: seq<byte>, n: nat, v: nat)
    requires VarLen(s) == n && 0 < n <= 10 && Groups(s[..n]) == v < TWO_TO_64
    ensures Varint64(s) == Done(v, s[n..])
  {
    Small64(v);
  }

  lemma Small64(v: nat)
    requires v < TWO_TO_64
    ensures v % TWO_TO_64 == v
  {}

  /** Decoding an encoded 64-bit value returns it and stops right after it. */
  lemma VarintRoundTrip(v: nat, t: seq<byte>)
    requires v < TWO_TO_64
    ensures Varint64(EncVarint(v) + t) == Done(v, t)
  {
    var e := EncVarint(v);
    assert VarLen(e + t) == |e| by { EncVarintEnds(v, t); }
    assert Groups(e) == v by { EncVarintValue(v); }
    assert |e| <= 10 by { EncVarintFits(v); }
    assert (e + t)[..|e|] == e && (e + t)[|e|..] == t;
    Varint64Is(e + t, |e|, v);
  }

  /** Groups determine their bytes: two varints of one length denoting one value are equal. */
  lemma {:induction false} GroupsInjective(a: seq<byte>, b: seq<byte>)
    requires |a| == |b| && Groups(a) == Groups(b)
    requires forall k :: 0 <= k < |a| ==> (a[k] < 128) == (b[k] < 128)
    ensures a == b
  {
    if a != [] {
      FrontGroup(a);
      FrontGroup(b);
      SameDigits(a[0] % 128, b[0] % 128, Groups(a[1..]), Groups(b[1..]));
      SameByte(a[0], b[0]);
      GroupsInjective(a[1..], b[1..]);
      assert a == [a[0]] + a[1..] && b == [b[0]] + b[1..];
    }
  }

  lemma FrontGroup(s: seq<byte>)
    requires s != []
    ensures Groups(s) == s[0] % 128 + 128 * Groups(s[1..])
  {}

  lemma SameByte(x: byte, y: byte)
    requires x % 128 == y % 128 && (x < 128 <==> y < 128)
    ensures x == y
  {}

  lemma SameDigits(x: nat, y: nat, p: nat, q: nat)
    requires x < 128 && y < 128 && x + 128 * p == y + 128 * q
    ensures x == y && p == q
  {}

  /** All bytes of a complete varint but the last are continued. */
  lemma CompleteVarint(p: seq<byte>)
    requires 0 < VarLen(p) == |p|
    ensures forall k :: 0 <= k < |p| ==> (p[k] < 128 <==> k == |p| - 1)
  {}

  /** A complete varint of n bytes that denotes v is the encoding of v if that has n bytes too. */
  lemma SameLengthSame(p: seq<byte>, v: nat)
    requires VarLen(p) == |p| == |EncVarint(v)| && Groups(p) == v
    ensures p == EncVarint(v)
  {
    var e := EncVarint(v);
    assert VarLen(e) == |e| by {
      EncVarintEnds(v, []);
      assert e + [] == e;
    }
    assert Groups(e) == v by { EncVarintValue(v); }
    CompleteVarint(p);
    CompleteVarint(e);
    GroupsInjective(p, e);
  }

  lemma {:induction false} VarLenPrefix(s: seq<byte>)
    ensures VarLen(s[..VarLen(s)]) == VarLen(s)
  {
    if VarLen(s) != 0 { VarLenIs(s[..VarLen(s)], VarLen(s)); }
  }

  /**
   Every other form that the decoder reads as v is at least as long as the encoding. A form of the
   same length is the encoding itself, unless it is a ten-byte form whose last byte has bits that
   the 64-bit register drops.
   */
  lemma EncVarintShortest(s: seq<byte>, v: nat)
    requires Varint64(s).Done? && Varint64(s).val == v
    ensures |EncVarint(v)| <= VarLen(s)
    ensures s[..VarLen(s)] == EncVarint(v)
       <==> VarLen(s) == |EncVarint(v)| && (VarLen(s) == 10 ==> s[9] == 1)
  {
    var n := VarLen(s);
    var p := s[..n];
    Pow2To70();
    VarLenPrefix(s);
    if n < 10 {
      GroupsBound(p);
      Pow2Monotone(7 * n, 63);
      EncVarintLength(v, n);
      if n == |EncVarint(v)| { SameLengthSame(p, v); }
    } else {
      EncVarintFits(v);
      TenByteForm(p, v);
    }
  }

  lemma TenByteForm(p: seq<byte>, v: nat)
    requires VarLen(p) == |p| == 10 && v == Groups(p) % TWO_TO_64
    ensures p == EncVarint(v) <==> |EncVarint(v)| == 10 && p[9] == 1
  {
    if |EncVarint(v)| == 10 {
      LastOfTen(v);
      if p[9] == 1 {
        TenBytes(p);
        SameLengthSame(p, v);
      }
    }
  }

  lemma LastOfTen(v: nat)
    requires v < TWO_TO_64 && |EncVarint(v)| == 10
    ensures EncVarint(v)[9] == 1
  {
    var e := EncVarint(v);
    assert TWO_TO_63 <= v by {
      Pow2To70();
      if v < TWO_TO_63 { EncVarintLength(v, 9); }
    }
    assert VarLen(e) == 10 by {
      EncVarintEnds(v, []);
      assert e + [] == e;
    }
    assert Groups(e) == v by { EncVarintValue(v); }
    TenBytes(e);
    TopDigit(v, Groups(e[..9]), e[9]);
  }

  lemma TopDigit(v: nat, low: nat, d: nat)
    requires d < 128 && v == low + d % 128 * TWO_TO_63 && low < TWO_TO_63 <= v < TWO_TO_64
    ensures d == 1
  {}

  lemma TenBytes(p: seq<byte>)
    requires |p| == 10
    ensures Groups(p) == Groups(p[..9]) + p[9] % 128 * TWO_TO_63
    ensures Groups(p[..9]) < TWO_TO_63
  {
    Pow2To70();
    assert p == p[..9] + [p[9]];
    GroupsAppend(p[..9], p[9]);
    Shl63(p[9] % 128);
    GroupsBound(p[..9]);
  }

  //////////////////////////////////////////////////////////////////////////////
  // The 32-bit decoder against the 64-bit one
  //////////////////////////////////////////////////////////////////////////////

  lemma AbsorbBound(b: byte, bitpos: nat, result: nat)
    requires result < TWO_TO_32
    ensures Absorb(b, bitpos, result) < TWO_TO_32
  {
    Pow2To35();
    if bitpos < 32 { OrBound(result, Shl(b % 128, bitpos) % TWO_TO_32, 32); }
  }

  lemma {:induction false} Varint32TailStops(s: seq<byte>, bitpos: nat, result: nat)
    requires bitpos < 256 && result < TWO_TO_32
    ensures var r := Varint32Tail(s, bitpos, result);
            r.Done? ==> 0 < VarLen(s) && r.rest == s[VarLen(s)..] && r.val < TWO_TO_32
  {
    if s != [] {
      AbsorbBound(s[0], bitpos, result);
      if 128 <= s[0] {
        Varint32TailStops(s[1..], (bitpos + 7) % 256, Absorb(s[0], bitpos, result));
        assert VarLen(s[1..]) != 0 ==> s[1..][VarLen(s[1..])..] == s[VarLen(s)..];
      }
    }
  }

  /** A successful 32-bit read consumes exactly the varint at the front. */
  lemma Varint32Stops(s: seq<byte>)
    ensures var r := Varint32(s);
            r.Done? ==> 0 < VarLen(s) && r.rest == s[VarLen(s)..] && r.val < TWO_TO_32
  {
    if s != [] && 128 <= s[0] {
      Varint32TailStops(s[1..], 7, s[0] % 128);
      assert VarLen(s[1..]) != 0 ==> s[1..][VarLen(s[1..])..] == s[VarLen(s)..];
    }
  }

  /** One loop step, with the byte at position pos, keeps the register equal to the value so far modulo 2^32. */
  lemma RegisterStep(p: seq<byte>, pos: nat, b: byte, result: nat)
    requires 1 <= |p| <= 9 && pos == 7 * |p| && result == Groups(p) % TWO_TO_32
    ensures Absorb(b, pos, result) == Groups(p + [b]) % TWO_TO_32
  {
    assert Groups(p + [b]) == Groups(p) + Shl(b % 128, pos) by { GroupsAppend(p, b); }
    assert Groups(p) < Pow2(pos) by { GroupsBound(p); }
    RegisterOr(Groups(p), b, pos);
  }

  lemma RegisterOr(g: nat, b: byte, pos: nat)
    requires g < Pow2(pos) && (pos <= 21 || pos == 28 || 32 <= pos)
    ensures Absorb(b, pos, g % TWO_TO_32) == (g + Shl(b % 128, pos)) % TWO_TO_32
  {
    if pos < 32 { LowRegister(g, b % 128, pos); } else { LateGroup(g, b % 128, pos); }
  }

  lemma LowRegister(g: nat, c: nat, pos: nat)
    requires c < 128 && g < Pow2(pos) && (pos <= 21 || pos == 28)
    ensures Or(g % TWO_TO_32, Shl(c, pos) % TWO_TO_32) == (g + Shl(c, pos)) % TWO_TO_32
  {
    if pos <= 21 { EarlyGroup(g, c, pos); } else { FifthGroup(g, c, pos); }
  }

  lemma LateGroup(g: nat, c: nat, k: nat)
    requires 32 <= k
    ensures (g + Shl(c, k)) % TWO_TO_32 == g % TWO_TO_32
  {
    ShlAboveRegister(c, k);
    AddMultiple(g, Shl(c, k));
  }

  lemma AddMultiple(g: nat, m: nat)
    requires m % TWO_TO_32 == 0
    ensures (g + m) % TWO_TO_32 == g % TWO_TO_32
  {}

  lemma EarlyGroup(g: nat, c: nat, k: nat)
    requires c < 128 && k <= 21 && g < Pow2(k)
    ensures Or(g % TWO_TO_32, Shl(c, k) % TWO_TO_32) == (g + Shl(c, k)) % TWO_TO_32
  {
    EarlyGroupBound(g, c, k);
    OrDisjoint(g, c, k);
    OrInRegister(g, Shl(c, k));
  }

  lemma EarlyGroupBound(g: nat, c: nat, k: nat)
    requires c < 128 && k <= 21 && g < Pow2(k)
    ensures Shl(c, k) < 0x1000_0000 && g < 0x1000_0000
  {
    Pow2To28();
    ShlBound(c, k, 7);
    Pow2Monotone(k + 7, 28);
    Pow2Monotone(k, 28);
  }

  lemma OrInRegister(x: nat, y: nat)
    requires x < 0x8000_0000 && y < 0x8000_0000 && Or(x, y) == x + y
    ensures Or(x % TWO_TO_32, y % TWO_TO_32) == (x + y) % TWO_TO_32
  {
    assert x % TWO_TO_32 == x && y % TWO_TO_32 == y && (x + y) % TWO_TO_32 == x + y;
  }

  /** Only four bits of the fifth group fit in the register. */
  lemma FifthGroup(g: nat, c: nat, k: nat)
    requires c < 128 && k == 28 && g < Pow2(k)
    ensures Or(g % TWO_TO_32, Shl(c, k) % TWO_TO_32) == (g + Shl(c, k)) % TWO_TO_32
  {
    var q, low := FifthParts(g, c, k);
    DropHighGroup(g, q, low, Shl(c, k));
  }

  lemma FifthParts(g: nat, c: nat, k: nat) returns (q: nat, low: nat)
    requires c < 128 && k == 28 && g < Pow2(k)
    ensures g < 0x1000_0000 && low <= 0xF000_0000
    ensures Or(g, low) == g + low && Shl(c, k) == TWO_TO_32 * q + low
  {
    q, low := FifthShift(c, k);
    OrDisjoint(g, c % 16, k);
    SmallValue(g, k);
  }

  lemma SmallValue(g: nat, k: nat)
    requires k == 28 && g < Pow2(k)
    ensures g < 0x1000_0000
  {
    Pow2To28();
  }

  lemma FifthShift(c: nat, k: nat) returns (q: nat, low: nat)
    requires c < 128 && k == 28
    ensures Shl(c, k) == TWO_TO_32 * q + low && low == Shl(c % 16, k) <= 0xF000_0000
  {
    q, low := c / 16, Shl(c % 16, k);
    ShlValues(c);
    ShlValues(c % 16);
  }

  lemma DropHighGroup(g: nat, q: nat, low: nat, x: nat)
    requires g < 0x1000_0000 && low <= 0xF000_0000 && Or(g, low) == g + low && x == TWO_TO_32 * q + low
    ensures Or(g % TWO_TO_32, x % TWO_TO_32) == (g + x) % TWO_TO_32
  {
    Reduce(0, g);
    Reduce(q, low);
    Reduce(q, g + low);
  }

  lemma Reduce(q: nat, r: nat)
    requires r < TWO_TO_32
    ensures (TWO_TO_32 * q + r) % TWO_TO_32 == r
  {}

  /** What one more continuation byte does to a 32-bit read that succeeds. */
  lemma Varint32TailMore(s: seq<byte>, pos: nat, result: nat)
    requires pos <= 63 && s != [] && 128 <= s[0] && Varint32Tail(s, pos, result).Done?
    ensures Varint32Tail(s, pos, result) == Varint32Tail(s[1..], pos + 7, Absorb(s[0], pos, result))
  {
    NextPosition(pos);
  }

  lemma NextPosition(pos: nat)
    requires pos <= 63
    ensures (pos + 7) % 256 == pos + 7
  {}

  lemma Varint32TailLast(s: seq<byte>, pos: nat, result: nat)
    requires pos <= 63 && s != [] && s[0] < 128 && Varint32Tail(s, pos, result).Done?
    ensures Varint32Tail(s, pos, result) == Done(Absorb(s[0], pos, result), s[1..])
  {}

  lemma {:induction false} Varint32TailValue(p: seq<byte>, pos: nat, s: seq<byte>, result: nat, whole: seq<byte>)
    requires 1 <= |p| && pos == 7 * |p| && result == Groups(p) % TWO_TO_32
    requires 0 < VarLen(s) && |p| + VarLen(s) <= 10 && Varint32Tail(s, pos, result).Done?
    requires whole == p + s[..VarLen(s)]
    ensures Varint32Tail(s, pos, result).val == Groups(whole) % TWO_TO_32
    decreases |s|
  {
    if 128 <= s[0] {
      var next := ValueNext(p, pos, s, result);
      Varint32TailValue(p + [s[0]], pos + 7, s[1..], next, whole);
    } else {
      assert whole == p + [s[0]];
      RegisterStep(p, pos, s[0], result);
      Varint32TailLast(s, pos, result);
    }
  }

  lemma ValueNext(p: seq<byte>, pos: nat, s: seq<byte>, result: nat) returns (next: nat)
    requires 1 <= |p| && pos == 7 * |p| && result == Groups(p) % TWO_TO_32
    requires 0 < VarLen(s) && |p| + VarLen(s) <= 10 && 128 <= s[0] && Varint32Tail(s, pos, result).Done?
    ensures Varint32Tail(s, pos, result) == Varint32Tail(s[1..], pos + 7, next)
    ensures next == Groups(p + [s[0]]) % TWO_TO_32
    ensures 0 < VarLen(s[1..]) == VarLen(s) - 1
    ensures p + [s[0]] + s[1..][..VarLen(s[1..])] == p + s[..VarLen(s)]
  {
    next := Absorb(s[0], pos, result);
    RegisterStep(p, pos, s[0], result);
    Varint32TailMore(s, pos, result);
  }

  /**
   When the 32-bit decoder succeeds, the 64-bit decoder succeeds on the same bytes exactly if the
   varint has at most ten of them, and then stops at the same place with an equal value modulo 2^32.
   */
  lemma VarintDecodersAgree(s: seq<byte>)
    requires Varint32(s).Done?
    ensures Varint64(s).Done? <==> VarLen(s) <= 10
    ensures Varint64(s).Done? ==>
              Varint32(s) == Done(Varint64(s).val % TWO_TO_32, Varint64(s).rest)
  {
    Varint32Stops(s);
    if VarLen(s) <= 10 {
      Varint32Value(s);
      ModuloTwice(Groups(s[..VarLen(s)]));
    }
  }

  lemma Varint32Value(s: seq<byte>)
    requires Varint32(s).Done? && 0 < VarLen(s) <= 10
    ensures Varint32(s).val == Groups(s[..VarLen(s)]) % TWO_TO_32
  {
    if 128 <= s[0] { LongValue(s, s[..VarLen(s)]); } else { ShortValue(s); }
  }

  lemma ShortValue(s: seq<byte>)
    requires s != [] && s[0] < 128
    ensures VarLen(s) == 1 && Varint32(s).Done? && Varint32(s).val == Groups(s[..1]) % TWO_TO_32
  {
    FirstOf(s);
    SmallGroup(s[0]);
  }

  lemma FirstOf(s: seq<byte>)
    requires s != []
    ensures s[..1] == [s[0]]
  {}

  lemma SmallGroup(b: byte)
    requires b < 128
    ensures Groups([b]) % TWO_TO_32 == b
  {
    FirstGroup(b);
  }

  lemma LongValue(s: seq<byte>, whole: seq<byte>)
    requires Varint32(s).Done? && 0 < VarLen(s) <= 10 && 128 <= s[0] && whole == s[..VarLen(s)]
    ensures Varint32(s).val == Groups(whole) % TWO_TO_32
  {
    var p, result := FirstValue(s);
    Varint32TailValue(p, 7, s[1..], result, whole);
  }

  lemma FirstValue(s: seq<byte>) returns (p: seq<byte>, result: nat)
    requires 0 < VarLen(s) && 128 <= s[0]
    ensures |p| == 1 && result == Groups(p) % TWO_TO_32
    ensures Varint32(s) == Varint32Tail(s[1..], 7, result)
    ensures 0 < VarLen(s[1..]) == VarLen(s) - 1 && p + s[1..][..VarLen(s[1..])] == s[..VarLen(s)]
  {
    p, result := [s[0]], s[0] % 128;
    FirstGroup(s[0]);
  }

  lemma FirstGroup(b: byte)
    ensures Groups([b]) == Groups([b]) % TWO_TO_32 == b % 128
  {
    Groups1(b);
  }

  lemma ModuloTwice(g: nat)
    ensures g % TWO_TO_64 % TWO_TO_32 == g % TWO_TO_32
  {}

  lemma Groups1(b: byte)
    ensures Groups([b]) == b % 128
  {
    assert [b][1..] == [];
  }

  /** The ten-byte bound above is needed: a longer overlong zero is read by one decoder only. */
  lemma VarintDecodersDiffer()
    ensures var s := seq(10, i => 0x80) + [0];
            Varint32(s) == Done(0, []) && Varint64(s) == Fail
  {
    var s: seq<byte> := seq(10, i => 0x80) + [0];
    VarLenIs(s, 11);
    OverlongZero(s[1..], 7);
  }

  lemma {:induction false} OverlongZero(s: seq<byte>, bitpos: nat)
    requires bitpos + 7 * |s| < 256 && |s| != 0
    requires s[|s| - 1] == 0 && forall k :: 0 <= k < |s| - 1 ==> s[k] == 0x80
    ensures Varint32Tail(s, bitpos, 0) == Done(0, [])
  {
    AbsorbZero(s[0], bitpos);
    if 1 < |s| {
      assert Varint32Tail(s, bitpos, 0) == Varint32Tail(s[1..], bitpos + 7, 0);
      OverlongZero(s[1..], bitpos + 7);
    } else {
      assert s[1..] == [];
    }
  }

  lemma AbsorbZero(b: byte, bitpos: nat)
    requires b % 128 == 0
    ensures Absorb(b, bitpos, 0) == 0
  {
    ShlIsMultiplication(0, bitpos);
  }

  /** How the 32-bit loop reads on, behind the bytes p, in the encoding of a value it can represent. */
  lemma {:induction false} Varint32TailAccepts(p: seq<byte>, pos: nat, v: nat, t: seq<byte>, result: nat)
    requires 1 <= |p| <= 4 && pos == 7 * |p| && v < Pow2(32 - pos) && result == Groups(p) % TWO_TO_32
    ensures Varint32Tail(EncVarint(v) + t, pos, result) == Done(Groups(p + EncVarint(v)) % TWO_TO_32, t)
    decreases v
  {
    if v < 128 {
      AcceptsLast(p, pos, v, t, result);
    } else {
      var p', v', result' := SmallNext(p, pos, v, t, result);
      Varint32TailAccepts(p', pos + 7, v', t, result');
    }
  }

  lemma SmallNext(p: seq<byte>, pos: nat, v: nat, t: seq<byte>, result: nat)
    returns (p': seq<byte>, v': nat, result': nat)
    requires 1 <= |p| <= 4 && pos == 7 * |p| && 128 <= v < Pow2(32 - pos) && result == Groups(p) % TWO_TO_32
    ensures |p'| == |p| + 1 <= 4 && v' < v && v' < Pow2(32 - (pos + 7)) && result' == Groups(p') % TWO_TO_32
    ensures p' + EncVarint(v') == p + EncVarint(v)
    ensures Varint32Tail(EncVarint(v) + t, pos, result) == Varint32Tail(EncVarint(v') + t, pos + 7, result')
  {
    ShorterRegister(v, pos);
    result' := AcceptsNext(p, pos, v, t, result);
    p', v' := p + [FirstByte(v)], v / 128;
  }

  /** The first byte of an encoding of several bytes. */
  function FirstByte(v: nat): (b: byte)
    ensures 128 <= b && b % 128 == v % 128
  {
    128 + v % 128
  }

  lemma AcceptsLast(p: seq<byte>, pos: nat, v: nat, t: seq<byte>, result: nat)
    requires 1 <= |p| <= 4 && pos == 7 * |p| && v < 128 && v < Pow2(32 - pos) && result == Groups(p) % TWO_TO_32
    ensures Varint32Tail(EncVarint(v) + t, pos, result) == Done(Groups(p + EncVarint(v)) % TWO_TO_32, t)
  {
    EncFront(v, t);
    assert pos == 28 ==> v < 16 by { Pow2Four(); }
    RegisterStep(p, pos, v, result);
    LastGroup(EncVarint(v) + t, pos, result);
  }

  lemma AcceptsNext(p: seq<byte>, pos: nat, v: nat, t: seq<byte>, result: nat) returns (next: nat)
    requires 1 <= |p| <= 4 && pos == 7 * |p| && 128 <= v && result == Groups(p) % TWO_TO_32
    ensures Varint32Tail(EncVarint(v) + t, pos, result) == Varint32Tail(EncVarint(v / 128) + t, pos + 7, next)
    ensures next == Groups(p + [FirstByte(v)]) % TWO_TO_32
    ensures EncVarint(v) == [FirstByte(v)] + EncVarint(v / 128)
  {
    EncFront(v, t);
    next := Absorb(FirstByte(v), pos, result);
    RegisterStep(p, pos, FirstByte(v), result);
    NextGroup(EncVarint(v) + t, pos, result);
  }

  lemma NextGroup(s: seq<byte>, pos: nat, result: nat)
    requires pos <= 28 && s != [] && 128 <= s[0]
    ensures Varint32Tail(s, pos, result) == Varint32Tail(s[1..], pos + 7, Absorb(s[0], pos, result))
  {
    NextPosition(pos);
  }

  lemma LastGroup(s: seq<byte>, pos: nat, result: nat)
    requires pos <= 28 && s != [] && s[0] < 128 && (pos == 28 ==> s[0] < 16)
    ensures Varint32Tail(s, pos, result) == Done(Absorb(s[0], pos, result), s[1..])
  {
    NextPosition(pos);
  }

  lemma EncFront(v: nat, t: seq<byte>)
    ensures (EncVarint(v) + t)[0] == if v < 128 then v else 128 + v % 128
    ensures v < 128 ==> EncVarint(v) == [v] && (EncVarint(v) + t)[1..] == t
    ensures 128 <= v ==> EncVarint(v) == [128 + v % 128] + EncVarint(v / 128)
    ensures 128 <= v ==> (EncVarint(v) + t)[1..] == EncVarint(v / 128) + t
  {
    if 128 <= v {
      var w := EncVarint(v / 128);
      var first: byte := 128 + v % 128;
      assert ([first] + w + t)[1..] == w + t;
    }
  }

  lemma ShorterRegister(v: nat, k: nat)
    requires 128 <= v && k <= 28 && k % 7 == 0 && v < Pow2(32 - k)
    ensures k <= 21 && v / 128 < Pow2(32 - (k + 7))
  {
    if k == 28 {
      Pow2Four();
    } else {
      Pow2Seven(32 - (k + 7));
    }
  }

  /** A 32-bit read of an encoding of several bytes goes on behind the first one. */
  lemma Varint32Goes(v: nat, t: seq<byte>)
    requires 128 <= v
    ensures Varint32(EncVarint(v) + t) == Varint32Tail(EncVarint(v / 128) + t, 7, FirstByte(v) % 128)
    ensures EncVarint(v) == [FirstByte(v)] + EncVarint(v / 128)
  {
    EncFront(v, t);
  }

  /** The encoding of every 32-bit value is read back by the 32-bit decoder. */
  lemma Varint32RoundTrip(v: nat, t: seq<byte>)
    requires v < TWO_TO_32
    ensures Varint32(EncVarint(v) + t) == Done(v, t)
  {
    if 128 <= v { LongRoundTrip(v, t); } else { EncFront(v, t); }
  }

  lemma LongRoundTrip(v: nat, t: seq<byte>)
    requires 128 <= v < TWO_TO_32
    ensures Varint32(EncVarint(v) + t) == Done(v, t)
  {
    var first := FirstByte(v);
    Varint32Goes(v, t);
    FirstGroup(first);
    AfterFirstGroup(v);
    Varint32TailAccepts([first], 7, v / 128, t, first % 128);
    WholeValue(v);
  }

  lemma WholeValue(v: nat)
    requires v < TWO_TO_32
    ensures Groups(EncVarint(v)) % TWO_TO_32 == v
  {
    EncVarintValue(v);
    Reduce(0, v);
  }

  lemma AfterFirstGroup(v: nat)
    requires v < TWO_TO_32
    ensures v / 128 < Pow2(25)
  {
    Pow2To35();
    Pow2Seven(25);
  }

  /** A negative int32 that was sign-extended to 64 bits is read back as its low 32 bits. */
  lemma Varint32AcceptsNegative(n: nat, t: seq<byte>)
    requires TWO_TO_64 - TWO_TO_31 <= n < TWO_TO_64
    ensures Varint32(EncVarint(n) + t) == Done(n % TWO_TO_32, t)
  {
    assert Pow2(35) <= n by { Pow2To35(); }
    var p, v, result := LargeFirst(n, t);
    var q, w := FiveGroups(p, 7, v, t, result);
    NegativeEnds(q, w, n, t);
  }

  lemma LargeFirst(n: nat, t: seq<byte>) returns (p: seq<byte>, v: nat, result: nat)
    requires Pow2(35) <= n
    ensures |p| == 1 && Pow2(28) <= v && result == Groups(p) % TWO_TO_32 && Groups(p) + Shl(v, 7) == n
    ensures Varint32(EncVarint(n) + t) == Varint32Tail(EncVarint(v) + t, 7, result)
  {
    StillLarge(n, 28);
    p, v, result := [FirstByte(n)], n / 128, FirstByte(n) % 128;
    Varint32Goes(n, t);
    FirstGroup(FirstByte(n));
    FrontAndRest(n);
  }

  lemma NegativeEnds(q: seq<byte>, w: nat, n: nat, t: seq<byte>)
    requires |q| == 5 && TWO_TO_64 - TWO_TO_31 <= n < TWO_TO_64 && Groups(q) + Shl(w, 35) == n
    ensures Varint32Tail(EncVarint(w) + t, 35, Groups(q) % TWO_TO_32) == Done(n % TWO_TO_32, t)
  {
    SignRemains(q, w, n);
    SignTail(t, Groups(q) % TWO_TO_32);
  }

  lemma FrontAndRest(n: nat)
    ensures Groups([FirstByte(n)]) + Shl(n / 128, 7) == n
  {
    Groups1(FirstByte(n));
    ShlValues(n / 128);
  }

  /** The 32-bit loop takes in the first five groups of a large value, whatever they are. */
  lemma {:induction false} FiveGroups(p: seq<byte>, pos: nat, v: nat, t: seq<byte>, result: nat)
    returns (q: seq<byte>, w: nat)
    requires 1 <= |p| <= 5 && pos == 7 * |p| && Pow2(35 - pos) <= v && result == Groups(p) % TWO_TO_32
    ensures |q| == 5 && Groups(q) + Shl(w, 35) == Groups(p) + Shl(v, pos)
    ensures Varint32Tail(EncVarint(v) + t, pos, result) == Varint32Tail(EncVarint(w) + t, 35, Groups(q) % TWO_TO_32)
    decreases 5 - |p|
  {
    if |p| == 5 {
      q, w := p, v;
    } else {
      var p', v', result' := LargeNext(p, pos, v, t, result);
      q, w := FiveGroups(p', pos + 7, v', t, result');
    }
  }

  lemma LargeNext(p: seq<byte>, pos: nat, v: nat, t: seq<byte>, result: nat)
    returns (p': seq<byte>, v': nat, result': nat)
    requires 1 <= |p| <= 4 && pos == 7 * |p| && Pow2(35 - pos) <= v && result == Groups(p) % TWO_TO_32
    ensures |p'| == |p| + 1 && Pow2(35 - (pos + 7)) <= v' && result' == Groups(p') % TWO_TO_32
    ensures Groups(p') + Shl(v', pos + 7) == Groups(p) + Shl(v, pos)
    ensures Varint32Tail(EncVarint(v) + t, pos, result) == Varint32Tail(EncVarint(v') + t, pos + 7, result')
  {
    StillLarge(v, 35 - (pos + 7));
    result' := AcceptsNext(p, pos, v, t, result);
    p', v' := p + [FirstByte(v)], v / 128;
    MoveGroup(p, pos, FirstByte(v), v);
  }

  lemma StillLarge(v: nat, n: nat)
    requires Pow2(n + 7) <= v
    ensures 128 <= v && Pow2(n) <= v / 128
  {
    Pow2Seven(n);
  }

  lemma MoveGroup(p: seq<byte>, pos: nat, b: byte, v: nat)
    requires pos == 7 * |p| && b % 128 == v % 128
    ensures Groups(p + [b]) + Shl(v / 128, pos + 7) == Groups(p) + Shl(v, pos)
  {
    GroupsAppend(p, b);
    ShlSplit(v, pos);
  }

  lemma SignRemains(p: seq<byte>, v: nat, n: nat)
    requires |p| == 5
    requires TWO_TO_64 - TWO_TO_31 <= n < TWO_TO_64 && Groups(p) + Shl(v, 35) == n
    ensures v == 0x1FFF_FFFF && n % TWO_TO_32 == Groups(p) % TWO_TO_32 && TWO_TO_31 <= Groups(p) % TWO_TO_32
  {
    GroupsBound(p);
    Pow2To35();
    Shl35(v);
    AddMultiple(Groups(p), 0x8_0000_0000 * v);
  }

  lemma SignTail(t: seq<byte>, result: nat)
    requires TWO_TO_31 <= result < TWO_TO_32
    ensures Varint32Tail(EncVarint(0x1FFF_FFFF) + t, 35, result) == Done(result, t)
  {
    EncFront(0x1FFF_FFFF, t);
    EncFront(0x3F_FFFF, t);
    EncFront(0x7FFF, t);
    EncFront(0xFF, t);
    EncFront(1, t);
    SignByte(EncVarint(0x1FFF_FFFF) + t, 35, result);
    SignByte(EncVarint(0x3F_FFFF) + t, 42, result);
    SignByte(EncVarint(0x7FFF) + t, 49, result);
    SignByte(EncVarint(0xFF) + t, 56, result);
  }

  lemma SignByte(s: seq<byte>, bitpos: nat, result: nat)
    requires 32 <= bitpos < 63 && s != [] && s[0] == 0xFF && TWO_TO_31 <= result
    ensures Varint32Tail(s, bitpos, result) == Varint32Tail(s[1..], bitpos + 7, result)
  {}

  //////////////////////////////////////////////////////////////////////////////
  // Locality: a read that succeeds does not depend on what follows
  //////////////////////////////////////////////////////////////////////////////

  /** The same outcome, with t after what is left. */
  function Extend<T>(r: Parse<T>, t: seq<byte>): Parse<T> {
    match r
    case Fail => Fail
    case Done(v, rest) => Done(v, rest + t)
  }

  lemma {:induction false} VarLenExtends(s: seq<byte>, t: seq<byte>)
    requires 0 < VarLen(s)
    ensures VarLen(s + t) == VarLen(s)
  {
    assert (s + t)[1..] == s[1..] + t;
    if 128 <= s[0] { VarLenExtends(s[1..], t); }
  }

  lemma {:induction false} Varint32TailExtends(s: seq<byte>, t: seq<byte>, bitpos: nat, result: nat)
    requires Varint32Tail(s, bitpos, result).Done?
    ensures Varint32Tail(s + t, bitpos, result) == Extend(Varint32Tail(s, bitpos, result), t)
  {
    assert (s + t)[1..] == s[1..] + t;
    if 128 <= s[0] {
      Varint32TailExtends(s[1..], t, (bitpos + 7) % 256, Absorb(s[0], bitpos, result));
    }
  }

  lemma Varint32Extends(s: seq<byte>, t: seq<byte>)
    requires Varint32(s).Done?
    ensures Varint32(s + t) == Extend(Varint32(s), t)
  {
    assert (s + t)[1..] == s[1..] + t;
    if 128 <= s[0] { Varint32TailExtends(s[1..], t, 7, s[0] % 128); }
  }

  lemma SkipVarintExtends(s: seq<byte>, t: seq<byte>)
    requires SkipVarint(s).Done?
    ensures SkipVarint(s + t) == Extend(SkipVarint(s), t)
  {
    VarLenExtends(s, t);
    assert (s + t)[VarLen(s)..] == s[VarLen(s)..] + t;
  }

  lemma Varint64Extends(s: seq<byte>, t: seq<byte>)
    requires Varint64(s).Done?
    ensures Varint64(s + t) == Extend(Varint64(s), t)
  {
    VarLenExtends(s, t);
    assert (s + t)[..VarLen(s)] == s[..VarLen(s)];
    assert (s + t)[VarLen(s)..] == s[VarLen(s)..] + t;
  }
}
