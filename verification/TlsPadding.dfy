/**
  `extractPadding` of `conn.go`: the constant-time check of CBC padding, bit arithmetic and all.
*/
module TlsPadding {
  import opened Wire

  /** The rule of section 6.2.3.2 of RFC 5246: the last byte says how many bytes of the same value
      stand before it, and they do. */
  predicate PaddingOk(payload: bytes) {
    && payload != []
    && var pad := payload[|payload| - 1];
    && pad < |payload|
    && forall i :: |payload| - 1 - pad <= i < |payload| ==> payload[i] == pad
  }

  const WORD: nat := 0x1_0000_0000_0000_0000

  const ONES := Bits(true, true, true, true, true, true, true, true)
  const ZEROS := Bits(false, false, false, false, false, false, false, false)

  /** `byte(int32(^t) >> 31)`: the low half of the complement, its sign bit copied everywhere. */
  function SignMask(t: nat): (m: Bits)
    requires t < WORD
  {
    var low := (WORD - 1 - t) % 0x1_0000_0000;
    var int32 := if low < 0x8000_0000 then low else low - 0x1_0000_0000;
    if int32 >= 0 then ZEROS else ONES
  }

  /** Unsigned subtraction. */
  function Minus(a: nat, b: nat): (r: nat)
    requires a < WORD && b < WORD
    ensures r < WORD
  {
    if a >= b then a - b else a - b + WORD
  }

  /** The mask is all ones exactly when bit 31 of the difference is clear: the borrow of a
      negative difference is seen, and so is a difference of 2^31 or more. */
  lemma SignMaskMinus(a: nat, b: nat)
    requires a < WORD && b < 0x8000_0000
    ensures SignMask(Minus(a, b)) == if b <= a && (a - b) / 0x8000_0000 % 2 == 0 then ONES else ZEROS
  {
    var t := Minus(a, b);
    var q, r := t / 0x1_0000_0000, t % 0x1_0000_0000;
    assert WORD - 1 - t == (0xFFFF_FFFF - q) * 0x1_0000_0000 + (0xFFFF_FFFF - r);
    Remainder(0xFFFF_FFFF - q, 0xFFFF_FFFF - r);
    if a >= b {
      HalfWord(t);
    }
  }

  lemma Remainder(q: nat, r: nat)
    requires r < 0x1_0000_0000
    ensures (q * 0x1_0000_0000 + r) % 0x1_0000_0000 == r
  {
  }

  lemma HalfWord(t: nat)
    ensures t % 0x1_0000_0000 < 0x8000_0000 <==> t / 0x8000_0000 % 2 == 0
  {
  }

  /** `good &^= mask & p ^ mask & b` */
  function Cleared(good: Bits, mask: Bits, p: Bits, b: Bits): (r: Bits)
    requires mask == ZEROS || mask == ONES
    ensures r == ONES <==> good == ONES && (mask == ZEROS || p == b)
  {
    ClearedIs(good, mask, p, b);
    good.And(mask.And(p).Xor(mask.And(b)).Not())
  }

  lemma ClearedIs(good: Bits, mask: Bits, p: Bits, b: Bits)
    requires mask == ZEROS || mask == ONES
    ensures good.And(mask.And(p).Xor(mask.And(b)).Not()) == ONES <==> good == ONES && (mask == ZEROS || p == b)
  {
    var m := mask.And(p).Xor(mask.And(b)).Not();
    if mask == ZEROS { Unmasked(p, b); } else { Masked(p, b); }
    AndOnes(good, m);
  }

  lemma Unmasked(p: Bits, b: Bits)
    ensures ZEROS.And(p).Xor(ZEROS.And(b)).Not() == ONES
  {
  }

  lemma Masked(p: Bits, b: Bits)
    ensures ONES.And(p).Xor(ONES.And(b)).Not() == ONES <==> p == b
  {
    var x := ONES.And(p).Xor(ONES.And(b)).Not();
    assert x == Bits(p.b7 == b.b7, p.b6 == b.b6, p.b5 == b.b5, p.b4 == b.b4, p.b3 == b.b3, p.b2 == b.b2, p.b1 == b.b1, p.b0 == b.b0);
  }

  lemma AndOnes(a: Bits, m: Bits)
    ensures a.And(m) == ONES <==> a == ONES && m == ONES
  {
  }

  /** The three folding steps and the final arithmetic shift. */
  function Replicate(good: Bits): (r: Bits)
    ensures r == if good == ONES then ONES else ZEROS
  {
    var g4 := good.And(good.Shl().Shl().Shl().Shl());
    var g2 := g4.And(g4.Shl().Shl());
    var g1 := g2.And(g2.Shl());
    if g1.b7 then ONES else ZEROS
  }

  /** The `n` bytes that end the payload all have the value `pad`. */
  ghost predicate Tail(payload: bytes, n: nat, pad: byte)
    requires n <= |payload|
  {
    forall i :: |payload| - n <= i < |payload| ==> payload[i] == pad
  }

  /** `extractPadding`, for every payload a slice can hold: it accepts exactly the padding the rule
      accepts, provided bit 31 of the length that is left is clear. */
  method ExtractPadding(payload: bytes) returns (toRemove: nat, good: byte)
    requires |payload| < WORD / 2
    ensures payload == [] ==> toRemove == 0 && good == 0
    ensures payload != [] ==>
              if PaddingOk(payload) && (|payload| - 1 - payload[|payload| - 1]) / 0x8000_0000 % 2 == 0
              then good == 255 && toRemove == payload[|payload| - 1] as int + 1
              else good == 0 && toRemove == 1
  {
    if |payload| < 1 {
      return 0, 0;
    }
    hide *;
    var paddingLen := payload[|payload| - 1];
    var g := SignMask(Minus(|payload| - 1, paddingLen));
    SignMaskMinus(|payload| - 1, paddingLen);
    ghost var start := g;
    var toCheck := 256;
    if toCheck > |payload| {
      toCheck := |payload|;
    }
    TailNone(payload, paddingLen);
    var i := 0;
    while i < toCheck
      invariant 0 <= i <= toCheck
      invariant g == ONES <==> start == ONES && Tail(payload, if i <= paddingLen then i else paddingLen as int + 1, paddingLen)
    {
      var b := payload[|payload| - 1 - i];
      SignMaskByte(paddingLen, i);
      BitsSame(paddingLen, b);
      TailMore(payload, i, paddingLen);
      g := Cleared(g, SignMask(Minus(paddingLen, i)), ToBits(paddingLen), ToBits(b));
      i := i + 1;
    }
    PaddingTail(payload);
    g := Replicate(g);
    MaskByte(paddingLen, g);
    paddingLen := ToBits(paddingLen).And(g).Num();
    return paddingLen as int + 1, g.Num();
  }

  lemma SignMaskByte(p: byte, i: nat)
    requires i < 256
    ensures SignMask(Minus(p, i)) == if i <= p then ONES else ZEROS
  {
    SignMaskMinus(p, i);
  }

  lemma BitsSame(a: byte, b: byte)
    ensures ToBits(a) == ToBits(b) <==> a == b
  {
    NumBits(a);
    NumBits(b);
  }

  lemma TailNone(payload: bytes, pad: byte)
    ensures Tail(payload, 0, pad)
  {
  }

  lemma TailMore(payload: bytes, i: nat, pad: byte)
    requires i < |payload|
    ensures Tail(payload, i + 1, pad) <==> Tail(payload, i, pad) && payload[|payload| - 1 - i] == pad
  {
  }

  lemma PaddingTail(payload: bytes)
    requires payload != []
    ensures var pad := payload[|payload| - 1];
            PaddingOk(payload) <==> pad < |payload| && Tail(payload, pad as int + 1, pad)
  {
  }

  lemma MaskByte(n: byte, g: Bits)
    requires g == ONES || g == ZEROS
    ensures ToBits(n).And(g).Num() == if g == ONES then n else 0
    ensures g.Num() == if g == ONES then 255 else 0
  {
    NumBits(n);
  }

  /** For every payload shorter than 2^31 bytes the check is the plain rule. */
  lemma ShortPayloads(payload: bytes)
    requires 0 < |payload| <= 0x8000_0000
    ensures PaddingOk(payload) ==> (|payload| - 1 - payload[|payload| - 1]) / 0x8000_0000 % 2 == 0
  {
  }
}
