/**
  Keys of a CMP_BITS pool: strings of `len` bits held in bytes, compared by `bit_cmp`.
*/
module BitKeys {

  import opened Wire

  datatype Elem = Elem(len: nat, data: seq<byte>)

  /** An element whose `len` counts bits that its data holds. */
  type BitKey = e: Elem | e.len <= 8 * |e.data| witness Elem(0, [])

  function Sign(x: int): int { if x < 0 then -1 else if x > 0 then 1 else 0 }

  function Pow2(n: nat): (p: nat)
    ensures p > 0
  {
    if n == 0 then 1 else 2 * Pow2(n - 1)
  }

  /** `memcmp` over the first `n` bytes, reduced to its sign. */
  function Memcmp(a: seq<byte>, b: seq<byte>, n: nat): int
    requires n <= |a| && n <= |b|
  {
    if n == 0 then 0
    else if a[0] != b[0] then (if a[0] < b[0] then -1 else 1)
    else Memcmp(a[1..], b[1..], n - 1)
  }

  /** `v >> k`: an arithmetic shift is that many floored halvings. */
  function Halve(v: int, k: nat): int
    decreases k
  {
    if k == 0 then v else Halve(v / 2, k - 1)
  }

  /** `(uint8_t)(c >> k)` for a plain `char` c, which may be signed. */
  function ShiftRight(signed: bool, c: byte, k: nat): int {
    Halve(if signed && c >= 128 then c as int - 256 else c, k) % 256
  }

  /** `bit_cmp` */
  function BitCmp(signed: bool, p: BitKey, q: BitKey): int {
    var len := if q.len < p.len then q.len else p.len;
    var df, bytes := len % 8, len / 8;
    var cmp := Memcmp(p.data, q.data, bytes);
    if cmp != 0 || df == 0 then cmp
    else
      var c1 := ShiftRight(signed, p.data[bytes], 8 - df);
      var c2 := ShiftRight(signed, q.data[bytes], 8 - df);
      if c1 != c2 then (if c1 < c2 then -1 else 1) else 0
  }

  // ----- what it means: bit strings up to the shorter one

  /** The low `n` bits of `v`, most significant first. */
  ghost function BitsOf(v: int, n: nat): (s: seq<bool>)
    ensures |s| == n
    decreases n
  {
    if n == 0 then [] else BitsOf(v / 2, n - 1) + [v % 2 == 1]
  }

  /** The first `len` bits of `data`. */
  ghost function BitString(data: seq<byte>, len: nat): (s: seq<bool>)
    requires len <= 8 * |data|
    ensures |s| == len
  {
    if len == 0 then []
    else if len < 8 then BitsOf(Halve(data[0], 8 - len), len)
    else BitsOf(data[0], 8) + BitString(data[1..], len - 8)
  }

  ghost function Bits(k: BitKey): (s: seq<bool>)
    ensures |s| == k.len
  {
    BitString(k.data, k.len)
  }

  /** Compares bit by bit; a string and a prefix of it compare equal. */
  ghost function Lex(a: seq<bool>, b: seq<bool>): int {
    if a == [] || b == [] then 0
    else if a[0] != b[0] then (if a[0] then 1 else -1)
    else Lex(a[1..], b[1..])
  }

  lemma {:induction false} LexAppend(a: seq<bool>, b: seq<bool>, c: seq<bool>, d: seq<bool>)
    requires |a| == |b|
    ensures Lex(a + c, b + d) == if Lex(a, b) != 0 then Lex(a, b) else Lex(c, d)
  {
    if a == [] {
      assert a + c == c && b + d == d;
    } else {
      assert (a + c)[1..] == a[1..] + c && (b + d)[1..] == b[1..] + d;
      LexAppend(a[1..], b[1..], c, d);
    }
  }

  /** The same number of bits compares like the numbers they stand for. */
  lemma {:induction false} LexNumbers(v: int, w: int, n: nat)
    requires 0 <= v < Pow2(n) && 0 <= w < Pow2(n)
    ensures Lex(BitsOf(v, n), BitsOf(w, n)) == Sign(v - w)
  {
    if n > 0 {
      LexNumbers(v / 2, w / 2, n - 1);
      LexAppend(BitsOf(v / 2, n - 1), BitsOf(w / 2, n - 1), [v % 2 == 1], [w % 2 == 1]);
      assert Lex([v % 2 == 1], [w % 2 == 1]) == Sign(v % 2 - w % 2) by {
        assert [v % 2 == 1][1..] == [] && [w % 2 == 1][1..] == [];
      }
    }
  }

  /** The leading bits of a number are those of the number shifted right. */
  lemma {:induction false} LeadingBits(v: int, n: nat, k: nat)
    ensures BitsOf(v, n + k)[..n] == BitsOf(Halve(v, k), n)
    decreases k
  {
    if k > 0 { LeadingBits(v / 2, n, k - 1); }
  }

  lemma {:induction false} HalveHalve(v: int, a: nat, b: nat)
    ensures Halve(Halve(v, a), b) == Halve(v, a + b)
    decreases a
  {
    if a > 0 { HalveHalve(v / 2, a - 1, b); }
  }

  lemma {:induction false} HalveBounds(v: int, k: nat, e: nat, f: nat)
    requires k <= e <= f && Pow2(e) <= v < Pow2(f)
    ensures Pow2(e - k) <= Halve(v, k) < Pow2(f - k)
    decreases k
  {
    if k > 0 { HalveBounds(v / 2, k - 1, e - 1, f - 1); }
  }

  lemma {:induction false} HalveBelow(v: int, k: nat, f: nat)
    requires k <= f && 0 <= v < Pow2(f)
    ensures 0 <= Halve(v, k) < Pow2(f - k)
    decreases k
  {
    if k > 0 { HalveBelow(v / 2, k - 1, f - 1); }
  }

  lemma {:induction false} HalveMinus(v: int, k: nat, e: nat)
    requires k <= e
    ensures Halve(v - Pow2(e), k) == Halve(v, k) - Pow2(e - k)
    decreases k
  {
    if k > 0 {
      assert (v - 2 * Pow2(e - 1)) / 2 == v / 2 - Pow2(e - 1);
      HalveMinus(v / 2, k - 1, e - 1);
    }
  }

  lemma Powers()
    ensures Pow2(0) == 1 && Pow2(1) == 2 && Pow2(2) == 4 && Pow2(3) == 8 && Pow2(4) == 16
    ensures Pow2(5) == 32 && Pow2(6) == 64 && Pow2(7) == 128 && Pow2(8) == 256
  {
  }

  /** The value of a shifted byte: the quotient, with the sign bits in front if there are any. */
  lemma ShiftedByte(signed: bool, c: byte, k: nat)
    requires 1 <= k <= 7
    ensures ShiftRight(signed, c, k) == Halve(c, k) + if signed && c >= 128 then 256 - Pow2(8 - k) else 0
    ensures if c >= 128 then Pow2(7 - k) <= Halve(c, k) < Pow2(8 - k) else 0 <= Halve(c, k) < Pow2(7 - k)
    ensures Pow2(8 - k) == 2 * Pow2(7 - k) <= 128
  {
    hide Halve, Pow2;
    PowSmall(k);
    Powers();
    HalveMinus(c, k, 8);
    if c >= 128 { HalveBounds(c, k, 7, 8); } else { HalveBelow(c, k, 7); }
  }

  lemma PowSmall(k: nat)
    requires 1 <= k <= 7
    ensures Pow2(8 - k) == 2 * Pow2(7 - k) && Pow2(7 - k) <= 64
  {
    Powers();
    assert 7 - k == 0 || 7 - k == 1 || 7 - k == 2 || 7 - k == 3 || 7 - k == 4 || 7 - k == 5 || 7 - k == 6;
  }

  /** Shifting keeps the order of bytes, whether or not plain `char` is signed. */
  lemma ShiftRightOrder(signed: bool, x: byte, y: byte, k: nat)
    requires 1 <= k <= 7
    ensures Sign(ShiftRight(signed, x, k) - ShiftRight(signed, y, k)) == Sign(Halve(x, k) - Halve(y, k))
  {
    hide Halve, ShiftRight, Pow2;
    ShiftedByte(signed, x, k);
    ShiftedByte(signed, y, k);
  }

  lemma LexPrefix(a: seq<bool>, b: seq<bool>, n: nat)
    requires n <= |a| && n <= |b| && (n == |a| || n == |b|)
    ensures Lex(a, b) == Lex(a[..n], b[..n])
  {
    assert a == a[..n] + a[n..] && b == b[..n] + b[n..];
    LexAppend(a[..n], b[..n], a[n..], b[n..]);
  }

  /** The first `n` bits of a bit string that starts in the byte `data[0]`. */
  lemma FirstBits(data: seq<byte>, len: nat, n: nat)
    requires len <= 8 * |data| && n <= len && 0 < n < 8
    ensures BitString(data, len)[..n] == BitsOf(Halve(data[0], 8 - n), n)
  {
    hide Halve, BitsOf, BitString;
    var m := if len < 8 then len else 8;
    var v := Halve(data[0], 8 - m);
    FirstByte(data, len);
    assert BitString(data, len)[..n] == BitString(data, len)[..m][..n];
    LeadingBits(v, n, m - n);
    HalveHalve(data[0], 8 - m, m - n);
  }

  lemma FirstByte(data: seq<byte>, len: nat)
    requires 0 < len <= 8 * |data|
    ensures var m := if len < 8 then len else 8;
            BitString(data, len)[..m] == BitsOf(Halve(data[0], 8 - m), m)
  {
    hide BitsOf;
    assert Halve(data[0], 0) == data[0];
    if len >= 8 {
      assert (BitsOf(data[0], 8) + BitString(data[1..], len - 8))[..8] == BitsOf(data[0], 8);
    }
  }

  /** `bit_cmp` compares the two bit strings up to the length of the shorter one: it is
      zero exactly for a string and a prefix of it, whatever the bits past `len` are. */
  lemma {:induction false} BitCmpIsLex(signed: bool, p: BitKey, q: BitKey)
    ensures BitCmp(signed, p, q) == Lex(Bits(p), Bits(q))
    decreases p.len
  {
    var n := if q.len < p.len then q.len else p.len;
    if n >= 8 {
      BitCmpIsLex(signed, Elem(p.len - 8, p.data[1..]), Elem(q.len - 8, q.data[1..]));
      LongIsLex(signed, p, q);
    } else if n > 0 {
      ShortIsLex(signed, p, q, n);
    }
  }

  lemma LongIsLex(signed: bool, p: BitKey, q: BitKey)
    requires p.len >= 8 && q.len >= 8
    requires var p', q' := Elem(p.len - 8, p.data[1..]), Elem(q.len - 8, q.data[1..]);
             BitCmp(signed, p', q') == Lex(Bits(p'), Bits(q'))
    ensures BitCmp(signed, p, q) == Lex(Bits(p), Bits(q))
  {
    var p', q' := Elem(p.len - 8, p.data[1..]), Elem(q.len - 8, q.data[1..]);
    hide BitsOf, BitString, Bits, BitCmp, Lex, Pow2;
    Powers();
    BitsPeel(p);
    BitsPeel(q);
    BitCmpPeel(signed, p, q, p', q');
    LexNumbers(p.data[0], q.data[0], 8);
    LexAppend(BitsOf(p.data[0], 8), BitsOf(q.data[0], 8), Bits(p'), Bits(q'));
  }

  lemma BitsPeel(p: BitKey)
    requires p.len >= 8
    ensures Bits(p) == BitsOf(p.data[0], 8) + Bits(Elem(p.len - 8, p.data[1..]))
  {
    hide BitsOf;
  }

  lemma ShortIsLex(signed: bool, p: BitKey, q: BitKey, n: nat)
    requires 0 < n < 8 && n == if q.len < p.len then q.len else p.len
    ensures BitCmp(signed, p, q) == Lex(Bits(p), Bits(q))
  {
    hide BitsOf, BitString, BitCmp, Lex, Halve, ShiftRight, Pow2;
    BitCmpShort(signed, p, q, n);
    Powers();
    FirstBits(p.data, p.len, n);
    FirstBits(q.data, q.len, n);
    HalveBelow(p.data[0], 8 - n, 8);
    HalveBelow(q.data[0], 8 - n, 8);
    LexPrefix(Bits(p), Bits(q), n);
    LexNumbers(Halve(p.data[0], 8 - n), Halve(q.data[0], 8 - n), n);
    ShiftRightOrder(signed, p.data[0], q.data[0], 8 - n);
  }

  lemma BitCmpShort(signed: bool, p: BitKey, q: BitKey, n: nat)
    requires 0 < n < 8 && n == if q.len < p.len then q.len else p.len
    ensures BitCmp(signed, p, q) == Sign(ShiftRight(signed, p.data[0], 8 - n) - ShiftRight(signed, q.data[0], 8 - n))
  {
  }

  lemma BitCmpPeel(signed: bool, p: BitKey, q: BitKey, p': BitKey, q': BitKey)
    requires p.len >= 8 && q.len >= 8
    requires p' == Elem(p.len - 8, p.data[1..]) && q' == Elem(q.len - 8, q.data[1..])
    ensures BitCmp(signed, p, q) ==
              if p.data[0] != q.data[0] then Sign(p.data[0] as int - q.data[0] as int) else BitCmp(signed, p', q')
  {
    var len := if q.len < p.len then q.len else p.len;
    assert (len - 8) % 8 == len % 8 && (len - 8) / 8 == len / 8 - 1;
  }

  // ----- the order it induces on keys none of which is a prefix of another

  /** One of the two strings is a prefix of the other. */
  ghost predicate Related(a: seq<bool>, b: seq<bool>) { a <= b || b <= a }

  lemma {:induction false} LexZero(a: seq<bool>, b: seq<bool>)
    ensures Lex(a, b) == 0 <==> Related(a, b)
  {
    if a != [] && b != [] && a[0] == b[0] {
      LexZero(a[1..], b[1..]);
      assert a == [a[0]] + a[1..] && b == [b[0]] + b[1..];
    }
  }

  lemma {:induction false} LexFlip(a: seq<bool>, b: seq<bool>)
    ensures Lex(b, a) == -Lex(a, b)
  {
    if a != [] && b != [] && a[0] == b[0] { LexFlip(a[1..], b[1..]); }
  }

  /** Everything a search needs: below a key that is below `b` means below `b`, and
      related to a key below `b` means not above `b`. */
  lemma {:induction false} LexGuides(x: seq<bool>, a: seq<bool>, b: seq<bool>)
    requires Lex(a, b) < 0
    ensures Lex(x, a) <= 0 ==> Lex(x, b) <= 0
    ensures Lex(x, a) < 0 ==> Lex(x, b) < 0
  {
    if x != [] && a[0] == b[0] && x[0] == a[0] { LexGuides(x[1..], a[1..], b[1..]); }
  }
}
