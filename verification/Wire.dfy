/**
  Bytes, big-endian integers and exclusive or, as the codecs of this project use them.
*/
module Wire {

  type byte = x: int | 0 <= x < 256

  type bytes = seq<byte>

  datatype Option<+T> = None | Some(value: T)

  /** The low `width` bytes of `n`, most significant first. */
  function Be(n: nat, width: nat): (r: bytes)
    ensures |r| == width
  {
    if width == 0 then [] else Be(n / 256, width - 1) + [n % 256]
  }

  /** The number that a string of bytes denotes, most significant first. */
  function Value(s: bytes): (n: nat) {
    if s == [] then 0 else Value(s[..|s| - 1]) * 256 + s[|s| - 1]
  }

  function Power(width: nat): (n: nat)
    ensures n > 0
  {
    if width == 0 then 1 else 256 * Power(width - 1)
  }

  lemma {:induction false} BeValue(s: bytes)
    ensures Be(Value(s), |s|) == s && Value(s) < Power(|s|)
  {
    if s != [] {
      var init := s[..|s| - 1];
      BeValue(init);
      assert Value(s) / 256 == Value(init) && Value(s) % 256 == s[|s| - 1];
      assert s == init + [s[|s| - 1]];
    }
  }

  lemma {:induction false} ValueBe(n: nat, width: nat)
    requires n < Power(width)
    ensures Value(Be(n, width)) == n
  {
    if width > 0 {
      ValueBe(n / 256, width - 1);
      var s := Be(n, width);
      assert s[..|s| - 1] == Be(n / 256, width - 1);
    }
  }

  lemma TwoBytes(n: nat)
    requires n < 0x10000
    ensures Be(n, 2) == [n / 256, n % 256]
  {
    assert Be(n / 256, 1) == Be(n / 256 / 256, 0) + [n / 256 % 256];
  }

  lemma ValueTwo(a: byte, b: byte)
    ensures Value([a, b]) == a * 256 + b
  {
    var s: bytes := [a, b];
    assert s[..1] == [a];
    assert Value([a]) == Value([a][..0]) * 256 + a;
  }

  /** A byte as its eight bits, for the operators that work bit by bit. */
  datatype Bits = Bits(b7: bool, b6: bool, b5: bool, b4: bool, b3: bool, b2: bool, b1: bool, b0: bool) {

    function And(o: Bits): Bits {
      Bits(b7 && o.b7, b6 && o.b6, b5 && o.b5, b4 && o.b4, b3 && o.b3, b2 && o.b2, b1 && o.b1, b0 && o.b0)
    }

    function Xor(o: Bits): Bits {
      Bits(b7 != o.b7, b6 != o.b6, b5 != o.b5, b4 != o.b4, b3 != o.b3, b2 != o.b2, b1 != o.b1, b0 != o.b0)
    }

    function Not(): Bits {
      Bits(!b7, !b6, !b5, !b4, !b3, !b2, !b1, !b0)
    }

    /** Shift left by one. */
    function Shl(): Bits {
      Bits(b6, b5, b4, b3, b2, b1, b0, false)
    }

    /** The number these bits denote. */
    function Num(): (n: byte) {
      16 * Nibble(b7, b6, b5, b4) + Nibble(b3, b2, b1, b0)
    }
  }

  function Nibble(b3: bool, b2: bool, b1: bool, b0: bool): (n: nat)
    ensures n < 16
  {
    (if b3 then 8 else 0) + (if b2 then 4 else 0) + (if b1 then 2 else 0) + (if b0 then 1 else 0)
  }

  predicate BitAt(n: nat, weight: nat)
    requires weight > 0
  {
    n / weight % 2 == 1
  }

  function ToBits(n: byte): (b: Bits) {
    var h, l := n / 16, n % 16;
    Bits(BitAt(h, 8), BitAt(h, 4), BitAt(h, 2), BitAt(h, 1), BitAt(l, 8), BitAt(l, 4), BitAt(l, 2), BitAt(l, 1))
  }

  lemma NibbleBits(b3: bool, b2: bool, b1: bool, b0: bool)
    ensures var n := Nibble(b3, b2, b1, b0); BitAt(n, 8) == b3 && BitAt(n, 4) == b2 && BitAt(n, 2) == b1 && BitAt(n, 1) == b0
  {
  }

  lemma BitsNibble(n: nat)
    requires n < 16
    ensures Nibble(BitAt(n, 8), BitAt(n, 4), BitAt(n, 2), BitAt(n, 1)) == n
  {
  }

  lemma NumBits(n: byte)
    ensures ToBits(n).Num() == n
  {
    hide BitAt, Nibble;
    BitsNibble(n / 16);
    BitsNibble(n % 16);
  }

  lemma BitsNum(b: Bits)
    ensures ToBits(b.Num()) == b
  {
    hide BitAt, Nibble;
    var h, l := Nibble(b.b7, b.b6, b.b5, b.b4), Nibble(b.b3, b.b2, b.b1, b.b0);
    assert b.Num() / 16 == h && b.Num() % 16 == l;
    NibbleBits(b.b7, b.b6, b.b5, b.b4);
    NibbleBits(b.b3, b.b2, b.b1, b.b0);
  }

  function Xor(a: byte, b: byte): (r: byte) {
    ToBits(a).Xor(ToBits(b)).Num()
  }

  lemma XorTwice(a: byte, b: byte)
    ensures Xor(Xor(a, b), b) == a
  {
    hide ToBits;
    BitsNum(ToBits(a).Xor(ToBits(b)));
    NumBits(a);
  }

  ghost function Flatten<T>(parts: seq<seq<T>>): (r: seq<T>) {
    if parts == [] then [] else parts[0] + Flatten(parts[1..])
  }

  lemma {:induction false} FlattenSnoc<T>(parts: seq<seq<T>>, last: seq<T>)
    ensures Flatten(parts + [last]) == Flatten(parts) + last
  {
    if parts == [] {
      assert (parts + [last])[1..] == [];
    } else {
      assert (parts + [last])[1..] == parts[1..] + [last];
      FlattenSnoc(parts[1..], last);
    }
  }
}
