/** The bit-string codec shared by every command of the library: `conv_len`
    renders a number as a zero-padded binary string and `bits_to_bytes` cuts a
    binary string into bytes, by default in reversed (little-endian) order. */
module BitCodec {

  /** A binary string, most significant digit first; `true` is the digit '1'. */
  type Bits = seq<bool>

  function Pow2(n: nat): (r: nat)
    ensures r >= 1
  {
    if n == 0 then 1 else 2 * Pow2(n - 1)
  }

  function Max(a: int, b: int): int
  {
    if a >= b then a else b
  }

  /** The number a binary digit stands for, as `int(str(int(b)))` gives it. */
  function Bit(b: bool): nat
  {
    if b then 1 else 0
  }

  /** `'0' * n` (empty when n is not positive). */
  function Zeros(n: int): (r: Bits)
    ensures |r| == Max(n, 0)
    ensures forall i :: 0 <= i < |r| ==> !r[i]
    decreases n
  {
    if n <= 0 then [] else [false] + Zeros(n - 1)
  }

  /** `int(s, 2)`: the big-endian reading of a binary string. */
  function Value(s: Bits): nat
  {
    if s == [] then 0 else 2 * Value(s[..|s| - 1]) + Bit(s[|s| - 1])
  }

  /** `bin(a)[2:]`: the shortest binary rendering of a, which is "0" for zero. */
  function Binary(a: nat): (r: Bits)
    ensures |r| >= 1
  {
    if a < 2 then [a == 1] else Binary(a / 2) + [a % 2 == 1]
  }

  /** `conv_len(a, l)`: a in binary, left-padded with zeros to l digits. A value
      that needs more than l digits keeps them all: the padding is then empty. */
  function ConvLen(a: nat, l: nat): Bits
  {
    Zeros(l - |Binary(a)|) + Binary(a)
  }

  /** The string `bits_to_bytes` works on: left-padded with zeros to a whole
      number of bytes. */
  function PadToByte(s: Bits): Bits
  {
    if |s| % 8 != 0 then Zeros(8 - |s| % 8) + s else s
  }

  /** The values of the successive 8-digit groups of s, first group first. */
  function Groups(s: Bits): seq<nat>
    requires |s| % 8 == 0
    decreases |s|
  {
    if s == [] then [] else [Value(s[..8])] + Groups(s[8..])
  }

  /** `list.reverse()`. */
  function Reverse<T>(s: seq<T>): (r: seq<T>)
    ensures |r| == |s|
  {
    if s == [] then [] else Reverse(s[1..]) + [s[0]]
  }

  /** What `bits_to_bytes(a, reverse)` returns. */
  function ToBytes(a: Bits, reverse: bool): seq<nat>
  {
    var groups := Groups(PadToByte(a));
    if reverse then Reverse(groups) else groups
  }

  // ---------------------------------------------------------------------------
  // Readings of byte lists

  /** A byte list read most significant byte first. */
  function BigEndian(bytes: seq<nat>): nat
  {
    if bytes == [] then 0 else bytes[0] * Pow2(8 * (|bytes| - 1)) + BigEndian(bytes[1..])
  }

  /** A byte list read least significant byte first. */
  function LittleEndianValue(bytes: seq<nat>): nat
  {
    if bytes == [] then 0 else bytes[0] + 256 * LittleEndianValue(bytes[1..])
  }

  /** The k-byte little-endian form of a (its low 8k bits). */
  function LittleEndian(a: nat, k: nat): seq<nat>
  {
    if k == 0 then [] else [a % 256] + LittleEndian(a / 256, k - 1)
  }

  predicate AreBytes(bytes: seq<int>)
  {
    forall i :: 0 <= i < |bytes| ==> 0 <= bytes[i] < 256
  }

  /** Every value rendered as 8 binary digits, concatenated. */
  function Renderings(bytes: seq<nat>): Bits
  {
    if bytes == [] then [] else ConvLen(bytes[0], 8) + Renderings(bytes[1..])
  }

  // ---------------------------------------------------------------------------
  // Arithmetic helpers

  lemma {:induction false} Pow2Add(a: nat, b: nat)
    ensures Pow2(a + b) == Pow2(a) * Pow2(b)
    decreases b
  {
    if b > 0 {
      Pow2Add(a, b - 1);
      calc {
        Pow2(a + b);
        2 * Pow2(a + b - 1);
        2 * (Pow2(a) * Pow2(b - 1));
        Pow2(a) * (2 * Pow2(b - 1));
        Pow2(a) * Pow2(b);
      }
    }
  }

  lemma {:induction false} Pow2Monotone(a: nat, b: nat)
    requires a <= b
    ensures Pow2(a) <= Pow2(b)
    decreases b
  {
    if a < b {
      Pow2Monotone(a, b - 1);
    }
  }

  lemma Pow2Eight()
    ensures Pow2(8) == 256
  {
  }

  lemma {:induction false} MulGrows(d: int, k: int)
    requires d > 0 && k >= 1
    ensures d * k >= d
    decreases k
  {
    if k > 1 {
      MulGrows(d, k - 1);
      assert d * k == d * (k - 1) + d;
    }
  }

  /** Division with a remainder in range has the expected quotient. */
  lemma DivUnique(x: int, d: int, q: int, r: int)
    requires d > 0 && 0 <= r < d && x == d * q + r
    ensures x / d == q && x % d == r
  {
    var q0, r0 := x / d, x % d;
    assert x == d * q0 + r0;
    var k := q0 - q;
    assert d * k == r - r0 by {
      assert d * q0 - d * q == d * (q0 - q);
    }
    if k >= 1 {
      MulGrows(d, k);
    } else if k <= -1 {
      MulGrows(d, -k);
    }
  }

  lemma DoubleShift(v: int, p: int, w: int, b: int)
    ensures 2 * (v * p + w) + b == v * (2 * p) + (2 * w + b)
  {
  }

  // ---------------------------------------------------------------------------
  // Properties of the binary reading

  lemma {:induction false} ValueAppend(p: Bits, q: Bits)
    ensures Value(p + q) == Value(p) * Pow2(|q|) + Value(q)
    decreases |q|
  {
    if q == [] {
      assert p + q == p;
    } else {
      var q' := q[..|q| - 1];
      assert (p + q)[..|p + q| - 1] == p + q';
      ValueAppend(p, q');
      var b := Bit(q[|q| - 1]);
      assert (p + q)[|p + q| - 1] == q[|q| - 1];
      assert Value(p + q) == 2 * Value(p + q') + b;
      assert Value(q) == 2 * Value(q') + b;
      DoubleShift(Value(p), Pow2(|q'|), Value(q'), b);
    }
  }

  lemma {:induction false} ValueZeros(n: int)
    ensures Value(Zeros(n)) == 0
    decreases n
  {
    if n > 0 {
      ValueZeros(n - 1);
      ValueAppend([false], Zeros(n - 1));
      assert [false][..0] == [];
    }
  }

  /** Leading zeros do not change the value. */
  lemma ValuePadded(n: int, s: Bits)
    ensures Value(Zeros(n) + s) == Value(s)
  {
    ValueAppend(Zeros(n), s);
    ValueZeros(n);
  }

  lemma {:induction false} ValueBound(s: Bits)
    ensures Value(s) < Pow2(|s|)
    decreases |s|
  {
    if s != [] {
      ValueBound(s[..|s| - 1]);
    }
  }

  lemma {:induction false} ValueBinary(a: nat)
    ensures Value(Binary(a)) == a
    decreases a
  {
    if a >= 2 {
      ValueBinary(a / 2);
      var b := Binary(a / 2) + [a % 2 == 1];
      assert b[..|b| - 1] == Binary(a / 2);
    }
  }

  /** The shortest rendering of a positive a starts at its highest set bit. */
  lemma {:induction false} BinaryLowerBound(a: nat)
    requires a >= 1
    ensures Pow2(|Binary(a)| - 1) <= a
    decreases a
  {
    if a >= 2 {
      BinaryLowerBound(a / 2);
    }
  }

  /** Digits needed: the shortest rendering fits in l >= 1 digits exactly when a < 2^l. */
  lemma BinaryFits(a: nat, l: nat)
    requires l >= 1
    ensures |Binary(a)| <= l <==> a < Pow2(l)
  {
    ValueBinary(a);
    ValueBound(Binary(a));
    if |Binary(a)| <= l {
      Pow2Monotone(|Binary(a)|, l);
    } else {
      assert a >= 1;
      BinaryLowerBound(a);
      Pow2Monotone(l, |Binary(a)| - 1);
    }
  }

  /** Two binary strings of the same length with the same value are equal. */
  lemma {:induction false} ValueInjective(s: Bits, t: Bits)
    requires |s| == |t| && Value(s) == Value(t)
    ensures s == t
    decreases |s|
  {
    if s != [] {
      var n := |s|;
      assert Value(s) == 2 * Value(s[..n - 1]) + Bit(s[n - 1]);
      assert Value(t) == 2 * Value(t[..n - 1]) + Bit(t[n - 1]);
      assert s[n - 1] == t[n - 1];
      ValueInjective(s[..n - 1], t[..n - 1]);
      assert s == s[..n - 1] + [s[n - 1]];
      assert t == t[..n - 1] + [t[n - 1]];
    }
  }

  /** The last digit of a binary string is the parity of its value. */
  lemma LastDigit(t: Bits)
    requires t != []
    ensures t[|t| - 1] == (Value(t) % 2 == 1)
  {
    DivUnique(Value(t), 2, Value(t[..|t| - 1]), Bit(t[|t| - 1]));
  }

  /** Dropping the low digits lo divides the value by 2^|lo|. */
  lemma ValueSplitDiv(hi: Bits, lo: Bits)
    ensures Value(hi + lo) / Pow2(|lo|) == Value(hi)
  {
    var x, d, q, r := Value(hi + lo), Pow2(|lo|), Value(hi), Value(lo);
    assert x == q * d + r by { ValueAppend(hi, lo); }
    assert r < d by { ValueBound(lo); }
    assert x == d * q + r;
    DivUnique(x, d, q, r);
  }

  /** Dropping the last i digits divides the value by 2^i. */
  lemma ValueShift(s: Bits, i: nat)
    requires i <= |s|
    ensures Value(s) / Pow2(i) == Value(s[..|s| - i])
  {
    var hi, lo := s[..|s| - i], s[|s| - i..];
    assert s == hi + lo;
    ValueSplitDiv(hi, lo);
  }

  lemma DigitFromRight(s: Bits, i: nat)
    requires i < |s|
    ensures s[|s| - 1 - i] == ((Value(s) / Pow2(i)) % 2 == 1)
  {
    var hi := s[..|s| - i];
    ValueShift(s, i);
    LastDigit(hi);
    assert s[|s| - 1 - i] == hi[|hi| - 1];
  }

  // ---------------------------------------------------------------------------
  // conv_len

  /** `int(conv_len(a, l), 2) == a`: the rendering never loses a digit. */
  lemma ConvLenValue(a: nat, l: nat)
    ensures Value(ConvLen(a, l)) == a
  {
    ValuePadded(l - |Binary(a)|, Binary(a));
    ValueBinary(a);
  }

  /** `conv_len(a, l)` has exactly l digits when a fits in them (l >= 1), and more
      than l when it does not: nothing is truncated. */
  lemma ConvLenLength(a: nat, l: nat)
    ensures |ConvLen(a, l)| == Max(l, |Binary(a)|)
    ensures |ConvLen(a, l)| == l <==> (l >= 1 && a < Pow2(l))
    ensures a >= Pow2(l) ==> |ConvLen(a, l)| > l
  {
    if l >= 1 {
      BinaryFits(a, l);
    } else {
      assert a >= Pow2(l) ==> |Binary(a)| > l;
    }
  }

  /** Every non-empty binary string is the l-digit rendering of its own value. */
  lemma ConvLenInverse(s: Bits)
    requires |s| >= 1
    ensures ConvLen(Value(s), |s|) == s
  {
    ValueBound(s);
    ConvLenLength(Value(s), |s|);
    ConvLenValue(Value(s), |s|);
    ValueInjective(ConvLen(Value(s), |s|), s);
  }

  /** Digit i from the right of `conv_len(a, l)` is bit i of a. */
  lemma ConvLenDigit(a: nat, l: nat, i: nat)
    requires i < |ConvLen(a, l)|
    ensures ConvLen(a, l)[|ConvLen(a, l)| - 1 - i] == ((a / Pow2(i)) % 2 == 1)
  {
    DigitFromRight(ConvLen(a, l), i);
    ConvLenValue(a, l);
  }

  // ---------------------------------------------------------------------------
  // bits_to_bytes

  lemma {:induction false} GroupsAppend(p: Bits, q: Bits)
    requires |p| % 8 == 0 && |q| % 8 == 0
    ensures Groups(p + q) == Groups(p) + Groups(q)
    decreases |p|
  {
    if p != [] {
      assert (p + q)[..8] == p[..8];
      assert (p + q)[8..] == p[8..] + q;
      GroupsAppend(p[8..], q);
    } else {
      assert p + q == q;
    }
  }

  lemma GroupsOne(g: Bits)
    requires |g| == 8
    ensures Groups(g) == [Value(g)]
  {
    assert g[..8] == g;
    assert g[8..] == [];
  }

  lemma {:induction false} GroupsShape(s: Bits)
    requires |s| % 8 == 0
    ensures |Groups(s)| == |s| / 8
    ensures forall i :: 0 <= i < |Groups(s)| ==> Groups(s)[i] < 256
    decreases |s|
  {
    if s != [] {
      GroupsShape(s[8..]);
      ValueBound(s[..8]);
      Pow2Eight();
    }
  }

  /** Rendering each group in 8 digits gives back the string. */
  lemma {:induction false} GroupsRender(s: Bits)
    requires |s| % 8 == 0
    ensures Renderings(Groups(s)) == s
    decreases |s|
  {
    if s != [] {
      ConvLenInverse(s[..8]);
      GroupsRender(s[8..]);
      assert Groups(s)[1..] == Groups(s[8..]);
      assert s == s[..8] + s[8..];
    }
  }

  /** The groups read big-endian, base 256, give the value of the string. */
  lemma {:induction false} GroupsBigEndian(s: Bits)
    requires |s| % 8 == 0
    ensures BigEndian(Groups(s)) == Value(s)
    decreases |s|
  {
    if s != [] {
      GroupsBigEndian(s[8..]);
      GroupsShape(s[8..]);
      assert Groups(s)[1..] == Groups(s[8..]);
      assert s == s[..8] + s[8..];
      ValueAppend(s[..8], s[8..]);
    }
  }

  lemma ByteShift(x: int, a: int, v: int, p: int)
    ensures x + 256 * (a + v * p) == (x + 256 * a) + v * (256 * p)
  {
  }

  lemma {:induction false} LittleEndianSnoc(r: seq<nat>, v: nat)
    ensures LittleEndianValue(r + [v]) == LittleEndianValue(r) + v * Pow2(8 * |r|)
    decreases |r|
  {
    if r == [] {
      assert (r + [v])[1..] == [];
    } else {
      assert (r + [v])[1..] == r[1..] + [v];
      LittleEndianSnoc(r[1..], v);
      var a, p := LittleEndianValue(r[1..]), Pow2(8 * (|r| - 1));
      assert Pow2(8 * |r|) == 256 * p by {
        Pow2Add(8, 8 * (|r| - 1));
        Pow2Eight();
      }
      assert LittleEndianValue(r + [v]) == r[0] + 256 * (a + v * p);
      ByteShift(r[0], a, v, p);
    }
  }

  /** Reading a list little-endian is reading its reverse big-endian. */
  lemma {:induction false} ReverseLittleEndian(x: seq<nat>)
    ensures LittleEndianValue(Reverse(x)) == BigEndian(x)
    decreases |x|
  {
    if x != [] {
      ReverseLittleEndian(x[1..]);
      LittleEndianSnoc(Reverse(x[1..]), x[0]);
    }
  }

  /** Element i of the reversed list is element len-1-i of the list. */
  lemma {:induction false} ReverseIndex<T>(s: seq<T>)
    ensures forall i :: 0 <= i < |s| ==> Reverse(s)[i] == s[|s| - 1 - i]
    decreases |s|
  {
    if s != [] {
      ReverseIndex(s[1..]);
      assert Reverse(s) == Reverse(s[1..]) + [s[0]];
    }
  }

  lemma ReverseAppend<T>(x: seq<T>, y: seq<T>)
    ensures Reverse(x + y) == Reverse(y) + Reverse(x)
  {
    ReverseIndex(x + y);
    ReverseIndex(x);
    ReverseIndex(y);
    var l, r := Reverse(x + y), Reverse(y) + Reverse(x);
    assert |l| == |r|;
    forall i | 0 <= i < |l|
      ensures l[i] == r[i]
    {
      if i < |y| {
        assert r[i] == y[|y| - 1 - i];
      } else {
        assert r[i] == Reverse(x)[i - |y|];
      }
    }
  }

  lemma ReverseReverse<T>(x: seq<T>)
    ensures Reverse(Reverse(x)) == x
  {
    ReverseIndex(x);
    ReverseIndex(Reverse(x));
  }

  /** `bits_to_bytes(a, r)` gives ceil(len(a)/8) values in 0..255; with
      `reverse=False` their 8-digit renderings concatenate to a left-padded to a
      whole number of bytes, and with `reverse=True` the list is exactly the
      reverse of the `reverse=False` list. */
  lemma ToBytesShape(a: Bits, reverse: bool)
    ensures |ToBytes(a, reverse)| == (|a| + 7) / 8
    ensures AreBytes(ToBytes(a, reverse))
    ensures |PadToByte(a)| % 8 == 0 && |PadToByte(a)| - |a| < 8
    ensures PadToByte(a) == Zeros(|PadToByte(a)| - |a|) + a
    ensures Renderings(ToBytes(a, false)) == PadToByte(a)
    ensures ToBytes(a, true) == Reverse(ToBytes(a, false))
  {
    var p := PadToByte(a);
    if |a| % 8 == 0 {
      assert Zeros(0) + a == a;
    }
    GroupsShape(p);
    GroupsRender(p);
    ReverseIndex(Groups(p));
  }

  /** `int(a, 2)` is the big-endian reading of `bits_to_bytes(a, False)` and the
      little-endian reading of `bits_to_bytes(a)`. */
  lemma ToBytesValue(a: Bits)
    ensures BigEndian(ToBytes(a, false)) == Value(a)
    ensures LittleEndianValue(ToBytes(a, true)) == Value(a)
  {
    var p := PadToByte(a);
    ToBytesShape(a, false);
    ValuePadded(|p| - |a|, a);
    GroupsBigEndian(p);
    ReverseLittleEndian(Groups(p));
  }

  lemma {:induction false} LittleEndianForm(a: nat, k: nat)
    requires a < Pow2(8 * k)
    ensures |LittleEndian(a, k)| == k
    ensures AreBytes(LittleEndian(a, k))
    ensures LittleEndianValue(LittleEndian(a, k)) == a
    decreases k
  {
    if k > 0 {
      Pow2Add(8, 8 * (k - 1));
      Pow2Eight();
      assert a / 256 < Pow2(8 * (k - 1));
      LittleEndianForm(a / 256, k - 1);
    }
  }

  /** Byte lists of one length with one little-endian reading are equal. */
  lemma {:induction false} LittleEndianInjective(x: seq<nat>, y: seq<nat>)
    requires |x| == |y| && AreBytes(x) && AreBytes(y)
    requires LittleEndianValue(x) == LittleEndianValue(y)
    ensures x == y
    decreases |x|
  {
    if x != [] {
      var v := LittleEndianValue(x);
      DivUnique(v, 256, LittleEndianValue(x[1..]), x[0]);
      DivUnique(v, 256, LittleEndianValue(y[1..]), y[0]);
      LittleEndianInjective(x[1..], y[1..]);
      assert x == [x[0]] + x[1..];
      assert y == [y[0]] + y[1..];
    }
  }

  /** `bits_to_bytes(conv_len(a, 8k))` is the k-byte little-endian form of a,
      when a fits in 8k bits. */
  lemma ConvLenLittleEndian(a: nat, k: nat)
    requires k >= 1 && a < Pow2(8 * k)
    ensures ToBytes(ConvLen(a, 8 * k), true) == LittleEndian(a, k)
  {
    var bits := ConvLen(a, 8 * k);
    ConvLenLength(a, 8 * k);
    ToBytesShape(bits, true);
    ToBytesValue(bits);
    ConvLenValue(a, 8 * k);
    LittleEndianForm(a, k);
    LittleEndianInjective(ToBytes(bits, true), LittleEndian(a, k));
  }

  /** The 16-bit length field of the command header: `bits_to_bytes(conv_len(v, 16))`
      is [low byte, high byte] for v < 2^16. */
  lemma LengthFieldBytes(v: nat)
    requires v < 0x1_0000
    ensures ToBytes(ConvLen(v, 16), true) == [v % 256, v / 256]
  {
    assert Pow2(8 * 2) == 0x1_0000 by { Pow2Add(8, 8); Pow2Eight(); }
    assert ToBytes(ConvLen(v, 16), true) == LittleEndian(v, 2) by { ConvLenLittleEndian(v, 2); }
    assert LittleEndian(v, 2) == [v % 256, v / 256] by {
      assert v / 256 < 256;
      assert LittleEndian(v / 256, 1) == [(v / 256) % 256] + LittleEndian(v / 256 / 256, 0);
    }
  }

  /** Strings of whole bytes: the reversed byte list of a concatenation is the
      second part's list followed by the first part's. */
  lemma ToBytesConcat(p: Bits, q: Bits)
    requires |p| % 8 == 0 && |q| % 8 == 0
    ensures ToBytes(p + q, true) == ToBytes(q, true) + ToBytes(p, true)
  {
    assert PadToByte(p + q) == p + q;
    assert PadToByte(p) == p && PadToByte(q) == q;
    GroupsAppend(p, q);
    ReverseAppend(Groups(p), Groups(q));
  }

  lemma ToBytesOne(g: Bits)
    requires |g| == 8
    ensures ToBytes(g, true) == [Value(g)]
  {
    GroupsOne(g);
  }

}
