/** The strings `conv_len` and `bits_to_bytes` really handle. `bin(a)[2:]`
    drops the "0b" in front of a non-negative number, but of the "-0b" in
    front of a negative one it drops only "-0", so the strings are made of the
    characters '0', '1' and 'b'. `int(g, 2)` reads a group of digits, and also
    a group made of "0b" and digits; any other group raises ValueError. */
module BitText {
  import opened Options
  import opened BitCodec

  /** A binary string written out in the characters '0' and '1'. */
  function Render(s: Bits): (r: string)
    ensures |r| == |s|
  {
    if s == [] then [] else [if s[0] then '1' else '0'] + Render(s[1..])
  }

  /** Every character is '0' or '1'. */
  predicate IsDigits(t: string)
    decreases |t|
  {
    t == [] || ((t[0] == '0' || t[0] == '1') && IsDigits(t[1..]))
  }

  /** The binary string a string of digits spells. */
  function Unrender(t: string): (r: Bits)
    ensures |r| == |t|
  {
    if t == [] then [] else [t[0] == '1'] + Unrender(t[1..])
  }

  /** `'0' * n` (empty when n is not positive). */
  function ZeroText(n: int): (r: string)
    ensures |r| == Max(n, 0)
    decreases n
  {
    if n <= 0 then [] else "0" + ZeroText(n - 1)
  }

  /** `bin(a)[2:]` for any integer: the digits of a, and for a negative a the
      'b' of "-0b" followed by the digits of -a. */
  function BinText(a: int): string
  {
    if a >= 0 then Render(Binary(a)) else "b" + Render(Binary(-a))
  }

  /** `conv_len(a, l)` for any integer a. */
  function ConvLenText(a: int, l: int): string
  {
    var b := BinText(a);
    ZeroText(l - |b|) + b
  }

  /** `int(g, 2)` on a string of '0', '1' and 'b': None where it raises. */
  function IntBase2(g: string): Option<nat>
  {
    if |g| > 0 && IsDigits(g) then Some(Value(Unrender(g)))
    else if |g| > 2 && g[0] == '0' && g[1] == 'b' && IsDigits(g[2..]) then Some(Value(Unrender(g[2..])))
    else None
  }

  /** The string `bits_to_bytes` cuts: left-padded with '0' to whole bytes. */
  function PadText(t: string): string
  {
    if |t| % 8 != 0 then ZeroText(8 - |t| % 8) + t else t
  }

  /** `int` of each whole 8-character group in turn (characters after the
      last whole group are not read); None once one of them raises. */
  function TextGroups(t: string): Option<seq<nat>>
    decreases |t|
  {
    if |t| < 8 then Some([])
    else
      var g := IntBase2(t[..8]);
      var rest := TextGroups(t[8..]);
      if g.Some? && rest.Some? then Some([g.value] + rest.value) else None
  }

  /** What `bits_to_bytes(a, reverse)` returns, or None where it raises. */
  function TextToBytes(t: string, reverse: bool): Option<seq<nat>>
  {
    var groups := TextGroups(PadText(t));
    if groups.None? then None
    else Some(if reverse then Reverse(groups.value) else groups.value)
  }

  /** `bits_to_bytes`: pad, append `int` of each 8-character group in turn, and
      reverse the list when asked to. A group `int` rejects ends the call. */
  method BitsToBytes(a: string, reverse: bool) returns (bytelist: Option<seq<nat>>)
    ensures bytelist == TextToBytes(a, reverse)
  {
    var bits := a;
    if |bits| % 8 != 0 {
      var padding := 8 - |bits| % 8;
      bits := ZeroText(padding) + bits;
    }
    assert bits == PadText(a);
    var list: seq<nat> := [];
    assert |bits| % 8 == 0;
    for i := 0 to |bits| / 8
      invariant TextGroups(bits[..8 * i]) == Some(list)
    {
      var group := IntBase2(bits[8 * i..8 * (i + 1)]);
      TextGroupsStep(bits, i);
      if group.None? {
        TextGroupsPrefix(bits, i + 1);
        return None;
      }
      list := list + [group.value];
    }
    assert bits[..8 * (|bits| / 8)] == bits;
    if reverse {
      list := Reverse(list);
    }
    bytelist := Some(list);
  }

  // ---------------------------------------------------------------------------
  // Strings of digits

  lemma ConcatAssoc(x: string, y: string, z: string)
    ensures x + (y + z) == (x + y) + z
  {
  }

  lemma {:induction false} RenderAppend(x: Bits, y: Bits)
    ensures Render(x + y) == Render(x) + Render(y)
    decreases |x|
  {
    if x != [] {
      assert (x + y)[1..] == x[1..] + y;
      RenderAppend(x[1..], y);
    } else {
      assert x + y == y;
    }
  }

  lemma {:induction false} RenderZeros(n: int)
    ensures Render(Zeros(n)) == ZeroText(n)
    decreases n
  {
    if n > 0 {
      assert Zeros(n)[1..] == Zeros(n - 1);
      RenderZeros(n - 1);
    }
  }

  /** A string of digits holds a digit at every index. */
  lemma {:induction false} DigitAt(t: string, i: nat)
    requires IsDigits(t) && i < |t|
    ensures t[i] == '0' || t[i] == '1'
    decreases i
  {
    if i > 0 {
      DigitAt(t[1..], i - 1);
    }
  }

  /** A rendered binary string is digits, and spells the binary string back. */
  lemma {:induction false} RenderDigits(s: Bits)
    ensures IsDigits(Render(s)) && Unrender(Render(s)) == s
    decreases |s|
  {
    if s != [] {
      assert Render(s)[1..] == Render(s[1..]);
      RenderDigits(s[1..]);
    }
  }

  /** A string of digits is the rendering of what it spells. */
  lemma {:induction false} UnrenderRender(t: string)
    requires IsDigits(t)
    ensures Render(Unrender(t)) == t
    decreases |t|
  {
    if t != [] {
      assert Unrender(t)[1..] == Unrender(t[1..]);
      UnrenderRender(t[1..]);
    }
  }

  /** `bin(m)[2:]` is digits that spell m. */
  lemma RenderedBinary(m: nat)
    ensures IsDigits(Render(Binary(m))) && Value(Unrender(Render(Binary(m)))) == m
  {
    RenderDigits(Binary(m));
    ValueBinary(m);
  }

  /** `conv_len` of a non-negative number is the rendering of its digits. */
  lemma ConvLenTextDigits(a: int, l: nat)
    requires a >= 0
    ensures ConvLenText(a, l) == Render(ConvLen(a, l))
  {
    RenderZeros(l - |Binary(a)|);
    RenderAppend(Zeros(l - |Binary(a)|), Binary(a));
  }

  /** A non-empty group of digits reads as its binary value. */
  lemma DigitGroup(s: Bits)
    requires |s| > 0
    ensures IntBase2(Render(s)) == Some(Value(s))
  {
    RenderDigits(s);
  }

  /** A group with a 'b' anywhere except right behind a first '0' is rejected. */
  lemma StrayB(g: string, i: nat)
    requires i < |g| && g[i] == 'b' && i != 1
    ensures IntBase2(g) == None
  {
    if IsDigits(g) {
      DigitAt(g, i);
    }
    if |g| > 2 && g[0] == '0' && g[1] == 'b' && IsDigits(g[2..]) {
      assert i >= 2;
      DigitAt(g[2..], i - 2);
    }
  }

  /** "0b" and a non-empty string of digits read as the digits' value. */
  lemma PrefixedGroup(s: Bits)
    requires |s| > 0
    ensures IntBase2("0b" + Render(s)) == Some(Value(s))
  {
    var g := "0b" + Render(s);
    RenderDigits(s);
    assert !IsDigits(g) by {
      if IsDigits(g) { DigitAt(g, 1); }
    }
    assert g[2..] == Render(s);
  }

  /** Padding, the 'b' of "-0b" and digits: `int` accepts this only when the
      padding is a single '0', and then reads the digits. */
  lemma NegativeGroup(t: string, z: nat, d: string)
    requires IsDigits(d) && |d| > 0 && t == ZeroText(z) + ("b" + d)
    ensures |t| == z + 1 + |d|
    ensures IntBase2(t) == if z == 1 then Some(Value(Unrender(d))) else None
  {
    assert t[z] == 'b';
    if z == 1 {
      assert t == "0b" + d;
      assert t[2..] == d;
      assert !IsDigits(t) by {
        if IsDigits(t) { DigitAt(t, 1); }
      }
    } else {
      StrayB(t, z);
    }
  }

  // ---------------------------------------------------------------------------
  // Groups

  /** Groups of a string with k whole groups in front of another. */
  lemma {:induction false} TextGroupsAppend(p: string, q: string, k: nat)
    requires |p| == 8 * k
    ensures TextGroups(p + q) ==
            if TextGroups(p).Some? && TextGroups(q).Some? then Some(TextGroups(p).value + TextGroups(q).value)
            else None
    decreases k
  {
    if k == 0 {
      assert p + q == q;
      assert TextGroups(p) == Some([]);
      if TextGroups(q).Some? {
        assert [] + TextGroups(q).value == TextGroups(q).value;
      }
    } else {
      var pq := p + q;
      assert pq[..8] == p[..8];
      assert pq[8..] == p[8..] + q;
      TextGroupsAppend(p[8..], q, k - 1);
      var g := IntBase2(p[..8]);
      assert TextGroups(pq) == if g.Some? && TextGroups(pq[8..]).Some? then Some([g.value] + TextGroups(pq[8..]).value) else None;
      assert TextGroups(p) == if g.Some? && TextGroups(p[8..]).Some? then Some([g.value] + TextGroups(p[8..]).value) else None;
      if g.Some? && TextGroups(p[8..]).Some? && TextGroups(q).Some? {
        assert [g.value] + (TextGroups(p[8..]).value + TextGroups(q).value) ==
               ([g.value] + TextGroups(p[8..]).value) + TextGroups(q).value;
      }
    }
  }

  lemma TextGroupsOne(g: string)
    requires |g| == 8
    ensures TextGroups(g) == if IntBase2(g).Some? then Some([IntBase2(g).value]) else None
  {
    assert g[..8] == g;
    assert TextGroups(g[8..]) == Some([]);
    if IntBase2(g).Some? {
      assert [IntBase2(g).value] + [] == [IntBase2(g).value];
    }
  }

  /** One more group of a string. */
  lemma TextGroupsStep(t: string, i: nat)
    requires 8 * (i + 1) <= |t|
    ensures var g := IntBase2(t[8 * i..8 * (i + 1)]);
            var p := TextGroups(t[..8 * i]);
            TextGroups(t[..8 * (i + 1)]) == if p.Some? && g.Some? then Some(p.value + [g.value]) else None
  {
    var g := t[8 * i..8 * (i + 1)];
    TextGroupsAppend(t[..8 * i], g, i);
    TextGroupsOne(g);
    assert t[..8 * i] + g == t[..8 * (i + 1)];
  }

  /** A group that raises makes the whole string raise. */
  lemma TextGroupsPrefix(t: string, j: nat)
    requires 8 * j <= |t| && TextGroups(t[..8 * j]).None?
    ensures TextGroups(t).None?
  {
    TextGroupsAppend(t[..8 * j], t[8 * j..], j);
    assert t[..8 * j] + t[8 * j..] == t;
  }

  /** A group `int` accepts in front of a string that does not raise. */
  lemma GroupCons(g: string, t: string, v: nat, r: seq<nat>)
    requires |g| == 8 && IntBase2(g) == Some(v) && TextGroups(t) == Some(r)
    ensures TextGroups(g + t) == Some([v] + r)
  {
    assert (g + t)[..8] == g;
    assert (g + t)[8..] == t;
  }

  /** Four groups `int` accepts, most significant first. */
  lemma FourGroups(a: string, b: string, c: string, d: string, va: nat, vb: nat, vc: nat, vd: nat)
    requires |a| == 8 && |b| == 8 && |c| == 8 && |d| == 8
    requires IntBase2(a) == Some(va) && IntBase2(b) == Some(vb)
    requires IntBase2(c) == Some(vc) && IntBase2(d) == Some(vd)
    ensures TextGroups(a + b + c + d) == Some([va, vb, vc, vd])
  {
    var e: string := [];
    assert TextGroups(e) == Some([]);
    assert [vd] + [] == [vd];
    GroupCons(d, e, vd, []);
    assert d + e == d;
    assert [vc] + [vd] == [vc, vd];
    GroupCons(c, d, vc, [vd]);
    assert [vb] + [vc, vd] == [vb, vc, vd];
    GroupCons(b, c + d, vb, [vc, vd]);
    assert [va] + [vb, vc, vd] == [va, vb, vc, vd];
    GroupCons(a, b + (c + d), va, [vb, vc, vd]);
    assert a + (b + (c + d)) == a + b + c + d;
  }

  lemma ReverseFour(a: nat, b: nat, c: nat, d: nat)
    ensures Reverse([a, b, c, d]) == [d, c, b, a]
  {
    ReverseIndex([a, b, c, d]);
  }

  /** `bits_to_bytes` of four 8-character fields: their readings, last field
      first, or None when `int` rejects any of them. */
  lemma FourFields(a: string, b: string, c: string, d: string)
    requires |a| == 8 && |b| == 8 && |c| == 8 && |d| == 8
    ensures TextToBytes(a + b + c + d, true) ==
            if IntBase2(a).Some? && IntBase2(b).Some? && IntBase2(c).Some? && IntBase2(d).Some?
            then Some([IntBase2(d).value, IntBase2(c).value, IntBase2(b).value, IntBase2(a).value])
            else None
  {
    var t := a + b + c + d;
    assert PadText(t) == t;
    if IntBase2(a).None? {
      GroupFails([], a, b + c + d, 0);
      assert [] + a + (b + c + d) == t;
    } else if IntBase2(b).None? {
      GroupFails(a, b, c + d, 1);
      assert a + b + (c + d) == t;
    } else if IntBase2(c).None? {
      GroupFails(a + b, c, d, 2);
    } else if IntBase2(d).None? {
      GroupFails(a + b + c, d, [], 3);
      assert a + b + c + d + [] == t;
    } else {
      var va, vb, vc, vd := IntBase2(a).value, IntBase2(b).value, IntBase2(c).value, IntBase2(d).value;
      FourGroups(a, b, c, d, va, vb, vc, vd);
      ReverseFour(va, vb, vc, vd);
    }
  }

  /** A group `int` rejects after k whole groups makes the whole string raise. */
  lemma GroupFails(p: string, g: string, q: string, k: nat)
    requires |p| == 8 * k && |g| == 8 && IntBase2(g).None?
    ensures TextGroups(p + g + q).None?
  {
    assert TextGroups(g).None? by { TextGroupsOne(g); }
    assert TextGroups(p + g).None? by { TextGroupsAppend(p, g, k); }
    TextGroupsAppend(p + g, q, k + 1);
  }

  lemma {:induction false} TextGroupsDigits(s: Bits)
    requires |s| % 8 == 0
    ensures TextGroups(Render(s)) == Some(Groups(s))
    decreases |s|
  {
    if s != [] {
      RenderAppend(s[..8], s[8..]);
      assert s[..8] + s[8..] == s;
      DigitGroup(s[..8]);
      TextGroupsDigits(s[8..]);
    }
  }

  /** On a string of digits `bits_to_bytes` never raises, and gives `ToBytes`. */
  lemma DigitsToBytes(s: Bits, reverse: bool)
    ensures TextToBytes(Render(s), reverse) == Some(ToBytes(s, reverse))
  {
    PadRender(s);
    TextGroupsDigits(PadToByte(s));
  }

  /** Padding commutes with rendering. */
  lemma PadRender(s: Bits)
    ensures PadText(Render(s)) == Render(PadToByte(s)) && |PadToByte(s)| % 8 == 0
  {
    ToBytesShape(s, false);
    if |s| % 8 != 0 {
      var n := 8 - |s| % 8;
      RenderZeros(n);
      RenderAppend(Zeros(n), s);
    }
  }

  /** A group of 8 characters reads as a byte. */
  lemma GroupByte(g: string)
    requires |g| == 8
    ensures IntBase2(g).Some? ==> IntBase2(g).value < 256
  {
    Pow2Eight();
    if IsDigits(g) {
      ValueBound(Unrender(g));
    } else if IntBase2(g).Some? {
      ValueBound(Unrender(g[2..]));
      Pow2Monotone(6, 8);
    }
  }

  lemma {:induction false} TextGroupsBytes(t: string)
    ensures TextGroups(t).Some? ==> AreBytes(TextGroups(t).value)
    decreases |t|
  {
    if |t| >= 8 {
      GroupByte(t[..8]);
      TextGroupsBytes(t[8..]);
    }
  }

  /** `bits_to_bytes` gives bytes whenever it does not raise. */
  lemma TextToBytesAreBytes(t: string, reverse: bool)
    ensures TextToBytes(t, reverse).Some? ==> AreBytes(TextToBytes(t, reverse).value)
  {
    TextGroupsBytes(PadText(t));
    if TextGroups(PadText(t)).Some? {
      ReverseIndex(TextGroups(PadText(t)).value);
    }
  }

  /** Digits after the text of a whole number of bytes do not move the groups
      before them. */
  lemma ShiftByBytes(a: nat, k: nat)
    ensures (a + 8 * k) % 8 == a % 8
  {
  }

  lemma PadAppend(t: string, e: string, k: nat)
    requires |e| == 8 * k
    ensures PadText(t + e) == PadText(t) + e
    ensures |PadText(t)| % 8 == 0
  {
    assert |t + e| == |t| + 8 * k;
    ShiftByBytes(|t|, k);
    if |t| % 8 != 0 {
      assert ZeroText(8 - |t| % 8) + (t + e) == (ZeroText(8 - |t| % 8) + t) + e;
    }
  }

}
