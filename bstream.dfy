/** Bit-granular input and output over byte streams, most significant bit first
    (Modify2/bstream.h). The byte source is a sequence with a read cursor and the
    byte sink is a sequence that flushes append to. */
module BStream {
  import opened Failures

  /** A byte shifted right one place at a time, n times. */
  function Shr8(b: bv8, n: nat): bv8
  {
    if n == 0 then b else Shr8(b, n - 1) >> 1
  }

  /** A word shifted right one place at a time, n times. */
  function Shr32(w: bv32, n: nat): bv32
  {
    if n == 0 then w else Shr32(w, n - 1) >> 1
  }

  /** Bit j of a byte, counting from the least significant. */
  function BitOf8(b: bv8, j: nat): bool
  {
    (Shr8(b, j) & 1) == 1
  }

  /** Bit j of a word, counting from the least significant: `(w >> j) & 1`. */
  function BitOf32(w: bv32, j: nat): bool
  {
    (Shr32(w, j) & 1) == 1
  }

  /** `(b >> i) & 1`, the expression the streams test bits with. */
  function BitAt8(b: bv8, i: nat): bool
    requires i < 8
  {
    ((b >> i) & 1) == 1
  }

  /** A shift by n places is n shifts by one place. */
  lemma {:induction false} ShiftIsShr8(b: bv8, n: nat)
    requires n <= 8
    ensures b >> n == Shr8(b, n)
  {
    if n > 0 {
      ShiftIsShr8(b, n - 1);
      if n == 1 {} else if n == 2 {} else if n == 3 {} else if n == 4 {}
      else if n == 5 {} else if n == 6 {} else if n == 7 {} else {}
    }
  }

  lemma {:induction false} ShiftIsShr32Byte(w: bv32, n: nat)
    requires n <= 8
    ensures w >> n == Shr32(w, n)
  {
    if n > 0 {
      ShiftIsShr32Byte(w, n - 1);
      if n == 1 {} else if n == 2 {} else if n == 3 {} else if n == 4 {}
      else if n == 5 {} else if n == 6 {} else if n == 7 {} else {}
    }
  }

  lemma {:induction false} Shr32Add(w: bv32, a: nat, b: nat)
    ensures Shr32(w, a + b) == Shr32(Shr32(w, a), b)
  {
    if b > 0 {
      Shr32Add(w, a, b - 1);
    }
  }

  /** Thirty-two single shifts empty a word. */
  lemma Shr32Drains(w: bv32)
    ensures Shr32(w, 32) == 0
  {
    var w1 := Shr32(w, 8);
    var w2 := Shr32(w1, 8);
    var w3 := Shr32(w2, 8);
    Shr32Add(w, 8, 24);
    Shr32Add(w1, 8, 16);
    Shr32Add(w2, 8, 8);
    ShiftIsShr32Byte(w, 8);
    ShiftIsShr32Byte(w1, 8);
    ShiftIsShr32Byte(w2, 8);
    ShiftIsShr32Byte(w3, 8);
  }

  lemma {:induction false} Shr8Commute(b: bv8, n: nat)
    requires n > 0
    ensures Shr8(b, n) == Shr8(b >> 1, n - 1)
  {
    if n > 1 {
      Shr8Commute(b, n - 1);
    }
  }

  lemma {:induction false} Shr8Zero(b: bv8, n: nat, m: nat)
    requires n <= m && Shr8(b, n) == 0
    ensures Shr8(b, m) == 0
  {
    if n < m {
      Shr8Zero(b, n, m - 1);
    }
  }

  /** The bits of a byte, most significant first. */
  function ByteBits(b: bv8): (bits: seq<bool>)
    ensures |bits| == 8
  {
    seq(8, i requires 0 <= i < 8 => BitOf8(b, 7 - i))
  }

  /** The bits of a 32-bit word, most significant first. */
  function WordBits(w: bv32): (bits: seq<bool>)
    ensures |bits| == 32
  {
    seq(32, i requires 0 <= i < 32 => BitOf32(w, 31 - i))
  }

  /** The bit stream a byte sequence presents: each byte's bits, most significant first. */
  function Unpack(bytes: seq<bv8>): (bits: seq<bool>)
    ensures |bits| == 8 * |bytes|
  {
    if bytes == [] then [] else ByteBits(bytes[0]) + Unpack(bytes[1..])
  }

  /** A run of zero bits, the padding of a final partial byte. */
  function Zeros(n: nat): (bits: seq<bool>)
    ensures |bits| == n && forall i :: 0 <= i < n ==> !bits[i]
  {
    if n == 0 then [] else Zeros(n - 1) + [false]
  }

  /** One step of a shift register: the contents move up one place and the new
      bit enters at the bottom. */
  function ShiftIn8(reg: bv8, b: bool): bv8
  {
    (reg << 1) | (if b then 1 else 0)
  }

  function ShiftIn32(reg: bv32, b: bool): bv32
  {
    (reg << 1) | (if b then 1 else 0)
  }

  /** Bits shifted into the low end of a byte one at a time, as a register that is
      shifted left and or-ed with each new bit. */
  function Assemble8(bits: seq<bool>): bv8
  {
    if bits == [] then 0
    else ShiftIn8(Assemble8(bits[..|bits| - 1]), bits[|bits| - 1])
  }

  /** The same register, 32 bits wide. */
  function Assemble32(bits: seq<bool>): bv32
  {
    if bits == [] then 0
    else ShiftIn32(Assemble32(bits[..|bits| - 1]), bits[|bits| - 1])
  }

  lemma BitAtIsBitOf8(b: bv8, i: nat)
    requires i < 8
    ensures BitAt8(b, i) == BitOf8(b, i)
    ensures ByteBits(b)[7 - i] == BitAt8(b, i)
  {
    ShiftIsShr8(b, i);
  }

  /** Writing the padded last byte adds the pending bits and the zeros after them. */
  lemma PaddedByteBits(sink: seq<bv8>, p: seq<bool>)
    requires 0 < |p| < 8
    ensures Unpack(sink + [Assemble8(p + Zeros(8 - |p|))]) == Unpack(sink) + p + Zeros(8 - |p|)
  {
    var n := 8 - |p|;
    var padded := p + Zeros(n);
    assert Unpack(sink + [Assemble8(padded)]) == Unpack(sink) + padded by {
      var b := Assemble8(padded);
      UnpackOne(b);
      ByteBitsOfAssemble8(padded);
      UnpackAppend(sink, [b]);
    }
  }

  /** Bit k of the stream is bit 7 - k % 8 of byte k / 8. */
  lemma {:induction false} UnpackAt(bytes: seq<bv8>, k: nat)
    requires k < 8 * |bytes|
    ensures Unpack(bytes)[k] == BitOf8(bytes[k / 8], 7 - k % 8)
  {
    if k >= 8 {
      UnpackAt(bytes[1..], k - 8);
      assert Unpack(bytes)[k] == Unpack(bytes[1..])[k - 8];
    }
  }

  lemma {:induction false} UnpackAppend(a: seq<bv8>, b: seq<bv8>)
    ensures Unpack(a + b) == Unpack(a) + Unpack(b)
  {
    if a != [] {
      assert (a + b)[1..] == a[1..] + b;
      UnpackAppend(a[1..], b);
    } else {
      assert a + b == b;
    }
  }

  lemma UnpackOne(b: bv8)
    ensures Unpack([b]) == ByteBits(b)
  {
    assert Unpack([b]) == ByteBits(b) + Unpack([]);
  }

  /** Extending a run of bits by one shifts the register and brings the bit in. */
  lemma AssembleStep8(s: seq<bool>, lo: nat, hi: nat)
    requires lo < hi <= |s|
    ensures Assemble8(s[lo..hi]) == ShiftIn8(Assemble8(s[lo..hi - 1]), s[hi - 1])
  {
    assert s[lo..hi][..hi - 1 - lo] == s[lo..hi - 1];
  }

  /** The same step, for a run of n bits starting at lo. */
  lemma AssembleNext8(s: seq<bool>, lo: nat, n: nat)
    requires lo + n < |s|
    ensures Assemble8(s[lo..lo + n + 1]) == ShiftIn8(Assemble8(s[lo..lo + n]), s[lo + n])
  {
    AssembleStep8(s, lo, lo + n + 1);
  }

  lemma AssembleNext32(s: seq<bool>, lo: nat, n: nat)
    requires lo + n < |s|
    ensures Assemble32(s[lo..lo + n + 1]) == ShiftIn32(Assemble32(s[lo..lo + n]), s[lo + n])
  {
    AssembleStep32(s, lo, lo + n + 1);
  }

  lemma AssembleStep32(s: seq<bool>, lo: nat, hi: nat)
    requires lo < hi <= |s|
    ensures Assemble32(s[lo..hi]) == ShiftIn32(Assemble32(s[lo..hi - 1]), s[hi - 1])
  {
    assert s[lo..hi][..hi - 1 - lo] == s[lo..hi - 1];
  }

  /** Shifting a register's low bit back in undoes shifting it out. */
  lemma ShiftInRestores8(x: bv8)
    ensures ShiftIn8(x >> 1, (x & 1) == 1) == x
  {
  }

  /** Shifting the first k bits of a byte back in, most significant first, yields the
      byte's top k bits. */
  lemma {:induction false} Assemble8Prefix(b: bv8, k: nat)
    requires k <= 8
    ensures Assemble8(ByteBits(b)[..k]) == Shr8(b, 8 - k)
  {
    var s := ByteBits(b);
    if k == 0 {
      assert s[..k] == [];
      ShiftIsShr8(b, 8);
    } else {
      var x := Shr8(b, 8 - k);
      assert Assemble8(s[..k]) == ShiftIn8(Assemble8(s[..k - 1]), s[k - 1]) by {
        AssembleStep8(s, 0, k);
        assert s[0..k] == s[..k] && s[0..k - 1] == s[..k - 1];
      }
      assert Assemble8(s[..k - 1]) == x >> 1 by {
        Assemble8Prefix(b, k - 1);
        assert Shr8(b, 9 - k) == x >> 1;
      }
      assert s[k - 1] == ((x & 1) == 1);
      ShiftInRestores8(x);
    }
  }

  lemma Assemble8OfByteBits(b: bv8)
    ensures Assemble8(ByteBits(b)) == b
  {
    Assemble8Prefix(b, 8);
    assert ByteBits(b)[..8] == ByteBits(b);
  }

  lemma {:induction false} Assemble32Prefix(w: bv32, k: nat)
    requires k <= 32
    ensures Assemble32(WordBits(w)[..k]) == Shr32(w, 32 - k)
  {
    var s := WordBits(w);
    if k == 0 {
      assert s[..k] == [];
      Shr32Drains(w);
    } else {
      Assemble32Prefix(w, k - 1);
      AssembleStep32(s, 0, k);
      assert s[0..k] == s[..k] && s[0..k - 1] == s[..k - 1];
      var x := Shr32(w, 32 - k);
      assert x == ((x >> 1) << 1) | (x & 1);
    }
  }

  lemma Assemble32OfWordBits(w: bv32)
    ensures Assemble32(WordBits(w)) == w
  {
    Assemble32Prefix(w, 32);
    assert WordBits(w)[..32] == WordBits(w);
  }

  /** Shifting a register of at most 8 bits right by m drops its last m bits. */
  lemma {:induction false} Assemble8Shifted(bits: seq<bool>, m: nat)
    requires m <= |bits| <= 8
    ensures Shr8(Assemble8(bits), m) == Assemble8(bits[..|bits| - m])
  {
    var n := |bits|;
    if m == 0 {
      assert bits[..n] == bits;
    } else {
      var init := bits[..n - 1];
      var y := Assemble8(init);
      Assemble8Shifted(init, n - 1);
      assert init[..0] == [];
      Shr8Zero(y, n - 1, 7);
      ShiftIsShr8(y, 7);
      assert Assemble8(bits) >> 1 == y;
      Shr8Commute(Assemble8(bits), m);
      Assemble8Shifted(init, m - 1);
      assert init[..n - 1 - (m - 1)] == bits[..n - m];
    }
  }

  /** Reading a full register's bits back out, most significant first, yields the bits. */
  lemma ByteBitsOfAssemble8(bits: seq<bool>)
    requires |bits| == 8
    ensures ByteBits(Assemble8(bits)) == bits
  {
    forall i | 0 <= i < 8
      ensures ByteBits(Assemble8(bits))[i] == bits[i]
    {
      Assemble8Shifted(bits, 7 - i);
      assert bits[..i + 1][..i] == bits[..i];
    }
  }

  /** Appending one bit to a run shifts the register and brings the bit in. */
  lemma Assemble8Snoc(p: seq<bool>, b: bool)
    ensures Assemble8(p + [b]) == ShiftIn8(Assemble8(p), b)
  {
    assert (p + [b])[..|p|] == p;
  }

  /** Emitting the byte assembled from eight bits appends exactly those bits. */
  lemma EmitByte(sink: seq<bv8>, full: seq<bool>)
    requires |full| == 8
    ensures Unpack(sink + [Assemble8(full)]) == Unpack(sink) + full
  {
    UnpackAppend(sink, [Assemble8(full)]);
    UnpackOne(Assemble8(full));
    ByteBitsOfAssemble8(full);
  }

  lemma ShiftInZero8(x: bv8, k: nat)
    requires 0 < k <= 8
    ensures ShiftIn8(x << (k - 1), false) == x << k
  {
    if k == 1 {
    } else if k == 2 {
    } else if k == 3 {
    } else if k == 4 {
    } else if k == 5 {
    } else if k == 6 {
    } else if k == 7 {
    } else {
    }
  }

  /** Shifting zeros into the register is a left shift of what it held. */
  lemma {:induction false} Assemble8Padded(bits: seq<bool>, k: nat)
    requires k <= 8
    ensures Assemble8(bits + Zeros(k)) == Assemble8(bits) << k
  {
    if k > 0 {
      Assemble8Padded(bits, k - 1);
      assert (bits + Zeros(k))[..|bits| + k - 1] == bits + Zeros(k - 1);
      ShiftInZero8(Assemble8(bits), k);
    } else {
      assert bits + Zeros(0) == bits;
    }
  }

  /** The reading side: `buffer` holds the last byte taken from the source, of which the
      low `avail` bits are still unread. */
  class BinaryInputStream {
    const source: seq<bv8>
    var next: nat     // index of the next source byte RefillBuffer takes
    var buffer: bv8
    var avail: nat

    ghost predicate Valid()
      reads this
    {
      next <= |source| && avail <= 8 && (avail > 0 ==> 0 < next && buffer == source[next - 1])
    }

    /** How many bits of the source's bit stream have been handed out. */
    ghost function Consumed(): (n: nat)
      reads this
      requires Valid()
      ensures n <= 8 * |source|
    {
      8 * next - avail
    }

    constructor (source: seq<bv8>)
      ensures Valid() && this.source == source && Consumed() == 0
    {
      this.source := source;
      next := 0;
      buffer := 0;
      avail := 0;
    }

    /** Takes the next source byte into the buffer, or fails when none is left. */
    method RefillBuffer() returns (r: Outcome)
      requires Valid() && avail == 0
      modifies this
      ensures Valid()
      ensures old(next) < |source| ==> r == Pass && next == old(next) + 1 && avail == 8
      ensures old(next) == |source| ==> r == Fail(Underflow) && unchanged(this)
    {
      if next == |source| {
        return Fail(Underflow);
      }
      buffer := source[next];
      next := next + 1;
      avail := 8;
      r := Pass;
    }

    /** Hands out the next bit of the stream, refilling first when the buffer is used up. */
    method GetBit() returns (r: Result<bool>)
      requires Valid()
      modifies this
      ensures Valid()
      ensures old(Consumed()) < 8 * |source| ==>
        r == Ok(Unpack(source)[old(Consumed())]) && Consumed() == old(Consumed()) + 1
      ensures old(Consumed()) == 8 * |source| ==>
        r == Err(Underflow) && Consumed() == old(Consumed())
    {
      if avail == 0 {
        var filled := RefillBuffer();
        if filled.Fail? {
          return Err(filled.error);
        }
      }
      avail := avail - 1;
      var bit := BitAt8(buffer, avail);
      assert bit == Unpack(source)[8 * next - avail - 1] by {
        var k := 8 * next - avail - 1;
        assert k / 8 == next - 1 && k % 8 == 7 - avail;
        UnpackAt(source, k);
        BitAtIsBitOf8(buffer, avail);
      }
      r := Ok(bit);
    }

    /** Eight bits of the stream shifted into a byte, most significant first. */
    method GetChar() returns (r: Result<bv8>)
      requires Valid()
      modifies this
      ensures Valid()
      ensures old(Consumed()) + 8 <= 8 * |source| ==>
        r == Ok(Assemble8(Unpack(source)[old(Consumed())..old(Consumed()) + 8]))
        && Consumed() == old(Consumed()) + 8
      ensures old(Consumed()) + 8 > 8 * |source| ==>
        r == Err(Underflow) && Consumed() == 8 * |source|
    {
      ghost var start := Consumed();
      ghost var bits := Unpack(source);
      var temp: bv8 := 0;
      for i := 0 to 8
        invariant Valid()
        invariant Consumed() == start + i <= 8 * |source|
        invariant temp == Assemble8(bits[start..start + i])
      {
        var bit := GetBit();
        if bit.Err? {
          return Err(bit.error);
        }
        assert bit.value == bits[start + i];
        var shifted := ShiftIn8(temp, bit.value);
        assert shifted == Assemble8(bits[start..start + i + 1]) by {
          AssembleNext8(bits, start, i);
        }
        temp := shifted;
      }
      r := Ok(temp);
    }

    /** Thirty-two bits of the stream shifted into a word, most significant first. */
    method GetInt() returns (r: Result<bv32>)
      requires Valid()
      modifies this
      ensures Valid()
      ensures old(Consumed()) + 32 <= 8 * |source| ==>
        r == Ok(Assemble32(Unpack(source)[old(Consumed())..old(Consumed()) + 32]))
        && Consumed() == old(Consumed()) + 32
      ensures old(Consumed()) + 32 > 8 * |source| ==>
        r == Err(Underflow) && Consumed() == 8 * |source|
    {
      ghost var start := Consumed();
      ghost var bits := Unpack(source);
      var temp: bv32 := 0;
      for i := 0 to 32
        invariant Valid()
        invariant Consumed() == start + i <= 8 * |source|
        invariant temp == Assemble32(bits[start..start + i])
      {
        var bit := GetBit();
        if bit.Err? {
          return Err(bit.error);
        }
        assert bit.value == bits[start + i];
        var shifted := ShiftIn32(temp, bit.value);
        assert shifted == Assemble32(bits[start..start + i + 1]) by {
          AssembleNext32(bits, start, i);
        }
        temp := shifted;
      }
      r := Ok(temp);
    }
  }

  /** The writing side: the low `count` bits of `buffer` are accepted but not yet
      written to the sink; `pending` names them. */
  class BinaryOutputStream {
    var sink: seq<bv8>
    var buffer: bv8
    var count: nat
    ghost var pending: seq<bool>

    ghost predicate Buffered()
      reads this
    {
      |pending| == count && buffer == Assemble8(pending)
    }

    ghost predicate Valid()
      reads this
    {
      count < 8 && Buffered()
    }

    /** Every bit accepted so far, in order, including padding already flushed. */
    ghost function Written(): seq<bool>
      reads this
    {
      Unpack(sink) + pending
    }

    constructor ()
      ensures Valid() && sink == [] && pending == []
    {
      sink := [];
      buffer := 0;
      count := 0;
      pending := [];
    }

    /** Writes the pending bits, if any, as one byte whose low bits are zero. */
    method FlushBuffer()
      requires count <= 8 && Buffered()
      modifies this
      ensures Valid() && count == 0 && pending == []
      ensures old(count) == 0 ==> sink == old(sink)
      ensures old(count) > 0 ==>
        sink == old(sink) + [Assemble8(old(pending) + Zeros(8 - old(count)))]
    {
      if count == 0 {
        return;
      }
      Assemble8Padded(pending, 8 - count);
      buffer := buffer << (8 - count);
      sink := sink + [buffer];
      buffer := 0;
      count := 0;
      pending := [];
    }

    /** Writes out a partial last byte, padded with zeros; closing twice writes nothing more. */
    method Close()
      requires Valid()
      modifies this
      ensures Valid() && pending == []
      ensures Written() == old(Written()) + Zeros((8 - old(count)) % 8)
      ensures Unpack(sink) == old(Written()) + Zeros((8 - old(count)) % 8)
      ensures old(count) == 0 ==> sink == old(sink)
    {
      ghost var p := pending;
      FlushBuffer();
      if |p| > 0 {
        PaddedByteBits(old(sink), p);
        assert (8 - |p|) % 8 == 8 - |p|;
      } else {
        assert Written() == old(Written()) + Zeros(0);
      }
    }

    /** The destructor closes the stream. */
    method Destroy()
      requires Valid()
      modifies this
      ensures Valid() && pending == []
      ensures Written() == old(Written()) + Zeros((8 - old(count)) % 8)
      ensures old(count) == 0 ==> sink == old(sink)
    {
      Close();
    }

    /** Accepts one bit; the eighth pending bit completes a byte, which is written. */
    method PutBit(bit: bool)
      requires Valid()
      modifies this
      ensures Valid()
      ensures Written() == old(Written()) + [bit]
      ensures old(count) < 7 ==> sink == old(sink) && pending == old(pending) + [bit]
      ensures old(count) == 7 ==> sink == old(sink) + [Assemble8(old(pending) + [bit])]
    {
      Assemble8Snoc(pending, bit);
      buffer := ShiftIn8(buffer, bit);
      pending := pending + [bit];
      count := count + 1;
      if count == 8 {
        ghost var full := pending;
        ghost var before := sink;
        FlushBuffer();
        assert full + Zeros(0) == full;
        EmitByte(before, full);
      }
    }

    /** Accepts the eight bits of a byte, most significant first. */
    method PutChar(byte: bv8)
      requires Valid()
      modifies this
      ensures Valid()
      ensures Written() == old(Written()) + ByteBits(byte)
    {
      ghost var bits := ByteBits(byte);
      var i := 7;
      while i >= 0
        invariant -1 <= i <= 7
        invariant Valid()
        invariant Written() == old(Written()) + bits[..7 - i]
      {
        var bit := BitAt8(byte, i);
        assert bits[..7 - i + 1] == bits[..7 - i] + [bit] by {
          BitAtIsBitOf8(byte, i);
        }
        PutBit(bit);
        i := i - 1;
      }
      assert bits[..8] == bits;
    }

    /** Accepts the thirty-two bits of a word, most significant first. */
    method PutInt(word: bv32)
      requires Valid()
      modifies this
      ensures Valid()
      ensures Written() == old(Written()) + WordBits(word)
    {
      ghost var bits := WordBits(word);
      var i := 31;
      while i >= 0
        invariant -1 <= i <= 31
        invariant Valid()
        invariant Written() == old(Written()) + bits[..31 - i]
      {
        var bit := BitOf32(word, i);
        assert bits[..31 - i + 1] == bits[..31 - i] + [bit];
        PutBit(bit);
        i := i - 1;
      }
      assert bits[..32] == bits;
    }
  }
}
