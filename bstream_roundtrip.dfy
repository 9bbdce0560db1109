/** What a writer and a fresh reader over its output agree on: the values put are
    the values got back, in order (the usage Modify2/test_bstream.cc exercises). */
module BStreamRoundTrip {
  import opened Failures
  import opened BStream

  /** One call on the writer: PutBit, PutChar or PutInt. */
  datatype Item = Bit(b: bool) | Char(c: bv8) | Int(w: bv32)

  /** The bits one item contributes to the stream. */
  function ItemBits(item: Item): (bits: seq<bool>)
    ensures |bits| == (match item case Bit(_) => 1 case Char(_) => 8 case Int(_) => 32)
  {
    match item
    case Bit(b) => [b]
    case Char(c) => ByteBits(c)
    case Int(w) => WordBits(w)
  }

  /** The bits a sequence of items contributes, in order. */
  function Encode(items: seq<Item>): seq<bool>
  {
    if items == [] then [] else Encode(items[..|items| - 1]) + ItemBits(items[|items| - 1])
  }

  /** The encoding of a prefix is a prefix of the encoding. */
  lemma {:induction false} EncodePrefix(items: seq<Item>, j: nat)
    requires j <= |items|
    ensures Encode(items[..j]) <= Encode(items)
  {
    if j < |items| {
      var init := items[..|items| - 1];
      assert init[..j] == items[..j];
      EncodePrefix(init, j);
    } else {
      assert items[..j] == items;
    }
  }

  lemma EncodeSnoc(items: seq<Item>, i: nat)
    requires i < |items|
    ensures Encode(items[..i + 1]) == Encode(items[..i]) + ItemBits(items[i])
  {
    assert items[..i + 1][..i] == items[..i];
  }

  lemma ItemsSnoc(items: seq<Item>, i: nat)
    requires i < |items|
    ensures items[..i + 1] == items[..i] + [items[i]]
  {
  }

  lemma SliceOfPrefix(a: seq<bool>, b: seq<bool>, s: seq<bool>)
    requires a + b <= s
    ensures s[|a|..|a| + |b|] == b
  {
    assert s[..|a| + |b|] == a + b;
    assert s[|a|..|a| + |b|] == (a + b)[|a|..];
  }

  /** The stream holds the bits of `item` from position `start` on. */
  ghost predicate StoredAt(s: seq<bool>, start: nat, item: Item)
  {
    start + |ItemBits(item)| <= |s| && s[start..start + |ItemBits(item)|] == ItemBits(item)
  }

  /** Where the i-th item's bits sit in a stream that starts with the encoding. */
  lemma ReadStep(items: seq<Item>, s: seq<bool>, i: nat)
    requires Encode(items) <= s && i < |items|
    ensures StoredAt(s, |Encode(items[..i])|, items[i])
    ensures |Encode(items[..i + 1])| == |Encode(items[..i])| + |ItemBits(items[i])|
  {
    EncodePrefix(items, i + 1);
    EncodeSnoc(items, i);
    SliceOfPrefix(Encode(items[..i]), ItemBits(items[i]), s);
  }

  /** A read at the i-th item's position that succeeds whenever the item is stored
      there gives back that item and ends where the next item starts. */
  lemma ReadNext(items: seq<Item>, s: seq<bool>, i: nat, before: nat, after: nat, r: Result<Item>)
    requires Encode(items) <= s && i < |items| && before == |Encode(items[..i])|
    requires StoredAt(s, before, items[i]) ==> r == Ok(items[i])
    requires StoredAt(s, before, items[i]) ==> after == before + |ItemBits(items[i])|
    ensures r == Ok(items[i]) && after == |Encode(items[..i + 1])|
  {
    ReadStep(items, s, i);
  }

  /** Padding a bit count up to whole bytes. */
  lemma PaddedLength(n: nat, bytes: nat, count: nat)
    requires count < 8 && n == 8 * bytes + count
    ensures n + (8 - count) % 8 == 8 * ((n + 7) / 8)
  {
  }

  /** Closing a writer that holds some bits, `count` of them pending in a partial
      byte, leaves a sink as long as the bits rounded up to whole bytes. */
  lemma ClosedLength(before: seq<bv8>, count: nat, bits: seq<bool>, sink: seq<bv8>)
    requires count < 8 && |bits| == 8 * |before| + count
    requires Unpack(sink) == bits + Zeros((8 - count) % 8)
    ensures |bits| <= 8 * |sink| < |bits| + 8
    ensures Unpack(sink) == bits + Zeros(8 * |sink| - |bits|)
    ensures |sink| == (|bits| + 7) / 8
  {
    var pad := (8 - count) % 8;
    PaddedLength(|bits|, |before|, count);
    assert 8 * |sink| == |bits| + pad;
  }

  /** Reads one item of the same kind as `item` from the reader. */
  method GetItem(input: BinaryInputStream, item: Item) returns (r: Result<Item>)
    requires input.Valid()
    modifies input
    ensures input.Valid()
    ensures StoredAt(Unpack(input.source), old(input.Consumed()), item) ==> r == Ok(item)
    ensures StoredAt(Unpack(input.source), old(input.Consumed()), item) ==>
      input.Consumed() == old(input.Consumed()) + |ItemBits(item)|
  {
    ghost var start := input.Consumed();
    ghost var bits := Unpack(input.source);
    match item
    case Bit(_) =>
      assert ItemBits(item)[0] == item.b;
      var bit := input.GetBit();
      if bit.Err? {
        return Err(bit.error);
      }
      r := Ok(Bit(bit.value));
    case Char(_) =>
      var c := input.GetChar();
      if c.Err? {
        return Err(c.error);
      }
      Assemble8OfByteBits(item.c);
      r := Ok(Char(c.value));
    case Int(_) =>
      var w := input.GetInt();
      if w.Err? {
        return Err(w.error);
      }
      Assemble32OfWordBits(item.w);
      r := Ok(Int(w.value));
  }

  /** Puts `items` in order into a writer that has accepted nothing yet. */
  method WriteItems(output: BinaryOutputStream, items: seq<Item>)
    requires output.Valid() && output.Written() == []
    modifies output
    ensures output.Valid() && output.Written() == Encode(items)
  {
    for i := 0 to |items|
      invariant output.Valid()
      invariant output.Written() == Encode(items[..i])
    {
      EncodeSnoc(items, i);
      match items[i]
      case Bit(b) => output.PutBit(b);
      case Char(c) => output.PutChar(c);
      case Int(w) => output.PutInt(w);
    }
    assert items[..|items|] == items;
  }

  /** Writes `items` in order and closes the writer: the sink holds their bits
      followed by the zero padding of the last byte. */
  method WriteAll(items: seq<Item>) returns (sink: seq<bv8>)
    ensures |Encode(items)| <= 8 * |sink| < |Encode(items)| + 8
    ensures Unpack(sink) == Encode(items) + Zeros(8 * |sink| - |Encode(items)|)
    ensures |sink| == (|Encode(items)| + 7) / 8
  {
    var output := new BinaryOutputStream();
    WriteItems(output, items);
    ghost var before, count := output.sink, output.count;
    output.Close();
    sink := output.sink;
    assert |Encode(items)| <= 8 * |sink| < |Encode(items)| + 8
      && Unpack(sink) == Encode(items) + Zeros(8 * |sink| - |Encode(items)|)
      && |sink| == (|Encode(items)| + 7) / 8 by {
      ClosedLength(before, count, Encode(items), sink);
    }
  }

  /** Reads one item of each kind in `items`, in order, from a reader positioned at
      the start of their encoding. */
  method ReadItems(input: BinaryInputStream, items: seq<Item>) returns (back: seq<Item>)
    requires input.Valid() && input.Consumed() == 0 && Encode(items) <= Unpack(input.source)
    modifies input
    ensures input.Valid() && input.Consumed() == |Encode(items)|
    ensures back == items
  {
    back := [];
    for i := 0 to |items|
      invariant input.Valid()
      invariant input.Consumed() == |Encode(items[..i])|
      invariant back == items[..i]
    {
      ghost var before := input.Consumed();
      var item := GetItem(input, items[i]);
      ReadNext(items, Unpack(input.source), i, before, input.Consumed(), item);
      ItemsSnoc(items, i);
      back := back + [item.value];
    }
    assert items[..|items|] == items;
  }

  /** Reads back, from a fresh reader over `sink`, one item of each kind in `items`,
      then one more GetChar. */
  method ReadAll(sink: seq<bv8>, items: seq<Item>) returns (back: seq<Item>, trailing: Result<bv8>)
    requires Encode(items) <= Unpack(sink) && 8 * |sink| < |Encode(items)| + 8
    ensures back == items
    ensures trailing == Err(Underflow)
  {
    var input := new BinaryInputStream(sink);
    back := ReadItems(input, items);
    trailing := input.GetChar();
  }

  /** Whatever is written, then closed, reads back the same items in the same order
      from ceil(bits / 8) bytes, after which no further byte can be read. */
  method RoundTrip(items: seq<Item>) returns (sink: seq<bv8>, back: seq<Item>, trailing: Result<bv8>)
    ensures |sink| == (|Encode(items)| + 7) / 8
    ensures back == items
    ensures trailing == Err(Underflow)
  {
    sink := WriteAll(items);
    back, trailing := ReadAll(sink, items);
  }

  /** The mixed write of Modify2/test_bstream.cc: two bits, two bytes, a bit and a
      word, 51 bits in 7 bytes, read back value for value. */
  method MixedWrites() returns (sink: seq<bv8>, back: seq<Item>)
    ensures |sink| == 7
    ensures back == [Bit(true), Bit(false), Char(0xfe), Char(0x63), Bit(false), Int(0x2805_4b73)]
  {
    var items := [Bit(true), Bit(false), Char(0xfe), Char(0x63), Bit(false), Int(0x2805_4b73)];
    assert |Encode(items)| == 51 by {
      assert items[..0] == [] && items[..6] == items;
      EncodeSnoc(items, 0);
      EncodeSnoc(items, 1);
      EncodeSnoc(items, 2);
      EncodeSnoc(items, 3);
      EncodeSnoc(items, 4);
      EncodeSnoc(items, 5);
    }
    var trailing;
    sink, back, trailing := RoundTrip(items);
  }
}
