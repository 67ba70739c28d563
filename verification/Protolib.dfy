/**
 `util/protolib.py`: base 128 varints and streams of length-prefixed messages, as in the
 "Base 128 Varints" section of the Protocol Buffers Encoding specification. Serialized
 messages are opaque byte sequences.
 */
module Protolib {
  import opened Wrappers
  import opened Bits

  const TWO_32: int := 0x1_0000_0000
  const TWO_63: int := 0x8000_0000_0000_0000
  const TWO_64: int := 0x1_0000_0000_0000_0000

  // ----- Varints -----

  /** Seven bits to a byte, lowest first, with the high bit set on every byte but the last. */
  function Varint(v: nat): (s: seq<byte>)
    ensures |s| > 0
  {
    if v < 128 then [v] else [128 + v % 128] + Varint(v / 128)
  }

  /** The number that the low seven bits of the bytes spell, lowest first. */
  function SevenBitValue(s: seq<byte>): nat {
    if s == [] then 0 else s[0] % 128 + 128 * SevenBitValue(s[1..])
  }

  /** How many bytes at the front announce that another one follows. */
  function Continuations(s: seq<byte>): (n: nat)
    ensures n <= |s| && (forall i :: 0 <= i < n ==> s[i] >= 128) && (n < |s| ==> s[n] < 128)
  {
    if s == [] || s[0] < 128 then 0 else 1 + Continuations(s[1..])
  }

  datatype Decoded = Value(result: int, length: nat) | EndOfFile | TooManyBytes

  /** What decoding from `s` must give: at most ten bytes, reduced to 32 bits. */
  function DecodeVarint(s: seq<byte>): Decoded {
    var n := Continuations(s);
    if n >= 10 then TooManyBytes
    else if n == |s| then EndOfFile
    else Value(Reduce(SevenBitValue(s[..n + 1])), n + 1)
  }

  /** `result & mask`, except that a value with bit 63 or above set is sign-extended from bit 32. */
  function Reduce(raw: nat): int {
    if raw >= TWO_63 then (raw - TWO_64) % TWO_32 - TWO_32 else raw % TWO_32
  }

  lemma {:induction false} VarintValue(v: nat)
    ensures SevenBitValue(Varint(v)) == v
  {
    if v >= 128 {
      VarintValue(v / 128);
      assert Varint(v)[1..] == Varint(v / 128);
    }
  }

  lemma {:induction false} VarintContinuations(v: nat, rest: seq<byte>)
    ensures Continuations(Varint(v) + rest) == |Varint(v)| - 1
  {
    if v >= 128 {
      VarintContinuations(v / 128, rest);
      assert (Varint(v) + rest)[1..] == Varint(v / 128) + rest;
    }
  }

  /** Every seven bits take one byte: the encoding has `n` bytes at most when `v` has `7 n` bits. */
  lemma {:induction false} VarintLength(v: nat, n: nat)
    requires n > 0
    ensures |Varint(v)| <= n <==> v < Pow2(7 * n)
    decreases n
  {
    Pow2Seven(7 * (n - 1));
    if n == 1 {
      assert v >= 128 ==> |Varint(v)| == 1 + |Varint(v / 128)|;
    } else {
      VarintLength(v / 128, n - 1);
      if v < 128 {
        assert Pow2(7 * (n - 1)) >= 1;
      } else {
        assert v / 128 < Pow2(7 * (n - 1)) <==> v < 128 * Pow2(7 * (n - 1));
      }
    }
  }

  lemma Pow2Values()
    ensures Pow2(28) == 0x1000_0000 && Pow2(35) == 0x8_0000_0000
  {
    assert Pow2(0) == 1;
    Pow2Seven(0);
    Pow2Seven(7);
    Pow2Seven(14);
    Pow2Seven(21);
    Pow2Seven(28);
  }

  /** A value is decoded to itself, whatever follows it, exactly when it fits 32 bits. */
  lemma VarintRoundTrip(v: nat, rest: seq<byte>)
    ensures DecodeVarint(Varint(v) + rest) == Value(v, |Varint(v)|) <==> v < TWO_32
    ensures v < TWO_32 ==> |Varint(v)| <= 5
  {
    VarintContinuations(v, rest);
    VarintValue(v);
    Pow2Values();
    VarintLength(v, 5);
    assert (Varint(v) + rest)[..|Varint(v)|] == Varint(v);
  }

  /** Whatever is accepted is right modulo 2^32, in range, and at most ten bytes long. */
  lemma DecodedIsCongruent(s: seq<byte>)
    ensures var d := DecodeVarint(s);
            d.Value? ==>
              && 1 <= d.length <= 10 && d.length <= |s|
              && s[d.length - 1] < 128 && (forall i :: 0 <= i < d.length - 1 ==> s[i] >= 128)
              && (d.result - SevenBitValue(s[..d.length])) % TWO_32 == 0
              && -TWO_32 <= d.result < TWO_32
  {
    var d := DecodeVarint(s);
    if d.Value? {
      ReduceIsCongruent(SevenBitValue(s[..d.length]));
    }
  }

  lemma ReduceIsCongruent(raw: nat)
    ensures (Reduce(raw) - raw) % TWO_32 == 0 && -TWO_32 <= Reduce(raw) < TWO_32
  {
    if raw >= TWO_63 {
      var q := (raw - TWO_64) / TWO_32;
      assert Reduce(raw) - raw == (-q - 1 - TWO_32) * TWO_32;
    } else {
      assert Reduce(raw) - raw == -(raw / TWO_32) * TWO_32;
    }
  }

  // ----- Messages -----

  type Message = seq<byte>

  function EncodeOne(m: Message): seq<byte> {
    Varint(|m|) + m
  }

  function EncodeStream(messages: seq<Message>): seq<byte> {
    if messages == [] then [] else EncodeOne(messages[0]) + EncodeStream(messages[1..])
  }

  /** What `read(size)` takes from `s`: everything for a negative size, and no more than there is. */
  function Taken(s: seq<byte>, size: int): nat {
    if size < 0 || size > |s| then |s| else size
  }

  datatype Frame = NoMessage | Frame(message: Message, length: nat)

  /** The message at the front of `s` and how many bytes of `s` it uses, or none. */
  function NextMessage(s: seq<byte>): (r: Frame)
    ensures r.Frame? ==> 0 < r.length <= |s|
  {
    match DecodeVarint(s)
    case Value(size, length) =>
      if size == 0 then NoMessage
      else
        var body := s[length..];
        Frame(body[..Taken(body, size)], length + Taken(body, size))
    case _ => NoMessage
  }

  function DecodeStream(s: seq<byte>): seq<Message>
    decreases |s|
  {
    match NextMessage(s)
    case NoMessage => []
    case Frame(m, n) => [m] + DecodeStream(s[n..])
  }

  /** The messages before the first empty one. */
  function NonEmptyPrefix(messages: seq<Message>): seq<Message> {
    if messages == [] || messages[0] == [] then [] else [messages[0]] + NonEmptyPrefix(messages[1..])
  }

  lemma NextOfEncoded(m: Message, rest: seq<byte>)
    requires |m| < TWO_32
    ensures NextMessage(EncodeOne(m) + rest) == if m == [] then NoMessage else Frame(m, |EncodeOne(m)|)
  {
    var v := Varint(|m|);
    assert EncodeOne(m) + rest == v + (m + rest);
    VarintRoundTrip(|m|, m + rest);
    assert (v + (m + rest))[|v|..] == m + rest;
    assert (m + rest)[..|m|] == m;
  }

  /** Reading back a stream gives its messages up to the first empty one, which reads as the end. */
  lemma {:induction false} StreamRoundTrip(messages: seq<Message>)
    requires forall m :: m in messages ==> |m| < TWO_32
    ensures DecodeStream(EncodeStream(messages)) == NonEmptyPrefix(messages)
  {
    if messages == [] {
      assert NextMessage([]) == NoMessage;
    } else {
      var m, rest := messages[0], EncodeStream(messages[1..]);
      NextOfEncoded(m, rest);
      if m != [] {
        StreamRoundTrip(messages[1..]);
        assert (EncodeOne(m) + rest)[|EncodeOne(m)|..] == rest;
      }
    }
  }

  /** A stream that holds messages and yields none: the first of them is empty. */
  lemma EmptyMessageEndsStream(m: Message)
    requires |m| < TWO_32
    ensures DecodeStream(EncodeStream([[], m])) == []
  {
    StreamRoundTrip([[], m]);
  }

  /** All messages come back exactly when none of them is empty. */
  lemma {:induction false} NonEmptyPrefixExactly(messages: seq<Message>)
    ensures NonEmptyPrefix(messages) <= messages
    ensures NonEmptyPrefix(messages) == messages <==> forall m :: m in messages ==> m != []
  {
    if messages != [] {
      assert messages[0] in messages;
      var head, tail := messages[0], messages[1..];
      assert messages == [head] + tail;
      NonEmptyPrefixExactly(tail);
      if head != [] {
        assert ([head] + NonEmptyPrefix(tail))[1..] == NonEmptyPrefix(tail);
        assert forall m :: m in messages <==> m == head || m in tail;
      }
    }
  }

  // ----- The loops over files -----

  class InFile {
    var data: seq<byte>
    var pos: nat

    constructor (data: seq<byte>)
      ensures this.data == data && pos == 0
    {
      this.data, pos := data, 0;
    }

    ghost predicate Valid()
      reads this
    {
      pos <= |data|
    }

    function Rest(): seq<byte>
      requires Valid()
      reads this
    {
      data[pos..]
    }

    method Read(size: int) returns (bytes: seq<byte>)
      requires Valid()
      modifies this`pos
      ensures Valid()
      ensures size < 0 || |old(Rest())| <= size ==> bytes == old(Rest()) && Rest() == []
      ensures 0 <= size < |old(Rest())| ==> bytes == old(Rest())[..size] && Rest() == old(Rest())[size..]
    {
      var left := |data| - pos;
      var n := if size < 0 then left else if size < left then size else left;
      bytes := data[pos..pos + n];
      pos := pos + n;
    }
  }

  lemma {:induction false} SevenBitSnoc(s: seq<byte>, b: byte)
    ensures SevenBitValue(s + [b]) == SevenBitValue(s) + b % 128 * Pow2(7 * |s|)
  {
    if s == [] {
      assert (s + [b])[1..] == [] && Pow2(0) == 1;
    } else {
      SevenBitSnoc(s[1..], b);
      assert (s + [b])[1..] == s[1..] + [b];
      Pow2Seven(7 * (|s| - 1));
      assert 128 * (b % 128 * Pow2(7 * (|s| - 1))) == b % 128 * (128 * Pow2(7 * (|s| - 1)));
    }
  }

  lemma {:induction false} SevenBitBound(s: seq<byte>)
    ensures SevenBitValue(s) < Pow2(7 * |s|)
  {
    if s != [] {
      SevenBitBound(s[1..]);
      Pow2Seven(7 * (|s| - 1));
    }
  }

  /** Or-ing in the next seven bits extends the value. */
  lemma OneMoreByte(s: seq<byte>, b: byte)
    ensures BitOr(SevenBitValue(s), ShiftLeft(b % 128, 7 * |s|)) == SevenBitValue(s + [b])
  {
    SevenBitSnoc(s, b);
    SevenBitBound(s);
    OrOfDisjoint(SevenBitValue(s), b % 128, 7 * |s|);
  }

  /** The low seven bits of a byte, and the test of its high bit. */
  lemma ByteBits(b: byte)
    ensures BitAnd(b, 0x7f) == b % 128
    ensures BitAnd(b, 0x80) == 0 <==> b < 128
  {
    assert Pow2(0) == 1;
    Pow2Seven(0);
    AndOfMask(b, 7);
    AndOfTopBit(b, 7);
  }

  /** The 32-bit mask. */
  const MASK: int := 0xffff_ffff

  lemma Pow32()
    ensures Pow2(32) == TWO_32
  {
    Pow2Values();
    assert Pow2(32) == 2 * Pow2(31) && Pow2(31) == 2 * Pow2(30) && Pow2(30) == 2 * Pow2(29) && Pow2(29) == 2 * Pow2(28);
  }

  /** Masking, or sign extension by the complement of the mask, is the reduction to 32 bits. */
  method MaskTo32(raw: nat) returns (result: int)
    ensures result == Reduce(raw)
  {
    Pow32();
    if raw > 0x7fff_ffff_ffff_ffff {
      result := raw - TWO_64;
      OrOfHighBits(result, 32);
      result := SignedOr(result, -1 - MASK);
    } else {
      AndOfMask(raw, 32);
      result := BitAnd(raw, MASK);
    }
  }

  lemma NextByte(s: seq<byte>, n: nat)
    requires n < |s|
    ensures BitOr(SevenBitValue(s[..n]), ShiftLeft(BitAnd(s[n], 0x7f), 7 * n)) == SevenBitValue(s[..n + 1])
    ensures BitAnd(s[n], 0x80) == 0 <==> s[n] < 128
  {
    assert s[..n + 1] == s[..n] + [s[n]];
    ByteBits(s[n]);
    OneMoreByte(s[..n], s[n]);
  }

  lemma FirstWithout(s: seq<byte>, n: nat)
    requires n < |s| && n <= Continuations(s) && s[n] < 128
    ensures Continuations(s) == n
  {
  }

  method DecodeVarint32(f: InFile) returns (d: Decoded)
    requires f.Valid()
    modifies f`pos
    ensures f.Valid() && d == DecodeVarint(old(f.Rest()))
    ensures d.Value? ==> d.length <= |old(f.Rest())| && f.Rest() == old(f.Rest())[d.length..]
    ensures |old(f.Rest())| - 10 <= |f.Rest()|
  {
    ghost var s := f.Rest();
    var result, shift, length := 0, 0, 0;
    while true
      invariant f.Valid() && length <= |s| && length < 10 && f.Rest() == s[length..]
      invariant shift == 7 * length && result == SevenBitValue(s[..length]) && 0 <= result
      invariant length <= Continuations(s)
      decreases 10 - length
    {
      var c := f.Read(1);
      if |c| == 0 {
        return EndOfFile;
      }
      var b := c[0];
      NextByte(s, length);
      result := BitOr(result, ShiftLeft(BitAnd(b, 0x7f), shift));
      length := length + 1;
      if BitAnd(b, 0x80) == 0 {
        FirstWithout(s, length - 1);
        var reduced := MaskTo32(result);
        return Value(reduced, length);
      }
      shift := shift + 7;
      if shift >= 64 {
        return TooManyBytes;
      }
    }
  }

  method DecodeMessage(f: InFile) returns (m: Option<Message>)
    requires f.Valid()
    modifies f`pos
    ensures f.Valid()
    ensures match NextMessage(old(f.Rest()))
            case NoMessage => m == None
            case Frame(body, n) => m == Some(body) && f.Rest() == old(f.Rest())[n..]
  {
    ghost var s := f.Rest();
    var d := DecodeVarint32(f);
    if !d.Value? || d.result == 0 {
      return None;
    }
    ghost var body := f.Rest();
    var bytes := f.Read(d.result);
    assert bytes == body[..Taken(body, d.result)] && f.Rest() == body[Taken(body, d.result)..];
    assert s[d.length..][Taken(body, d.result)..] == s[d.length + Taken(body, d.result)..];
    return Some(bytes);
  }

  /** The loop of every decoding script: read messages until there is none. */
  method DecodeAll(f: InFile) returns (messages: seq<Message>)
    requires f.Valid()
    modifies f`pos
    ensures messages == DecodeStream(old(f.Rest()))
  {
    messages := [];
    var m := DecodeMessage(f);
    ghost var s := old(f.Rest());
    while m.Some?
      invariant f.Valid()
      invariant NextMessage(s).Frame? == m.Some?
      invariant m.Some? ==> NextMessage(s).message == m.value && f.Rest() == s[NextMessage(s).length..]
      invariant DecodeStream(old(f.Rest())) == messages + DecodeStream(s)
      decreases |s|
    {
      assert messages + ([m.value] + DecodeStream(f.Rest())) == (messages + [m.value]) + DecodeStream(f.Rest());
      messages := messages + [m.value];
      s := f.Rest();
      m := DecodeMessage(f);
    }
    assert messages + [] == messages;
  }

  lemma SevenBits(v: nat)
    ensures BitAnd(v, 0x7f) == v % 128
  {
    assert Pow2(0) == 1;
    Pow2Seven(0);
    AndOfMask(v, 7);
  }

  lemma HighBit(bits: nat)
    requires bits < 128
    ensures BitOr(0x80, bits) == 128 + bits
  {
    assert Pow2(0) == 1;
    Pow2Seven(0);
    OrOfDisjoint(bits, 1, 7);
    OrCommutes(0x80, bits);
  }

  lemma {:induction false} OrCommutes(x: nat, y: nat)
    ensures BitOr(x, y) == BitOr(y, x)
  {
    if x > 0 && y > 0 {
      OrCommutes(x / 2, y / 2);
    }
  }

  class OutFile {
    var data: seq<byte>

    constructor ()
      ensures data == []
    {
      data := [];
    }

    method Write(bytes: seq<byte>)
      modifies this
      ensures data == old(data) + bytes
    {
      data := data + bytes;
    }

    method EncodeVarint32(value: nat)
      modifies this
      ensures data == old(data) + Varint(value)
    {
      SevenBits(value);
      var bits, v := BitAnd(value, 0x7f), value / 128;
      ghost var left := value;
      while v != 0
        invariant 0 <= bits < 128 && 0 <= v && left == 128 * v + bits
        invariant data + Varint(left) == old(data) + Varint(value)
        decreases v
      {
        assert Varint(left) == [128 + bits] + Varint(v);
        assert (data + [128 + bits]) + Varint(v) == data + ([128 + bits] + Varint(v));
        HighBit(bits);
        Write([BitOr(0x80, bits)]);
        left := v;
        SevenBits(v);
        bits, v := BitAnd(v, 0x7f), v / 128;
      }
      assert Varint(left) == [bits];
      Write([bits]);
    }

    method EncodeMessage(m: Message)
      modifies this
      ensures data == old(data) + EncodeOne(m)
    {
      EncodeVarint32(|m|);
      Write(m);
      assert (old(data) + Varint(|m|)) + m == old(data) + EncodeOne(m);
    }

    method EncodeMessages(messages: seq<Message>)
      modifies this
      ensures data == old(data) + EncodeStream(messages)
    {
      assert messages[0..] == messages;
      for i := 0 to |messages|
        invariant data + EncodeStream(messages[i..]) == old(data) + EncodeStream(messages)
      {
        assert messages[i..][0] == messages[i] && messages[i..][1..] == messages[i + 1..];
        ghost var rest := EncodeStream(messages[i + 1..]);
        assert data + (EncodeOne(messages[i]) + rest) == (data + EncodeOne(messages[i])) + rest;
        EncodeMessage(messages[i]);
      }
    }
  }
}
