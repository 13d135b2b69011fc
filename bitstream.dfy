/** The data codewords of a byte-mode message: mode indicator, character
    count, payload, terminator, zero bits up to a byte boundary and the
    alternating pad codewords 0xEC, 0x11 (sections 7.4.5 and 7.4.9 of
    ISO/IEC 18004:2015), with the bit-string packing and a decoder that
    reads the message back. */
module Bitstream {
  import opened Versions

  /** A byte as the source handles it: a number from 0 to 255. */
  newtype byte = x: int | 0 <= x < 256

  datatype Option<T> = None | Some(value: T)

  // ---------------------------------------------------------------------
  // Arithmetic on naturals

  function TwoTo(n: nat): (p: nat)
    ensures p >= 1
  {
    if n == 0 then 1 else 2 * TwoTo(n - 1)
  }

  lemma TwoToEight()
    ensures TwoTo(8) == 256
  {
  }

  lemma MulSplit(b: nat, x: nat, y: nat)
    ensures b * (x + y) == b * x + b * y
  {
  }

  lemma MulAtLeast(b: nat, x: nat)
    requires x >= 1
    ensures b * x >= b
  {
    MulSplit(b, 1, x - 1);
  }

  /** Quotient and remainder are unique. */
  lemma DivUnique(a: nat, b: nat, q: nat, r: nat)
    requires b > 0 && r < b && a == b * q + r
    ensures a / b == q && a % b == r
  {
    var q', r' := a / b, a % b;
    assert a == b * q' + r';
    if q' > q {
      MulSplit(b, q, q' - q);
      MulAtLeast(b, q' - q);
    } else if q' < q {
      MulSplit(b, q', q - q');
      MulAtLeast(b, q - q');
    }
  }

  /** Reducing modulo 2m keeps the remainder modulo m and the bit above it. */
  lemma ModDouble(val: nat, m: nat)
    requires m > 0
    ensures val % (2 * m) == (if (val / m) % 2 == 1 then m else 0) + val % m
  {
    var q, r := val / m, val % m;
    var h, l := q / 2, q % 2;
    assert q == 2 * h + l;
    assert m * q == (2 * m) * h + m * l;
    assert val == (2 * m) * h + (m * l + r);
    DivUnique(val, 2 * m, h, m * l + r);
  }

  // ---------------------------------------------------------------------
  // Bits of numbers

  /** Bit i of val, that is (val >> i) & 1. */
  predicate BitAt(val: nat, i: nat)
  {
    (val / TwoTo(i)) % 2 == 1
  }

  /** The bits pushBits(val, len) appends: bits len - 1 down to 0 of val. */
  function BitsOf(val: nat, len: nat): (s: seq<bool>)
    ensures |s| == len
  {
    if len == 0 then [] else [BitAt(val, len - 1)] + BitsOf(val, len - 1)
  }

  lemma {:induction false} BitsOfIndex(val: nat, len: nat, j: nat)
    requires j < len
    ensures BitsOf(val, len)[j] == BitAt(val, len - 1 - j)
  {
    if j > 0 {
      BitsOfIndex(val, len - 1, j - 1);
    }
  }

  /** The number whose binary digits, most significant first, are s. */
  function Value(s: seq<bool>): (v: nat)
    ensures v < TwoTo(|s|)
  {
    if s == [] then 0 else (if s[0] then TwoTo(|s| - 1) else 0) + Value(s[1..])
  }

  /** Appending a bit doubles the value and adds the bit: the step
      b = (b << 1) | bit of the packing loop. */
  lemma {:induction false} ValueSnoc(s: seq<bool>, b: bool)
    ensures Value(s + [b]) == 2 * Value(s) + (if b then 1 else 0)
  {
    if s != [] {
      assert (s + [b])[1..] == s[1..] + [b];
      ValueSnoc(s[1..], b);
    }
  }

  /** The bits pushed for val read back as val modulo 2^len. */
  lemma {:induction false} ValueOfBits(val: nat, len: nat)
    ensures Value(BitsOf(val, len)) == val % TwoTo(len)
  {
    if len > 0 {
      assert BitsOf(val, len)[1..] == BitsOf(val, len - 1);
      ValueOfBits(val, len - 1);
      ModDouble(val, TwoTo(len - 1));
    }
  }

  /** Two bit strings of one length with the same value are equal. */
  lemma {:induction false} ValueInjective(s: seq<bool>, t: seq<bool>)
    requires |s| == |t| && Value(s) == Value(t)
    ensures s == t
  {
    if s != [] {
      ValueInjective(s[1..], t[1..]);
      assert s == [s[0]] + s[1..] && t == [t[0]] + t[1..];
    }
  }

  /** Reading a bit string as a number and pushing it back gives the string. */
  lemma BitsOfValue(s: seq<bool>)
    ensures BitsOf(Value(s), |s|) == s
  {
    ValueOfBits(Value(s), |s|);
    DivUnique(Value(s), TwoTo(|s|), 0, Value(s));
    ValueInjective(BitsOf(Value(s), |s|), s);
  }

  // ---------------------------------------------------------------------
  // Bytes and bit strings

  /** The eight bits of a byte, most significant first. */
  function ByteBits(b: byte): (s: seq<bool>)
    ensures |s| == 8
  {
    BitsOf(b as int, 8)
  }

  /** The bits of a byte sequence, each byte most significant bit first. */
  function Bits(bytes: seq<byte>): (s: seq<bool>)
    ensures |s| == 8 * |bytes|
  {
    if bytes == [] then [] else Bits(bytes[..|bytes| - 1]) + ByteBits(bytes[|bytes| - 1])
  }

  lemma Assoc<T>(a: seq<T>, b: seq<T>, c: seq<T>)
    ensures (a + b) + c == a + (b + c)
  {
  }

  lemma BitsSnoc(s: seq<byte>, b: byte)
    ensures Bits(s + [b]) == Bits(s) + ByteBits(b)
  {
    assert (s + [b])[..|s|] == s;
  }

  lemma {:induction false} BitsAppend(x: seq<byte>, y: seq<byte>)
    ensures Bits(x + y) == Bits(x) + Bits(y)
  {
    if y == [] {
      assert x + y == x;
    } else {
      var y', last := y[..|y| - 1], y[|y| - 1];
      assert y == y' + [last];
      assert x + y == (x + y') + [last];
      BitsSnoc(x + y', last);
      BitsSnoc(y', last);
      BitsAppend(x, y');
      Assoc(Bits(x), Bits(y'), ByteBits(last));
    }
  }

  /** The byte whose bits are s. */
  function ByteValue(s: seq<bool>): byte
    requires |s| == 8
  {
    TwoToEight();
    Value(s) as byte
  }

  lemma ByteOfBits(b: byte)
    ensures ByteValue(ByteBits(b)) == b
  {
    ValueOfBits(b as int, 8);
    TwoToEight();
    DivUnique(b as int, 256, 0, b as int);
  }

  lemma BitsOfByte(s: seq<bool>)
    requires |s| == 8
    ensures ByteBits(ByteValue(s)) == s
  {
    BitsOfValue(s);
    TwoToEight();
  }

  /** The conversion loop of encodeData: eight bits per byte, first bit most
      significant. */
  function Pack(bits: seq<bool>): (r: seq<byte>)
    requires |bits| % 8 == 0
    ensures 8 * |r| == |bits|
  {
    if bits == [] then [] else Pack(bits[..|bits| - 8]) + [ByteValue(bits[|bits| - 8..])]
  }

  lemma PackSnoc(front: seq<bool>, last: seq<bool>)
    requires |front| % 8 == 0 && |last| == 8
    ensures Pack(front + last) == Pack(front) + [ByteValue(last)]
  {
    var s := front + last;
    assert s[..|s| - 8] == front;
    assert s[|s| - 8..] == last;
  }

  /** Packing undoes unpacking. */
  lemma {:induction false} PackBits(bytes: seq<byte>)
    ensures Pack(Bits(bytes)) == bytes
  {
    if bytes != [] {
      var n := |bytes|;
      var b := bytes[n - 1];
      assert bytes == bytes[..n - 1] + [b];
      PackSnoc(Bits(bytes[..n - 1]), ByteBits(b));
      PackBits(bytes[..n - 1]);
      ByteOfBits(b);
    }
  }

  /** Unpacking undoes packing. */
  lemma {:induction false} BitsPack(bits: seq<bool>)
    requires |bits| % 8 == 0
    ensures Bits(Pack(bits)) == bits
  {
    if bits != [] {
      var n := |bits|;
      var last := bits[n - 8..];
      BitsPack(bits[..n - 8]);
      var p := Pack(bits);
      assert p[..|p| - 1] == Pack(bits[..n - 8]);
      BitsOfByte(last);
      assert bits == bits[..n - 8] + last;
    }
  }

  lemma PackAppend(x: seq<bool>, y: seq<bool>)
    requires |x| % 8 == 0 && |y| % 8 == 0
    ensures Pack(x + y) == Pack(x) + Pack(y)
  {
    BitsPack(x);
    BitsPack(y);
    BitsAppend(Pack(x), Pack(y));
    PackBits(Pack(x) + Pack(y));
  }

  // ---------------------------------------------------------------------
  // The bit stream of encodeData

  function ZeroBits(n: nat): (s: seq<bool>)
    ensures |s| == n
  {
    seq(n, i => false)
  }

  /** Mode indicator 0100, the count in 8 bits, then the payload. */
  function Header(bytes: seq<byte>): (h: seq<bool>)
    ensures |h| == 12 + 8 * |bytes|
  {
    ModeBits() + BitsOf(|bytes|, 8) + Bits(bytes)
  }

  /** The byte-mode indicator 0100. */
  function ModeBits(): seq<bool>
  {
    [false, true, false, false]
  }

  /** pushBits(0b0100, 4) writes the byte-mode indicator. */
  lemma ModeBitsValue()
    ensures BitsOf(4, 4) == ModeBits()
  {
    assert TwoTo(3) == 8 && TwoTo(2) == 4;
  }

  /** Math.min(4, maxBits - used), and no bits when that is negative. */
  function TerminatorLen(used: nat, maxBits: nat): nat
  {
    if used >= maxBits then 0 else if maxBits - used < 4 then maxBits - used else 4
  }

  /** The pad codewords 0xEC, 0x11, 0xEC, ... */
  function PadCodewords(k: nat): seq<byte>
  {
    seq(k, j => if j % 2 == 0 then 0xEC else 0x11)
  }

  /** Zero bits up to the next byte boundary. */
  function AlignLen(len: nat): nat
  {
    (8 - len % 8) % 8
  }

  /** Whole pad codewords from len bits up to maxBits. */
  function PadsNeeded(len: nat, maxBits: nat): nat
  {
    if len < maxBits then (maxBits - len) / 8 else 0
  }

  /** The header and the terminator. */
  function Terminated(bytes: seq<byte>, maxBits: nat): seq<bool>
  {
    Header(bytes) + ZeroBits(TerminatorLen(12 + 8 * |bytes|, maxBits))
  }

  /** The header, the terminator and the zero bits up to a byte boundary. */
  function Aligned(bytes: seq<byte>, maxBits: nat): seq<bool>
  {
    var t := Terminated(bytes, maxBits);
    t + ZeroBits(AlignLen(|t|))
  }

  /** The bit string encodeData builds for a message and totalData data codewords. */
  function Stream(bytes: seq<byte>, totalData: nat): seq<bool>
  {
    var a := Aligned(bytes, 8 * totalData);
    a + Bits(PadCodewords(PadsNeeded(|a|, 8 * totalData)))
  }

  function PadCount(k: nat, totalData: nat): nat
  {
    if k + 2 <= totalData then totalData - k - 2 else 0
  }

  /** Whatever the room, the header is followed by exactly four zero bits
      (when the header does not fit, no terminator is written and four zero
      bits complete the byte instead), then by whole pad codewords. */
  lemma StreamShape(bytes: seq<byte>, totalData: nat)
    ensures Stream(bytes, totalData) ==
      Header(bytes) + ZeroBits(4) + Bits(PadCodewords(PadCount(|bytes|, totalData)))
  {
    AlignedShape(bytes, 8 * totalData);
    var a := Aligned(bytes, 8 * totalData);
    AlignmentArith(|bytes|, totalData, |a|);
  }

  lemma AlignedShape(bytes: seq<byte>, maxBits: nat)
    ensures Aligned(bytes, maxBits) == Header(bytes) + ZeroBits(4)
  {
    var k := |bytes|;
    var h := Header(bytes);
    var z := TerminatorLen(12 + 8 * k, maxBits);
    var t := Terminated(bytes, maxBits);
    TerminatorArith(k, maxBits, |t|);
    var g := AlignLen(|t|);
    ZeroBitsAppend(z, g);
    Assoc(h, ZeroBits(z), ZeroBits(g));
  }

  lemma ZeroBitsAppend(m: nat, n: nat)
    ensures ZeroBits(m) + ZeroBits(n) == ZeroBits(m + n)
  {
  }

  /** The terminator and the zero bits after it add up to four bits. */
  lemma TerminatorArith(k: nat, maxBits: nat, len: nat)
    requires len == 12 + 8 * k + TerminatorLen(12 + 8 * k, maxBits)
    ensures TerminatorLen(12 + 8 * k, maxBits) + AlignLen(len) == 4
  {
    var z := TerminatorLen(12 + 8 * k, maxBits);
    if z == 4 {
      DivUnique(16 + 8 * k, 8, k + 2, 0);
    } else {
      DivUnique(12 + 8 * k + z, 8, k + 1, 4 + z);
    }
  }

  /** The number of pad codewords after a header of k bytes. */
  lemma AlignmentArith(k: nat, totalData: nat, len: nat)
    requires len == 16 + 8 * k
    ensures PadsNeeded(len, 8 * totalData) == PadCount(k, totalData)
  {
    if k + 2 <= totalData {
      DivUnique(8 * totalData - (16 + 8 * k), 8, totalData - k - 2, 0);
    }
  }

  /** The codewords encodeData returns. */
  function Encoded(bytes: seq<byte>, totalData: nat): seq<byte>
  {
    StreamLength(bytes, totalData);
    Pack(Stream(bytes, totalData))
  }

  lemma StreamLength(bytes: seq<byte>, totalData: nat)
    ensures |Stream(bytes, totalData)| == 8 * (|bytes| + 2 + PadCount(|bytes|, totalData))
    ensures |Stream(bytes, totalData)| % 8 == 0
  {
    StreamShape(bytes, totalData);
    var p := PadCount(|bytes|, totalData);
    assert |Bits(PadCodewords(p))| == 8 * p;
    EightDivides(|Stream(bytes, totalData)|, |bytes| + 2 + p);
  }

  lemma EightTimes(len: nat) returns (m: nat)
    requires len % 8 == 0
    ensures len == 8 * m
  {
    m := len / 8;
  }

  lemma EightDivides(len: nat, m: nat)
    requires len == 8 * m
    ensures len % 8 == 0
  {
    DivUnique(len, 8, m, 0);
  }

  /** encodeData returns exactly totalData codewords when the message fits
      in totalData - 2 codewords, and only the header and terminator
      otherwise. */
  lemma EncodedLength(bytes: seq<byte>, totalData: nat)
    ensures |Encoded(bytes, totalData)| == if |bytes| + 2 <= totalData then totalData else |bytes| + 2
  {
    StreamShape(bytes, totalData);
    assert |Stream(bytes, totalData)| == 16 + 8 * |bytes| + 8 * PadCount(|bytes|, totalData);
  }

  /** The layout of the codewords: mode 0100, the count, the payload bytes
      (all most significant bit first) and four zero bits fill the first
      |bytes| + 2 codewords; the rest alternate 0xEC, 0x11. */
  lemma EncodedLayout(bytes: seq<byte>, totalData: nat)
    ensures |Encoded(bytes, totalData)| >= |bytes| + 2
    ensures Bits(Encoded(bytes, totalData)[..|bytes| + 2]) ==
      ModeBits() + BitsOf(|bytes|, 8) + Bits(bytes) + ZeroBits(4)
    ensures Encoded(bytes, totalData)[|bytes| + 2..] == PadCodewords(PadCount(|bytes|, totalData))
  {
    var k := |bytes|;
    var front := Header(bytes) + ZeroBits(4);
    var pad := PadCodewords(PadCount(k, totalData));
    StreamShape(bytes, totalData);
    EightDivides(|front|, k + 2);
    EightDivides(|Bits(pad)|, |pad|);
    PackAppend(front, Bits(pad));
    PackBits(pad);
    var cw := Encoded(bytes, totalData);
    assert cw == Pack(front) + pad;
    SplitAt(Pack(front), pad);
    BitsPack(front);
  }

  lemma SplitAt<T>(a: seq<T>, b: seq<T>)
    ensures (a + b)[..|a|] == a && (a + b)[|a|..] == b
  {
  }

  /** Where the fields of the header sit in a bit string that starts with it. */
  lemma HeaderFields(bytes: seq<byte>, rest: seq<bool>)
    ensures (Header(bytes) + rest)[..4] == ModeBits()
    ensures (Header(bytes) + rest)[4..12] == BitsOf(|bytes|, 8)
    ensures (Header(bytes) + rest)[12..12 + 8 * |bytes|] == Bits(bytes)
  {
    Fields(ModeBits(), BitsOf(|bytes|, 8), Bits(bytes), rest, 4, 12, 12 + 8 * |bytes|);
  }

  lemma Fields<T>(a: seq<T>, b: seq<T>, c: seq<T>, rest: seq<T>, i: nat, j: nat, l: nat)
    requires i == |a| && j == i + |b| && l == j + |c|
    ensures (a + b + c + rest)[..i] == a
    ensures (a + b + c + rest)[i..j] == b
    ensures (a + b + c + rest)[j..l] == c
  {
  }

  /** The count field: the length modulo 256. */
  function CountField(k: nat): (m: nat)
    ensures m < 256 && m <= k
    ensures k < 256 ==> m == k
  {
    if k < 256 then k else k % 256
  }

  // ---------------------------------------------------------------------
  // Reading a message back

  /** A byte-mode reader: checks the mode, reads the 8-bit count and then
      that many bytes. */
  function Decode(codewords: seq<byte>): Option<seq<byte>>
  {
    var bits := Bits(codewords);
    if |bits| < 12 || bits[..4] != ModeBits() then None
    else
      var count := Value(bits[4..12]);
      if |bits| < 12 + 8 * count then None
      else
        EightDivides(|bits[12..12 + 8 * count]|, count);
        Some(Pack(bits[12..12 + 8 * count]))
  }

  /** Reading the codewords back gives the message, cut to its length
      modulo 256 because the count is written in 8 bits; for messages
      shorter than 256 bytes it is the message itself. */
  lemma DecodeEncoded(bytes: seq<byte>, totalData: nat)
    ensures Decode(Encoded(bytes, totalData)) == Some(bytes[..CountField(|bytes|)])
    ensures |bytes| < 256 ==> Decode(Encoded(bytes, totalData)) == Some(bytes)
  {
    var rest := EncodedBits(bytes, totalData);
    DecodeHeader(Encoded(bytes, totalData), bytes, rest);
  }

  /** The bits of the codewords are the header followed by the terminator
      and the pad codewords. */
  lemma EncodedBits(bytes: seq<byte>, totalData: nat) returns (rest: seq<bool>)
    ensures Bits(Encoded(bytes, totalData)) == Header(bytes) + rest
  {
    var pad := Bits(PadCodewords(PadCount(|bytes|, totalData)));
    rest := ZeroBits(4) + pad;
    StreamShape(bytes, totalData);
    StreamLength(bytes, totalData);
    Assoc(Header(bytes), ZeroBits(4), pad);
    BitsPack(Stream(bytes, totalData));
  }

  /** Any codewords whose bits start with the header of a message decode to
      that message cut to its count field. */
  lemma DecodeHeader(codewords: seq<byte>, bytes: seq<byte>, rest: seq<bool>)
    requires Bits(codewords) == Header(bytes) + rest
    ensures Decode(codewords) == Some(bytes[..CountField(|bytes|)])
    ensures |bytes| < 256 ==> Decode(codewords) == Some(bytes)
  {
    var k := |bytes|;
    var m := CountField(k);
    var prefix := bytes[..m];
    assert prefix + bytes[m..] == bytes;
    var bits := Bits(codewords);
    HeaderFields(bytes, rest);
    CountValue(k, bits[4..12]);
    BitsAppend(prefix, bytes[m..]);
    PrefixSlice(bits, Bits(bytes), Bits(prefix), 12);
    PackBits(prefix);
    DecodeFields(codewords, m, prefix);
    if k < 256 {
      assert prefix == bytes;
    }
  }

  /** Decode reads the fields it checks. */
  lemma DecodeFields(codewords: seq<byte>, count: nat, payload: seq<byte>)
    requires |Bits(codewords)| >= 12 + 8 * count
    requires Bits(codewords)[..4] == ModeBits()
    requires Value(Bits(codewords)[4..12]) == count
    requires Pack(Bits(codewords)[12..12 + 8 * count]) == payload
    ensures Decode(codewords) == Some(payload)
  {
  }

  /** The 8-bit count field reads back as the length modulo 256. */
  lemma CountValue(k: nat, field: seq<bool>)
    requires field == BitsOf(k, 8)
    ensures Value(field) == CountField(k)
  {
    ValueOfBits(k, 8);
    TwoToEight();
    if k < 256 {
      DivUnique(k, 256, 0, k);
    }
  }

  lemma PrefixSlice<T>(s: seq<T>, whole: seq<T>, part: seq<T>, i: nat)
    requires i + |whole| <= |s| && s[i..i + |whole|] == whole
    requires |part| <= |whole| && whole[..|part|] == part
    ensures s[i..i + |part|] == part
  {
    assert s[i..i + |part|] == s[i..i + |whole|][..|part|];
  }

  // ---------------------------------------------------------------------
  // encodeData

  /** pushBits: appends bits len - 1 down to 0 of val. */
  method PushBits(bits: seq<bool>, val: nat, len: nat) returns (r: seq<bool>)
    ensures r == bits + BitsOf(val, len)
  {
    r := bits;
    var i := len;
    while i > 0
      invariant 0 <= i <= len
      invariant r == bits + BitsOf(val, len)[..len - i]
    {
      i := i - 1;
      BitsOfIndex(val, len, len - 1 - i);
      assert BitsOf(val, len)[..len - i] == BitsOf(val, len)[..len - i - 1] + [BitAt(val, i)];
      r := r + [BitAt(val, i)];
    }
  }

  /** encodeData on the UTF-8 bytes of the text: the data codewords for a
      version with the given row. */
  method EncodeData(bytes: seq<byte>, info: VersionInfo) returns (codewords: seq<byte>)
    ensures codewords == Encoded(bytes, Capacity(info))
  {
    var totalData := Capacity(info);
    var bits := WriteHeader(bytes);
    bits := AppendTerminator(bytes, bits, totalData);
    bits := AlignToByte(bytes, bits, totalData);
    AlignedShape(bytes, 8 * totalData);
    bits := AppendPadding(bits, |bytes| + 2, totalData);
    StreamShape(bytes, totalData);
    StreamLength(bytes, totalData);
    codewords := ToCodewords(bits);
  }

  /** The mode indicator, the 8-bit count and the data bytes. */
  method WriteHeader(bytes: seq<byte>) returns (bits: seq<bool>)
    ensures bits == Header(bytes)
  {
    bits := PushBits([], 4, 4);
    ModeBitsValue();
    bits := PushBits(bits, |bytes|, 8);
    ghost var fields := ModeBits() + BitsOf(|bytes|, 8);
    assert bits == fields + Bits(bytes[..0]);
    for k := 0 to |bytes|
      invariant bits == fields + Bits(bytes[..k])
    {
      assert bytes[..k + 1] == bytes[..k] + [bytes[k]];
      BitsSnoc(bytes[..k], bytes[k]);
      Assoc(fields, Bits(bytes[..k]), ByteBits(bytes[k]));
      bits := PushBits(bits, bytes[k] as int, 8);
    }
    assert bytes[..|bytes|] == bytes;
  }

  /** The terminator: up to four zero bits, fewer when the capacity is
      nearly reached, none when it is exceeded. */
  method AppendTerminator(bytes: seq<byte>, bits: seq<bool>, totalData: nat) returns (r: seq<bool>)
    requires bits == Header(bytes)
    ensures r == Terminated(bytes, 8 * totalData)
  {
    var maxBits := totalData * 8;
    var termLen := if 4 < maxBits - |bits| then 4 else maxBits - |bits|;
    assert |bits| == 12 + 8 * |bytes| && maxBits == 8 * totalData;
    r := bits;
    var i := 0;
    while i < termLen
      invariant 0 <= i <= (if termLen > 0 then termLen else 0)
      invariant r == bits + ZeroBits(i)
    {
      assert ZeroBits(i + 1) == ZeroBits(i) + [false];
      r := r + [false];
      i := i + 1;
    }
    assert i == TerminatorLen(12 + 8 * |bytes|, 8 * totalData);
  }

  /** Zero bits up to the next byte boundary. */
  method AlignToByte(bytes: seq<byte>, bits: seq<bool>, totalData: nat) returns (r: seq<bool>)
    requires bits == Terminated(bytes, 8 * totalData)
    ensures r == Aligned(bytes, 8 * totalData)
  {
    var k := |bytes|;
    TerminatorArith(k, 8 * totalData, |bits|);
    EightDivides(16 + 8 * k, k + 2);
    r := bits;
    while |r| % 8 != 0
      invariant |bits| <= |r| <= 16 + 8 * k
      invariant r == bits + ZeroBits(|r| - |bits|)
      decreases 16 + 8 * k - |r|
    {
      assert ZeroBits(|r| - |bits| + 1) == ZeroBits(|r| - |bits|) + [false];
      r := r + [false];
    }
    AlignExit(|r|, k);
  }

  /** A multiple of eight between 12 + 8k and 16 + 8k is 16 + 8k. */
  lemma AlignExit(x: nat, k: nat)
    requires 12 + 8 * k <= x <= 16 + 8 * k && x % 8 == 0
    ensures x == 16 + 8 * k
  {
    DivUnique(x, 8, x / 8, 0);
    assert 8 * (x / 8) > 8 * (k + 1);
  }

  /** Alternating pad codewords 0xEC and 0x11 until the capacity of
      totalData codewords is filled; used is the number of whole bytes
      already written. */
  method AppendPadding(bits: seq<bool>, used: nat, totalData: nat) returns (r: seq<bool>)
    requires |bits| == 8 * used
    ensures r == bits + Bits(PadCodewords(if used < totalData then totalData - used else 0))
  {
    var maxBits := totalData * 8;
    ghost var pads := if used < totalData then totalData - used else 0;
    r := bits;
    var padIdx := 0;
    while |r| < maxBits
      invariant padIdx <= pads
      invariant |r| == 8 * used + 8 * padIdx
      invariant r == bits + Bits(PadCodewords(padIdx))
      decreases maxBits - |r|
    {
      var pad: byte := if padIdx % 2 == 0 then 0xEC else 0x11;
      PadStep(bits, padIdx, pad);
      r := PushBits(r, pad as int, 8);
      padIdx := padIdx + 1;
    }
  }

  lemma PadStep(bits: seq<bool>, i: nat, pad: byte)
    requires pad == if i % 2 == 0 then 0xEC else 0x11
    ensures bits + Bits(PadCodewords(i)) + BitsOf(pad as int, 8) == bits + Bits(PadCodewords(i + 1))
  {
    PadSnoc(i, pad);
    Assoc(bits, Bits(PadCodewords(i)), BitsOf(pad as int, 8));
  }

  lemma PadSnoc(i: nat, pad: byte)
    requires pad == if i % 2 == 0 then 0xEC else 0x11
    ensures Bits(PadCodewords(i + 1)) == Bits(PadCodewords(i)) + BitsOf(pad as int, 8)
  {
    assert PadCodewords(i + 1)[..i] == PadCodewords(i);
  }

  /** The inner conversion loop: bits p to p + 7 shifted in, the first
      bit most significant. */
  method ReadByte(bits: seq<bool>, p: nat) returns (byte: byte)
    requires p + 8 <= |bits|
    ensures byte == ByteValue(bits[p..p + 8])
  {
    var b := 0;
    for j := 0 to 8
      invariant b == Value(bits[p..p + j])
    {
      assert bits[p..p + j + 1] == bits[p..p + j] + [bits[p + j]];
      ValueSnoc(bits[p..p + j], bits[p + j]);
      b := b * 2 + (if bits[p + j] then 1 else 0);
    }
    ValueBelow256(bits[p..p + 8]);
    byte := b as byte;
  }

  lemma ValueBelow256(s: seq<bool>)
    requires |s| == 8
    ensures Value(s) < 256
  {
    TwoToEight();
  }

  /** Eight bits per codeword, the first bit most significant. */
  method ToCodewords(bits: seq<bool>) returns (codewords: seq<byte>)
    requires |bits| % 8 == 0
    ensures codewords == Pack(bits)
  {
    ghost var n := EightTimes(|bits|);
    codewords := [];
    var p := 0;
    while p < |bits|
      invariant p <= |bits| && p == 8 * |codewords|
      invariant p % 8 == 0 && codewords == Pack(bits[..p])
    {
      assert p + 8 <= |bits| by {
        assert |codewords| < n;
      }
      var b := ReadByte(bits, p);
      codewords := codewords + [b];
      PackSnoc(bits[..p], bits[p..p + 8]);
      assert bits[..p] + bits[p..p + 8] == bits[..p + 8];
      EightDivides(p + 8, |codewords|);
      p := p + 8;
    }
    assert bits[..p] == bits;
  }
}
