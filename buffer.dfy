/**
 * The byte buffer of the node: a growable sequence of bytes with
 * big-endian number appenders, a read-only view that compares equal and
 * lexicographically against a buffer, the hex-digit test, the `_buf`
 * literal and the short/long text rendering used by the formatting library.
 */
module Buffer {
  import opened Wrappers

  type byte = b: int | 0 <= b < 256
  type Bytes = seq<byte>

  // ---------------------------------------------------------------------
  // BufferView comparisons
  // ---------------------------------------------------------------------

  /** `BufferView == Buffer`: element-by-element comparison of both ranges. */
  function ViewEquals(view: Bytes, buf: Bytes): (r: bool)
    ensures r <==> view == buf
  {
    if |view| == 0 || |buf| == 0 then |view| == |buf|
    else view[0] == buf[0] && ViewEquals(view[1..], buf[1..])
  }

  /**
   * `BufferView < Buffer`: lexicographic comparison as done by
   * `std::lexicographical_compare` on the two byte ranges.
   */
  function LexLess(a: Bytes, b: Bytes): (r: bool)
    ensures r ==> a != b && |b| > 0
    ensures |a| < |b| && a == b[..|a|] ==> r
  {
    if |b| == 0 then false
    else if |a| == 0 then true
    else if a[0] < b[0] then true
    else if b[0] < a[0] then false
    else LexLess(a[1..], b[1..])
  }

  /** `a` comes strictly before `b`: a proper prefix, or smaller at the first difference. */
  ghost predicate StrictlyBefore(a: Bytes, b: Bytes)
  {
    exists k :: 0 <= k <= |a| && k <= |b| && a[..k] == b[..k] &&
      ((k == |a| && k < |b|) || (k < |a| && k < |b| && a[k] < b[k]))
  }

  /** A smaller buffer has a first difference (or is a proper prefix). */
  lemma {:induction false} LexLessWitness(a: Bytes, b: Bytes) returns (k: nat)
    requires LexLess(a, b)
    ensures k <= |a| && k <= |b| && a[..k] == b[..k]
    ensures (k == |a| && k < |b|) || (k < |a| && k < |b| && a[k] < b[k])
  {
    if |a| == 0 || a[0] < b[0] {
      k := 0;
    } else {
      var k' := LexLessWitness(a[1..], b[1..]);
      k := k' + 1;
      assert a[..k] == [a[0]] + a[1..][..k'];
      assert b[..k] == [b[0]] + b[1..][..k'];
    }
  }

  /** A shared prefix followed by an end or a smaller byte makes a buffer smaller. */
  lemma {:induction false} BeforeAtIsLexLess(a: Bytes, b: Bytes, k: nat)
    requires k <= |a| && k <= |b| && a[..k] == b[..k]
    requires (k == |a| && k < |b|) || (k < |a| && k < |b| && a[k] < b[k])
    ensures LexLess(a, b)
  {
    if k > 0 {
      assert a[0] == a[..k][0] == b[..k][0] == b[0];
      assert a[1..][..k - 1] == a[..k][1..] == b[..k][1..] == b[1..][..k - 1];
      BeforeAtIsLexLess(a[1..], b[1..], k - 1);
    }
  }

  /** The recursive comparison is exactly strict lexicographic order. */
  lemma LexLessIsStrictlyBefore(a: Bytes, b: Bytes)
    ensures LexLess(a, b) <==> StrictlyBefore(a, b)
  {
    if LexLess(a, b) {
      var k := LexLessWitness(a, b);
    }
    if StrictlyBefore(a, b) {
      var k :| 0 <= k <= |a| && k <= |b| && a[..k] == b[..k] &&
        ((k == |a| && k < |b|) || (k < |a| && k < |b| && a[k] < b[k]));
      BeforeAtIsLexLess(a, b, k);
    }
  }

  /** No buffer is less than itself. */
  lemma {:induction false} LexLessIrreflexive(a: Bytes)
    ensures !LexLess(a, a)
  {
    if |a| > 0 {
      LexLessIrreflexive(a[1..]);
    }
  }

  /** Of two different buffers, one is less than the other. */
  lemma {:induction false} LexLessTotal(a: Bytes, b: Bytes)
    ensures a != b ==> LexLess(a, b) || LexLess(b, a)
  {
    if |a| > 0 && |b| > 0 && a[0] == b[0] {
      LexLessTotal(a[1..], b[1..]);
      if a[1..] == b[1..] {
        assert a == [a[0]] + a[1..] && b == [b[0]] + b[1..];
      }
    }
  }

  /** The order is asymmetric. */
  lemma {:induction false} LexLessAsymmetric(a: Bytes, b: Bytes)
    ensures LexLess(a, b) ==> !LexLess(b, a)
  {
    if |a| > 0 && |b| > 0 && a[0] == b[0] {
      LexLessAsymmetric(a[1..], b[1..]);
    }
  }

  /** The order is transitive. */
  lemma {:induction false} LexLessTransitive(a: Bytes, b: Bytes, c: Bytes)
    ensures LexLess(a, b) && LexLess(b, c) ==> LexLess(a, c)
  {
    if |a| > 0 && |b| > 0 && |c| > 0 && a[0] == b[0] == c[0] {
      LexLessTransitive(a[1..], b[1..], c[1..]);
    }
  }

  // ---------------------------------------------------------------------
  // Characters, literals and hex text
  // ---------------------------------------------------------------------

  /** `is_hex`: the character is a decimal digit or a hex letter of either case. */
  function IsHex(c: char): (r: bool)
    ensures r <==> c in "0123456789ABCDEFabcdef"
  {
    ('0' <= c <= '9') || ('A' <= c <= 'F') || ('a' <= c <= 'f')
  }

  /** A C++ `char` holds one byte: the characters a literal may contain. */
  predicate IsByteString(s: string)
  {
    forall i :: 0 <= i < |s| ==> s[i] as int < 256
  }

  /** `operator""_buf`: a buffer holding the literal's characters as bytes, unhexed. */
  function Literal(s: string): (r: Bytes)
    requires IsByteString(s)
    ensures |r| == |s|
    ensures forall i :: 0 <= i < |s| ==> r[i] == s[i] as int
  {
    if s == [] then [] else [s[0] as int as byte] + Literal(s[1..])
  }

  /** One lower-case hex digit. */
  function HexDigit(d: int): char
    requires 0 <= d < 16
  {
    if d < 10 then ('0' as int + d) as char else ('a' as int + d - 10) as char
  }

  /** A byte as two lower-case hex digits, high nibble first. */
  function HexByte(b: byte): string
  {
    [HexDigit(b / 16), HexDigit(b % 16)]
  }

  /** `toHex`: each byte as two lower-case hex digits, in order. */
  function Hex(bs: Bytes): (r: string)
    ensures |r| == 2 * |bs|
  {
    if bs == [] then "" else HexByte(bs[0]) + Hex(bs[1..])
  }

  /** Every character of a hex rendering passes `is_hex`. */
  lemma {:induction false} HexIsHex(bs: Bytes)
    ensures forall i :: 0 <= i < |Hex(bs)| ==> IsHex(Hex(bs)[i])
  {
    if bs != [] {
      HexIsHex(bs[1..]);
      var h := HexByte(bs[0]);
      assert Hex(bs) == h + Hex(bs[1..]);
      forall i | 0 <= i < |Hex(bs)| ensures IsHex(Hex(bs)[i]) {
        if i >= 2 {
          assert Hex(bs)[i] == Hex(bs[1..])[i - 2];
        }
      }
    }
  }

  /** Hex of a concatenation is the concatenation of the hex texts. */
  lemma {:induction false} HexAppend(a: Bytes, b: Bytes)
    ensures Hex(a + b) == Hex(a) + Hex(b)
  {
    if a != [] {
      assert (a + b)[1..] == a[1..] + b;
      HexAppend(a[1..], b);
    } else {
      assert a + b == b;
    }
  }

  /** `{:04x}` of a 16-bit number: four lower-case hex digits, most significant first. */
  function Hex16(v: int): string
    requires 0 <= v < 0x1_0000
  {
    [HexDigit(v / 0x1000), HexDigit(v / 0x100 % 16), HexDigit(v / 16 % 16), HexDigit(v % 16)]
  }

  /**
   * Two bytes read from memory and converted with `htobe16` denote the
   * number `hi * 256 + lo` on either byte order of the host; its `{:04x}`
   * text is the hex of the two bytes.
   */
  lemma Hex16OfPair(hi: byte, lo: byte)
    ensures Hex16(hi as int * 256 + lo) == HexByte(hi) + HexByte(lo)
  {
    HighNibbles(hi as int, lo as int);
    LowNibbles(hi as int, lo as int);
  }

  /** The two high hex digits of `hi * 256 + lo` are those of `hi`. */
  lemma HighNibbles(hi: int, lo: int)
    requires 0 <= hi < 256 && 0 <= lo < 256
    ensures (hi * 256 + lo) / 0x1000 == hi / 16
    ensures (hi * 256 + lo) / 0x100 % 16 == hi % 16
  {
    var v := hi * 256 + lo;
    var h1, h0 := hi / 16, hi % 16;
    assert v == h1 * 0x1000 + (h0 * 0x100 + lo);
    assert v / 0x100 == hi;
  }

  /** The two low hex digits of `hi * 256 + lo` are those of `lo`. */
  lemma LowNibbles(hi: int, lo: int)
    requires 0 <= hi < 256 && 0 <= lo < 256
    ensures (hi * 256 + lo) / 16 % 16 == lo / 16
    ensures (hi * 256 + lo) % 16 == lo % 16
  {
    var v := hi * 256 + lo;
    assert v == (hi * 16 + lo / 16) * 16 + lo % 16;
    assert v / 16 == hi * 16 + lo / 16;
  }

  // ---------------------------------------------------------------------
  // Big-endian numbers
  // ---------------------------------------------------------------------

  function Pow256(width: nat): (r: nat)
    ensures r > 0
  {
    if width == 0 then 1 else 256 * Pow256(width - 1)
  }

  /** The value of a byte string read as a big-endian number. */
  function FromBigEndian(bs: Bytes): nat
  {
    if bs == [] then 0 else FromBigEndian(bs[..|bs| - 1]) * 256 + bs[|bs| - 1]
  }

  /** The `width` big-endian bytes of `n`, most significant first. */
  function BigEndian(n: nat, width: nat): (r: Bytes)
    requires n < Pow256(width)
    ensures |r| == width
  {
    if width == 0 then [] else BigEndian(n / 256, width - 1) + [n % 256]
  }

  /** Reading back the big-endian bytes of a number gives the number. */
  lemma {:induction false} BigEndianRoundTrip(n: nat, width: nat)
    requires n < Pow256(width)
    ensures FromBigEndian(BigEndian(n, width)) == n
  {
    if width > 0 {
      BigEndianRoundTrip(n / 256, width - 1);
      var r := BigEndian(n, width);
      assert r[..|r| - 1] == BigEndian(n / 256, width - 1);
    }
  }

  // ---------------------------------------------------------------------
  // The mutable buffer
  // ---------------------------------------------------------------------

  /** `Buffer`: the byte vector that the `put` methods grow in place. */
  class Buffer {
    var data: Bytes

    /** `Buffer(size, byte)`: `size` copies of `byte`. */
    constructor Filled(size: nat, b: byte)
      ensures |data| == size
      ensures forall i :: 0 <= i < size ==> data[i] == b
    {
      data := seq(size, _ => b);
    }

    /** A buffer holding the given bytes. */
    constructor FromBytes(bs: Bytes)
      ensures data == bs
    {
      data := bs;
    }

    /** `size()`: the number of bytes the buffer holds. */
    function Size(): (n: nat)
      reads this
      ensures n == |data|
    {
      |data|
    }

    /** `empty()`: the buffer holds no byte. */
    function Empty(): (r: bool)
      reads this
      ensures r <==> Size() == 0
    {
      data == []
    }

    /** `putUint8`: appends one byte. */
    method PutUint8(n: byte)
      modifies this
      ensures data == old(data) + [n]
    {
      data := data + [n];
    }

    /** `putUint32`: appends the four big-endian bytes of `n`. */
    method PutUint32(n: nat)
      requires n < 0x1_0000_0000
      modifies this
      ensures data == old(data) + BigEndian(n, 4)
      ensures FromBigEndian(data[|old(data)|..]) == n
    {
      assert Pow256(4) == 0x1_0000_0000;
      var be := BigEndian(n, 4);
      BigEndianRoundTrip(n, 4);
      data := data + be;
      assert data[|old(data)|..] == be;
    }

    /** `putUint64`: appends the eight big-endian bytes of `n`. */
    method PutUint64(n: nat)
      requires n < 0x1_0000_0000_0000_0000
      modifies this
      ensures data == old(data) + BigEndian(n, 8)
      ensures FromBigEndian(data[|old(data)|..]) == n
    {
      assert Pow256(8) == 0x1_0000_0000_0000_0000;
      var be := BigEndian(n, 8);
      BigEndianRoundTrip(n, 8);
      data := data + be;
      assert data[|old(data)|..] == be;
    }

    /** `put(string_view)`: appends the characters of the string as bytes. */
    method PutString(s: string)
      requires IsByteString(s)
      modifies this
      ensures data == old(data) + Literal(s)
    {
      data := data + Literal(s);
    }

    /** `put(vector)`, `put(span)` and `putBytes(begin, end)`: appends the bytes. */
    method PutBytes(bs: Bytes)
      modifies this
      ensures data == old(data) + bs
    {
      data := data + bs;
    }

    /** `putBuffer`: appends the other buffer's content. */
    method PutBuffer(other: Buffer)
      modifies this
      ensures data == old(data) + old(other.data)
    {
      data := data + other.data;
    }

    /** `clear()`: the buffer becomes empty. */
    method Clear()
      modifies this
      ensures data == [] && Empty()
    {
      data := [];
    }
  }

  // ---------------------------------------------------------------------
  // fmt::formatter<Buffer>
  // ---------------------------------------------------------------------

  datatype FormatError = InvalidFormat

  /** What `format` writes for a buffer under a presentation character. */
  function Render(blob: Bytes, presentation: char): (r: string)
    ensures blob == [] ==> r == "empty"
    ensures blob != [] && presentation == 's' && |blob| > 5 ==>
      r == "0x" + Hex(blob[..2]) + "…" + Hex(blob[|blob| - 2..])
    ensures blob != [] && !(presentation == 's' && |blob| > 5) ==> r == "0x" + Hex(blob)
  {
    if blob == [] then "empty"
    else if presentation == 's' && |blob| > 5 then
      EndsAsHex16(blob);
      "0x" + Hex16(blob[0] as int * 256 + blob[1]) + "…" + Hex16(blob[|blob| - 2] as int * 256 + blob[|blob| - 1])
    else "0x" + Hex(blob)
  }

  /** The first and the last two bytes of a buffer, as `{:04x}` of their 16-bit values. */
  lemma EndsAsHex16(blob: Bytes)
    requires |blob| >= 2
    ensures Hex16(blob[0] as int * 256 + blob[1]) == Hex(blob[..2])
    ensures Hex16(blob[|blob| - 2] as int * 256 + blob[|blob| - 1]) == Hex(blob[|blob| - 2..])
  {
    var n := |blob|;
    Hex16OfPair(blob[0], blob[1]);
    Hex16OfPair(blob[n - 2], blob[n - 1]);
    PairHex(blob[..2]);
    PairHex(blob[n - 2..]);
  }

  /** The hex of two bytes is the hex of the first followed by that of the second. */
  lemma PairHex(pair: Bytes)
    requires |pair| == 2
    ensures Hex(pair) == HexByte(pair[0]) + HexByte(pair[1])
  {
    assert Hex(pair) == HexByte(pair[0]) + Hex(pair[1..]);
    assert Hex(pair[1..]) == HexByte(pair[1]) + Hex(pair[2..]);
  }

  /** The formatter object: its presentation is chosen by `parse` and used by `format`. */
  class Formatter {
    var presentation: char

    /** A fresh formatter uses the short presentation. */
    constructor ()
      ensures presentation == 's'
    {
      presentation := 's';
    }

    /**
     * `parse`: reads an optional 's' or 'l', then requires the end of the
     * specification or a closing brace; returns the position reached.
     */
    method Parse(ctx: string) returns (r: Result<nat, FormatError>)
      modifies this
      ensures r.Ok? <==> ParseAccepts(ctx)
      ensures r.Ok? ==> r.value <= |ctx| && (r.value == |ctx| || ctx[r.value] == '}')
      ensures r.Ok? && |ctx| > 0 && ctx[0] in "sl" ==> r.value == 1 && presentation == ctx[0]
      ensures r.Ok? && !(|ctx| > 0 && ctx[0] in "sl") ==> r.value == 0 && presentation == old(presentation)
    {
      var it := 0;
      if it < |ctx| && (ctx[it] == 's' || ctx[it] == 'l') {
        presentation := ctx[it];
        it := it + 1;
      }
      if it < |ctx| && ctx[it] != '}' {
        return Err(InvalidFormat);
      }
      return Ok(it);
    }

    /** `format`: renders a buffer with the current presentation. */
    method Format(blob: Bytes) returns (s: string)
      ensures s == Render(blob, presentation)
    {
      s := Render(blob, presentation);
    }
  }

  /**
   * The accepted format specifications: empty, a closing brace first, or
   * 's'/'l' followed by the end or a closing brace.
   */
  predicate ParseAccepts(ctx: string)
  {
    || ctx == ""
    || ctx[0] == '}'
    || (ctx[0] in "sl" && (|ctx| == 1 || ctx[1] == '}'))
  }
}
