/**
Conversion between integer types (dapconvert and cvtint2int in libdap2/dapcvt.c), on little-endian
two's complement buffers.  Conversions to a signed type wrap around, as section 6.3.1.3 of ISO/IEC
9899:2011 lets an implementation define.
*/
module Convert {
  import opened Arithmetic

  type Byte = i: int | 0 <= i < 256

  datatype NcType = NcByte | NcChar | NcShort | NcInt | NcUbyte | NcUshort | NcUint | NcInt64 | NcUint64 | NcString

  // How a type represents numbers.
  datatype Rep = Rep(size: nat, signed: bool)

  // nctypesizeof
  function Size(t: NcType): (r: nat) {
    match t
    case NcByte | NcChar | NcUbyte => 1
    case NcShort | NcUshort => 2
    case NcInt | NcUint => 4
    case NcInt64 | NcUint64 | NcString => 8
  }

  // Whether plain char is signed depends on the platform.
  function RepOf(t: NcType, charSigned: bool): (r: Rep) {
    Rep(Size(t), t in {NcByte, NcShort, NcInt, NcInt64} || (t == NcChar && charSigned))
  }

  function Pow256(k: nat): (r: nat)
    ensures r >= 1
  {
    if k == 0 then 1 else 256 * Pow256(k - 1)
  }

  // ---------- Bytes ----------

  // The low k bytes of a number in two's complement.
  function Encode(x: int, k: nat): (r: seq<Byte>)
    ensures |r| == k
    decreases k
  {
    if k == 0 then [] else [x % 256] + Encode(x / 256, k - 1)
  }

  function Unsigned(b: seq<Byte>): (r: nat) {
    if b == [] then 0 else b[0] + 256 * Unsigned(b[1..])
  }

  // A number of the given size, taken as signed or unsigned.
  function Interpret(u: nat, rep: Rep): (r: int) {
    if rep.signed && 2 * u >= Pow256(rep.size) then u - Pow256(rep.size) else u
  }

  function Decode(rep: Rep, b: seq<Byte>): (r: int) {
    Interpret(Unsigned(b), rep)
  }

  predicate InRange(rep: Rep, x: int) {
    var m: int := Pow256(rep.size);
    if rep.signed then -m <= 2 * x < m else 0 <= x < m
  }

  /** The ranges of the types; plain char has one of two. */
  lemma TypeRanges(x: int, charSigned: bool)
    ensures InRange(RepOf(NcByte, charSigned), x) <==> -128 <= x < 128
    ensures InRange(RepOf(NcUbyte, charSigned), x) <==> 0 <= x < 256
    ensures InRange(RepOf(NcChar, true), x) <==> -128 <= x < 128
    ensures InRange(RepOf(NcChar, false), x) <==> 0 <= x < 256
    ensures InRange(RepOf(NcShort, charSigned), x) <==> -0x8000 <= x < 0x8000
    ensures InRange(RepOf(NcUshort, charSigned), x) <==> 0 <= x < 0x1_0000
    ensures InRange(RepOf(NcInt, charSigned), x) <==> -0x8000_0000 <= x < 0x8000_0000
    ensures InRange(RepOf(NcUint, charSigned), x) <==> 0 <= x < 0x1_0000_0000
    ensures InRange(RepOf(NcInt64, charSigned), x) <==> -0x8000_0000_0000_0000 <= x < 0x8000_0000_0000_0000
    ensures InRange(RepOf(NcUint64, charSigned), x) <==> 0 <= x < 0x1_0000_0000_0000_0000
  {
    Powers();
  }

  lemma Powers()
    ensures Pow256(1) == 0x100 && Pow256(2) == 0x1_0000 && Pow256(4) == 0x1_0000_0000 && Pow256(8) == 0x1_0000_0000_0000_0000
  {
    assert Pow256(0) == 1 && Pow256(1) == 256 && Pow256(2) == 256 * Pow256(1) && Pow256(3) == 256 * Pow256(2);
    assert Pow256(4) == 256 * Pow256(3) && Pow256(5) == 256 * Pow256(4) && Pow256(6) == 256 * Pow256(5);
    assert Pow256(7) == 256 * Pow256(6) && Pow256(8) == 256 * Pow256(7);
  }

  /** The C conversion of x. */
  function Wrap(rep: Rep, x: int): (r: int) {
    Interpret(x % Pow256(rep.size), rep)
  }

  // ---------- Arithmetic ----------

  lemma {:induction false} UnsignedBound(b: seq<Byte>)
    ensures Unsigned(b) < Pow256(|b|)
  {
    if b != [] {
      UnsignedBound(b[1..]);
    }
  }

  lemma AddMultiple(x: int, m: int, q: int)
    requires m > 0
    ensures (x + q * m) % m == x % m && (x + q * m) / m == x / m + q
  {
    assert x == (x / m) * m + x % m;
    assert (x / m + q) * m == (x / m) * m + q * m;
    DivUnique(x + q * m, m, x / m + q, x % m);
  }

  // Adding a multiple of 256^k does not change the low k bytes.
  lemma {:induction false} EncodeShift(x: int, q: int, k: nat)
    ensures Encode(x + q * Pow256(k), k) == Encode(x, k)
    decreases k
  {
    if k > 0 {
      var p := Pow256(k - 1);
      Associate(q, p, 256);
      AddMultiple(x, 256, q * p);
      EncodeShift(x / 256, q, k - 1);
    }
  }

  lemma {:induction false} PowSplit(a: nat, b: nat)
    requires b <= a
    ensures Pow256(a) == Pow256(a - b) * Pow256(b)
  {
    if b > 0 {
      PowSplit(a - 1, b - 1);
      Associate(256, Pow256(a - b), Pow256(b - 1));
      Associate(Pow256(a - b), 256, Pow256(b - 1));
    }
  }

  lemma {:induction false} UnsignedOfEncode(x: int, k: nat)
    ensures Unsigned(Encode(x, k)) == x % Pow256(k)
    decreases k
  {
    if k > 0 {
      var p := Pow256(k - 1);
      UnsignedOfEncode(x / 256, k - 1);
      assert Encode(x, k)[1..] == Encode(x / 256, k - 1);
      LongDivision(x, p);
    }
  }

  lemma LongDivision(x: int, p: int)
    requires p > 0
    ensures x % (256 * p) == x % 256 + 256 * ((x / 256) % p)
  {
    var q, r := (x / 256) / p, (x / 256) % p;
    assert x / 256 == q * p + r;
    assert q * (256 * p) == 256 * (q * p);
    DivUnique(x, 256 * p, q, x % 256 + 256 * r);
  }

  lemma {:induction false} EncodeOfUnsigned(b: seq<Byte>)
    ensures Encode(Unsigned(b), |b|) == b
  {
    if b != [] {
      var u := Unsigned(b[1..]);
      EncodeOfUnsigned(b[1..]);
      DivUnique(Unsigned(b), 256, u, b[0]);
    }
  }

  // ---------- What a conversion does to a number ----------

  // How often the modulus is added.
  function Turns(rep: Rep, x: int): (r: int) {
    var m := Pow256(rep.size);
    -(x / m) - (if rep.signed && 2 * (x % m) >= m then 1 else 0)
  }

  lemma WrapIsShift(rep: Rep, x: int)
    ensures Wrap(rep, x) == x + Turns(rep, x) * Pow256(rep.size)
  {
    var m := Pow256(rep.size);
    assert x == (x / m) * m + x % m;
    assert -(x / m) * m == -((x / m) * m);
    assert (-(x / m) - 1) * m == -(x / m) * m - m;
  }

  /** The result is in the range of the type, and congruent to the value. */
  lemma WrapInRange(rep: Rep, x: int)
    ensures InRange(rep, Wrap(rep, x))
    ensures Wrap(rep, x) % Pow256(rep.size) == x % Pow256(rep.size)
  {
    WrapIsShift(rep, x);
    AddMultiple(x, Pow256(rep.size), Turns(rep, x));
  }

  /** No other value is both. */
  lemma WrapIsUnique(rep: Rep, x: int, y: int)
    requires InRange(rep, y) && y % Pow256(rep.size) == x % Pow256(rep.size)
    ensures Wrap(rep, x) == y
  {
    var m := Pow256(rep.size);
    DivUnique(y, m, if y < 0 then -1 else 0, if y < 0 then y + m else y);
  }

  /** Going through a type that is at least as wide changes nothing. */
  lemma WrapThrough(wide: Rep, rep: Rep, x: int)
    requires rep.size <= wide.size
    ensures Wrap(rep, Wrap(wide, x)) == Wrap(rep, x)
  {
    WrapIsShift(wide, x);
    var q, n := Turns(wide, x), Pow256(wide.size - rep.size);
    PowSplit(wide.size, rep.size);
    Associate(q, n, Pow256(rep.size));
    AddMultiple(x, Pow256(rep.size), q * n);
  }

  /** Widening and returning is the identity. */
  lemma WidenAndReturn(rep: Rep, wide: Rep, x: int)
    requires rep.size <= wide.size && InRange(rep, x)
    ensures Wrap(rep, Wrap(wide, x)) == x
  {
    WrapThrough(wide, rep, x);
    WrapIsUnique(rep, x, x);
  }

  /** The low bytes are kept by a conversion to a type that has them; same width keeps all bits. */
  lemma BitsKept(rep: Rep, x: int, k: nat)
    requires k <= rep.size
    ensures Encode(Wrap(rep, x), k) == Encode(x, k)
  {
    WrapIsShift(rep, x);
    var q, n := Turns(rep, x), Pow256(rep.size - k);
    PowSplit(rep.size, k);
    Associate(q, n, Pow256(k));
    EncodeShift(x, q * n, k);
  }

  lemma DecodeEncoded(rep: Rep, x: int)
    ensures Decode(rep, Encode(x, rep.size)) == Wrap(rep, x)
  {
    UnsignedOfEncode(x, rep.size);
  }

  lemma EncodeDecoded(rep: Rep, b: seq<Byte>)
    requires |b| == rep.size
    ensures Encode(Decode(rep, b), rep.size) == b
    ensures InRange(rep, Decode(rep, b))
  {
    EncodeOfUnsigned(b);
    UnsignedBound(b);
    EncodeShift(Unsigned(b), -1, |b|);
  }

  /** Byte i of a number has weight 256^i. */
  lemma {:induction false} LowBytesFirst(x: int, k: nat, i: nat)
    requires i < k
    ensures Encode(x, k)[i] == (x / Pow256(i)) % 256
    decreases k
  {
    if i > 0 {
      LowBytesFirst(x / 256, k - 1, i - 1);
      DivTwice(x, 256, Pow256(i - 1));
    }
  }

  lemma DivTwice(x: int, a: int, b: int)
    requires a > 0 && b > 0
    ensures a * b > 0 && (x / a) / b == x / (a * b)
  {
    var q, r, s := (x / a) / b, (x / a) % b, x % a;
    assert x / a == q * b + r && x == (x / a) * a + s;
    assert (q * b + r) * a == q * (a * b) + r * a;
    MulMono(1, a, b);
    MulMono(r + 1, b, a);
    MulNonneg(r, a);
    assert (r + 1) * a == r * a + a && a * b == b * a;
    DivUnique(x, a * b, q, r * a + s);
  }

  // ---------- Buffers ----------

  // n * size
  function Total(n: nat, size: nat): (r: nat) {
    if n == 0 then 0 else Total(n - 1, size) + size
  }

  lemma {:induction false} TotalMono(a: nat, b: nat, size: nat)
    requires a <= b
    ensures Total(a, size) <= Total(b, size)
  {
    if a < b {
      TotalMono(a, b - 1, size);
    }
  }

  // The values of the first n elements of a buffer.
  function Values(rep: Rep, buf: seq<Byte>, n: nat): (r: seq<int>)
    requires Total(n, rep.size) <= |buf|
    ensures |r| == n
  {
    if n == 0 then []
    else Values(rep, buf, n - 1) + [Decode(rep, buf[Total(n - 1, rep.size)..Total(n, rep.size)])]
  }

  lemma {:induction false} TotalIsProduct(n: nat, size: nat)
    ensures Total(n, size) == n * size
  {
    if n > 0 {
      TotalIsProduct(n - 1, size);
      assert (n - 1) * size + size == n * size;
    }
  }

  /** Element i is read from the bytes i*size up to (i+1)*size. */
  lemma {:induction false} ValueAt(rep: Rep, buf: seq<Byte>, n: nat, i: nat)
    requires Total(n, rep.size) <= |buf| && i < n
    ensures 0 <= i * rep.size <= (i + 1) * rep.size <= |buf|
    ensures Values(rep, buf, n)[i] == Decode(rep, buf[i * rep.size..(i + 1) * rep.size])
  {
    TotalIsProduct(i, rep.size);
    TotalIsProduct(i + 1, rep.size);
    TotalMono(i + 1, n, rep.size);
    if i < n - 1 {
      TotalMono(n - 1, n, rep.size);
      ValueAt(rep, buf, n - 1, i);
    }
  }

  // The buffer that holds the values.
  function Coded(rep: Rep, vals: seq<int>): (r: seq<Byte>)
    ensures |r| == Total(|vals|, rep.size)
  {
    if vals == [] then [] else Coded(rep, vals[..|vals| - 1]) + Encode(vals[|vals| - 1], rep.size)
  }

  lemma {:induction false} ValuesOfPrefix(rep: Rep, a: seq<Byte>, b: seq<Byte>, n: nat)
    requires Total(n, rep.size) <= |a|
    ensures Values(rep, a + b, n) == Values(rep, a, n)
  {
    if n > 0 {
      ValuesOfPrefix(rep, a, b, n - 1);
      assert (a + b)[Total(n - 1, rep.size)..Total(n, rep.size)] == a[Total(n - 1, rep.size)..Total(n, rep.size)];
    }
  }

  // The values of one element more.
  lemma ValuesLast(rep: Rep, front: seq<Byte>, back: seq<Byte>, n: nat)
    requires |front| == Total(n, rep.size) && |back| == rep.size
    ensures Values(rep, front + back, n + 1) == Values(rep, front, n) + [Decode(rep, back)]
  {
    ValuesOfPrefix(rep, front, back, n);
    assert (front + back)[Total(n, rep.size)..Total(n + 1, rep.size)] == back;
  }

  function WrapAll(rep: Rep, vals: seq<int>): (r: seq<int>)
    ensures |r| == |vals| && forall i :: 0 <= i < |vals| ==> r[i] == Wrap(rep, vals[i])
  {
    seq(|vals|, i requires 0 <= i < |vals| => Wrap(rep, vals[i]))
  }

  /** Reading back what was written gives the converted values. */
  lemma {:induction false} ValuesOfCoded(rep: Rep, vals: seq<int>)
    ensures Values(rep, Coded(rep, vals), |vals|) == WrapAll(rep, vals)
  {
    if vals != [] {
      var front, last := vals[..|vals| - 1], vals[|vals| - 1];
      ValuesOfCoded(rep, front);
      ValuesLast(rep, Coded(rep, front), Encode(last, rep.size), |front|);
      DecodeEncoded(rep, last);
      WrapAllLast(rep, front, last);
      assert vals == front + [last];
    }
  }

  lemma WrapAllLast(rep: Rep, front: seq<int>, last: int)
    ensures WrapAll(rep, front + [last]) == WrapAll(rep, front) + [Wrap(rep, last)]
  {
  }

  /** Widening a buffer and converting it back restores every byte. */
  lemma {:induction false} BufferRoundTrip(rep: Rep, wide: Rep, buf: seq<Byte>, n: nat)
    requires rep.size <= wide.size && |buf| == Total(n, rep.size)
    ensures Coded(rep, WrapAll(wide, Values(rep, buf, n))) == buf
    decreases n
  {
    if n > 0 {
      var cut := Total(n - 1, rep.size);
      var front, back := buf[..cut], buf[cut..];
      assert buf == front + back;
      BufferRoundTrip(rep, wide, front, n - 1);
      RoundTripLast(rep, wide, front, back, n - 1);
    }
  }

  lemma RoundTripLast(rep: Rep, wide: Rep, front: seq<Byte>, back: seq<Byte>, n: nat)
    requires rep.size <= wide.size && |front| == Total(n, rep.size) && |back| == rep.size
    requires Coded(rep, WrapAll(wide, Values(rep, front, n))) == front
    ensures Coded(rep, WrapAll(wide, Values(rep, front + back, n + 1))) == front + back
  {
    ValuesLast(rep, front, back, n);
    WrapAllLast(wide, Values(rep, front, n), Decode(rep, back));
    CodedLast(rep, WrapAll(wide, Values(rep, front, n)), Wrap(wide, Decode(rep, back)));
    LastRoundTrip(rep, wide, back);
  }

  lemma CodedLast(rep: Rep, front: seq<int>, last: int)
    ensures Coded(rep, front + [last]) == Coded(rep, front) + Encode(last, rep.size)
  {
    assert (front + [last])[..|front|] == front;
  }

  lemma LastRoundTrip(rep: Rep, wide: Rep, back: seq<Byte>)
    requires rep.size <= wide.size && |back| == rep.size
    ensures Encode(Wrap(wide, Decode(rep, back)), rep.size) == back
  {
    BitsKept(wide, Decode(rep, back), rep.size);
    EncodeDecoded(rep, back);
  }

  // What dapconvert leaves in memory for the first n elements.
  function Converted(src: Rep, dst: Rep, buf: seq<Byte>, n: nat): (r: seq<Byte>)
    requires Total(n, src.size) <= |buf|
    ensures |r| == Total(n, dst.size)
  {
    Coded(dst, WrapAll(dst, Values(src, buf, n)))
  }

  /** Element i of the converted buffer is element i of the source, wrapped to the new type. */
  lemma ConvertedElements(src: Rep, dst: Rep, buf: seq<Byte>, n: nat)
    requires Total(n, src.size) <= |buf|
    ensures Values(dst, Converted(src, dst, buf, n), n) == WrapAll(dst, Values(src, buf, n))
  {
    var vals := WrapAll(dst, Values(src, buf, n));
    ValuesOfCoded(dst, vals);
    forall i | 0 <= i < n
      ensures Wrap(dst, vals[i]) == vals[i]
    {
      WrapInRange(dst, Values(src, buf, n)[i]);
      WrapIsUnique(dst, vals[i], vals[i]);
    }
  }

  /** In bytes: where element i of the result stands is the wrapped value of where element i of the source stands. */
  lemma ConvertedAt(src: Rep, dst: Rep, buf: seq<Byte>, n: nat, i: nat)
    requires Total(n, src.size) <= |buf| && i < n
    ensures 0 <= i * src.size <= (i + 1) * src.size <= |buf|
    ensures 0 <= i * dst.size <= (i + 1) * dst.size <= |Converted(src, dst, buf, n)|
    ensures Decode(dst, Converted(src, dst, buf, n)[i * dst.size..(i + 1) * dst.size]) ==
            Wrap(dst, Decode(src, buf[i * src.size..(i + 1) * src.size]))
  {
    ConvertedElements(src, dst, buf, n);
    ValueAt(src, buf, n, i);
    ValueAt(dst, Converted(src, dst, buf, n), n, i);
  }

  /** Conversion to a type at least as wide, and back again, gives the same buffer. */
  lemma ConvertAndReturn(src: Rep, dst: Rep, buf: seq<Byte>, n: nat)
    requires src.size <= dst.size && |buf| == Total(n, src.size)
    ensures Converted(dst, src, Converted(src, dst, buf, n), n) == buf
  {
    ConvertedElements(src, dst, buf, n);
    var vals := Values(src, buf, n);
    forall i | 0 <= i < n
      ensures InRange(src, vals[i])
    {
      ValueInRange(src, buf, n, i);
    }
    forall i | 0 <= i < n
      ensures Wrap(src, Wrap(dst, vals[i])) == Wrap(src, vals[i])
    {
      WrapThrough(dst, src, vals[i]);
    }
    assert WrapAll(src, WrapAll(dst, vals)) == WrapAll(src, vals);
    BufferRoundTrip(src, src, buf, n);
  }

  lemma {:induction false} ValueInRange(rep: Rep, buf: seq<Byte>, n: nat, i: nat)
    requires Total(n, rep.size) <= |buf| && i < n
    ensures InRange(rep, Values(rep, buf, n)[i])
  {
    if i < n - 1 {
      ValueInRange(rep, buf, n - 1, i);
    } else {
      EncodeDecoded(rep, buf[Total(n - 1, rep.size)..Total(n, rep.size)]);
    }
  }

  // ---------- The methods ----------

  method WriteBytes(a: array<Byte>, at: nat, b: seq<Byte>)
    requires at + |b| <= a.Length
    modifies a
    ensures a[..at] == old(a[..at]) && a[at..at + |b|] == b && a[at + |b|..] == old(a[at + |b|..])
  {
    var i := 0;
    while i < |b|
      invariant 0 <= i <= |b|
      invariant a[..at] == old(a[..at]) && a[at..at + i] == b[..i] && a[at + i..] == old(a[at + i..])
    {
      a[at + i] := b[i];
      i := i + 1;
    }
    assert b[..i] == b;
  }

  /**
  dapconvert on integer types: element after element is read, converted and written.  A pair of
  types without an arm is an error as soon as there is an element to convert.
  */
  method DapConvert(srctype: NcType, dsttype: NcType, charSigned: bool, memory: array<Byte>, value: array<Byte>, count: nat)
    returns (ok: bool)
    requires memory != value
    requires Total(count, Size(srctype)) <= value.Length && Total(count, Size(dsttype)) <= memory.Length
    modifies memory
    ensures ok <==> count == 0 || (srctype != NcString && dsttype != NcString)
    ensures !ok ==> memory[..] == old(memory[..])
    ensures ok ==> memory[..Total(count, Size(dsttype))] == Converted(RepOf(srctype, charSigned), RepOf(dsttype, charSigned), value[..], count)
    ensures ok ==> memory[Total(count, Size(dsttype))..] == old(memory[Total(count, Size(dsttype))..])
  {
    if count > 0 && (srctype == NcString || dsttype == NcString) {
      return false;
    }
    ConvertLoop(RepOf(srctype, charSigned), RepOf(dsttype, charSigned), memory, value, count);
    return true;
  }

  // The loop, once the arm is known.
  method ConvertLoop(src: Rep, dst: Rep, memory: array<Byte>, value: array<Byte>, count: nat)
    requires memory != value && Total(count, src.size) <= value.Length && Total(count, dst.size) <= memory.Length
    modifies memory
    ensures memory[..Total(count, dst.size)] == Converted(src, dst, value[..], count)
    ensures memory[Total(count, dst.size)..] == old(memory[Total(count, dst.size)..])
  {
    ghost var buf, was := value[..], memory[..];
    var v, m := 0, 0;
    var i := 0;
    TotalMono(0, count, src.size);
    TotalMono(0, count, dst.size);
    while i < count
      invariant 0 <= i <= count && v == Total(i, src.size) <= |buf| && m == Total(i, dst.size) <= |was|
      invariant memory[..] == Memory(src, dst, buf, was, i)
    {
      TotalMono(i + 1, count, src.size);
      TotalMono(i + 1, count, dst.size);
      MemoryGrows(src, dst, buf, was, i, v, m);
      ConvertOne(src, dst, memory, m, value, v, buf);
      v := v + src.size;
      m := m + dst.size;
      i := i + 1;
    }
    assert memory[..m] == memory[..][..m] && memory[m..] == memory[..][m..];
  }

  // The memory after i elements.
  ghost function Memory(src: Rep, dst: Rep, buf: seq<Byte>, was: seq<Byte>, i: nat): (r: seq<Byte>)
    requires Total(i, src.size) <= |buf| && Total(i, dst.size) <= |was|
    ensures |r| == |was|
  {
    Converted(src, dst, buf, i) + was[Total(i, dst.size)..]
  }

  lemma MemoryGrows(src: Rep, dst: Rep, buf: seq<Byte>, was: seq<Byte>, i: nat, v: nat, m: nat)
    requires v == Total(i, src.size) && m == Total(i, dst.size)
    requires Total(i + 1, src.size) <= |buf| && Total(i + 1, dst.size) <= |was|
    ensures Total(i + 1, src.size) == v + src.size && Total(i + 1, dst.size) == m + dst.size
    ensures var now := Memory(src, dst, buf, was, i);
      Memory(src, dst, buf, was, i + 1) ==
      now[..m] + Encode(Wrap(dst, Decode(src, buf[v..v + src.size])), dst.size) + now[m + dst.size..]
  {
    ConvertedGrows(src, dst, buf, i);
    Splice(Converted(src, dst, buf, i), was, m, m + dst.size);
  }

  // Behind the part that is done, the memory is as it was.
  lemma Splice(done: seq<Byte>, was: seq<Byte>, m: nat, next: nat)
    requires |done| == m <= next <= |was|
    ensures (done + was[m..])[..m] == done && (done + was[m..])[next..] == was[next..]
  {
  }

  // One arm of the switch.
  method ConvertOne(src: Rep, dst: Rep, memory: array<Byte>, m: nat, value: array<Byte>, v: nat, ghost buf: seq<Byte>)
    requires memory != value && v + src.size <= value.Length && m + dst.size <= memory.Length && buf == value[..]
    modifies memory
    ensures memory[..] == old(memory[..])[..m] + Encode(Wrap(dst, Decode(src, buf[v..v + src.size])), dst.size) +
                          old(memory[..])[m + dst.size..]
  {
    var x := Decode(src, value[v..v + src.size]);
    assert buf[v..v + src.size] == value[v..v + src.size];
    WriteBytes(memory, m, Encode(Wrap(dst, x), dst.size));
    assert memory[..] == memory[..m] + memory[m..m + dst.size] + memory[m + dst.size..];
  }

  lemma ConvertedGrows(src: Rep, dst: Rep, buf: seq<Byte>, i: nat)
    requires Total(i + 1, src.size) <= |buf|
    ensures Converted(src, dst, buf, i + 1) ==
            Converted(src, dst, buf, i) +
            Encode(Wrap(dst, Decode(src, buf[Total(i, src.size)..Total(i + 1, src.size)])), dst.size)
  {
    var all := WrapAll(dst, Values(src, buf, i + 1));
    assert all[..i] == WrapAll(dst, Values(src, buf, i));
  }

  // (x & mask) for a mask of k bytes: in two's complement, the low k bytes.
  function Mask(x: int, k: nat): (r: int) {
    Unsigned(Encode(x, k))
  }

  // (td)x for a signed type of k bytes.
  function Cast(x: int, k: nat): (r: int) {
    Decode(Rep(k, true), Encode(x, k))
  }

  lemma CastAndMask(x: int, k: nat)
    ensures Cast(x, k) == Wrap(Rep(k, true), x) && Mask(x, k) == Wrap(Rep(k, false), x)
  {
    DecodeEncoded(Rep(k, true), x);
    DecodeEncoded(Rep(k, false), x);
  }

  class Value {
    var llval: int

    constructor (x: int)
      ensures llval == x
    {
      llval := x;
    }

    /** cvtint2int agrees with the arms of dapconvert that start from NC_INT64. */
    method CvtInt2Int(dsttype: NcType, charSigned: bool) returns (ok: bool)
      modifies this
      ensures ok <==> dsttype !in {NcChar, NcInt64, NcUint64, NcString}
      ensures llval == if ok then Wrap(RepOf(dsttype, charSigned), old(llval)) else old(llval)
    {
      CastAndMask(llval, Size(dsttype));
      ok := true;
      match dsttype {
        case NcByte => llval := Cast(llval, 1);
        case NcUbyte => llval := Mask(llval, 1);
        case NcShort => llval := Cast(llval, 2);
        case NcUshort => llval := Mask(llval, 2);
        case NcInt => llval := Cast(llval, 4);
        case NcUint => llval := Mask(llval, 4);
        case _ => ok := false;
      }
    }
  }
}
