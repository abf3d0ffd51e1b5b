/** The canonical encoding format and its persistent binary descriptor. */
module Formats {
  import opened Outcomes
  import opened Arithmetic
  import opened Vectors
  import opened Families

  type Byte = b: nat | b < 256

  datatype EncodingFormat<E> = EncodingFormat(dataShards: nat, parityShards: nat, family: Family, rows: nat, cols: nat, matrix: seq<seq<E>>) {
    ghost predicate Valid() { IsMatrix(matrix, rows, cols) }
  }

  /** Format equality; comparing clones of one shared matrix performs no coefficient scan. */
  method SameFormat<E(==)>(a: EncodingFormat<E>, b: EncodingFormat<E>, sharedMatrix: bool) returns (same: bool)
    requires a.Valid() && b.Valid() && (sharedMatrix ==> a.rows == b.rows && a.cols == b.cols && a.matrix == b.matrix)
    ensures same <==> a == b
  {
    if a.dataShards != b.dataShards || a.parityShards != b.parityShards || a.family != b.family {
      return false;
    }
    if sharedMatrix {
      return true;
    }
    if a.rows != b.rows || a.cols != b.cols {
      return false;
    }
    var row := 0;
    while row < a.rows
      invariant row <= a.rows && forall r :: 0 <= r < row ==> a.matrix[r] == b.matrix[r]
    {
      if a.matrix[row] != b.matrix[row] {
        return false;
      }
      row := row + 1;
    }
    assert a.matrix == b.matrix;
    same := true;
  }

  // ----- big-endian integers

  function Pow256(n: nat): (p: nat)
    ensures p > 0
  {
    if n == 0 then 1 else 256 * Pow256(n - 1)
  }

  function BigEndian(value: nat, width: nat): (s: seq<Byte>)
    ensures |s| == width
  {
    if width == 0 then [] else BigEndian(value / 256, width - 1) + [value % 256]
  }

  function FromBigEndian(s: seq<Byte>): nat {
    if s == [] then 0 else FromBigEndian(s[..|s| - 1]) * 256 + s[|s| - 1]
  }

  lemma {:induction false} BigEndianRoundTrip(value: nat, width: nat)
    requires value < Pow256(width)
    ensures FromBigEndian(BigEndian(value, width)) == value
  {
    if width > 0 {
      BigEndianRoundTrip(value / 256, width - 1);
      var s := BigEndian(value, width);
      assert s[..|s| - 1] == BigEndian(value / 256, width - 1);
    }
  }

  // ----- the descriptor

  const MAGIC: seq<Byte> := [0x52, 0x53, 0x45, 0x46, 0x4D, 0x54, 0, 0]
  const VERSION: nat := 1
  const FIXED_ID_BYTES: nat := 59
  const MAX_ID_BYTES: nat := 64 * 1024 * 1024
  const U32_LIMIT: nat := 0x1_0000_0000
  const U64_LIMIT: nat := 0x1_0000_0000_0000_0000

  /** A field's stable identity: its name, element width and element encoder.  The encoder may refuse
      an element or report another width. */
  datatype StableField<!E(!new)> = StableField(id: seq<Byte>, width: nat, order: nat, write: E -> Option<(seq<Byte>, nat)>) {
    function Write(e: E): Option<(seq<Byte>, nat)> { write(e) }

    /** The encoder fills exactly the buffer it is given. */
    ghost predicate FillsBuffer() {
      forall e {:trigger Write(e)} :: Write(e).Some? ==> |Write(e).value.0| == width
    }

    predicate Encodes(e: E) {
      Write(e).Some? && Write(e).value.1 == width
    }

    /** Different elements have different encodings. */
    ghost predicate Injective() {
      forall a, b {:trigger Write(a), Write(b)} :: Encodes(a) && Encodes(b) && Write(a).value.0 == Write(b).value.0 ==> a == b
    }
  }

  function Tag(family: Family): Byte {
    match family case Classic => 0 case LeopardGF8 => 1 case LeopardGF16 => 2
  }

  /** The numeric header fields and the field identifier. */
  datatype Header = Header(family: Byte, id: seq<Byte>, width: nat, order: nat, dataShards: nat, parityShards: nat, rows: nat, cols: nat)

  function HeaderOf<E(!new)>(f: EncodingFormat<E>, s: StableField<E>): Header {
    Header(Tag(f.family), s.id, s.width, s.order, f.dataShards, f.parityShards, f.rows, f.cols)
  }

  function HeaderBytes(h: Header): (b: seq<Byte>)
    ensures |b| == FIXED_ID_BYTES + |h.id|
  {
    MAGIC + (BigEndian(VERSION, 2) + ([h.family] + (BigEndian(|h.id|, 4) + (h.id + (BigEndian(h.width, 4)
      + (BigEndian(h.order, 8) + (BigEndian(h.dataShards, 8) + (BigEndian(h.parityShards, 8)
      + (BigEndian(h.rows, 8) + BigEndian(h.cols, 8))))))))))
  }

  /** The encodings of the first `n` elements of a row. */
  ghost function RowBytes<E(!new)>(s: StableField<E>, row: seq<E>, n: nat): (b: seq<Byte>)
    requires n <= |row|
  {
    if n == 0 then [] else RowBytes(s, row, n - 1) + (if s.Encodes(row[n - 1]) then s.Write(row[n - 1]).value.0 else [])
  }

  /** The encodings of the first `n` rows. */
  ghost function MatrixBytes<E(!new)>(s: StableField<E>, m: seq<seq<E>>, n: nat): (b: seq<Byte>)
    requires n <= |m|
  {
    if n == 0 then [] else MatrixBytes(s, m, n - 1) + RowBytes(s, m[n - 1], |m[n - 1]|)
  }

  ghost function Descriptor<E(!new)>(f: EncodingFormat<E>, s: StableField<E>): seq<Byte>
    requires f.Valid()
  {
    HeaderBytes(HeaderOf(f, s)) + MatrixBytes(s, f.matrix, f.rows)
  }

  ghost predicate AllEncode<E(!new)>(s: StableField<E>, m: seq<seq<E>>) {
    forall r, c :: 0 <= r < |m| && 0 <= c < |m[r]| ==> s.Encodes(m[r][c])
  }

  /** What `rows x cols` elements take. */
  function CoefficientBytes(rows: nat, cols: nat, width: nat): nat {
    rows * cols * width
  }

  /** Every header field has a representation, and the whole and each element stay within 64 MiB. */
  ghost predicate Representable<E(!new)>(f: EncodingFormat<E>, s: StableField<E>) {
    && s.id != [] && s.width != 0 && |s.id| < 0x1_0000_0000 && s.width < 0x1_0000_0000
    && s.order < 0x1_0000_0000_0000_0000 && f.dataShards < 0x1_0000_0000_0000_0000 && f.parityShards < 0x1_0000_0000_0000_0000
    && f.rows < 0x1_0000_0000_0000_0000 && f.cols < 0x1_0000_0000_0000_0000
    && 59 + |s.id| + CoefficientBytes(f.rows, f.cols, s.width) <= 0x400_0000 && s.width <= 0x400_0000
  }

  lemma {:induction false} RowBytesLength<E(!new)>(s: StableField<E>, row: seq<E>, n: nat)
    requires s.FillsBuffer() && n <= |row| && forall c :: 0 <= c < n ==> s.Encodes(row[c])
    ensures |RowBytes(s, row, n)| == n * s.width
  {
    if n > 0 {
      RowBytesLength(s, row, n - 1);
      assert n * s.width == (n - 1) * s.width + s.width;
    }
  }

  lemma {:induction false} MatrixBytesLength<E(!new)>(s: StableField<E>, m: seq<seq<E>>, cols: nat, n: nat)
    requires s.FillsBuffer() && n <= |m| && AllEncode(s, m) && forall r :: 0 <= r < |m| ==> |m[r]| == cols
    ensures |MatrixBytes(s, m, n)| == CoefficientBytes(n, cols, s.width)
  {
    if n > 0 {
      MatrixBytesLength(s, m, cols, n - 1);
      RowBytesLength(s, m[n - 1], cols);
      SplitRows(n, cols, s.width);
    }
  }

  lemma SplitRows(n: nat, cols: nat, width: nat)
    requires n > 0
    ensures n * cols * width == (n - 1) * cols * width + cols * width
  {
    assert n * cols == (n - 1) * cols + cols;
    assert ((n - 1) * cols + cols) * width == (n - 1) * cols * width + cols * width;
  }

  // ----- reading it back

  /** Reads one integer off the front. */
  function ReadNumber(b: seq<Byte>, width: nat): (nat, seq<Byte>)
    requires width <= |b|
  {
    (FromBigEndian(b[..width]), b[width..])
  }

  lemma ReadsNumber(value: nat, width: nat, rest: seq<Byte>)
    requires value < Pow256(width)
    ensures ReadNumber(BigEndian(value, width) + rest, width) == (value, rest)
  {
    BigEndianRoundTrip(value, width);
    var b := BigEndian(value, width) + rest;
    assert b[..width] == BigEndian(value, width) && b[width..] == rest;
  }

  /** A reader of the header: the fields in their order, and what follows them. */
  function ReadHeader(b: seq<Byte>): Option<(Header, seq<Byte>)> {
    if |b| < FIXED_ID_BYTES || b[..8] != MAGIC then None
    else
      var version := ReadNumber(b[8..], 2);
      var family, afterFamily := version.1[0], version.1[1..];
      var idLength := ReadNumber(afterFamily, 4);
      if version.0 != VERSION || |idLength.1| < idLength.0 + 44 then None
      else
        var id, afterId := idLength.1[..idLength.0], idLength.1[idLength.0..];
        var width := ReadNumber(afterId, 4);
        var order := ReadNumber(width.1, 8);
        var dataShards := ReadNumber(order.1, 8);
        var parityShards := ReadNumber(dataShards.1, 8);
        var rows := ReadNumber(parityShards.1, 8);
        var cols := ReadNumber(rows.1, 8);
        Some((Header(family, id, width.0, order.0, dataShards.0, parityShards.0, rows.0, cols.0), cols.1))
  }

  ghost predicate HeaderFits(h: Header) {
    && |h.id| < U32_LIMIT && h.width < U32_LIMIT
    && h.order < U64_LIMIT && h.dataShards < U64_LIMIT && h.parityShards < U64_LIMIT && h.rows < U64_LIMIT && h.cols < U64_LIMIT
  }

  lemma Limits()
    ensures Pow256(2) == 0x1_0000 && Pow256(4) == U32_LIMIT && Pow256(8) == U64_LIMIT
  {
    assert Pow256(1) == 256 && Pow256(2) == 256 * 256 && Pow256(3) == 256 * Pow256(2) && Pow256(4) == 256 * Pow256(3);
    assert Pow256(5) == 256 * Pow256(4) && Pow256(6) == 256 * Pow256(5) && Pow256(7) == 256 * Pow256(6) && Pow256(8) == 256 * Pow256(7);
  }

  /** The header is uniquely decodable: a reader recovers every field and the coefficient bytes. */
  lemma HeaderRoundTrip(h: Header, rest: seq<Byte>)
    requires HeaderFits(h)
    ensures ReadHeader(HeaderBytes(h) + rest) == Some((h, rest))
  {
    Limits();
    var cols := BigEndian(h.cols, 8) + rest;
    var rows := BigEndian(h.rows, 8) + cols;
    var parityShards := BigEndian(h.parityShards, 8) + rows;
    var dataShards := BigEndian(h.dataShards, 8) + parityShards;
    var order := BigEndian(h.order, 8) + dataShards;
    var width := BigEndian(h.width, 4) + order;
    var id := h.id + width;
    var idLength := BigEndian(|h.id|, 4) + id;
    var family := [h.family] + idLength;
    var version := BigEndian(VERSION, 2) + family;
    var all := MAGIC + version;
    HeaderSuffixes(h, rest);
    ReadsNumber(h.cols, 8, rest);
    ReadsNumber(h.rows, 8, cols);
    ReadsNumber(h.parityShards, 8, rows);
    ReadsNumber(h.dataShards, 8, parityShards);
    ReadsNumber(h.order, 8, dataShards);
    ReadsNumber(h.width, 4, order);
    ReadsNumber(|h.id|, 4, id);
    ReadsNumber(VERSION, 2, family);
    hide BigEndian, FromBigEndian, ReadNumber, HeaderBytes, Pow256;
    assert all[..8] == MAGIC && all[8..] == version;
    assert family[0] == h.family && family[1..] == idLength;
    assert id[..|h.id|] == h.id && id[|h.id|..] == width;
  }

  /** The nested concatenation with the rest pushed to the innermost place. */
  lemma HeaderSuffixes(h: Header, rest: seq<Byte>)
    ensures HeaderBytes(h) + rest ==
      MAGIC + (BigEndian(VERSION, 2) + ([h.family] + (BigEndian(|h.id|, 4) + (h.id + (BigEndian(h.width, 4)
      + (BigEndian(h.order, 8) + (BigEndian(h.dataShards, 8) + (BigEndian(h.parityShards, 8)
      + (BigEndian(h.rows, 8) + (BigEndian(h.cols, 8) + rest))))))))))
  {
  }

  lemma RepresentableFits<E(!new)>(f: EncodingFormat<E>, s: StableField<E>)
    requires Representable(f, s)
    ensures HeaderFits(HeaderOf(f, s))
  {
  }

  /** Fixed-width injective element encodings make coefficient bytes unique. */
  lemma {:induction false} RowBytesInjective<E(!new)>(s: StableField<E>, a: seq<E>, b: seq<E>, n: nat)
    requires s.FillsBuffer() && s.Injective() && n <= |a| && n <= |b|
    requires forall c :: 0 <= c < n ==> s.Encodes(a[c]) && s.Encodes(b[c])
    requires RowBytes(s, a, n) == RowBytes(s, b, n)
    ensures forall c :: 0 <= c < n ==> a[c] == b[c]
  {
    if n > 0 {
      RowBytesLength(s, a, n - 1);
      RowBytesLength(s, b, n - 1);
      var x, y := s.Write(a[n - 1]).value.0, s.Write(b[n - 1]).value.0;
      SplitEqual(RowBytes(s, a, n - 1), x, RowBytes(s, b, n - 1), y);
      RowBytesInjective(s, a, b, n - 1);
      assert s.Write(a[n - 1]).value.0 == s.Write(b[n - 1]).value.0;
    }
  }

  lemma SplitEqual<T>(a: seq<T>, x: seq<T>, b: seq<T>, y: seq<T>)
    requires |a| == |b| && a + x == b + y
    ensures a == b && x == y
  {
    assert a == (a + x)[..|a|] && b == (b + y)[..|b|] && x == (a + x)[|a|..] && y == (b + y)[|b|..];
  }

  lemma {:induction false} MatrixBytesInjective<E(!new)>(s: StableField<E>, a: seq<seq<E>>, b: seq<seq<E>>, cols: nat, n: nat)
    requires s.FillsBuffer() && s.Injective() && n <= |a| == |b| && AllEncode(s, a) && AllEncode(s, b)
    requires forall r :: 0 <= r < |a| ==> |a[r]| == cols && |b[r]| == cols
    requires MatrixBytes(s, a, n) == MatrixBytes(s, b, n)
    ensures forall r :: 0 <= r < n ==> a[r] == b[r]
  {
    if n > 0 {
      hide CoefficientBytes, RowBytes;
      MatrixBytesLength(s, a, cols, n - 1);
      MatrixBytesLength(s, b, cols, n - 1);
      SplitEqual(MatrixBytes(s, a, n - 1), RowBytes(s, a[n - 1], cols), MatrixBytes(s, b, n - 1), RowBytes(s, b[n - 1], cols));
      MatrixBytesInjective(s, a, b, cols, n - 1);
      RowBytesInjective(s, a[n - 1], b[n - 1], cols);
    }
  }

  lemma TagInjective(a: Family, b: Family)
    requires Tag(a) == Tag(b)
    ensures a == b
  {
  }

  /** Two formats of one field have equal descriptors exactly when they are equal. */
  lemma DescriptorsIdentify<E(!new)>(a: EncodingFormat<E>, b: EncodingFormat<E>, s: StableField<E>)
    requires a.Valid() && b.Valid() && s.FillsBuffer() && s.Injective()
    requires Representable(a, s) && Representable(b, s) && AllEncode(s, a.matrix) && AllEncode(s, b.matrix)
    ensures Descriptor(a, s) == Descriptor(b, s) <==> a == b
  {
    hide HeaderBytes, ReadHeader, MatrixBytes;
    if Descriptor(a, s) == Descriptor(b, s) {
      RepresentableFits(a, s);
      RepresentableFits(b, s);
      HeaderRoundTrip(HeaderOf(a, s), MatrixBytes(s, a.matrix, a.rows));
      HeaderRoundTrip(HeaderOf(b, s), MatrixBytes(s, b.matrix, b.rows));
      TagInjective(a.family, b.family);
      MatrixBytesInjective(s, a.matrix, b.matrix, a.cols, a.rows);
      assert a.matrix == b.matrix;
    }
  }

  /** The descriptor also identifies the field: another name, width or order gives other bytes. */
  lemma DescriptorsSeparateFields<E(!new)>(a: EncodingFormat<E>, s: StableField<E>, b: EncodingFormat<E>, t: StableField<E>)
    requires a.Valid() && b.Valid() && Representable(a, s) && Representable(b, t) && Descriptor(a, s) == Descriptor(b, t)
    ensures s.id == t.id && s.width == t.width && s.order == t.order
    ensures a.dataShards == b.dataShards && a.parityShards == b.parityShards && a.family == b.family && a.rows == b.rows && a.cols == b.cols
  {
    hide HeaderBytes, ReadHeader, MatrixBytes;
    RepresentableFits(a, s);
    RepresentableFits(b, t);
    HeaderRoundTrip(HeaderOf(a, s), MatrixBytes(s, a.matrix, a.rows));
    HeaderRoundTrip(HeaderOf(b, t), MatrixBytes(t, b.matrix, b.rows));
    TagInjective(a.family, b.family);
  }

  // ----- the documented layout

  ghost predicate BytesAt(b: seq<Byte>, at: nat, part: seq<Byte>) {
    at + |part| <= |b| && b[at..at + |part|] == part
  }

  ghost predicate NumberAt(b: seq<Byte>, at: nat, width: nat, value: nat) {
    at + width <= |b| && FromBigEndian(b[at..at + width]) == value
  }

  /** Where coefficient `(r, c)` starts behind the header. */
  ghost function CoefficientStart(cols: nat, width: nat, r: nat, c: nat): nat {
    (r * cols + c) * width
  }

  /** Version 1, byte for byte: magic, version, family, identifier, width, order, counts, dimensions, coefficients. */
  ghost predicate VersionOneLayout<E(!new)>(b: seq<Byte>, f: EncodingFormat<E>, s: StableField<E>)
    requires f.Valid()
  {
    && |b| == 59 + |s.id| + f.rows * f.cols * s.width
    && BytesAt(b, 0, [0x52, 0x53, 0x45, 0x46, 0x4D, 0x54, 0, 0]) && BytesAt(b, 8, [0, 1])
    && (f.family == Classic ==> BytesAt(b, 10, [0])) && (f.family == LeopardGF8 ==> BytesAt(b, 10, [1]))
    && (f.family == LeopardGF16 ==> BytesAt(b, 10, [2]))
    && NumberAt(b, 11, 4, |s.id|) && BytesAt(b, 15, s.id) && NumberAt(b, 15 + |s.id|, 4, s.width)
    && NumberAt(b, 19 + |s.id|, 8, s.order) && NumberAt(b, 27 + |s.id|, 8, f.dataShards) && NumberAt(b, 35 + |s.id|, 8, f.parityShards)
    && NumberAt(b, 43 + |s.id|, 8, f.rows) && NumberAt(b, 51 + |s.id|, 8, f.cols)
    && CoefficientsFrom(b, 59 + |s.id|, f, s)
  }

  /** The coefficients in row-major order, each with the width of the field. */
  ghost predicate CoefficientsFrom<E(!new)>(b: seq<Byte>, at: nat, f: EncodingFormat<E>, s: StableField<E>)
    requires f.Valid()
  {
    forall r, c :: 0 <= r < f.rows && 0 <= c < f.cols ==>
      s.Encodes(f.matrix[r][c]) && BytesAt(b, at + CoefficientStart(f.cols, s.width, r, c), s.Write(f.matrix[r][c]).value.0)
  }

  /** Moves past one part of a byte string. */
  lemma Skip(b: seq<Byte>, at: nat, part: seq<Byte>, tail: seq<Byte>)
    requires at <= |b| && b[at..] == part + tail
    ensures BytesAt(b, at, part) && at + |part| <= |b| && b[at + |part|..] == tail
  {
    assert b[at..][..|part|] == part && b[at..][|part|..] == tail;
  }

  lemma SkipNumber(b: seq<Byte>, at: nat, width: nat, value: nat, tail: seq<Byte>)
    requires at <= |b| && value < Pow256(width) && b[at..] == BigEndian(value, width) + tail
    ensures NumberAt(b, at, width, value) && b[at + width..] == tail
  {
    Skip(b, at, BigEndian(value, width), tail);
    BigEndianRoundTrip(value, width);
  }

  lemma HeaderLayout(b: seq<Byte>, h: Header, rest: seq<Byte>)
    requires HeaderFits(h) && b == HeaderBytes(h) + rest
    ensures BytesAt(b, 0, [0x52, 0x53, 0x45, 0x46, 0x4D, 0x54, 0, 0]) && BytesAt(b, 8, [0, 1]) && BytesAt(b, 10, [h.family])
    ensures NumberAt(b, 11, 4, |h.id|) && BytesAt(b, 15, h.id) && NumberAt(b, 15 + |h.id|, 4, h.width)
    ensures NumberAt(b, 19 + |h.id|, 8, h.order) && NumberAt(b, 27 + |h.id|, 8, h.dataShards) && NumberAt(b, 35 + |h.id|, 8, h.parityShards)
    ensures NumberAt(b, 43 + |h.id|, 8, h.rows) && NumberAt(b, 51 + |h.id|, 8, h.cols) && b[59 + |h.id|..] == rest
  {
    Limits();
    var cols := BigEndian(h.cols, 8) + rest;
    var rows := BigEndian(h.rows, 8) + cols;
    var parityShards := BigEndian(h.parityShards, 8) + rows;
    var dataShards := BigEndian(h.dataShards, 8) + parityShards;
    var order := BigEndian(h.order, 8) + dataShards;
    var width := BigEndian(h.width, 4) + order;
    var id := h.id + width;
    var idLength := BigEndian(|h.id|, 4) + id;
    var family := [h.family] + idLength;
    var version := BigEndian(VERSION, 2) + family;
    VersionBytes();
    HeaderSuffixes(h, rest);
    hide BigEndian, FromBigEndian, HeaderBytes, Pow256, BytesAt, NumberAt;
    assert b[0..] == MAGIC + version;
    Skip(b, 0, MAGIC, version);
    Skip(b, 8, BigEndian(VERSION, 2), family);
    Skip(b, 10, [h.family], idLength);
    SkipNumber(b, 11, 4, |h.id|, id);
    Skip(b, 15, h.id, width);
    SkipNumber(b, 15 + |h.id|, 4, h.width, order);
    SkipNumber(b, 19 + |h.id|, 8, h.order, dataShards);
    SkipNumber(b, 27 + |h.id|, 8, h.dataShards, parityShards);
    SkipNumber(b, 35 + |h.id|, 8, h.parityShards, rows);
    SkipNumber(b, 43 + |h.id|, 8, h.rows, cols);
    SkipNumber(b, 51 + |h.id|, 8, h.cols, rest);
  }

  lemma VersionBytes()
    ensures BigEndian(VERSION, 2) == [0, 1]
  {
    assert BigEndian(1, 2) == BigEndian(0, 1) + [1] && BigEndian(0, 1) == BigEndian(0, 0) + [0];
  }

  lemma BytesAtPrefix(a: seq<Byte>, b: seq<Byte>, at: nat, part: seq<Byte>)
    requires BytesAt(a, at, part)
    ensures BytesAt(a + b, at, part)
  {
  }

  lemma BytesAtEnd(a: seq<Byte>, part: seq<Byte>)
    ensures BytesAt(a + part, |a|, part)
  {
  }

  lemma BytesWithin(b: seq<Byte>, at: nat, whole: seq<Byte>, offset: nat, part: seq<Byte>)
    requires BytesAt(b, at, whole) && BytesAt(whole, offset, part)
    ensures BytesAt(b, at + offset, part)
  {
    forall k | 0 <= k < |part| ensures b[at + offset + k] == part[k] {
      assert whole[offset + k] == part[k];
    }
  }

  /** Element `c` of a row stands `c` widths into its bytes. */
  lemma {:induction false} RowBytesAt<E(!new)>(s: StableField<E>, row: seq<E>, n: nat, c: nat)
    requires s.FillsBuffer() && c < n <= |row| && forall i :: 0 <= i < n ==> s.Encodes(row[i])
    ensures s.Encodes(row[c]) && BytesAt(RowBytes(s, row, n), c * s.width, s.Write(row[c]).value.0)
  {
    hide BytesAt;
    var before, last := RowBytes(s, row, n - 1), s.Write(row[n - 1]).value.0;
    RowBytesLength(s, row, n - 1);
    if c == n - 1 {
      BytesAtEnd(before, last);
    } else {
      RowBytesAt(s, row, n - 1, c);
      BytesAtPrefix(before, last, c * s.width, s.Write(row[c]).value.0);
    }
  }

  /** Row `r` stands `r` rows into the coefficient bytes. */
  lemma {:induction false} MatrixBytesAt<E(!new)>(s: StableField<E>, m: seq<seq<E>>, cols: nat, n: nat, r: nat)
    requires s.FillsBuffer() && r < n <= |m| && AllEncode(s, m) && forall i :: 0 <= i < |m| ==> |m[i]| == cols
    ensures BytesAt(MatrixBytes(s, m, n), CoefficientBytes(r, cols, s.width), RowBytes(s, m[r], cols))
  {
    hide BytesAt, RowBytes, CoefficientBytes;
    var before, last := MatrixBytes(s, m, n - 1), RowBytes(s, m[n - 1], cols);
    MatrixBytesLength(s, m, cols, n - 1);
    if r == n - 1 {
      BytesAtEnd(before, last);
    } else {
      MatrixBytesAt(s, m, cols, n - 1, r);
      BytesAtPrefix(before, last, CoefficientBytes(r, cols, s.width), RowBytes(s, m[r], cols));
    }
  }

  lemma CoefficientOffset(r: nat, cols: nat, c: nat, width: nat)
    ensures CoefficientBytes(r, cols, width) + c * width == CoefficientStart(cols, width, r, c)
  {
  }

  lemma CoefficientAt<E(!new)>(f: EncodingFormat<E>, s: StableField<E>, r: nat, c: nat)
    requires f.Valid() && s.FillsBuffer() && AllEncode(s, f.matrix) && r < f.rows && c < f.cols
    ensures BytesAt(MatrixBytes(s, f.matrix, f.rows), CoefficientStart(f.cols, s.width, r, c), s.Write(f.matrix[r][c]).value.0)
  {
    hide BytesAt, RowBytes, MatrixBytes, CoefficientBytes;
    MatrixBytesAt(s, f.matrix, f.cols, f.rows, r);
    RowBytesAt(s, f.matrix[r], f.cols, c);
    BytesWithin(MatrixBytes(s, f.matrix, f.rows), CoefficientBytes(r, f.cols, s.width), RowBytes(s, f.matrix[r], f.cols),
                c * s.width, s.Write(f.matrix[r][c]).value.0);
    CoefficientOffset(r, f.cols, c, s.width);
  }

  /** The canonical descriptor has the documented layout. */
  lemma DescriptorLayout<E(!new)>(f: EncodingFormat<E>, s: StableField<E>)
    requires f.Valid() && s.FillsBuffer() && AllEncode(s, f.matrix) && Representable(f, s)
    ensures VersionOneLayout(Descriptor(f, s), f, s)
  {
    hide HeaderBytes, MatrixBytes, BytesAt, NumberAt, Representable, StableField.FillsBuffer, AllEncode, CoefficientsFrom;
    var b, rest, at := Descriptor(f, s), MatrixBytes(s, f.matrix, f.rows), 59 + |s.id|;
    DescriptorLength(f, s);
    RepresentableFits(f, s);
    HeaderLayout(b, HeaderOf(f, s), rest);
    RestAt(b, at, rest);
    CoefficientsPlaced(f, s, b, at);
  }

  lemma CoefficientsPlaced<E(!new)>(f: EncodingFormat<E>, s: StableField<E>, b: seq<Byte>, at: nat)
    requires f.Valid() && s.FillsBuffer() && AllEncode(s, f.matrix) && BytesAt(b, at, MatrixBytes(s, f.matrix, f.rows))
    ensures CoefficientsFrom(b, at, f, s)
  {
    hide MatrixBytes, BytesAt, StableField.FillsBuffer, CoefficientStart;
    var rest := MatrixBytes(s, f.matrix, f.rows);
    forall r, c | 0 <= r < f.rows && 0 <= c < f.cols
      ensures s.Encodes(f.matrix[r][c]) && BytesAt(b, at + CoefficientStart(f.cols, s.width, r, c), s.Write(f.matrix[r][c]).value.0)
    {
      CoefficientAt(f, s, r, c);
      BytesWithin(b, at, rest, CoefficientStart(f.cols, s.width, r, c), s.Write(f.matrix[r][c]).value.0);
    }
  }

  lemma RestAt(b: seq<Byte>, at: nat, rest: seq<Byte>)
    requires at <= |b| && b[at..] == rest
    ensures BytesAt(b, at, rest)
  {
  }

  // ----- serialization

  /** The descriptor length is exact: 59 bytes, the name, and one width per coefficient. */
  lemma DescriptorLength<E(!new)>(f: EncodingFormat<E>, s: StableField<E>)
    requires f.Valid() && s.FillsBuffer() && AllEncode(s, f.matrix)
    ensures |Descriptor(f, s)| == FIXED_ID_BYTES + |s.id| + f.rows * f.cols * s.width
  {
    MatrixBytesLength(s, f.matrix, f.cols, f.rows);
  }

  /** Builds the descriptor; without a stable identity, a representable size, an encoding for every
      coefficient, or memory there is none.  Every write stays inside the buffer. */
  method StableIdBytes<E(!new)>(f: EncodingFormat<E>, stable: Option<StableField<E>>, allocates: bool) returns (r: Option<seq<Byte>>)
    requires f.Valid() && (stable.Some? ==> stable.value.FillsBuffer())
    ensures r.Some? <==> stable.Some? && Representable(f, stable.value) && allocates && AllEncode(stable.value, f.matrix)
    ensures r.Some? ==> r.value == Descriptor(f, stable.value) && VersionOneLayout(r.value, f, stable.value)
  {
    hide CoefficientBytes, HeaderBytes, MatrixBytes, AllEncode, StableField.FillsBuffer, VersionOneLayout;
    if stable.None? {
      return None;
    }
    var s := stable.value;
    if s.id == [] || s.width == 0 || |s.id| >= U32_LIMIT || s.width >= U32_LIMIT {
      return None;
    }
    if s.order >= U64_LIMIT || f.dataShards >= U64_LIMIT || f.parityShards >= U64_LIMIT || f.rows >= U64_LIMIT || f.cols >= U64_LIMIT {
      return None;
    }
    var totalBytes := FIXED_ID_BYTES + |s.id| + CoefficientBytes(f.rows, f.cols, s.width);
    if totalBytes > MAX_ID_BYTES || s.width > MAX_ID_BYTES || !allocates {
      return None;
    }
    var header := HeaderBytes(HeaderOf(f, s));
    r := WriteCoefficients(f, s, header, totalBytes);
    if r.Some? {
      DescriptorLayout(f, s);
    }
  }

  /** Writes the coefficients behind the header, element by element. */
  method WriteCoefficients<E(!new)>(f: EncodingFormat<E>, s: StableField<E>, header: seq<Byte>, totalBytes: nat) returns (r: Option<seq<Byte>>)
    requires f.Valid() && s.FillsBuffer() && totalBytes == |header| + CoefficientBytes(f.rows, f.cols, s.width)
    ensures r.Some? <==> AllEncode(s, f.matrix)
    ensures r.Some? ==> r.value == header + MatrixBytes(s, f.matrix, f.rows)
  {
    hide RowBytes, MatrixBytes, CoefficientBytes;
    var bytes := new Byte[totalBytes](i => if 0 <= i < |header| then header[i] else 0);
    var offset := |header|;
    BytesStart(s, f.matrix, f.cols, header);
    for row := 0 to f.rows
      invariant offset == |header| + CoefficientBytes(row, f.cols, s.width) <= totalBytes
      invariant forall r, c :: 0 <= r < row && 0 <= c < f.cols ==> s.Encodes(f.matrix[r][c])
      invariant bytes[..offset] == header + MatrixBytes(s, f.matrix, row)
    {
      RowFits(row, f.rows, f.cols, s.width);
      MatrixBytesStep(s, f.matrix, row, header);
      var ok;
      ok, offset := WriteRow(s, f.matrix[row], bytes, offset);
      if !ok {
        return None;
      }
    }
    assert bytes[..offset] == bytes[..];
    r := Some(bytes[..]);
  }

  lemma BytesStart<E(!new)>(s: StableField<E>, m: seq<seq<E>>, cols: nat, header: seq<Byte>)
    ensures CoefficientBytes(0, cols, s.width) == 0
    ensures header + MatrixBytes(s, m, 0) == header
  {
  }

  lemma MatrixBytesStep<E(!new)>(s: StableField<E>, m: seq<seq<E>>, row: nat, header: seq<Byte>)
    requires row < |m|
    ensures header + MatrixBytes(s, m, row + 1) == (header + MatrixBytes(s, m, row)) + RowBytes(s, m[row], |m[row]|)
  {
  }

  lemma RowFits(row: nat, rows: nat, cols: nat, width: nat)
    requires row < rows
    ensures CoefficientBytes(row + 1, cols, width) == CoefficientBytes(row, cols, width) + cols * width
    ensures CoefficientBytes(row + 1, cols, width) <= CoefficientBytes(rows, cols, width)
  {
    SplitRows(row + 1, cols, width);
    MulMonotone(row + 1, rows, cols);
    MulMonotone((row + 1) * cols, rows * cols, width);
  }

  /** One row of coefficients; stops at the first element without a full-width encoding. */
  method WriteRow<E(!new)>(s: StableField<E>, row: seq<E>, bytes: array<Byte>, from: nat) returns (ok: bool, offset: nat)
    requires s.FillsBuffer() && from + |row| * s.width <= bytes.Length
    modifies bytes
    ensures ok <==> forall c :: 0 <= c < |row| ==> s.Encodes(row[c])
    ensures ok ==> offset == from + |row| * s.width && bytes[..offset] == old(bytes[..from]) + RowBytes(s, row, |row|)
  {
    hide RowBytes;
    ghost var before := bytes[..from];
    offset := from;
    RowStart(s, row, before);
    for c := 0 to |row|
      invariant offset == from + c * s.width <= bytes.Length
      invariant forall i :: 0 <= i < c ==> s.Encodes(row[i])
      invariant bytes[..offset] == before + RowBytes(s, row, c)
    {
      ElementFits(c, |row|, s.width);
      var end := offset + s.width;
      var written := s.Write(row[c]);
      if written.None? {
        return false, offset;
      }
      CopyInto(written.value.0, bytes, offset);
      if written.value.1 != s.width {
        return false, offset;
      }
      RowStep(s, row, c, before);
      offset := end;
    }
    ok := true;
  }

  lemma ElementFits(c: nat, n: nat, width: nat)
    requires c < n
    ensures (c + 1) * width == c * width + width && (c + 1) * width <= n * width
  {
    MulMonotone(c + 1, n, width);
  }

  lemma RowStart<E(!new)>(s: StableField<E>, row: seq<E>, before: seq<Byte>)
    ensures before + RowBytes(s, row, 0) == before
  {
  }

  lemma RowStep<E(!new)>(s: StableField<E>, row: seq<E>, c: nat, before: seq<Byte>)
    requires c < |row| && s.Encodes(row[c])
    ensures before + RowBytes(s, row, c + 1) == (before + RowBytes(s, row, c)) + s.Write(row[c]).value.0
  {
  }

  method CopyInto(source: seq<Byte>, bytes: array<Byte>, offset: nat)
    requires offset + |source| <= bytes.Length
    modifies bytes
    ensures bytes[..offset + |source|] == old(bytes[..offset]) + source
  {
    for i := 0 to |source|
      invariant forall j :: 0 <= j < offset ==> bytes[j] == old(bytes[j])
      invariant forall j :: 0 <= j < i ==> bytes[offset + j] == source[j]
    {
      bytes[offset + i] := source[i];
    }
    assert forall j :: offset <= j < offset + |source| ==> bytes[j] == bytes[offset + (j - offset)];
  }
}
