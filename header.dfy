/**
 * Decoding of one 512-byte ustar header record (the "ustar Interchange Format"
 * of the pax utility in IEEE Std 1003.1-2017), plus a binary size field
 * marked by 0x80 whose eight value bytes are read little-endian, unlike the
 * big-endian base-256 field GNU tar writes. The record is a sequence of 512 bytes and
 * each field is an explicit slice of it.
 *
 * The encoders at the end of the module are not part of the reader; they
 * build headers and size fields so that every decoder has a partner to be
 * proved against.
 */
module Header {
  import opened Results
  import opened Numerals

  const BlockSize: nat := 512

  /** One header record. */
  type Block = s: seq<Byte> | |s| == BlockSize witness seq(512, _ => 0)

  const Nul: Byte := 0
  const Slash: Byte := 0x2F      // '/'
  const Space: Byte := 0x20      // ' '
  const BinaryMarker: Byte := 0x80

  /** "ustar\0" and "00". */
  const UstarMagic: seq<Byte> := [0x75, 0x73, 0x74, 0x61, 0x72, 0x00]
  const UstarVersion: seq<Byte> := [0x30, 0x30]

  // Field slices: name [0,100), size [124,136), typeflag 156,
  // magic [257,263), version [263,265), prefix [345,500).
  function Name(h: Block): seq<Byte> { h[0..100] }
  function SizeField(h: Block): seq<Byte> { h[124..136] }
  function TypeFlagByte(h: Block): Byte { h[156] }
  function Magic(h: Block): seq<Byte> { h[257..263] }
  function Version(h: Block): seq<Byte> { h[263..265] }
  function Prefix(h: Block): seq<Byte> { h[345..500] }

  // ---------------------------------------------------------------------------
  // Type flag
  // ---------------------------------------------------------------------------

  datatype TypeFlag =
    | Regular
    | HardLink
    | SymbolicLink
    | CharacterDevice
    | BlockDevice
    | Directory
    | Fifo
    | PaxNextFile
    | PaxFollowingFiles
    | Other(code: Byte)

  /** NUL and '0' .. '6', 'x', 'g': the bytes with a named variant. */
  const KnownCodes: set<Byte> := {0x00, 0x30, 0x31, 0x32, 0x33, 0x34, 0x35, 0x36, 0x78, 0x67}

  /**
   * Total decoding of the type byte. Exactly the unknown bytes become `Other`,
   * carrying the byte; re-encoding gives the byte back, except that the
   * old-style NUL flag of a regular file re-encodes as '0'.
   */
  function FromU8(x: Byte): (t: TypeFlag)
    ensures t.Other? <==> x !in KnownCodes
    ensures t.Other? ==> t.code == x
    ensures ToU8(t) == if x == Nul then 0x30 else x
  {
    match x
    case 0x30 | 0x00 => Regular
    case 0x31 => HardLink
    case 0x32 => SymbolicLink
    case 0x33 => CharacterDevice
    case 0x34 => BlockDevice
    case 0x35 => Directory
    case 0x36 => Fifo
    case 0x78 => PaxNextFile
    case 0x67 => PaxFollowingFiles
    case o => Other(o)
  }

  /** The type byte of an entry type; the named variants encode to a known code other than NUL. */
  function ToU8(t: TypeFlag): (b: Byte)
    ensures !t.Other? ==> b in KnownCodes - {Nul}
  {
    match t
    case Regular => 0x30
    case HardLink => 0x31
    case SymbolicLink => 0x32
    case CharacterDevice => 0x33
    case BlockDevice => 0x34
    case Directory => 0x35
    case Fifo => 0x36
    case PaxNextFile => 0x78
    case PaxFollowingFiles => 0x67
    case Other(x) => x
  }

  /** Every named variant, and every `Other` of an unknown byte, survives encoding and decoding. */
  lemma FromU8OfToU8(t: TypeFlag)
    requires t.Other? ==> t.code !in KnownCodes
    ensures FromU8(ToU8(t)) == t
  {
  }

  /** The entry type of a header; its byte re-encodes to the header's flag byte, NUL aside. */
  function TypeFlagOf(h: Block): (t: TypeFlag)
    ensures ToU8(t) == TypeFlagByte(h) || (TypeFlagByte(h) == Nul && t == Regular)
    ensures t.Other? <==> TypeFlagByte(h) !in KnownCodes
  {
    FromU8(TypeFlagByte(h))
  }

  // ---------------------------------------------------------------------------
  // POSIX markers
  // ---------------------------------------------------------------------------

  function IsPosix(h: Block): (b: bool)
    ensures b <==> h[257] == 0x75 && h[258] == 0x73 && h[259] == 0x74 && h[260] == 0x61
                   && h[261] == 0x72 && h[262] == 0 && h[263] == 0x30 && h[264] == 0x30
  {
    Magic(h) == UstarMagic && Version(h) == UstarVersion
  }

  // ---------------------------------------------------------------------------
  // Path
  // ---------------------------------------------------------------------------

  /** The index of the first `e` in `x` (`Iterator::position`). */
  function Position(x: seq<Byte>, e: Byte): (r: Option<nat>)
    ensures r.Some? ==> r.value < |x| && x[r.value] == e && e !in x[..r.value]
    ensures r.None? ==> e !in x
  {
    if x == [] then None
    else if x[0] == e then Some(0)
    else
      match Position(x[1..], e)
      case None => None
      case Some(i) =>
        assert x[..i + 1] == [x[0]] + x[1..][..i];
        Some(i + 1)
  }

  /** The part of a NUL-padded field before its first NUL, or the whole field if it has none. */
  function TrimSlice(x: seq<Byte>): (r: seq<Byte>)
    ensures r <= x
    ensures Nul !in r
    ensures |r| < |x| ==> x[|r|] == Nul
  {
    match Position(x, Nul)
    case Some(pos) => x[..pos]
    case None => x
  }

  /**
   * The prefix field up to its first NUL, then '/', then the name field up to
   * its first NUL.
   */
  function FullName(h: Block): (r: seq<Byte>)
    ensures Nul !in r
    ensures var k := |TrimSlice(Prefix(h))|;
            k < |r| && r[k] == Slash && r[..k] <= Prefix(h) && r[k + 1..] <= Name(h)
    ensures r[|TrimSlice(Prefix(h))| + 1..] == TrimSlice(Name(h))
  {
    TrimSlice(Prefix(h)) + [Slash] + TrimSlice(Name(h))
  }

  /**
   * The entry's path: the trimmed name alone when the prefix field is empty,
   * otherwise the trimmed prefix and name joined by '/'. It never holds a NUL
   * and never exceeds 155 + 1 + 100 bytes.
   */
  function Path(h: Block): (p: seq<Byte>)
    ensures Nul !in p
    ensures |p| <= 256
    ensures Prefix(h)[0] == Nul ==> p <= Name(h)
    ensures Prefix(h)[0] != Nul ==> |p| > 1 && p[0] == h[345]
    ensures p == if Prefix(h)[0] == Nul then TrimSlice(Name(h))
                 else TrimSlice(Prefix(h)) + [Slash] + TrimSlice(Name(h))
  {
    if Prefix(h)[0] == Nul then TrimSlice(Name(h)) else FullName(h)
  }

  // ---------------------------------------------------------------------------
  // Size
  // ---------------------------------------------------------------------------

  /** The ways the size field can be rejected (each is a panic in the Rust code). */
  datatype SizeError =
    | BadTerminator       // octal field whose byte 11 is not ' '
    | NotOctal            // octal field whose bytes 0..11 are not a base-8 number
    | UnsupportedBinary   // high-bit field other than 0x80 0 0 0 followed by 8 bytes

  /** The octal size field of `n`: eleven digits and a space. */
  function OctalField(n: nat): seq<Byte>
  {
    OctalDigits(n, 11) + [Space]
  }

  /** The same value written with the leading '+' that `from_str_radix` also accepts. */
  function SignedOctalField(n: nat): seq<Byte>
  {
    [Plus] + OctalDigits(n, 10) + [Space]
  }

  /**
   * The binary size field of `n` as this reader reads it: 0x80, three zero
   * bytes, eight little-endian bytes. (GNU tar's base-256 form is big-endian.)
   */
  function BinaryField(n: nat): seq<Byte>
  {
    [BinaryMarker, 0, 0, 0] + LeBytes(n, 8)
  }

  /**
   * Octal decoding: succeeds only on an octal field, and its value is below 8^11;
   * the field is then the rendering of the value (with or without '+').
   */
  function SizeOctal(h: Block): (r: Result<nat, SizeError>)
    ensures r.Ok? ==> r.value < Pow(8, 11)
    ensures r.Ok? && SizeField(h)[0] == Plus ==> r.value < Pow(8, 10)
    ensures r.Ok? ==> SizeField(h) == OctalField(r.value) || SizeField(h) == SignedOctalField(r.value)
  {
    var f := SizeField(h);
    if f[11] != Space then Err(BadTerminator)
    else
      match ParseOctalU64(f[..11])
      case None => Err(NotOctal)
      case Some(v) =>
        assert f == f[..11] + [Space];
        assert f[..11][1..] == f[1..11];
        Ok(v)
  }

  /** Binary decoding: succeeds only on the one recognised binary pattern, and undoes `BinaryField`. */
  function SizeBinary(h: Block): (r: Result<nat, SizeError>)
    ensures r.Ok? ==> r.value < U64Limit
    ensures r.Ok? ==> SizeField(h) == BinaryField(r.value)
  {
    var f := SizeField(h);
    if f[0] == BinaryMarker && f[1] == 0 && f[2] == 0 && f[3] == 0 then
      LeBytesOfLeValue(f[4..12]);
      Pow256Eight();
      assert f == [BinaryMarker, 0, 0, 0] + f[4..12];
      Ok(LeValue(f[4..12]))
    else Err(UnsupportedBinary)
  }

  /**
   * The entry's body length, in the encoding that the high bit of the field's
   * first byte selects. A decoded size fits in a `u64` and the field is one of
   * its encodings.
   */
  function Size(h: Block): (r: Result<nat, SizeError>)
    ensures r.Ok? ==> r.value < U64Limit
    ensures r.Ok? ==> SizeField(h) in {OctalField(r.value), SignedOctalField(r.value), BinaryField(r.value)}
  {
    if SizeField(h)[0] >= BinaryMarker then SizeBinary(h)
    else
      var r := SizeOctal(h);
      assert r.Ok? ==> Pow(8, 11) < U64Limit by {
        Pow256Eight();
        Pow8ElevenBelow();
      }
      r
  }

  lemma Pow8ElevenBelow()
    ensures Pow(8, 11) == 0x2_0000_0000
  {
    assert Pow(8, 4) == 0x1000;
    assert Pow(8, 8) == 0x100_0000 by {
      assert Pow(8, 5) == 8 * Pow(8, 4);
      assert Pow(8, 6) == 8 * Pow(8, 5);
      assert Pow(8, 7) == 8 * Pow(8, 6);
    }
    assert Pow(8, 9) == 8 * Pow(8, 8);
    assert Pow(8, 10) == 8 * Pow(8, 9);
  }

  /** Every size below 8^11 written as an octal field decodes to itself. */
  lemma SizeOfOctalField(h: Block, n: nat)
    requires n < Pow(8, 11)
    requires SizeField(h) == OctalField(n)
    ensures Size(h) == Ok(n)
  {
    var f := SizeField(h);
    Pow8ElevenBelow();
    ParseOctalDigits(n, 11);
    assert f[..11] == OctalDigits(n, 11);
    assert IsOctalDigit(f[0]);
  }

  /** Every size below 8^10 written as '+', ten octal digits and a space decodes to itself. */
  lemma SizeOfSignedOctalField(h: Block, n: nat)
    requires n < Pow(8, 10)
    requires SizeField(h) == SignedOctalField(n)
    ensures Size(h) == Ok(n)
  {
    var f := SizeField(h);
    Pow8ElevenBelow();
    assert Pow(8, 11) == 8 * Pow(8, 10);
    OctalValueOfDigits(n, 10);
    assert f[..11][1..] == f[1..11] == OctalDigits(n, 10);
  }

  /** Every `u64` written as a binary field decodes to itself. */
  lemma SizeOfBinaryField(h: Block, n: nat)
    requires n < U64Limit
    requires SizeField(h) == BinaryField(n)
    ensures Size(h) == Ok(n)
  {
    var f := SizeField(h);
    Pow256Eight();
    LeValueOfLeBytes(n, 8);
    assert f[4..12] == LeBytes(n, 8);
  }

  // ---------------------------------------------------------------------------
  // Block count
  // ---------------------------------------------------------------------------

  /**
   * The number of 512-byte blocks the reader skips for a body of `size` bytes:
   * the true block count, or one more.
   */
  function Blocks(size: nat): (b: nat)
    ensures CeilBlocks(size) <= b <= CeilBlocks(size) + 1
  {
    if size == 0 then 0 else size / 512 + 1
  }

  /** The number of 512-byte blocks a body of `n` bytes occupies in an archive: ceil(n / 512). */
  function CeilBlocks(n: nat): (b: nat)
    ensures b * 512 >= n
    ensures b * 512 < n + 512
  {
    (n + 511) / 512
  }

  /** The skipped blocks always cover the body, with less than one spare block beyond it. */
  lemma BlocksCover(n: nat)
    ensures n == 0 ==> Blocks(n) == 0
    ensures n > 0 ==> n < Blocks(n) * 512 <= n + 512
  {
  }

  /** `Blocks` is the true block count exactly when the body is not a positive multiple of 512. */
  lemma BlocksMatchesCeil(n: nat)
    ensures Blocks(n) == CeilBlocks(n) <==> n % 512 != 0 || n == 0
    ensures n > 0 && n % 512 == 0 ==> Blocks(n) == CeilBlocks(n) + 1
  {
  }

  /** A body of exactly one block is given two; one byte short of it, one. */
  lemma BlocksExamples()
    ensures Blocks(512) == 2 && CeilBlocks(512) == 1
    ensures Blocks(511) == Blocks(1) == 1
  {
  }

  // ---------------------------------------------------------------------------
  // Encoding side
  // ---------------------------------------------------------------------------

  function Zeros(k: nat): (z: seq<Byte>)
    ensures |z| == k && forall i :: 0 <= i < k ==> z[i] == Nul
  {
    seq(k, _ => 0)
  }

  /** `x` padded with NULs to `width` bytes. */
  function PadField(x: seq<Byte>, width: nat): (f: seq<Byte>)
    requires |x| <= width
    ensures |f| == width
  {
    x + Zeros(width - |x|)
  }

  /** Trimming undoes NUL padding of any field content that holds no NUL. */
  lemma TrimPadded(x: seq<Byte>, width: nat)
    requires |x| <= width && Nul !in x
    ensures TrimSlice(PadField(x, width)) == x
  {
    var f := PadField(x, width);
    var r := TrimSlice(f);
    assert forall i :: 0 <= i < |x| ==> f[i] == x[i];
    assert |x| < width ==> f[|x|] == Nul;
    assert |r| == |x|;
    assert r == f[..|x|] == x;
  }

  /**
   * A ustar header with the given name, prefix, size field and type byte,
   * all other fields zero except magic and version.
   */
  function MakeHeader(name: seq<Byte>, prefix: seq<Byte>, size: seq<Byte>, flag: Byte): (h: Block)
    requires |name| <= 100 && |prefix| <= 155 && |size| == 12
    ensures Name(h) == PadField(name, 100) && Prefix(h) == PadField(prefix, 155)
    ensures SizeField(h) == size && TypeFlagByte(h) == flag && IsPosix(h)
  {
    PadField(name, 100)       // name      [0,100)
    + Zeros(24)               // mode, uid, gid
    + size                    // size      [124,136)
    + Zeros(20)               // mtime, checksum
    + [flag]                  // typeflag  156
    + Zeros(100)              // linkname
    + UstarMagic + UstarVersion
    + Zeros(80)               // uname, gname, devmajor, devminor
    + PadField(prefix, 155)   // prefix    [345,500)
    + Zeros(12)
  }

  /** The path of a built header is the name, or prefix '/' name when a prefix is given. */
  lemma PathOfMakeHeader(name: seq<Byte>, prefix: seq<Byte>, size: seq<Byte>, flag: Byte)
    requires |name| <= 100 && |prefix| <= 155 && |size| == 12
    requires Nul !in name && Nul !in prefix
    ensures Path(MakeHeader(name, prefix, size, flag))
            == if prefix == [] then name else prefix + [Slash] + name
  {
    var h := MakeHeader(name, prefix, size, flag);
    TrimPadded(name, 100);
    TrimPadded(prefix, 155);
    if prefix != [] {
      assert Prefix(h)[0] == prefix[0] != Nul;
    }
  }
}
