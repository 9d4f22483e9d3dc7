/**
 * The streaming reader: a byte source, the two counters `nextHeader` (bytes
 * until the next header block starts) and `dataLeft` (body bytes of the
 * current entry still readable), `Next`, which skips to and decodes the next
 * header, and `Read`, which serves bounded reads of the current body.
 */
module Reader {
  import opened Results
  import opened Numerals
  import opened Header

  /** Why `Next` failed. */
  datatype ReadError =
    | UnexpectedEof                  // the stream ended inside a skipped body or inside a header
    | MalformedSize(cause: SizeError)  // the header's size field was rejected

  function Min(a: nat, b: nat): (m: nat)
    ensures m <= a && m <= b && (m == a || m == b)
  {
    if a < b then a else b
  }

  /**
   * The underlying byte source. A read into `buf[lo..hi]` delivers any number
   * of the next bytes up to `hi - lo`, and delivers none only when asked for
   * none or when the stream is exhausted.
   */
  class ByteSource {
    var remaining: seq<Byte>

    constructor (bytes: seq<Byte>)
      ensures remaining == bytes
    {
      remaining := bytes;
    }

    method Read(buf: array<Byte>, lo: nat, hi: nat) returns (n: nat)
      requires lo <= hi <= buf.Length
      modifies this, buf
      ensures n <= hi - lo && n <= |old(remaining)|
      ensures n == 0 ==> lo == hi || old(remaining) == []
      ensures remaining == old(remaining)[n..]
      ensures forall i :: 0 <= i < buf.Length ==>
                buf[i] == if lo <= i < lo + n then old(remaining)[i - lo] else old(buf[i])
    {
      if lo == hi || remaining == [] {
        return 0;
      }
      n :| 0 < n <= hi - lo && n <= |remaining|;
      forall i | lo <= i < lo + n {
        buf[i] := remaining[i - lo];
      }
      remaining := remaining[n..];
    }
  }

  /** What `Next` returns and the counters and stream it leaves behind. */
  datatype NextStep = NextStep(
    result: Result<Option<Block>, ReadError>,
    nextHeader: nat,
    dataLeft: nat,
    remaining: seq<Byte>)

  /**
   * The net effect of `Next` from counters `nextHeader`, `dataLeft` on the byte
   * stream `stream`. It does not depend on how the source splits its reads:
   * the skip either consumes `nextHeader` bytes or runs out, and the header is
   * the next 512 bytes or the stream ends first.
   */
  function NextSpec(nextHeader: nat, dataLeft: nat, stream: seq<Byte>): (s: NextStep)
    // a returned header is the block right after the skipped bytes, it is not
    // the end marker, its size decodes, and the counters describe its body
    ensures s.result.Ok? && s.result.value.Some? ==>
              var h := s.result.value.value;
              nextHeader + BlockSize <= |stream| &&
              stream[nextHeader..nextHeader + BlockSize] == h &&
              s.remaining == stream[nextHeader + BlockSize..] &&
              Name(h)[0] != Nul && Size(h) == Ok(s.dataLeft) &&
              s.nextHeader == Blocks(s.dataLeft) * BlockSize &&
              s.dataLeft <= s.nextHeader
    // end of archive resets both counters
    ensures s.result == Ok(None) ==> s.nextHeader == 0 && s.dataLeft == 0
    // a truncated stream is consumed to its end
    ensures s.result == Err(UnexpectedEof) ==> s.remaining == []
    // the counter invariant survives every outcome except a truncated skip,
    // which leaves the stream exhausted
    ensures s.dataLeft <= s.nextHeader || s.remaining == []
    // what is left is a suffix of the stream
    ensures |s.remaining| <= |stream| && s.remaining == stream[|stream| - |s.remaining|..]
  {
    if |stream| < nextHeader then
      NextStep(Err(UnexpectedEof), nextHeader - |stream|, dataLeft, [])
    else
      var rest := stream[nextHeader..];
      if rest == [] then NextStep(Ok(None), 0, 0, [])
      else if |rest| < BlockSize then NextStep(Err(UnexpectedEof), 0, 0, [])
      else
        var h: Block := rest[..BlockSize];
        var after := rest[BlockSize..];
        assert after == stream[nextHeader + BlockSize..];
        if Name(h)[0] == Nul then NextStep(Ok(None), 0, 0, after)
        else
          match Size(h)
          case Err(e) => NextStep(Err(MalformedSize(e)), 0, 0, after)
          case Ok(n) =>
            BlocksCover(n);
            NextStep(Ok(Some(h)), Blocks(n) * BlockSize, n, after)
  }

  /** The reader over one byte source. */
  class TarReader {
    const tar: ByteSource
    var nextHeader: nat
    var dataLeft: nat
    // the declared size of the current entry, and how many of its body bytes
    // `Read` has returned so far
    ghost var declared: nat
    ghost var served: nat

    ghost predicate Valid()
      reads this, tar
    {
      served + dataLeft == declared &&
      (dataLeft <= nextHeader || tar.remaining == [])
    }

    constructor (tar: ByteSource)
      ensures this.tar == tar && Valid()
      ensures nextHeader == 0 && dataLeft == 0 && declared == 0 && served == 0
    {
      this.tar := tar;
      nextHeader := 0;
      dataLeft := 0;
      declared := 0;
      served := 0;
    }

    /**
     * Skips what is left of the current entry, reads one header block and
     * decodes it: `Ok(Some(header))` for an entry, `Ok(None)` at the end of
     * the archive.
     */
    method Next() returns (r: Result<Option<Block>, ReadError>)
      requires Valid()
      modifies this, tar
      ensures Valid()
      ensures var s := NextSpec(old(nextHeader), old(dataLeft), old(tar.remaining));
              r == s.result && nextHeader == s.nextHeader && dataLeft == s.dataLeft &&
              tar.remaining == s.remaining
      ensures r.Ok? ==> declared == dataLeft && served == 0
    {
      var buf := new Byte[BlockSize];
      var skipped := SkipToHeader(buf);
      if !skipped {
        return Err(UnexpectedEof);
      }
      nextHeader, dataLeft := 0, 0;
      declared, served := 0, 0;
      var bytesRead := FillHeader(buf);
      if bytesRead == 0 {
        return Ok(None);
      } else if bytesRead < BlockSize {
        return Err(UnexpectedEof);
      }
      var header: Block := buf[..];
      if Name(header)[0] == Nul {
        // an all-zero block: the end-of-archive marker
        return Ok(None);
      }
      match Size(header)
      case Err(e) =>
        return Err(MalformedSize(e));
      case Ok(size) =>
        BlocksCover(size);
        nextHeader := Blocks(size) * BlockSize;
        dataLeft := size;
        declared := size;
        return Ok(Some(header));
    }

    /**
     * The skip phase of `Next`: asks for `min(nextHeader, 512)` bytes at a time
     * and counts down by what arrives, until the next header is reached or the
     * stream runs out.
     */
    method SkipToHeader(buf: array<Byte>) returns (ok: bool)
      requires buf.Length == BlockSize
      modifies this`nextHeader, tar, buf
      ensures ok <==> old(nextHeader) <= |old(tar.remaining)|
      ensures ok ==> nextHeader == 0 && tar.remaining == old(tar.remaining)[old(nextHeader)..]
      ensures !ok ==> nextHeader == old(nextHeader) - |old(tar.remaining)| && tar.remaining == []
    {
      ghost var stream := tar.remaining;
      ghost var skip := nextHeader;
      while nextHeader != 0
        invariant nextHeader <= skip && skip - nextHeader <= |stream|
        invariant tar.remaining == stream[skip - nextHeader..]
        decreases nextHeader
      {
        var n := tar.Read(buf, 0, Min(nextHeader, BlockSize));
        if n == 0 {
          return false;
        }
        assert n <= nextHeader;
        nextHeader := nextHeader - n;
      }
      return true;
    }

    /**
     * The header phase of `Next`: fills `buf` across partial reads. It returns 0
     * when the stream is already exhausted, fewer than 512 when it ends inside
     * the block (having consumed it all), and 512 with the block in `buf`.
     */
    method FillHeader(buf: array<Byte>) returns (bytesRead: nat)
      requires buf.Length == BlockSize
      modifies tar, buf
      ensures bytesRead == Min(BlockSize, |old(tar.remaining)|)
      ensures bytesRead < BlockSize ==> tar.remaining == []
      ensures bytesRead == BlockSize ==>
                buf[..] == old(tar.remaining)[..BlockSize] &&
                tar.remaining == old(tar.remaining)[BlockSize..]
    {
      ghost var start := tar.remaining;
      bytesRead := tar.Read(buf, 0, BlockSize);
      if bytesRead == 0 {
        return;
      }
      while bytesRead != BlockSize
        invariant 0 < bytesRead <= BlockSize && bytesRead <= |start|
        invariant buf[..bytesRead] == start[..bytesRead]
        invariant tar.remaining == start[bytesRead..]
        decreases BlockSize - bytesRead
      {
        var n := tar.Read(buf, bytesRead, BlockSize);
        if n == 0 {
          return;
        }
        bytesRead := bytesRead + n;
      }
    }

    /**
     * Reads at most `min(dataLeft, buf.Length)` body bytes into the front of
     * `buf`; both counters drop by the number delivered, so the bytes returned
     * for one entry never add up to more than its declared size.
     */
    method Read(buf: array<Byte>) returns (n: nat)
      requires Valid()
      modifies this, tar, buf
      ensures Valid()
      ensures n <= old(dataLeft) && n <= buf.Length && n <= |old(tar.remaining)|
      ensures n == 0 ==> old(dataLeft) == 0 || buf.Length == 0 || old(tar.remaining) == []
      ensures buf[..n] == old(tar.remaining)[..n]
      ensures forall i :: n <= i < buf.Length ==> buf[i] == old(buf[i])
      ensures tar.remaining == old(tar.remaining)[n..]
      ensures dataLeft == old(dataLeft) - n && nextHeader == old(nextHeader) - n
      ensures declared == old(declared) && served == old(served) + n && served <= declared
    {
      var len := Min(dataLeft, buf.Length);
      n := tar.Read(buf, 0, len);
      assert n <= dataLeft;
      assert n <= nextHeader;
      dataLeft := dataLeft - n;
      nextHeader := nextHeader - n;
      served := served + n;
    }
  }
}
