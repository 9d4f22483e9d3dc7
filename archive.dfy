/**
 * Archive-level consequences of `NextSpec`: how the reader walks a well-formed
 * ustar stream of header blocks, bodies and zero padding, and where the extra
 * block that `Blocks` adds for a body that fills whole blocks sends it.
 */
module Archive {
  import opened Results
  import opened Numerals
  import opened Header
  import opened Reader

  /** The zero bytes that round a body of `n` bytes up to whole blocks. */
  function Padding(n: nat): (z: seq<Byte>)
    ensures (n + |z|) % BlockSize == 0 && |z| < BlockSize
  {
    Zeros(CeilBlocks(n) * BlockSize - n)
  }

  /** One archive member as a writer lays it out: header, body, padding. */
  function EntryBytes(h: Block, body: seq<Byte>): seq<Byte>
  {
    h + body + Padding(|body|)
  }

  /** The counters as `Next` leaves them for an entry of `n` body bytes. */
  predicate EntryCounters(s: NextStep, n: nat)
  {
    s.nextHeader == Blocks(n) * BlockSize && s.dataLeft == n
  }

  /**
   * At a header boundary, `Next` returns the header of the member in front of
   * it, leaves the body and its padding unread, and sets the counters to the
   * body's declared size and its block-rounded length.
   */
  lemma NextReadsEntry(h: Block, body: seq<Byte>, rest: seq<Byte>, dataLeft: nat)
    requires Name(h)[0] != Nul && Size(h) == Ok(|body|)
    ensures var s := NextSpec(0, dataLeft, EntryBytes(h, body) + rest);
            s.result == Ok(Some(h)) && EntryCounters(s, |body|) &&
            s.remaining == body + Padding(|body|) + rest
  {
    var stream := EntryBytes(h, body) + rest;
    assert stream[..BlockSize] == h;
    assert stream[BlockSize..] == body + Padding(|body|) + rest;
  }

  /**
   * A header whose size field is rejected makes `Next` report `MalformedSize`
   * with the decoder's reason, both counters at 0 and the header consumed.
   */
  lemma NextMalformed(h: Block, rest: seq<Byte>, dataLeft: nat)
    requires Name(h)[0] != Nul && Size(h).Err?
    ensures NextSpec(0, dataLeft, h + rest) == NextStep(Err(MalformedSize(Size(h).error)), 0, 0, rest)
  {
    assert (h + rest)[..BlockSize] == h;
    assert (h + rest)[BlockSize..] == rest;
  }

  /**
   * Having read any `k` body bytes of an entry whose size is not a positive
   * multiple of 512, the next `Next` lands exactly on the following header.
   */
  lemma {:induction false} NextAfterBody(body: seq<Byte>, rest: seq<Byte>, k: nat)
    requires k <= |body|
    requires |body| % BlockSize != 0 || |body| == 0
    ensures NextSpec(Blocks(|body|) * BlockSize - k, |body| - k, (body + Padding(|body|) + rest)[k..])
            == NextSpec(0, 0, rest)
  {
    var n := |body|;
    BlocksMatchesCeil(n);
    var stream := (body + Padding(n) + rest)[k..];
    assert |body + Padding(n)| == Blocks(n) * BlockSize;
    assert stream[Blocks(n) * BlockSize - k..] == rest;
  }

  /**
   * For a body that fills its blocks exactly, `Blocks` claims one block too
   * many: the next `Next` discards the following 512 bytes (the next member's
   * header) and decodes whatever comes after them.
   */
  lemma {:induction false} NextAfterAlignedBody(body: seq<Byte>, rest: seq<Byte>, k: nat)
    requires k <= |body| && |body| > 0 && |body| % BlockSize == 0
    requires |rest| >= BlockSize
    ensures Padding(|body|) == []
    ensures NextSpec(Blocks(|body|) * BlockSize - k, |body| - k, (body + rest)[k..])
            == NextSpec(0, 0, rest[BlockSize..])
  {
    var n := |body|;
    BlocksMatchesCeil(n);
    var stream := (body + rest)[k..];
    assert Blocks(n) * BlockSize == n + BlockSize;
    assert stream[Blocks(n) * BlockSize - k..] == rest[BlockSize..];
  }

  /**
   * Two members in a row: after the first header and any `k` bytes of its body,
   * `Next` returns the second header with the second body's counters. A first
   * body that fills its blocks exactly is excluded: see `NextAfterAlignedBody`.
   */
  lemma ReadsSecondEntry(h1: Block, body1: seq<Byte>, h2: Block, body2: seq<Byte>,
                         rest: seq<Byte>, k: nat)
    requires Name(h1)[0] != Nul && Size(h1) == Ok(|body1|)
    requires Name(h2)[0] != Nul && Size(h2) == Ok(|body2|)
    requires (|body1| % BlockSize != 0 || |body1| == 0) && k <= |body1|
    ensures var first := NextSpec(0, 0, EntryBytes(h1, body1) + EntryBytes(h2, body2) + rest);
            first.result == Ok(Some(h1)) &&
            var second := NextSpec(first.nextHeader - k, first.dataLeft - k, first.remaining[k..]);
            second.result == Ok(Some(h2)) && EntryCounters(second, |body2|) &&
            second.remaining == body2 + Padding(|body2|) + rest
  {
    var tail := EntryBytes(h2, body2) + rest;
    assert EntryBytes(h1, body1) + EntryBytes(h2, body2) + rest == EntryBytes(h1, body1) + tail;
    NextReadsEntry(h1, body1, tail, 0);
    NextAfterBody(body1, tail, k);
    NextReadsEntry(h2, body2, rest, 0);
  }

  /**
   * End of archive: a stream that ends at a header boundary, or a header block
   * whose name starts with NUL, yields `Ok(None)` with both counters at 0; a
   * stream that ends inside a header block, or inside bytes still to be
   * skipped, is an `UnexpectedEof`.
   */
  lemma EndOfArchive(h: Block, rest: seq<Byte>, partial: seq<Byte>, nextHeader: nat, dataLeft: nat)
    requires Name(h)[0] == Nul
    requires 0 < |partial| < BlockSize
    ensures NextSpec(0, dataLeft, []) == NextStep(Ok(None), 0, 0, [])
    ensures NextSpec(0, dataLeft, h + rest) == NextStep(Ok(None), 0, 0, rest)
    ensures NextSpec(0, dataLeft, partial) == NextStep(Err(UnexpectedEof), 0, 0, [])
    ensures |rest| < nextHeader ==>
              NextSpec(nextHeader, dataLeft, rest) ==
              NextStep(Err(UnexpectedEof), nextHeader - |rest|, dataLeft, [])
  {
    assert (h + rest)[..BlockSize] == h;
    assert (h + rest)[BlockSize..] == rest;
  }

  /** An all-zero block is an end-of-archive marker. */
  lemma ZeroBlockEndsArchive(rest: seq<Byte>, dataLeft: nat)
    ensures NextSpec(0, dataLeft, Zeros(BlockSize) + rest).result == Ok(None)
  {
    var z: Block := Zeros(BlockSize);
    EndOfArchive(z, rest, [0], 0, dataLeft);
  }
}
