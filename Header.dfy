/**
  Recognition of the SILK v3 container header.

  The decoder reads up to 10 bytes into a zero-filled 11-byte buffer and tries
  four magic patterns in order; the first one that matches fixes the offset at
  which the length-prefixed frames begin.
 */
module Header {
  import opened Endian

  /** "#!SILK_V3", the header with the leading '#'. */
  const AMR_HEADER: seq<byte> := [35, 33, 83, 73, 76, 75, 95, 86, 51]
  /** "!SILK_V3", the header without it. */
  const SILK_HEADER: seq<byte> := [33, 83, 73, 76, 75, 95, 86, 51]

  /** The bytes the header check reads and the size of the buffer they land in. */
  const HEADER_READ := 10
  const HEADER_BUF_SIZE := 11

  datatype HeaderCheck =
    | TooShort            // fewer bytes than "!SILK_V3": the process exits with -1
    | NotFound            // no pattern matches: decode_silk_file returns -1
    | Found(offset: nat)  // frames start at this byte offset

  function Min(a: int, b: int): int {
    if a < b then a else b
  }

  /** What fread(header_buf, 1, 10, file) reports. */
  function BytesRead(input: seq<byte>): (n: nat)
    ensures n <= HEADER_READ && n <= |input|
    ensures n == HEADER_READ || n == |input|
  {
    Min(|input|, HEADER_READ)
  }

  /** header_buf after the read: the bytes read, then the zeros it was initialised with. */
  function HeaderBuffer(input: seq<byte>): (buf: seq<byte>)
    ensures |buf| == HEADER_BUF_SIZE
    ensures forall i :: 0 <= i < BytesRead(input) ==> buf[i] == input[i]
    ensures forall i :: BytesRead(input) <= i < HEADER_BUF_SIZE ==> buf[i] == 0
  {
    var n := BytesRead(input);
    input[..n] + seq(HEADER_BUF_SIZE - n, _ => 0)
  }

  /** strncmp(a, b, n) == 0: the first n characters agree, or agree up to a common NUL. */
  function StrnEq(a: seq<byte>, b: seq<byte>, n: nat): bool
    requires n <= |a| && n <= |b|
  {
    n == 0 || (a[0] == b[0] && (a[0] == 0 || StrnEq(a[1..], b[1..], n - 1)))
  }

  predicate NoNul(s: seq<byte>) {
    forall i :: 0 <= i < |s| ==> s[i] != 0
  }

  /** Against a pattern without NUL bytes, strncmp is plain prefix equality. */
  lemma {:induction false} StrnEqIsPrefixEquality(a: seq<byte>, b: seq<byte>, n: nat)
    requires n <= |a| && n <= |b|
    requires NoNul(b[..n])
    ensures StrnEq(a, b, n) <==> a[..n] == b[..n]
  {
    if n > 0 {
      assert b[..n][0] == b[0];
      assert b[1..][..n - 1] == b[..n][1..];
      StrnEqIsPrefixEquality(a[1..], b[1..], n - 1);
      assert a[..n] == [a[0]] + a[1..][..n - 1];
      assert b[..n] == [b[0]] + b[1..][..n - 1];
    }
  }

  /** The check as decode_silk_file performs it. */
  function RecogniseHeader(input: seq<byte>): (h: HeaderCheck)
    ensures h == TooShort <==> |input| < |SILK_HEADER|
  {
    var read := BytesRead(input);
    var buf := HeaderBuffer(input);
    if read < |SILK_HEADER| then TooShort
    else if StrnEq(buf, AMR_HEADER, |AMR_HEADER|) then Found(|AMR_HEADER|)
    else if StrnEq(buf, SILK_HEADER, |SILK_HEADER|) then Found(|SILK_HEADER|)
    else if read > |AMR_HEADER| && StrnEq(buf[1..], AMR_HEADER, |AMR_HEADER|) then Found(|AMR_HEADER| + 1)
    else if read > |SILK_HEADER| && StrnEq(buf[1..], SILK_HEADER, |SILK_HEADER|) then Found(|SILK_HEADER| + 1)
    else NotFound
  }

  /** `magic` occurs in `input` starting at `pos`. */
  predicate MatchesAt(input: seq<byte>, pos: nat, magic: seq<byte>) {
    pos + |magic| <= |input| && input[pos..pos + |magic|] == magic
  }

  /**
    The header rule stated on the stream itself, without the buffer, its zero
    padding, strncmp or the byte-count guards.
   */
  function HeaderRule(input: seq<byte>): HeaderCheck {
    if |input| < |SILK_HEADER| then TooShort
    else if MatchesAt(input, 0, AMR_HEADER) then Found(9)
    else if MatchesAt(input, 0, SILK_HEADER) then Found(8)
    else if MatchesAt(input, 1, AMR_HEADER) then Found(10)
    else if MatchesAt(input, 1, SILK_HEADER) then Found(9)
    else NotFound
  }

  /** A pattern test on the zero-padded buffer is a test on the stream. */
  lemma BufferMatch(input: seq<byte>, pos: nat, magic: seq<byte>)
    requires pos + |magic| <= HEADER_READ && |magic| > 0
    requires NoNul(magic)
    ensures var buf := HeaderBuffer(input)[pos..];
            StrnEq(buf, magic, |magic|) <==> MatchesAt(input, pos, magic)
  {
    var buf := HeaderBuffer(input)[pos..];
    assert magic[..|magic|] == magic;
    StrnEqIsPrefixEquality(buf, magic, |magic|);
    var end := pos + |magic|;
    if end <= |input| {
      assert buf[..|magic|] == input[pos..end];
    } else {
      assert buf[|magic| - 1] == 0;
      assert buf[..|magic|] != magic by {
        assert buf[..|magic|][|magic| - 1] == 0;
      }
    }
  }

  /** The check performed by the source agrees with the rule stated on the stream. */
  lemma HeaderCharacterised(input: seq<byte>)
    ensures RecogniseHeader(input) == HeaderRule(input)
  {
    assert NoNul(AMR_HEADER);
    assert NoNul(SILK_HEADER);
    BufferMatch(input, 0, AMR_HEADER);
    BufferMatch(input, 0, SILK_HEADER);
    BufferMatch(input, 1, AMR_HEADER);
    BufferMatch(input, 1, SILK_HEADER);
    assert HeaderBuffer(input)[1..][0..] == HeaderBuffer(input)[1..];
    assert HeaderBuffer(input)[0..] == HeaderBuffer(input);
    if BytesRead(input) <= |AMR_HEADER| {
      assert !MatchesAt(input, 1, AMR_HEADER);
    }
    if BytesRead(input) <= |SILK_HEADER| {
      assert !MatchesAt(input, 1, SILK_HEADER);
    }
  }

  /**
    An accepted header ends exactly at the offset returned, which is 8, 9 or 10
    and lies within the stream; a stream opening with "#!SILK_V3" always gets 9.
   */
  lemma HeaderOffset(input: seq<byte>)
    ensures RecogniseHeader(input).Found? ==>
              var off := RecogniseHeader(input).offset;
              off <= |input| &&
              ((off == 9 && MatchesAt(input, 0, AMR_HEADER)) ||
               (off == 8 && MatchesAt(input, 0, SILK_HEADER)) ||
               (off == 10 && MatchesAt(input, 1, AMR_HEADER)) ||
               (off == 9 && MatchesAt(input, 1, SILK_HEADER)))
    ensures MatchesAt(input, 0, AMR_HEADER) ==> RecogniseHeader(input) == Found(9)
  {
    HeaderCharacterised(input);
  }

  /** Only the first ten bytes take part in the check. */
  lemma HeaderReadsTenBytes(input: seq<byte>, c: nat)
    requires HEADER_READ <= c <= |input|
    ensures RecogniseHeader(input[..c]) == RecogniseHeader(input)
  {
    assert HeaderBuffer(input[..c]) == HeaderBuffer(input);
  }
}
