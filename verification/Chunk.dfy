/** Splitting a message into transport chunks and putting it together again (protocol/chunk.rs). */
module Chunk {
  import opened Prelude

  type Bytes = seq<nat>

  datatype Result = Ok(payload: Bytes) | Malformed

  function Min(a: nat, b: nat): nat {
    if a < b then a else b
  }

  function Zeros(n: nat): Bytes {
    seq(n, _ => 0)
  }

  function Pad(s: Bytes, size: nat): Bytes {
    if |s| < size then s + Zeros(size - |s|) else s
  }

  function Continuations(rest: Bytes, header: Bytes, size: nat): seq<Bytes>
    requires rest != [] ==> |header| < size
    decreases |rest|
  {
    if rest == [] then []
    else
      var n := Min(|rest|, size - |header|);
      [Pad(header + rest[..n], size)] + Continuations(rest[n..], header, size)
  }

  function Chunks(data: Bytes, header: Bytes, size: nat): seq<Bytes>
    requires |data| > size ==> |header| < size
  {
    var n := Min(|data|, size);
    [Pad(data[..n], size)] + Continuations(data[n..], header, size)
  }

  lemma NextChunk(rest: Bytes, header: Bytes, size: nat, chunks: seq<Bytes>)
    requires rest != [] && |header| < size
    ensures var n := Min(|rest|, size - |header|);
            chunks + Continuations(rest, header, size)
            == (chunks + [Pad(header + rest[..n], size)]) + Continuations(rest[n..], header, size)
  {
  }

  /** `create_chunks`; a continuation header as long as a chunk would leave no room for data. */
  method CreateChunks(data: Bytes, header: Bytes, size: nat) returns (chunks: seq<Bytes>)
    requires |data| > size ==> |header| < size
    ensures chunks == Chunks(data, header, size)
  {
    var first := data[..Min(|data|, size)];
    if |first| < size {
      first := first + Zeros(size - |first|);
    }
    chunks := [first];
    var offset := size;
    hide Continuations, Zeros;
    assert Chunks(data, header, size) == chunks + Continuations(data[Min(offset, |data|)..], header, size);
    hide Chunks;
    while offset < |data|
      invariant Chunks(data, header, size) == chunks + Continuations(data[Min(offset, |data|)..], header, size)
      decreases |data| - offset
    {
      var remaining := data[offset..];
      var payloadSize := size - |header|;
      var piece := remaining[..Min(|remaining|, payloadSize)];
      var chunk := header + piece;
      if |chunk| < size {
        chunk := chunk + Zeros(size - |chunk|);
      }
      NextChunk(remaining, header, size, chunks);
      SuffixOfSuffix(data, offset, payloadSize);
      chunks := chunks + [chunk];
      offset := offset + payloadSize;
    }
    NoneLeft(data[Min(offset, |data|)..], header, size, chunks);
  }

  lemma SuffixOfSuffix(data: Bytes, offset: nat, n: nat)
    requires offset <= |data|
    ensures data[offset..][Min(|data| - offset, n)..] == data[Min(offset + n, |data|)..]
  {
  }

  lemma NoneLeft(rest: Bytes, header: Bytes, size: nat, chunks: seq<Bytes>)
    requires rest == []
    ensures chunks + Continuations(rest, header, size) == chunks
  {
  }

  function Body(chunk: Bytes, headerSize: nat): Bytes {
    if |chunk| > headerSize then chunk[headerSize..] else []
  }

  function Joined(chunks: seq<Bytes>, headerSize: nat): Bytes {
    if chunks == [] then [] else Body(chunks[0], headerSize) + Joined(chunks[1..], headerSize)
  }

  lemma JoinedStep(payload: Bytes, chunks: seq<Bytes>, i: nat, headerSize: nat)
    requires i < |chunks|
    ensures payload + Joined(chunks[i..], headerSize)
            == (if |chunks[i]| > headerSize then payload + chunks[i][headerSize..] else payload)
               + Joined(chunks[i + 1..], headerSize)
  {
    assert chunks[i..][1..] == chunks[i + 1..];
  }

  lemma NothingJoined(chunks: seq<Bytes>, headerSize: nat, payload: Bytes)
    ensures payload + Joined(chunks[|chunks|..], headerSize) == payload
  {
  }

  function Reassembled(chunks: seq<Bytes>, headerSize: nat, continuationHeaderSize: nat, total: nat): Result {
    if chunks == [] then Malformed
    else
      var payload := Body(chunks[0], headerSize) + Joined(chunks[1..], continuationHeaderSize);
      Ok(payload[..Min(total, |payload|)])
  }

  /** `reassemble_chunks`. */
  method ReassembleChunks(chunks: seq<Bytes>, headerSize: nat, continuationHeaderSize: nat, total: nat)
    returns (r: Result)
    ensures r == Reassembled(chunks, headerSize, continuationHeaderSize, total)
  {
    if chunks == [] {
      return Malformed;
    }
    var payload: Bytes := [];
    if |chunks[0]| > headerSize {
      payload := payload + chunks[0][headerSize..];
    }
    assert payload == Body(chunks[0], headerSize);
    hide Body, Joined;
    ghost var all := payload + Joined(chunks[1..], continuationHeaderSize);
    for i := 1 to |chunks|
      invariant all == payload + Joined(chunks[i..], continuationHeaderSize)
    {
      JoinedStep(payload, chunks, i, continuationHeaderSize);
      if |chunks[i]| > continuationHeaderSize {
        payload := payload + chunks[i][continuationHeaderSize..];
      }
    }
    assert all == payload by { NothingJoined(chunks, continuationHeaderSize, payload); }
    r := Ok(payload[..Min(total, |payload|)]);
  }

  /** Only an empty list is malformed; otherwise what stands behind the headers comes back, cut to the length asked
      for. */
  lemma ReassembledExactly(chunks: seq<Bytes>, headerSize: nat, continuationHeaderSize: nat, total: nat)
    ensures var r := Reassembled(chunks, headerSize, continuationHeaderSize, total);
            && (r.Malformed? <==> chunks == [])
            && (chunks != [] ==>
                  var first := if |chunks[0]| > headerSize then chunks[0][headerSize..] else [];
                  var whole := first + Joined(chunks[1..], continuationHeaderSize);
                  r.payload <= whole && |r.payload| == if total < |whole| then total else |whole|)
  {
  }

  lemma {:induction false} JoinedExactly(chunks: seq<Bytes>, headerSize: nat, c: Bytes)
    ensures Joined(chunks + [c], headerSize)
            == Joined(chunks, headerSize) + if |c| > headerSize then c[headerSize..] else []
  {
    if chunks == [] {
      assert [c][1..] == [] && chunks + [c] == [c];
    } else {
      JoinedExactly(chunks[1..], headerSize, c);
      assert (chunks + [c])[1..] == chunks[1..] + [c] && (chunks + [c])[0] == chunks[0];
      var first, last := Body(chunks[0], headerSize), if |c| > headerSize then c[headerSize..] else [];
      hide Body;
      assert Joined(chunks + [c], headerSize) == first + Joined(chunks[1..] + [c], headerSize);
      assert first + (Joined(chunks[1..], headerSize) + last) == (first + Joined(chunks[1..], headerSize)) + last;
    }
  }

  /** Ceiling division. */
  function Pieces(n: nat, p: nat): nat
    requires p > 0
  {
    (n + p - 1) / p
  }

  function ChunksNeeded(length: nat, size: nat, headerSize: nat): nat
    requires length > size ==> headerSize < size
  {
    if length <= size then 1 else 1 + Pieces(length - size, size - headerSize)
  }

  // ----- round trip -----

  /** Behind its header a chunk carries the piece, and nothing more when the piece fills it. */
  lemma BodyOfPadded(header: Bytes, piece: Bytes, size: nat)
    requires piece != [] && |header| + |piece| <= size
    ensures var body := Body(Pad(header + piece, size), |header|);
            piece <= body && (|header| + |piece| == size ==> body == piece)
  {
    var chunk := Pad(header + piece, size);
    assert chunk[|header|..][..|piece|] == piece;
  }

  lemma PrefixOfBoth(a: Bytes, body: Bytes, b: Bytes, more: Bytes)
    requires a <= body && b <= more && (b != [] ==> body == a)
    ensures a + b <= body + more
  {
  }

  lemma {:induction false} RestComesFirst(rest: Bytes, header: Bytes, size: nat)
    requires rest != [] ==> |header| < size
    ensures rest <= Joined(Continuations(rest, header, size), |header|)
    decreases |rest|
  {
    hide Body, Pad;
    if rest != [] {
      var n := Min(|rest|, size - |header|);
      var tail := Continuations(rest[n..], header, size);
      var chunk := Pad(header + rest[..n], size);
      RestComesFirst(rest[n..], header, size);
      assert ([chunk] + tail)[1..] == tail;
      BodyOfPadded(header, rest[..n], size);
      assert rest == rest[..n] + rest[n..];
      PrefixOfBoth(rest[..n], Body(chunk, |header|), rest[n..], Joined(tail, |header|));
    }
  }

  /** Putting the created chunks together gives back what follows the message header. */
  lemma ChunkRoundTrip(data: Bytes, header: Bytes, size: nat, headerSize: nat)
    requires |data| > size ==> |header| < size
    requires headerSize <= |data| && headerSize <= size
    ensures Reassembled(Chunks(data, header, size), headerSize, |header|, |data| - headerSize) == Ok(data[headerSize..])
  {
    hide Body, Pad, Continuations, Joined;
    var n := Min(|data|, size);
    var first, rest := Pad(data[..n], size), data[n..];
    var tail := Continuations(rest, header, size);
    RestComesFirst(rest, header, size);
    FirstBody(data, size, headerSize);
    PrefixOfBoth(data[headerSize..n], Body(first, headerSize), rest, Joined(tail, |header|));
    assert data[headerSize..] == data[headerSize..n] + rest;
    TailOfChunks(data, header, size);
  }

  lemma TailOfChunks(data: Bytes, header: Bytes, size: nat)
    requires |data| > size ==> |header| < size
    ensures var n := Min(|data|, size);
            var all := Chunks(data, header, size);
            all[0] == Pad(data[..n], size) && all[1..] == Continuations(data[n..], header, size)
  {
  }

  /** The first chunk carries the message header and then data, and nothing more when the data fills it. */
  lemma FirstBody(data: Bytes, size: nat, headerSize: nat)
    requires headerSize <= |data| && headerSize <= size
    ensures var n := Min(|data|, size);
            var body := Body(Pad(data[..n], size), headerSize);
            data[headerSize..n] <= body && (n == size ==> body == data[headerSize..n])
  {
    var n := Min(|data|, size);
    if headerSize < n {
      assert data[..n] == data[..headerSize] + data[headerSize..n];
      BodyOfPadded(data[..headerSize], data[headerSize..n], size);
    }
  }

  lemma DivStep(x: nat, p: nat)
    requires x >= p > 0
    ensures x / p == (x - p) / p + 1
  {
    var q, r := (x - p) / p, (x - p) % p;
    assert x == p * (q + 1) + r;
    var d := q + 1 - x / p;
    assert p * d == x % p - r;
    MultipleIsFar(p, d);
  }

  lemma OnePieceMore(n: nat, p: nat)
    requires p > 0
    ensures Pieces(0, p) == 0
    ensures n > 0 ==> Pieces(n, p) == 1 + Pieces(n - Min(n, p), p)
  {
    SmallQuotient(p - 1, p);
    if n > 0 {
      DivStep(n + p - 1, p);
      if n < p {
        SmallQuotient(n - 1, p);
      }
    }
  }

  lemma SmallQuotient(n: nat, p: nat)
    requires n < p
    ensures n / p == 0
  {
  }

  lemma PadLength(s: Bytes, size: nat)
    requires |s| <= size
    ensures |Pad(s, size)| == size
  {
  }

  lemma {:induction false} ContinuationCount(rest: Bytes, header: Bytes, size: nat)
    requires |header| < size
    ensures |Continuations(rest, header, size)| == Pieces(|rest|, size - |header|)
    ensures forall c :: c in Continuations(rest, header, size) ==> |c| == size
    decreases |rest|
  {
    hide Pieces, Pad;
    var p := size - |header|;
    OnePieceMore(|rest|, p);
    if rest != [] {
      var n := Min(|rest|, p);
      ContinuationCount(rest[n..], header, size);
      PadLength(header + rest[..n], size);
    }
  }

  /** Every chunk has exactly the chunk size, and there are as many as `chunks_needed` says. */
  lemma ChunkSizes(data: Bytes, header: Bytes, size: nat)
    requires |data| > size ==> |header| < size
    ensures forall c :: c in Chunks(data, header, size) ==> |c| == size
    ensures |Chunks(data, header, size)| == ChunksNeeded(|data|, size, |header|)
  {
    hide Pieces, Pad;
    PadLength(data[..Min(|data|, size)], size);
    if |data| > size {
      ContinuationCount(data[size..], header, size);
    }
  }

  // ----- what the chunks hold -----

  /** `data` and then nothing but zeros. */
  ghost predicate PaddedWithZeros(data: Bytes, all: Bytes) {
    data <= all && forall i :: |data| <= i < |all| ==> all[i] == 0
  }

  lemma PaddedPiece(header: Bytes, piece: Bytes, size: nat)
    requires piece != [] && |header| + |piece| <= size
    ensures var chunk := Pad(header + piece, size);
            && header <= chunk && PaddedWithZeros(piece, Body(chunk, |header|))
            && (|header| + |piece| == size ==> Body(chunk, |header|) == piece)
  {
    var chunk := Pad(header + piece, size);
    assert chunk[|header|..][..|piece|] == piece;
    assert forall i :: |piece| <= i < |chunk[|header|..]| ==> chunk[|header|..][i] == chunk[|header| + i];
  }

  lemma PaddedBoth(a: Bytes, body: Bytes, b: Bytes, more: Bytes)
    requires PaddedWithZeros(a, body) && PaddedWithZeros(b, more) && (b != [] ==> body == a) && (b == [] ==> more == [])
    ensures PaddedWithZeros(a + b, body + more)
  {
  }

  lemma {:induction false} ContinuationsSpell(rest: Bytes, header: Bytes, size: nat)
    requires rest != [] ==> |header| < size
    ensures forall c :: c in Continuations(rest, header, size) ==> header <= c
    ensures PaddedWithZeros(rest, Joined(Continuations(rest, header, size), |header|))
    decreases |rest|
  {
    hide Body, Pad, PaddedWithZeros;
    if rest == [] {
      NothingIsPadded();
    } else {
      var n := Min(|rest|, size - |header|);
      var tail := Continuations(rest[n..], header, size);
      var chunk := Pad(header + rest[..n], size);
      ContinuationsSpell(rest[n..], header, size);
      assert ([chunk] + tail)[1..] == tail;
      PaddedPiece(header, rest[..n], size);
      assert rest == rest[..n] + rest[n..];
      PaddedBoth(rest[..n], Body(chunk, |header|), rest[n..], Joined(tail, |header|));
    }
  }

  lemma NothingIsPadded()
    ensures PaddedWithZeros([], [])
  {
  }

  /** Every chunk but the first begins with the header; the first chunk and what follows the headers spell the data and
      then zeros. */
  lemma ChunksSpell(data: Bytes, header: Bytes, size: nat)
    requires |data| > size ==> |header| < size
    ensures var chunks := Chunks(data, header, size);
            && (forall i :: 0 < i < |chunks| ==> header <= chunks[i])
            && PaddedWithZeros(data, chunks[0] + Joined(chunks[1..], |header|))
  {
    hide Body, Pad, Continuations, Joined, PaddedWithZeros;
    var n := Min(|data|, size);
    var chunks := Chunks(data, header, size);
    TailOfChunks(data, header, size);
    ContinuationsSpell(data[n..], header, size);
    forall i | 0 < i < |chunks| ensures header <= chunks[i] {
      assert chunks[i] == chunks[1..][i - 1];
      assert chunks[i] in chunks[1..];
    }
    FirstIsPadded(data, size);
    assert data == data[..n] + data[n..];
    NothingContinues(header, size);
    PaddedBoth(data[..n], chunks[0], data[n..], Joined(chunks[1..], |header|));
  }

  lemma FirstIsPadded(data: Bytes, size: nat)
    ensures var n := Min(|data|, size);
            PaddedWithZeros(data[..n], Pad(data[..n], size)) && (n < |data| ==> Pad(data[..n], size) == data[..n])
  {
  }

  lemma NothingContinues(header: Bytes, size: nat)
    ensures Joined(Continuations([], header, size), |header|) == []
  {
  }
}
