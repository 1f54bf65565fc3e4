/**
 The sealed chunks of a bundle: the record stream is cut into chunks of one size and a shorter last one,
 sealed each under its number, and opened again with one chunk of lookahead.
 */
module BundleChunks {
  import opened Octets
  import opened Wrappers
  import opened BundleWire

  const CHUNK_PLAINTEXT_MAX: nat := 64 * 1024

  /** Sealing chunk `counter`, the last one or not; nothing when the cipher refuses. */
  type Seal = (nat, bool, Bytes) -> Option<Bytes>

  /** Opening a chunk as number `counter`; nothing when the tag does not match. */
  type Open = (nat, bool, Bytes) -> Option<Bytes>

  // ---- cutting ----

  /** The full chunks of a stream. */
  function FullChunks(s: Bytes): (r: seq<Bytes>)
    ensures forall i :: 0 <= i < |r| ==> |r[i]| == CHUNK_PLAINTEXT_MAX
    decreases |s|
  {
    if |s| < CHUNK_PLAINTEXT_MAX then [] else [s[..CHUNK_PLAINTEXT_MAX]] + FullChunks(s[CHUNK_PLAINTEXT_MAX..])
  }

  /** What is left after the full chunks. */
  function LastChunk(s: Bytes): (r: Bytes)
    ensures |r| < CHUNK_PLAINTEXT_MAX
    decreases |s|
  {
    if |s| < CHUNK_PLAINTEXT_MAX then s else LastChunk(s[CHUNK_PLAINTEXT_MAX..])
  }

  function Pieces(s: Bytes): seq<Bytes> {
    FullChunks(s) + [LastChunk(s)]
  }

  /** The pieces, put together, are the stream. */
  lemma {:induction false} PiecesMakeStream(s: Bytes)
    ensures Concat(Pieces(s)) == s
    decreases |s|
  {
    if |s| < CHUNK_PLAINTEXT_MAX {
      assert Pieces(s) == [s] && Concat([]) == [];
      assert s + [] == s;
    } else {
      PiecesMakeStream(s[CHUNK_PLAINTEXT_MAX..]);
      assert Pieces(s)[1..] == Pieces(s[CHUNK_PLAINTEXT_MAX..]);
      assert s == s[..CHUNK_PLAINTEXT_MAX] + s[CHUNK_PLAINTEXT_MAX..];
    }
  }

  lemma CutOne(s: Bytes)
    requires |s| >= CHUNK_PLAINTEXT_MAX
    ensures FullChunks(s) == [s[..CHUNK_PLAINTEXT_MAX]] + FullChunks(s[CHUNK_PLAINTEXT_MAX..])
    ensures LastChunk(s) == LastChunk(s[CHUNK_PLAINTEXT_MAX..])
  {
  }

  lemma CutNone(s: Bytes)
    requires |s| < CHUNK_PLAINTEXT_MAX
    ensures FullChunks(s) == [] && LastChunk(s) == s
  {
  }

  /** More bytes leave the full chunks as they were, and go on from what was left over. */
  lemma {:induction false} CutGrows(s: Bytes, t: Bytes)
    ensures FullChunks(s + t) == FullChunks(s) + FullChunks(LastChunk(s) + t)
    ensures LastChunk(s + t) == LastChunk(LastChunk(s) + t)
    decreases |s|
  {
    if |s| < CHUNK_PLAINTEXT_MAX {
      assert [] + FullChunks(s + t) == FullChunks(s + t);
    } else {
      var rest := s[CHUNK_PLAINTEXT_MAX..];
      assert (s + t)[..CHUNK_PLAINTEXT_MAX] == s[..CHUNK_PLAINTEXT_MAX];
      assert (s + t)[CHUNK_PLAINTEXT_MAX..] == rest + t;
      CutGrows(rest, t);
    }
  }

  // ---- sealing ----

  /** `sealed` is the stream sealed: its full chunks, each under its place, and then what is left as the last one. */
  ghost predicate SealsStream(seal: Seal, stream: Bytes, sealed: seq<Bytes>) {
    && |sealed| == |FullChunks(stream)| + 1
    && forall i :: 0 <= i < |sealed| ==> seal(i, i + 1 == |sealed|, Pieces(stream)[i]) == Some(sealed[i])
  }

  datatype ExportError = Encode | Crypto | Emit

  /** Whether the sink takes a sealed chunk as number `counter`. */
  type Sink = (nat, Bytes) -> bool

  /** One chunk sealed and handed over. */
  function SentOne(seal: Seal, sink: Sink, counter: nat, last: bool, chunk: Bytes): Result<Bytes, ExportError> {
    match seal(counter, last, chunk)
    case None => Err(Crypto)
    case Some(sealed) => if sink(counter, sealed) then Ok(sealed) else Err(Emit)
  }

  /** Chunks sealed and handed over in turn, none of them as the last one, up to the first refusal. */
  function Sent(seal: Seal, sink: Sink, chunks: seq<Bytes>): (r: Result<seq<Bytes>, ExportError>)
    ensures r.Ok? ==> |r.value| == |chunks| && forall i :: 0 <= i < |chunks| ==> seal(i, false, chunks[i]) == Some(r.value[i])
  {
    if chunks == [] then Ok([]) else
    match Sent(seal, sink, chunks[..|chunks| - 1])
    case Err(error) => Err(error)
    case Ok(sealed) =>
      match SentOne(seal, sink, |chunks| - 1, false, chunks[|chunks| - 1])
      case Err(error) => Err(error)
      case Ok(c) => Ok(sealed + [c])
  }

  /** A whole stream sealed and handed over, what is left as the last chunk. */
  function SentStream(seal: Seal, sink: Sink, stream: Bytes): (r: Result<seq<Bytes>, ExportError>)
    ensures r.Ok? ==> SealsStream(seal, stream, r.value)
  {
    match Sent(seal, sink, FullChunks(stream))
    case Err(error) => Err(error)
    case Ok(sealed) =>
      match SentOne(seal, sink, |sealed|, true, LastChunk(stream))
      case Err(error) => Err(error)
      case Ok(c) => Ok(sealed + [c])
  }

  /** The first refusal is the one reported, whatever would have come after it. */
  lemma {:induction false} RefusalStays(seal: Seal, sink: Sink, chunks: seq<Bytes>, more: seq<Bytes>)
    requires Sent(seal, sink, chunks).Err?
    ensures Sent(seal, sink, chunks + more) == Sent(seal, sink, chunks)
    decreases |more|
  {
    hide SentOne;
    if more == [] {
      assert chunks + more == chunks;
    } else {
      RefusalStays(seal, sink, chunks, more[..|more| - 1]);
      assert (chunks + more)[..|chunks + more| - 1] == chunks + more[..|more| - 1];
    }
  }

  lemma SentMore(seal: Seal, sink: Sink, chunks: seq<Bytes>, chunk: Bytes)
    requires Sent(seal, sink, chunks).Ok?
    ensures Sent(seal, sink, chunks + [chunk]) ==
            match SentOne(seal, sink, |chunks|, false, chunk)
            case Err(error) => Err(error)
            case Ok(c) => Ok(Sent(seal, sink, chunks).value + [c])
  {
    hide SentOne;
    assert (chunks + [chunk])[..|chunks|] == chunks;
  }

  /** Seals a growing buffer chunk by chunk, and hands each to the sink as soon as it is full. */
  class ChunkWriter<R> {
    const seal: Seal
    const sink: Sink
    const encode: R -> Option<Bytes>
    var counter: nat
    var buf: Bytes
    var emitted: seq<Bytes>
    ghost var written: Bytes
    ghost var cut: seq<Bytes>

    ghost predicate Sealed()
      reads this
    {
      |cut| == counter && Sent(seal, sink, cut) == Ok(emitted)
    }

    /** Everything written is in the chunks handed over or, short of one more, in the buffer. */
    ghost predicate Valid()
      reads this
    {
      Sealed() && cut == FullChunks(written) && buf == LastChunk(written)
    }

    constructor (seal: Seal, sink: Sink, encode: R -> Option<Bytes>)
      ensures Valid() && written == [] && this.seal == seal && this.sink == sink && this.encode == encode
    {
      this.seal, this.sink, this.encode := seal, sink, encode;
      counter, buf, emitted, written, cut := 0, [], [], [], [];
    }

    /** A record the codec refuses leaves everything as it was; a chunk refused is the stream's first refusal. */
    method WriteRecord(record: R) returns (r: Result<(), ExportError>)
      requires Valid()
      modifies this
      ensures encode(record).None? ==> r == Err(Encode) && Valid() && written == old(written)
      ensures encode(record).Some? ==> written == old(written) + Frame(encode(record).value)
      ensures encode(record).Some? && r.Ok? ==> Valid()
      ensures encode(record).Some? && r.Err? ==> Sent(seal, sink, FullChunks(written)) == Err(r.error)
    {
      hide FullChunks, LastChunk, Frame, Sent, SentOne;
      var body := encode(record);
      if body.None? {
        return Err(Encode);
      }
      CutGrows(written, Frame(body.value));
      buf := buf + Frame(body.value);
      written := written + Frame(body.value);
      while |buf| >= CHUNK_PLAINTEXT_MAX
        invariant written == old(written) + Frame(body.value)
        invariant Sealed() && FullChunks(written) == cut + FullChunks(buf) && LastChunk(written) == LastChunk(buf)
        decreases |buf|
      {
        ghost var chunk, before, rest := buf[..CHUNK_PLAINTEXT_MAX], cut, FullChunks(buf[CHUNK_PLAINTEXT_MAX..]);
        CutOne(buf);
        assert before + ([chunk] + rest) == before + [chunk] + rest;
        var flushed := FlushFullChunk();
        if flushed.Err? {
          RefusalStays(seal, sink, before + [chunk], rest);
          return flushed;
        }
      }
      CutNone(buf);
      assert cut + [] == cut;
      return Ok(());
    }

    method FlushFullChunk() returns (r: Result<(), ExportError>)
      requires Sealed() && |buf| >= CHUNK_PLAINTEXT_MAX
      modifies this
      ensures written == old(written) && buf == old(buf)[CHUNK_PLAINTEXT_MAX..]
      ensures r.Ok? ==> Sealed() && cut == old(cut) + [old(buf)[..CHUNK_PLAINTEXT_MAX]]
      ensures r.Err? ==> Sent(seal, sink, old(cut) + [old(buf)[..CHUNK_PLAINTEXT_MAX]]) == Err(r.error)
    {
      hide Sent;
      var chunk := buf[..CHUNK_PLAINTEXT_MAX];
      buf := buf[CHUNK_PLAINTEXT_MAX..];
      SentMore(seal, sink, cut, chunk);
      var sealed := seal(counter, false, chunk);
      if sealed.None? {
        return Err(Crypto);
      }
      if !sink(counter, sealed.value) {
        return Err(Emit);
      }
      counter := counter + 1;
      emitted := emitted + [sealed.value];
      cut := cut + [chunk];
      return Ok(());
    }

    /** Seals what is left, however little, as the last chunk. */
    method Finish() returns (r: Result<(), ExportError>)
      requires Valid()
      modifies this`emitted
      ensures match r
              case Ok(_) => SentStream(seal, sink, written) == Ok(emitted)
              case Err(error) => SentStream(seal, sink, written) == Err(error)
    {
      var sealed := seal(counter, true, buf);
      if sealed.None? {
        return Err(Crypto);
      }
      if !sink(counter, sealed.value) {
        return Err(Emit);
      }
      emitted := emitted + [sealed.value];
      return Ok(());
    }
  }

  /** The records' encodings; nothing when the codec refuses one. */
  function Encoded<R>(encode: R -> Option<Bytes>, records: seq<R>): (r: Option<seq<Bytes>>)
    ensures r.Some? ==> |r.value| == |records| && forall i :: 0 <= i < |records| ==> encode(records[i]) == Some(r.value[i])
    ensures r.None? ==> exists i :: 0 <= i < |records| && encode(records[i]).None?
  {
    if records == [] then Some([]) else
    match (Encoded(encode, records[..|records| - 1]), encode(records[|records| - 1]))
    case (Some(bodies), Some(body)) => Some(bodies + [body])
    case _ => None
  }

  lemma {:induction false} StreamSplit(bodies: seq<Bytes>, k: nat)
    requires k <= |bodies|
    ensures Stream(bodies) == Stream(bodies[..k]) + Stream(bodies[k..])
    decreases |bodies| - k
  {
    hide Frame;
    if k == |bodies| {
      assert bodies[..k] == bodies && Stream(bodies[k..]) == [];
    } else {
      StreamSplit(bodies, k + 1);
      StreamPush(bodies[..k], bodies[k]);
      assert bodies[..k + 1] == bodies[..k] + [bodies[k]];
      assert bodies[k..][1..] == bodies[k + 1..];
    }
  }

  /** A refusal among the first records is the whole stream's. */
  lemma EarlyRefusal(seal: Seal, sink: Sink, bodies: seq<Bytes>, k: nat)
    requires k <= |bodies| && Sent(seal, sink, FullChunks(Stream(bodies[..k]))).Err?
    ensures Sent(seal, sink, FullChunks(Stream(bodies))) == Sent(seal, sink, FullChunks(Stream(bodies[..k])))
    ensures SentStream(seal, sink, Stream(bodies)) == Sent(seal, sink, FullChunks(Stream(bodies[..k])))
  {
    hide Sent, FullChunks, LastChunk, Stream, SentOne;
    StreamSplit(bodies, k);
    CutGrows(Stream(bodies[..k]), Stream(bodies[k..]));
    RefusalStays(seal, sink, FullChunks(Stream(bodies[..k])), FullChunks(LastChunk(Stream(bodies[..k])) + Stream(bodies[k..])));
  }

  /** The first record the codec refuses, or the length. */
  function FirstRefused<R>(encode: R -> Option<Bytes>, records: seq<R>): (k: nat)
    ensures k <= |records| && Encoded(encode, records[..k]).Some? && (k < |records| ==> encode(records[k]).None?)
  {
    if records == [] then 0 else
    var init := records[..|records| - 1];
    var k := FirstRefused(encode, init);
    assert k < |init| ==> records[..k] == init[..k];
    assert k == |init| ==> init[..k] == init && records[..|records|] == records;
    if k < |init| || encode(records[k]).None? then k else k + 1
  }

  /** What an export stopped by the codec comes to: a chunk refused before it, or the codec's refusal. */
  function Stopped(sent: Result<seq<Bytes>, ExportError>): Result<seq<Bytes>, ExportError> {
    match sent
    case Err(error) => Err(error)
    case Ok(_) => Err(Encode)
  }

  /** All records written and the stream sealed, or the first refusal of the codec, the cipher or the sink. */
  function Exported<R>(seal: Seal, sink: Sink, encode: R -> Option<Bytes>, records: seq<R>): Result<seq<Bytes>, ExportError> {
    var k := FirstRefused(encode, records);
    var stream := Stream(Encoded(encode, records[..k]).value);
    if k == |records| then SentStream(seal, sink, stream) else Stopped(Sent(seal, sink, FullChunks(stream)))
  }

  /** A whole bundle body, record by record. */
  method Export<R>(seal: Seal, sink: Sink, encode: R -> Option<Bytes>, records: seq<R>) returns (r: Result<seq<Bytes>, ExportError>)
    ensures r == Exported(seal, sink, encode, records)
    ensures Encoded(encode, records).Some? ==> r == SentStream(seal, sink, Stream(Encoded(encode, records).value))
  {
    hide SentStream, Sent, FullChunks, LastChunk, Frame, Stream, Encoded, FirstRefused;
    var writer := new ChunkWriter(seal, sink, encode);
    ghost var bodies, refused := [], FirstRefused(encode, records);
    ghost var all := Encoded(encode, records[..refused]).value;
    assert refused == |records| ==> records[..refused] == records;
    NothingStreamed();
    for i := 0 to |records|
      invariant writer.Valid() && writer.seal == seal && writer.sink == sink && writer.encode == encode
      invariant i <= refused && bodies == all[..i] && writer.written == Stream(bodies)
    {
      var wrote := writer.WriteRecord(records[i]);
      if i < refused {
        assert all[..i + 1] == bodies + [all[i]] && encode(records[i]) == Some(all[i]);
        StreamPush(bodies, all[i]);
        bodies := bodies + [all[i]];
        if wrote.Err? {
          EarlyRefusal(seal, sink, all, i + 1);
        }
      } else {
        assert all[..i] == all;
      }
      if wrote.Err? {
        return Err(wrote.error);
      }
    }
    assert all[..|records|] == all;
    var done := writer.Finish();
    if done.Err? {
      return Err(done.error);
    }
    return Ok(writer.emitted);
  }

  lemma NothingStreamed()
    ensures Stream([]) == []
  {
  }

  // ---- when an export goes through, and what stops it ----

  /** Piece `i` is sealed in its place, as the last one where the pieces end the stream, and the sink takes it. */
  predicate Taken(seal: Seal, sink: Sink, pieces: seq<Bytes>, ends: bool, i: nat)
    requires i < |pieces|
  {
    var sealed := seal(i, ends && i + 1 == |pieces|, pieces[i]);
    sealed.Some? && sink(i, sealed.value)
  }

  ghost predicate AllTaken(seal: Seal, sink: Sink, pieces: seq<Bytes>, ends: bool) {
    forall i :: 0 <= i < |pieces| ==> Taken(seal, sink, pieces, ends, i)
  }

  /** Piece `i` is the first one not taken, refused by the cipher or by the sink. */
  ghost predicate StopsAt(seal: Seal, sink: Sink, pieces: seq<Bytes>, ends: bool, i: nat, e: ExportError)
    requires i < |pieces|
  {
    && (forall j :: 0 <= j < i ==> Taken(seal, sink, pieces, ends, j)) && !Taken(seal, sink, pieces, ends, i)
    && e == if seal(i, ends && i + 1 == |pieces|, pieces[i]).None? then Crypto else Emit
  }

  ghost predicate Stops(seal: Seal, sink: Sink, pieces: seq<Bytes>, ends: bool, e: ExportError) {
    exists i :: 0 <= i < |pieces| && StopsAt(seal, sink, pieces, ends, i, e)
  }

  lemma {:induction false} SentStops(seal: Seal, sink: Sink, chunks: seq<Bytes>)
    ensures var sent := Sent(seal, sink, chunks);
            if sent.Ok? then AllTaken(seal, sink, chunks, false) else Stops(seal, sink, chunks, false, sent.error)
  {
    if chunks != [] {
      var init := chunks[..|chunks| - 1];
      SentStops(seal, sink, init);
      TakenEarlier(seal, sink, init, chunks, false);
      var sent := Sent(seal, sink, chunks);
      if Sent(seal, sink, init).Ok? && sent.Err? {
        assert StopsAt(seal, sink, chunks, false, |init|, sent.error);
      }
    }
  }

  /** What happens to the first pieces is the same however many follow. */
  lemma TakenEarlier(seal: Seal, sink: Sink, few: seq<Bytes>, pieces: seq<Bytes>, ends: bool)
    requires few < pieces
    ensures forall i :: 0 <= i < |few| ==> Taken(seal, sink, few, false, i) == Taken(seal, sink, pieces, ends, i)
    ensures forall e :: Stops(seal, sink, few, false, e) ==> Stops(seal, sink, pieces, ends, e)
  {
    forall i | 0 <= i < |few| ensures Taken(seal, sink, few, false, i) == Taken(seal, sink, pieces, ends, i) {
      assert few[i] == pieces[i] && !(ends && i + 1 == |pieces|);
    }
    forall e | Stops(seal, sink, few, false, e) ensures Stops(seal, sink, pieces, ends, e) {
      var i :| 0 <= i < |few| && StopsAt(seal, sink, few, false, i, e);
      assert few[i] == pieces[i] && !(ends && i + 1 == |pieces|);
      assert forall j :: 0 <= j < i ==> Taken(seal, sink, few, false, j) && Taken(seal, sink, pieces, ends, j);
      assert StopsAt(seal, sink, pieces, ends, i, e);
    }
  }

  /** A stream is sent when every piece of it is taken, and otherwise the first that is not says why. */
  lemma StreamIsSent(seal: Seal, sink: Sink, stream: Bytes)
    ensures var sent := SentStream(seal, sink, stream);
            if sent.Ok? then AllTaken(seal, sink, Pieces(stream), true) else Stops(seal, sink, Pieces(stream), true, sent.error)
  {
    hide Sent, FullChunks, LastChunk;
    var full, pieces := FullChunks(stream), Pieces(stream);
    SentStops(seal, sink, full);
    TakenEarlier(seal, sink, full, pieces, true);
    var sent := SentStream(seal, sink, stream);
    if Sent(seal, sink, full).Ok? {
      assert pieces[|full|] == LastChunk(stream);
      if sent.Err? {
        assert StopsAt(seal, sink, pieces, true, |full|, sent.error);
      }
    }
  }

  lemma StoppedIsNotTaken(seal: Seal, sink: Sink, pieces: seq<Bytes>, ends: bool, e: ExportError)
    requires Stops(seal, sink, pieces, ends, e)
    ensures !AllTaken(seal, sink, pieces, ends) && e != Encode
  {
  }

  /**
   An export goes through exactly when the codec takes every record and every piece of the stream is taken. The
   codec's refusal is reported exactly when all pieces that were full before it are taken.
   */
  lemma ExportIsSent<R>(seal: Seal, sink: Sink, encode: R -> Option<Bytes>, records: seq<R>)
    ensures var r, k := Exported(seal, sink, encode, records), FirstRefused(encode, records);
            var stream := Stream(Encoded(encode, records[..k]).value);
            && (r.Ok? <==> k == |records| && AllTaken(seal, sink, Pieces(stream), true))
            && (r == Err(Encode) <==> k < |records| && AllTaken(seal, sink, FullChunks(stream), false))
            && (r.Err? && r.error != Encode ==>
                  if k == |records| then Stops(seal, sink, Pieces(stream), true, r.error)
                  else Stops(seal, sink, FullChunks(stream), false, r.error))
  {
    hide Sent, FullChunks, LastChunk, AllTaken, SentStream, Stream, Encoded, FirstRefused, Stops;
    var k := FirstRefused(encode, records);
    var stream := Stream(Encoded(encode, records[..k]).value);
    StreamIsSent(seal, sink, stream);
    SentStops(seal, sink, FullChunks(stream));
    var sent, full := SentStream(seal, sink, stream), Sent(seal, sink, FullChunks(stream));
    if sent.Err? {
      StoppedIsNotTaken(seal, sink, Pieces(stream), true, sent.error);
    }
    if full.Err? {
      StoppedIsNotTaken(seal, sink, FullChunks(stream), false, full.error);
    }
  }
}
