/**
 The record stream inside a bundle: each record is its length, four bytes with the lowest first, and
 then its encoding. Records are read back from pieces cut anywhere.
 */
module BundleWire {
  import opened Octets
  import opened Wrappers

  const LEN_PREFIX_BYTES: nat := 4
  const MAX_RECORD_BYTES: nat := 64 * 1024 * 1024
  const U32_MAX: nat := 0xFFFF_FFFF

  /** What stops a reader: a length over the cap, a body that does not decode, or bytes left at the end. */
  datatype RecordReadError = TooLarge(claimed: nat) | Codec | Truncated(leftover: nat)

  function ToLittleEndian(n: nat): (r: Bytes)
    requires n <= U32_MAX
    ensures |r| == LEN_PREFIX_BYTES && FromLittleEndian(r) == n
  {
    var second, third, fourth := n / 256, n / 256 / 256, n / 256 / 256 / 256;
    [n % 256, second % 256, third % 256, fourth]
  }

  function FromLittleEndian(b: Bytes): (n: nat)
    requires |b| == LEN_PREFIX_BYTES
    ensures n <= U32_MAX
  {
    var b0: int, b1: int, b2: int, b3: int := b[0], b[1], b[2], b[3];
    b0 + 256 * b1 + 65536 * b2 + 16777216 * b3
  }

  /** What a body's length is written as: one too large for four bytes becomes the largest. */
  function Claimed(body: Bytes): (r: nat)
    ensures r <= U32_MAX
  {
    if |body| > U32_MAX then U32_MAX else |body|
  }

  /** A body behind its length, as four bytes. */
  function Frame(body: Bytes): (r: Bytes)
    ensures |r| == LEN_PREFIX_BYTES + |body|
  {
    ToLittleEndian(Claimed(body)) + body
  }

  /** The length is written with its lowest byte first. */
  lemma LowestByteFirst(n: nat)
    requires n <= U32_MAX
    ensures ToLittleEndian(n) == [n % 0x100, n / 0x100 % 0x100, n / 0x1_0000 % 0x100, n / 0x100_0000]
    ensures Frame([7]) == [1, 0, 0, 0, 7]
  {
    assert n / 0x100 / 0x100 == n / 0x1_0000 && n / 0x100 / 0x100 / 0x100 == n / 0x100_0000;
    assert ToLittleEndian(1) == [1, 0, 0, 0];
  }

  /** The encodings of all the records, one frame after the other. */
  function Stream(bodies: seq<Bytes>): Bytes {
    if bodies == [] then [] else Frame(bodies[0]) + Stream(bodies[1..])
  }

  /** The front of a stream: not a whole record yet, a refusal, or a record and where it ends. */
  datatype Front<R> = Partial | Refused(error: RecordReadError) | Whole(record: R, end: nat)

  function FrontOf<R>(decode: Bytes -> Option<R>, carry: Bytes): (r: Front<R>)
    ensures r.Whole? ==> LEN_PREFIX_BYTES <= r.end <= |carry|
  {
    if |carry| < LEN_PREFIX_BYTES then Partial else
    var len := FromLittleEndian(carry[..LEN_PREFIX_BYTES]);
    if len > MAX_RECORD_BYTES then Refused(TooLarge(len))
    else if |carry| < LEN_PREFIX_BYTES + len then Partial
    else
      match decode(carry[LEN_PREFIX_BYTES..LEN_PREFIX_BYTES + len])
      case None => Refused(Codec)
      case Some(record) => Whole(record, LEN_PREFIX_BYTES + len)
  }

  /** What reading some bytes comes to: the records, the bytes not used, and the refusal it stopped at. */
  datatype Reading<R> = Reading(records: seq<R>, rest: Bytes, error: Option<RecordReadError>)

  /** Reading on past a whole record. */
  function Past<R>(record: R, later: Reading<R>): Reading<R> {
    Reading([record] + later.records, later.rest, later.error)
  }

  function Read<R>(decode: Bytes -> Option<R>, bytes: Bytes): (r: Reading<R>)
    ensures r.error.None? ==> FrontOf(decode, r.rest).Partial?
    ensures |r.rest| <= |bytes|
    decreases |bytes|
  {
    match FrontOf(decode, bytes)
    case Partial => Reading([], bytes, None)
    case Refused(error) => Reading([], bytes, Some(error))
    case Whole(record, end) =>
      Past(record, Read(decode, bytes[end..]))
  }

  /** Assembles records from pieces of a stream. */
  class BundleRecordReader<R> {
    const decode: Bytes -> Option<R>
    var carry: Bytes

    constructor (decode: Bytes -> Option<R>)
      ensures this.decode == decode && carry == []
    {
      this.decode := decode;
      carry := [];
    }

    /** One more piece: every record now whole, in order. */
    method Feed(plaintext: Bytes) returns (r: Result<seq<R>, RecordReadError>)
      modifies this
      ensures var reading := Read(decode, old(carry) + plaintext);
              && carry == reading.rest
              && r == match reading.error case None => Ok(reading.records) case Some(error) => Err(error)
    {
      hide Read, FrontOf;
      carry := carry + plaintext;
      ghost var all := Read(decode, carry);
      var out := [];
      var more := true;
      while more
        invariant more ==> all == Reading(out + Read(decode, carry).records, Read(decode, carry).rest, Read(decode, carry).error)
        invariant !more ==> all == Reading(out, carry, None)
        decreases more, |carry|
      {
        ReadUnfolds(decode, carry);
        var one := TryTakeOne();
        match one {
          case Err(error) => return Err(error);
          case Ok(None) => more := false;
          case Ok(Some(record)) => out := out + [record];
        }
      }
      return Ok(out);
    }

    /** One record off the front, when a whole one is there. */
    method TryTakeOne() returns (r: Result<Option<R>, RecordReadError>)
      modifies this
      ensures match FrontOf(decode, old(carry))
              case Partial => r == Ok(None) && carry == old(carry)
              case Refused(error) => r == Err(error) && carry == old(carry)
              case Whole(record, end) => r == Ok(Some(record)) && carry == old(carry)[end..]
    {
      if |carry| < LEN_PREFIX_BYTES {
        return Ok(None);
      }
      var len := FromLittleEndian(carry[..LEN_PREFIX_BYTES]);
      if len > MAX_RECORD_BYTES {
        return Err(TooLarge(len));
      }
      if |carry| < LEN_PREFIX_BYTES + len {
        return Ok(None);
      }
      var record := decode(carry[LEN_PREFIX_BYTES..LEN_PREFIX_BYTES + len]);
      if record.None? {
        return Err(Codec);
      }
      carry := carry[LEN_PREFIX_BYTES + len..];
      return Ok(record);
    }

    /** Nothing may be left once the stream has ended. */
    method Finish() returns (r: Result<(), RecordReadError>)
      ensures r == if carry == [] then Ok(()) else Err(Truncated(|carry|))
    {
      return if carry == [] then Ok(()) else Err(Truncated(|carry|));
    }
  }

  /** A reader never holds on to more than one record. */
  lemma LeftoverIsShort<R>(decode: Bytes -> Option<R>, bytes: Bytes)
    requires Read(decode, bytes).error.None?
    ensures |Read(decode, bytes).rest| < LEN_PREFIX_BYTES + MAX_RECORD_BYTES
  {
    hide Read, FromLittleEndian;
    assert FrontOf(decode, Read(decode, bytes).rest).Partial?;
  }

  // ---- pieces ----

  /** More bytes never change what the bytes so far were read as. */
  lemma FrontGrows<R>(decode: Bytes -> Option<R>, s: Bytes, t: Bytes)
    requires !FrontOf(decode, s).Partial?
    ensures FrontOf(decode, s + t) == FrontOf(decode, s)
  {
    var len := FromLittleEndian(s[..LEN_PREFIX_BYTES]);
    assert (s + t)[..LEN_PREFIX_BYTES] == s[..LEN_PREFIX_BYTES];
    if len <= MAX_RECORD_BYTES {
      assert (s + t)[LEN_PREFIX_BYTES..LEN_PREFIX_BYTES + len] == s[LEN_PREFIX_BYTES..LEN_PREFIX_BYTES + len];
    }
  }

  /** A reading carried on with the next piece. */
  function CarriedOn<R>(decode: Bytes -> Option<R>, so_far: Reading<R>, t: Bytes): Reading<R> {
    if so_far.error.Some? then so_far.(rest := so_far.rest + t) else
    var later := Read(decode, so_far.rest + t);
    Reading(so_far.records + later.records, later.rest, later.error)
  }

  lemma PastCarriesOn<R>(decode: Bytes -> Option<R>, record: R, later: Reading<R>, t: Bytes)
    ensures CarriedOn(decode, Past(record, later), t) == Past(record, CarriedOn(decode, later, t))
  {
    hide Read;
    assert forall more: seq<R> :: [record] + later.records + more == [record] + (later.records + more);
  }

  lemma ReadUnfolds<R>(decode: Bytes -> Option<R>, s: Bytes)
    ensures FrontOf(decode, s).Partial? ==> Read(decode, s) == Reading([], s, None)
    ensures FrontOf(decode, s).Refused? ==> Read(decode, s) == Reading([], s, Some(FrontOf(decode, s).error))
    ensures FrontOf(decode, s).Whole? ==>
              Read(decode, s) == Past(FrontOf(decode, s).record, Read(decode, s[FrontOf(decode, s).end..]))
  {
  }

  /** Reading a stream in two pieces, cut anywhere, is reading it whole. */
  lemma {:induction false} ReadInPieces<R>(decode: Bytes -> Option<R>, s: Bytes, t: Bytes)
    ensures Read(decode, s + t) == CarriedOn(decode, Read(decode, s), t)
    decreases |s|
  {
    hide FrontOf, Read;
    ReadUnfolds(decode, s);
    ReadUnfolds(decode, s + t);
    match FrontOf(decode, s) {
      case Partial =>
        assert [] + Read(decode, s + t).records == Read(decode, s + t).records;
      case Refused(_) =>
        FrontGrows(decode, s, t);
      case Whole(record, end) =>
        FrontGrows(decode, s, t);
        ReadInPieces(decode, s[end..], t);
        assert (s + t)[end..] == s[end..] + t;
        PastCarriesOn(decode, record, Read(decode, s[end..]), t);
    }
  }

  function Concat(pieces: seq<Bytes>): Bytes {
    if pieces == [] then [] else pieces[0] + Concat(pieces[1..])
  }

  /** What a reader with `carry` left over comes to after some more pieces. */
  function ReadPieces<R>(decode: Bytes -> Option<R>, carry: Bytes, pieces: seq<Bytes>): Reading<R>
    decreases |pieces|
  {
    if pieces == [] then Reading([], carry, None) else
    var first := Read(decode, carry + pieces[0]);
    if first.error.Some? then first else
    var later := ReadPieces(decode, first.rest, pieces[1..]);
    Reading(first.records + later.records, later.rest, later.error)
  }

  /** However a stream is cut, the records are the same, and so is the refusal or what is left over. */
  lemma {:induction false} CutsDoNotMatter<R>(decode: Bytes -> Option<R>, carry: Bytes, pieces: seq<Bytes>)
    requires FrontOf(decode, carry).Partial?
    ensures var cut, whole := ReadPieces(decode, carry, pieces), Read(decode, carry + Concat(pieces));
            cut.records == whole.records && cut.error == whole.error && (whole.error.None? ==> cut.rest == whole.rest)
    decreases |pieces|
  {
    hide FrontOf;
    if pieces == [] {
      assert carry + Concat(pieces) == carry;
    } else {
      var first := Read(decode, carry + pieces[0]);
      assert carry + Concat(pieces) == carry + pieces[0] + Concat(pieces[1..]);
      ReadInPieces(decode, carry + pieces[0], Concat(pieces[1..]));
      if first.error.None? {
        CutsDoNotMatter(decode, first.rest, pieces[1..]);
      }
    }
  }

  // ---- what was written is read back ----

  /** Each body decodes to its record. */
  ghost predicate Decodes<R>(decode: Bytes -> Option<R>, bodies: seq<Bytes>, records: seq<R>) {
    |bodies| == |records| && forall i :: 0 <= i < |bodies| ==> decode(bodies[i]) == Some(records[i])
  }

  predicate Fits(body: Bytes) {
    |body| <= MAX_RECORD_BYTES
  }

  predicate AllFit(bodies: seq<Bytes>) {
    forall i :: 0 <= i < |bodies| ==> Fits(bodies[i])
  }

  /** The first record too large to read back, or the length. */
  function FirstOversized(bodies: seq<Bytes>): (k: nat)
    ensures k <= |bodies| && AllFit(bodies[..k])
    ensures k < |bodies| ==> !Fits(bodies[k])
    ensures k == |bodies| <==> AllFit(bodies)
  {
    if bodies == [] then 0
    else if !Fits(bodies[0]) then 0
    else
      var k := FirstOversized(bodies[1..]);
      assert forall i :: 1 <= i < |bodies| ==> bodies[i] == bodies[1..][i - 1];
      k + 1
  }

  /** A frame at the front of a stream is its record, or a refusal when it is over the cap. */
  lemma FrameIsFront<R>(decode: Bytes -> Option<R>, body: Bytes, record: R, tail: Bytes)
    requires decode(body) == Some(record)
    ensures FrontOf(decode, Frame(body) + tail) ==
            if Fits(body) then Whole(record, |Frame(body)|) else Refused(TooLarge(Claimed(body)))
  {
    hide FromLittleEndian, ToLittleEndian;
    var s := Frame(body) + tail;
    assert s[..LEN_PREFIX_BYTES] == ToLittleEndian(Claimed(body));
    if Fits(body) {
      assert s[LEN_PREFIX_BYTES..LEN_PREFIX_BYTES + |body|] == body;
    }
  }

  /** A frame cut anywhere is not yet a record. */
  lemma CutFrameIsPartial<R>(decode: Bytes -> Option<R>, body: Bytes, c: nat)
    requires Fits(body) && c < |Frame(body)|
    ensures FrontOf(decode, Frame(body)[..c]).Partial?
  {
    hide FromLittleEndian, ToLittleEndian;
    if c >= LEN_PREFIX_BYTES {
      assert Frame(body)[..c][..LEN_PREFIX_BYTES] == ToLittleEndian(Claimed(body));
    }
  }

  /** A stream reads back as its records, up to the first that is over the cap. */
  lemma {:induction false} StreamReadsBack<R>(decode: Bytes -> Option<R>, bodies: seq<Bytes>, records: seq<R>)
    requires Decodes(decode, bodies, records)
    ensures var k, reading := FirstOversized(bodies), Read(decode, Stream(bodies));
            && reading.records == records[..k]
            && (k == |records| ==> reading.rest == [] && reading.error == None)
            && (k < |records| ==> reading.error == Some(TooLarge(Claimed(bodies[k]))))
  {
    hide FrontOf, Frame, Read;
    ReadUnfolds(decode, Stream(bodies));
    if bodies == [] {
      NothingIsPartial(decode);
    } else {
      var frame, tail := Frame(bodies[0]), Stream(bodies[1..]);
      FrameIsFront(decode, bodies[0], records[0], tail);
      if Fits(bodies[0]) {
        StreamReadsBack(decode, bodies[1..], records[1..]);
        assert (frame + tail)[|frame|..] == tail;
        var k := FirstOversized(bodies[1..]);
        assert [records[0]] + records[1..][..k] == records[..k + 1];
      }
    }
  }

  lemma NothingIsPartial<R>(decode: Bytes -> Option<R>)
    ensures FrontOf(decode, []).Partial?
  {
  }

  /** A body the codec refuses stops the reading after the records before it. */
  lemma BadBodyIsRefused<R>(decode: Bytes -> Option<R>, bodies: seq<Bytes>, records: seq<R>, body: Bytes, tail: Bytes)
    requires Decodes(decode, bodies, records) && AllFit(bodies) && Fits(body) && decode(body).None?
    ensures var reading := Read(decode, Stream(bodies) + (Frame(body) + tail));
            reading.records == records && reading.error == Some(Codec)
  {
    hide FrontOf, Frame, Read, Stream;
    StreamReadsBack(decode, bodies, records);
    ReadInPieces(decode, Stream(bodies), Frame(body) + tail);
    BadFrame(decode, body, tail);
    ReadUnfolds(decode, Frame(body) + tail);
    assert [] + (Frame(body) + tail) == Frame(body) + tail;
    assert records[..|records|] == records && records + [] == records;
  }

  lemma BadFrame<R>(decode: Bytes -> Option<R>, body: Bytes, tail: Bytes)
    requires Fits(body) && decode(body).None?
    ensures FrontOf(decode, Frame(body) + tail) == Refused(Codec)
  {
    hide FromLittleEndian, ToLittleEndian;
    var s := Frame(body) + tail;
    assert s[..LEN_PREFIX_BYTES] == ToLittleEndian(Claimed(body));
    assert s[LEN_PREFIX_BYTES..LEN_PREFIX_BYTES + |body|] == body;
  }

  /** Where the first `k` records end. */
  function Boundary(bodies: seq<Bytes>, k: nat): (r: nat)
    requires k <= |bodies|
  {
    |Stream(bodies[..k])|
  }

  lemma BoundaryStep(bodies: seq<Bytes>, k: nat)
    requires 0 < k <= |bodies|
    ensures Boundary(bodies, k) == |Frame(bodies[0])| + Boundary(bodies[1..], k - 1)
  {
    hide Frame;
    assert bodies[..k][1..] == bodies[1..][..k - 1];
  }

  /** A stream cut at `c` reads as the records that end by then; the bytes after them are left over. */
  lemma {:induction false} CutStream<R>(decode: Bytes -> Option<R>, bodies: seq<Bytes>, records: seq<R>, c: nat)
      returns (k: nat)
    requires Decodes(decode, bodies, records) && AllFit(bodies) && c <= |Stream(bodies)|
    ensures k <= |bodies| && Boundary(bodies, k) <= c && (k < |bodies| ==> c < Boundary(bodies, k + 1))
    ensures Read(decode, Stream(bodies)[..c]) == Reading(records[..k], Stream(bodies)[Boundary(bodies, k)..c], None)
  {
    hide FrontOf, Frame, Fits, Boundary, Read, Stream;
    StreamUnfolds(bodies);
    var stream := Stream(bodies);
    ReadUnfolds(decode, stream[..c]);
    NoRecords(bodies);
    if bodies == [] {
      k := 0;
      NothingIsPartial(decode);
    } else {
      var frame, tail := Frame(bodies[0]), Stream(bodies[1..]);
      BoundaryStep(bodies, 1);
      NoRecords(bodies[1..]);
      if c < |frame| {
        k := 0;
        assert stream[..c] == frame[..c];
        CutFrameIsPartial(decode, bodies[0], c);
      } else {
        k := CutStream(decode, bodies[1..], records[1..], c - |frame|);
        BoundaryStep(bodies, k + 1);
        if k < |bodies[1..]| {
          BoundaryStep(bodies, k + 2);
        }
        CutPastFrame(frame, tail, c);
        FrameIsFront(decode, bodies[0], records[0], tail[..c - |frame|]);
        FirstRecord(records, k);
        CutLater(frame, tail, Boundary(bodies[1..], k), c);
        k := k + 1;
      }
    }
  }

  lemma FirstRecord<R>(records: seq<R>, k: nat)
    requires k < |records|
    ensures [records[0]] + records[1..][..k] == records[..k + 1]
  {
  }

  lemma CutLater(frame: Bytes, tail: Bytes, cut: nat, c: nat)
    requires |frame| + cut <= c <= |frame| + |tail|
    ensures tail[cut..c - |frame|] == (frame + tail)[|frame| + cut..c]
  {
  }

  lemma StreamUnfolds(bodies: seq<Bytes>)
    ensures Stream(bodies) == if bodies == [] then [] else Frame(bodies[0]) + Stream(bodies[1..])
  {
  }

  lemma NoRecords(bodies: seq<Bytes>)
    ensures Boundary(bodies, 0) == 0
  {
  }

  lemma CutPastFrame(frame: Bytes, tail: Bytes, c: nat)
    requires |frame| <= c <= |frame| + |tail|
    ensures (frame + tail)[..c] == frame + tail[..c - |frame|]
    ensures (frame + tail[..c - |frame|])[|frame|..] == tail[..c - |frame|]
  {
  }

  /** Reading stops short of a whole stream exactly when it was cut inside a record, and says by how much. */
  lemma CutIsTruncated<R>(decode: Bytes -> Option<R>, bodies: seq<Bytes>, records: seq<R>, c: nat)
    requires Decodes(decode, bodies, records) && AllFit(bodies) && c <= |Stream(bodies)|
    ensures Read(decode, Stream(bodies)[..c]).error.None?
    ensures Read(decode, Stream(bodies)[..c]).rest == [] <==> exists k :: 0 <= k <= |bodies| && Boundary(bodies, k) == c
  {
    hide Read, Decodes, AllFit, Boundary, Stream;
    var k := CutStream(decode, bodies, records, c);
    forall j | 0 <= j <= |bodies| && Boundary(bodies, j) == c ensures j == k {
      BoundariesRise(bodies, j, k);
      if k < |bodies| {
        BoundariesRise(bodies, k + 1, j);
      }
    }
  }

  lemma {:induction false} BoundariesRise(bodies: seq<Bytes>, j: nat, k: nat)
    requires j <= |bodies| && k <= |bodies|
    ensures j < k ==> Boundary(bodies, j) < Boundary(bodies, k)
    decreases k
  {
    hide Stream, Frame;
    if j < k {
      assert bodies[..k] == bodies[..k - 1] + [bodies[k - 1]];
      StreamPush(bodies[..k - 1], bodies[k - 1]);
      BoundariesRise(bodies, j, k - 1);
    }
  }

  lemma {:induction false} StreamPush(bodies: seq<Bytes>, body: Bytes)
    ensures Stream(bodies + [body]) == Stream(bodies) + Frame(body)
  {
    hide Frame;
    if bodies == [] {
      assert Stream([body]) == Frame(body) + Stream([]);
      assert bodies + [body] == [body];
    } else {
      assert (bodies + [body])[1..] == bodies[1..] + [body];
      StreamPush(bodies[1..], body);
    }
  }
}
