/**
 Reading a bundle back: every chunk opened in its place, the last one as the last, and the records
 assembled as the plaintext arrives; then the files received checked against the manifest.
 */
module BundleImport {
  import opened Lists
  import opened Octets
  import opened Wrappers
  import opened BundleWire
  import opened BundleChunks

  datatype ImportError =
    | Source
    | Decrypt
    | Record(record: RecordReadError)
    | FileSetMismatch
    | FileHashMismatch(path: string)

  /** What the source yields: chunks, and then the end of the stream or a failure. */
  datatype Arrivals = Arrivals(chunks: seq<Bytes>, fails: bool)

  /** What chunks `i` on come to for a reader with `carry` left over. */
  function ImportedFrom<R>(open: Open, decode: Bytes -> Option<R>, from: Arrivals, i: nat, carry: Bytes)
      : (r: Result<seq<R>, ImportError>)
    requires i < |from.chunks|
    decreases |from.chunks| - i
  {
    var last := i + 1 == |from.chunks|;
    if last && from.fails then Err(Source) else
    match open(i, last, from.chunks[i])
    case None => Err(Decrypt)
    case Some(plain) =>
      var reading := Read(decode, carry + plain);
      if reading.error.Some? then Err(Record(reading.error.value))
      else if last then if reading.rest == [] then Ok(reading.records) else Err(Record(Truncated(|reading.rest|)))
      else
        match ImportedFrom(open, decode, from, i + 1, reading.rest)
        case Err(error) => Err(error)
        case Ok(records) => Ok(reading.records + records)
  }

  /** What all that arrives comes to; without a key nothing is opened, and no chunks at all are an empty bundle. */
  function Imported<R>(key: Option<Open>, decode: Bytes -> Option<R>, from: Arrivals): Result<seq<R>, ImportError> {
    match key
    case None => Err(Decrypt)
    case Some(open) =>
      if from.chunks != [] then ImportedFrom(open, decode, from, 0, [])
      else if from.fails then Err(Source) else Ok([])
  }

  /** Without a key nothing imports, whatever arrives. */
  lemma NoKeyNoImport<R>(decode: Bytes -> Option<R>, from: Arrivals)
    ensures Imported(None, decode, from) == Err(Decrypt)
  {
  }

  /** Opens each chunk once the one after it has arrived or the stream has ended. */
  method DecryptAllRecords<R>(key: Option<Open>, decode: Bytes -> Option<R>, from: Arrivals)
      returns (r: Result<seq<R>, ImportError>)
    ensures r == Imported(key, decode, from)
  {
    hide Read;
    if key.None? {
      return Err(Decrypt);
    }
    var open, chunks := key.value, from.chunks;
    var reader := new BundleRecordReader(decode);
    var records: seq<R> := [];
    if |chunks| == 0 {
      if from.fails {
        return Err(Source);
      }
      var done := reader.Finish();
      return Ok([]);
    }
    var current, next := chunks[0], 1;
    ghost var all := ImportedFrom(open, decode, from, 0, []);
    AfterNothing(all);
    while next < |chunks|
      invariant 1 <= next <= |chunks| && current == chunks[next - 1] && reader.decode == decode
      invariant all == After(records, ImportedFrom(open, decode, from, next - 1, reader.carry))
    {
      var upcoming := chunks[next];
      var plain := open(next - 1, false, current);
      if plain.None? {
        return Err(Decrypt);
      }
      var fed := reader.Feed(plain.value);
      if fed.Err? {
        return Err(Record(fed.error));
      }
      AfterTwice(records, fed.value, ImportedFrom(open, decode, from, next, reader.carry));
      records := records + fed.value;
      current, next := upcoming, next + 1;
    }
    if from.fails {
      return Err(Source);
    }
    var plain := open(next - 1, true, current);
    if plain.None? {
      return Err(Decrypt);
    }
    var fed := reader.Feed(plain.value);
    if fed.Err? {
      return Err(Record(fed.error));
    }
    records := records + fed.value;
    var done := reader.Finish();
    if done.Err? {
      return Err(Record(done.error));
    }
    return Ok(records);
  }

  /** Records already read, before what the rest comes to. */
  ghost function After<R>(records: seq<R>, later: Result<seq<R>, ImportError>): Result<seq<R>, ImportError> {
    match later
    case Err(error) => Err(error)
    case Ok(more) => Ok(records + more)
  }

  lemma AfterNothing<R>(later: Result<seq<R>, ImportError>)
    ensures After([], later) == later
  {
    if later.Ok? {
      assert [] + later.value == later.value;
    }
  }

  lemma AfterTwice<R>(first: seq<R>, second: seq<R>, later: Result<seq<R>, ImportError>)
    ensures After(first, After(second, later)) == After(first + second, later)
  {
    if later.Ok? {
      assert first + (second + later.value) == first + second + later.value;
    }
  }

  // ---- the round trip ----

  /** The cipher's law: a sealed chunk opens to what it sealed, and only in its own place. */
  ghost predicate Opens(seal: Seal, open: Open) {
    forall i: nat, last: bool, plain: Bytes, sealed: Bytes ::
      seal(i, last, plain) == Some(sealed) ==> open(i, last, sealed) == Some(plain)
  }

  ghost predicate OpensOnlyInPlace(seal: Seal, open: Open) {
    forall i: nat, last: bool, plain: Bytes, j: nat, asLast: bool, sealed: Bytes ::
      seal(i, last, plain) == Some(sealed) && open(j, asLast, sealed).Some? ==> j == i && asLast == last
  }

  /** The codec's law: what it encodes, it decodes. */
  ghost predicate Inverse<R(!new)>(encode: R -> Option<Bytes>, decode: Bytes -> Option<R>) {
    forall r: R :: encode(r).Some? ==> decode(encode(r).value) == Some(r)
  }

  /** What a finished reading comes to. */
  function Verdict<R>(reading: Reading<R>): Result<seq<R>, ImportError> {
    if reading.error.Some? then Err(Record(reading.error.value))
    else if reading.rest == [] then Ok(reading.records)
    else Err(Record(Truncated(|reading.rest|)))
  }

  /** Chunks that open to some pieces come to what the pieces read as. */
  lemma {:induction false} OpenedIsRead<R>(open: Open, decode: Bytes -> Option<R>, chunks: seq<Bytes>, pieces: seq<Bytes>,
                                          i: nat, carry: Bytes)
    requires |pieces| == |chunks| && i < |chunks|
    requires forall j :: 0 <= j < |chunks| ==> open(j, j + 1 == |chunks|, chunks[j]) == Some(pieces[j])
    ensures ImportedFrom(open, decode, Arrivals(chunks, false), i, carry)
         == Verdict(Read(decode, carry + Concat(pieces[i..])))
    decreases |chunks| - i
  {
    hide Read;
    assert pieces[i..][1..] == pieces[i + 1..];
    var first := Read(decode, carry + pieces[i]);
    assert carry + Concat(pieces[i..]) == carry + pieces[i] + Concat(pieces[i + 1..]);
    ReadInPieces(decode, carry + pieces[i], Concat(pieces[i + 1..]));
    if i + 1 < |chunks| {
      OpenedIsRead(open, decode, chunks, pieces, i + 1, first.rest);
    } else {
      assert Concat(pieces[i + 1..]) == [];
      assert carry + pieces[i] + [] == carry + pieces[i];
    }
  }

  /** Once the first chunks have opened, and what they open to reads, an import goes on with the next. */
  lemma {:induction false} OpenedSoFar<R>(open: Open, decode: Bytes -> Option<R>, from: Arrivals, pieces: seq<Bytes>)
    requires |pieces| < |from.chunks| && forall j :: 0 <= j < |pieces| ==> open(j, false, from.chunks[j]) == Some(pieces[j])
    requires Read(decode, Concat(pieces)).error.None?
    ensures var reading := Read(decode, Concat(pieces));
            ImportedFrom(open, decode, from, 0, []) ==
            After(reading.records, ImportedFrom(open, decode, from, |pieces|, reading.rest))
    decreases |pieces|
  {
    hide Read, ImportedFrom;
    if pieces == [] {
      NothingRead(decode);
      AfterNothing(ImportedFrom(open, decode, from, 0, []));
    } else {
      var init, last := pieces[..|pieces| - 1], pieces[|pieces| - 1];
      ConcatPush(init, last);
      assert pieces == init + [last];
      ReadInPieces(decode, Concat(init), last);
      OpenedSoFar(open, decode, from, init);
      var was := Read(decode, Concat(init));
      var next := Read(decode, was.rest + last);
      OpensOne(open, decode, from, |init|, was.rest, last);
      AfterTwice(was.records, next.records, ImportedFrom(open, decode, from, |pieces|, next.rest));
    }
  }

  lemma NothingRead<R>(decode: Bytes -> Option<R>)
    ensures Read(decode, Concat([])) == Reading([], [], None)
  {
    ReadUnfolds(decode, []);
  }

  lemma {:induction false} ConcatPush(pieces: seq<Bytes>, last: Bytes)
    ensures Concat(pieces + [last]) == Concat(pieces) + last
  {
    if pieces == [] {
      assert [last][1..] == [] && [] + [last] == [last] && last + [] == last;
    } else {
      assert (pieces + [last])[1..] == pieces[1..] + [last];
      ConcatPush(pieces[1..], last);
      assert pieces[0] + (Concat(pieces[1..]) + last) == pieces[0] + Concat(pieces[1..]) + last;
    }
  }

  lemma OpensOne<R>(open: Open, decode: Bytes -> Option<R>, from: Arrivals, i: nat, carry: Bytes, plain: Bytes)
    requires i + 1 < |from.chunks| && open(i, false, from.chunks[i]) == Some(plain) && Read(decode, carry + plain).error.None?
    ensures var reading := Read(decode, carry + plain);
            ImportedFrom(open, decode, from, i, carry) == After(reading.records, ImportedFrom(open, decode, from, i + 1, reading.rest))
  {
    hide Read;
  }

  /** What an import comes to, by the first of its chunks that does not go through. */
  lemma ImportStops<R>(open: Open, decode: Bytes -> Option<R>, from: Arrivals, pieces: seq<Bytes>)
    requires |pieces| < |from.chunks| && forall j :: 0 <= j < |pieces| ==> open(j, false, from.chunks[j]) == Some(pieces[j])
    requires Read(decode, Concat(pieces)).error.None?
    ensures var r, last := Imported(Some(open), decode, from), |pieces| + 1 == |from.chunks|;
            var plain := open(|pieces|, last, from.chunks[|pieces|]);
            if last && from.fails then r == Err(Source)
            else if plain.None? then r == Err(Decrypt)
            else
              var all := Read(decode, Concat(pieces) + plain.value);
              && (all.error.Some? ==> r == Err(Record(all.error.value)))
              && (all.error.None? && last ==> r == if all.rest == [] then Ok(all.records) else Err(Record(Truncated(|all.rest|))))
  {
    hide Read;
    OpenedSoFar(open, decode, from, pieces);
    var was := Read(decode, Concat(pieces));
    var plain := open(|pieces|, |pieces| + 1 == |from.chunks|, from.chunks[|pieces|]);
    if plain.Some? {
      ReadInPieces(decode, Concat(pieces), plain.value);
    }
  }

  lemma BodiesDecode<R(!new)>(encode: R -> Option<Bytes>, decode: Bytes -> Option<R>, records: seq<R>)
    requires Inverse(encode, decode) && Encoded(encode, records).Some?
    ensures Decodes(decode, Encoded(encode, records).value, records)
  {
    hide Encoded;
  }

  /**
   A bundle comes back as the exact records written, if and only if none of them is over the cap; the
   first that is over it is what the import reports.
   */
  lemma ExportThenImport<R(!new)>(seal: Seal, open: Open, encode: R -> Option<Bytes>, decode: Bytes -> Option<R>,
                                  records: seq<R>, chunks: seq<Bytes>)
    requires Opens(seal, open) && Inverse(encode, decode) && Encoded(encode, records).Some?
    requires SealsStream(seal, Stream(Encoded(encode, records).value), chunks)
    ensures var bodies, imported := Encoded(encode, records).value, Imported(Some(open), decode, Arrivals(chunks, false));
            && (imported == Ok(records) <==> AllFit(bodies))
            && (!AllFit(bodies) ==> imported == Err(Record(TooLarge(Claimed(bodies[FirstOversized(bodies)])))))
  {
    hide Read, Stream, FullChunks, LastChunk, Concat, AllFit, Inverse, Encoded, Decodes;
    BodiesDecode(encode, decode, records);
    var bodies := Encoded(encode, records).value;
    var stream := Stream(bodies);
    var pieces := Pieces(stream);
    forall j: nat | j < |chunks| ensures open(j, j + 1 == |chunks|, chunks[j]) == Some(pieces[j]) {
      assert seal(j, j + 1 == |chunks|, pieces[j]) == Some(chunks[j]);
    }
    OpenedIsRead(open, decode, chunks, pieces, 0, []);
    PiecesMakeStream(stream);
    assert pieces[0..] == pieces && [] + Concat(pieces) == stream;
    StreamReadsBack(decode, bodies, records);
    assert records[..|records|] == records;
  }

  // ---- only the whole bundle ----

  /** Chunks that import opened each in its place, the last one as the last. */
  lemma {:induction false} ImportedOpened<R>(open: Open, decode: Bytes -> Option<R>, from: Arrivals, i: nat, carry: Bytes, j: nat)
    requires i <= j < |from.chunks| && ImportedFrom(open, decode, from, i, carry).Ok?
    ensures open(j, j + 1 == |from.chunks|, from.chunks[j]).Some? && !from.fails
    decreases |from.chunks| - i
  {
    hide Read;
    if i + 1 < |from.chunks| {
      var carry' := Read(decode, carry + open(i, false, from.chunks[i]).value).rest;
      if i < j {
        ImportedOpened(open, decode, from, i + 1, carry', j);
      } else {
        ImportedOpened(open, decode, from, i + 1, carry', i + 1);
      }
    }
  }

  /** Chunks of a bundle that import are either none at all or all of them, once each, in their order. */
  lemma NoneOrAllChunks<R>(seal: Seal, open: Open, decode: Bytes -> Option<R>, stream: Bytes, chunks: seq<Bytes>, from: Arrivals)
    requires OpensOnlyInPlace(seal, open) && SealsStream(seal, stream, chunks)
    requires forall j :: 0 <= j < |from.chunks| ==> from.chunks[j] in chunks
    requires Imported(Some(open), decode, from).Ok?
    ensures !from.fails && (from.chunks == [] || from.chunks == chunks)
  {
    hide FullChunks, LastChunk, Read;
    var delivered := from.chunks;
    forall j: nat | j < |delivered|
      ensures j < |chunks| && delivered[j] == chunks[j] && (j + 1 == |delivered| <==> j + 1 == |chunks|) && !from.fails
    {
      ImportedOpened(open, decode, from, 0, [], j);
      var k :| 0 <= k < |chunks| && chunks[k] == delivered[j];
      assert seal(k, k + 1 == |chunks|, Pieces(stream)[k]) == Some(chunks[k]);
    }
    if delivered != [] {
      assert delivered[|delivered| - 1] in chunks;
    }
  }

  /**
   Of a bundle's own chunks, however they are delivered, an import accepts none at all, which reads as an
   empty bundle, or the whole bundle with no record over the cap; nothing short, repeated or out of order.
   */
  lemma OnlyTheWholeBundle<R(!new)>(seal: Seal, open: Open, encode: R -> Option<Bytes>, decode: Bytes -> Option<R>,
                                    records: seq<R>, chunks: seq<Bytes>, from: Arrivals)
    requires Opens(seal, open) && OpensOnlyInPlace(seal, open) && Inverse(encode, decode) && Encoded(encode, records).Some?
    requires SealsStream(seal, Stream(Encoded(encode, records).value), chunks)
    requires forall j :: 0 <= j < |from.chunks| ==> from.chunks[j] in chunks
    ensures Imported(Some(open), decode, from).Ok?
       <==> !from.fails && (from.chunks == [] || (from.chunks == chunks && AllFit(Encoded(encode, records).value)))
    ensures from == Arrivals([], false) ==> Imported(Some(open), decode, from) == Ok([])
  {
    hide FullChunks, LastChunk, Read, Stream, Inverse, Encoded, AllFit, ImportedFrom, OpensOnlyInPlace, Opens, SealsStream;
    ExportThenImport(seal, open, encode, decode, records, chunks);
    if Imported(Some(open), decode, from).Ok? {
      NoneOrAllChunks(seal, open, decode, Stream(Encoded(encode, records).value), chunks, from);
    }
  }

  // ---- the files received ----

  /** A file the manifest lists, by its path and the hash of its bytes. */
  datatype FileHash = FileHash(path: string, digest: Bytes)

  /** A file received. */
  datatype Blob = Blob(path: string, bytes: Bytes)

  /** The manifest as a map; a path listed twice keeps its last hash. */
  function Wanted(files: seq<FileHash>): (r: map<string, Bytes>)
    ensures r.Keys == Elements(Paths(files))
    ensures forall path :: path in r ==> FileHash(path, r[path]) in files
  {
    if files == [] then map[] else
    var init, last := files[..|files| - 1], files[|files| - 1];
    assert files == init + [last] && Paths(files) == Paths(init) + [last.path];
    Wanted(init)[last.path := last.digest]
  }

  function Paths(files: seq<FileHash>): (r: seq<string>)
    ensures |r| == |files| && forall i :: 0 <= i < |r| ==> r[i] == files[i].path
  {
    seq(|files|, i requires 0 <= i < |files| => files[i].path)
  }

  function Received(blobs: seq<Blob>): (r: seq<string>)
    ensures |r| == |blobs| && forall k :: 0 <= k < |r| ==> r[k] == blobs[k].path
  {
    seq(|blobs|, k requires 0 <= k < |blobs| => blobs[k].path)
  }

  /** The files received are the manifest's, each with the bytes it claimed, in whatever order. */
  ghost predicate SameFiles(hash: Bytes -> Bytes, files: seq<FileHash>, blobs: seq<Blob>) {
    && |files| == |blobs| && Distinct(Received(blobs))
    && forall k :: 0 <= k < |blobs| ==> FileHash(blobs[k].path, hash(blobs[k].bytes)) in files
  }

  lemma SameFilesCount(hash: Bytes -> Bytes, files: seq<FileHash>, blobs: seq<Blob>)
    ensures SameFiles(hash, files, blobs) ==> |files| == |blobs|
  {
  }

  /** Received files that are all listed, as many as are listed, are all that is listed. */
  lemma ListedOnce(hash: Bytes -> Bytes, files: seq<FileHash>, blobs: seq<Blob>)
    requires SameFiles(hash, files, blobs)
    ensures Distinct(Paths(files)) && Elements(Paths(files)) == Elements(Received(blobs))
  {
    DistinctCount(Paths(files));
    DistinctCount(Received(blobs));
    forall path | path in Elements(Received(blobs)) ensures path in Elements(Paths(files)) {
      var k :| 0 <= k < |blobs| && Received(blobs)[k] == path;
      var i :| 0 <= i < |files| && files[i] == FileHash(path, hash(blobs[k].bytes));
      assert Paths(files)[i] == path;
    }
    SameSize(Elements(Received(blobs)), Elements(Paths(files)));
  }

  /** With no path listed twice, each is wanted with its own hash. */
  lemma WantedAsListed(files: seq<FileHash>, file: FileHash)
    requires Distinct(Paths(files)) && file in files
    ensures file.path in Wanted(files) && Wanted(files)[file.path] == file.digest
  {
    hide Wanted;
    var i :| 0 <= i < |files| && files[i] == file;
    assert Paths(files)[i] == file.path;
    var j :| 0 <= j < |files| && files[j] == FileHash(file.path, Wanted(files)[file.path]);
    assert Paths(files)[j] == file.path;
  }

  /** The first `k` files received were wanted, each once and with its hash. */
  ghost predicate AllGood(hash: Bytes -> Bytes, files: seq<FileHash>, blobs: seq<Blob>, k: nat)
    requires k <= |blobs|
  {
    && (forall i, j :: 0 <= i < j < k ==> Received(blobs)[i] != Received(blobs)[j])
    && forall j :: 0 <= j < k ==> blobs[j].path in Wanted(files) && Wanted(files)[blobs[j].path] == hash(blobs[j].bytes)
  }

  lemma WantedAtFirst(files: seq<FileHash>)
    ensures Wanted(files[..0]) == map[]
  {
  }

  lemma WantedOneMore(files: seq<FileHash>, i: nat)
    requires i < |files|
    ensures Wanted(files[..i + 1]) == Wanted(files[..i])[files[i].path := files[i].digest]
  {
    assert files[..i + 1][..i] == files[..i];
  }

  lemma OneMoreReceived(blobs: seq<Blob>, k: nat)
    requires k < |blobs|
    ensures Elements(Received(blobs)[..k + 1]) == Elements(Received(blobs)[..k]) + {blobs[k].path}
  {
  }

  lemma NoneYet(hash: Bytes -> Bytes, files: seq<FileHash>, blobs: seq<Blob>)
    ensures AllGood(hash, files, blobs, 0) && Elements(Received(blobs)[..0]) == {}
  {
  }

  /** A file not wanted any more, or wanted with another hash, is a difference. */
  lemma GoodOrNot(hash: Bytes -> Bytes, files: seq<FileHash>, blobs: seq<Blob>, k: nat)
    requires k < |blobs| && AllGood(hash, files, blobs, k)
    ensures var blob, want := blobs[k], Wanted(files) - Elements(Received(blobs)[..k]);
            && (blob.path in want && want[blob.path] == hash(blob.bytes) ==> AllGood(hash, files, blobs, k + 1))
            && (blob.path !in want || want[blob.path] != hash(blob.bytes) ==> !SameFiles(hash, files, blobs))
  {
    hide Wanted;
    var blob := blobs[k];
    assert Received(blobs)[k] == blob.path;
    forall j | 0 <= j < k ensures Received(blobs)[j] in Elements(Received(blobs)[..k]) {
      assert Received(blobs)[..k][j] == Received(blobs)[j];
    }
    if SameFiles(hash, files, blobs) {
      ListedOnce(hash, files, blobs);
      WantedAsListed(files, FileHash(blob.path, hash(blob.bytes)));
      assert blob.path !in Received(blobs)[..k];
    }
  }

  lemma AllGoodIsSame(hash: Bytes -> Bytes, files: seq<FileHash>, blobs: seq<Blob>)
    requires |files| == |blobs| && AllGood(hash, files, blobs, |blobs|)
    ensures SameFiles(hash, files, blobs) && Wanted(files) - Elements(Received(blobs)) == map[]
  {
    hide Wanted;
    ListedOnce(hash, files, blobs);
  }

  /** File `k` is the first that is wrong: not listed or here before, or with another hash than is listed. */
  ghost predicate FirstWrong(hash: Bytes -> Bytes, files: seq<FileHash>, blobs: seq<Blob>, k: nat, error: ImportError)
    requires k < |blobs|
  {
    var blob := blobs[k];
    && AllGood(hash, files, blobs, k)
    && if blob.path !in Wanted(files) || blob.path in Received(blobs)[..k] then error == FileSetMismatch
       else Wanted(files)[blob.path] != hash(blob.bytes) && error == FileHashMismatch(blob.path)
  }

  lemma WrongAt(hash: Bytes -> Bytes, files: seq<FileHash>, blobs: seq<Blob>, k: nat)
    requires k < |blobs| && AllGood(hash, files, blobs, k)
    ensures var blob, want := blobs[k], Wanted(files) - Elements(Received(blobs)[..k]);
            && (blob.path !in want ==> FirstWrong(hash, files, blobs, k, FileSetMismatch))
            && (blob.path in want && want[blob.path] != hash(blob.bytes) ==> FirstWrong(hash, files, blobs, k, FileHashMismatch(blob.path)))
  {
    hide Wanted, Received, AllGood;
  }

  /**
   The files received must be exactly the manifest's, each hashing to what it claimed; the first that is wrong, if
   as many are received as are listed, is what is reported.
   */
  method VerifyFileSet(hash: Bytes -> Bytes, files: seq<FileHash>, blobs: seq<Blob>) returns (r: Result<(), ImportError>)
    ensures r.Ok? <==> SameFiles(hash, files, blobs)
    ensures r.Err? && |files| != |blobs| ==> r.error == FileSetMismatch
    ensures r.Err? && |files| == |blobs| ==> exists k :: 0 <= k < |blobs| && FirstWrong(hash, files, blobs, k, r.error)
  {
    hide SameFiles, AllGood, Received, Wanted, Elements, FirstWrong;
    WantedAtFirst(files);
    if |files| != |blobs| {
      SameFilesCount(hash, files, blobs);
      return Err(FileSetMismatch);
    }
    var want := map[];
    for i := 0 to |files|
      invariant want == Wanted(files[..i])
    {
      WantedOneMore(files, i);
      want := want[files[i].path := files[i].digest];
    }
    assert files[..|files|] == files;
    NoneYet(hash, files, blobs);
    for k := 0 to |blobs|
      invariant AllGood(hash, files, blobs, k)
      invariant want == Wanted(files) - Elements(Received(blobs)[..k])
    {
      var blob := blobs[k];
      GoodOrNot(hash, files, blobs, k);
      WrongAt(hash, files, blobs, k);
      if blob.path !in want {
        return Err(FileSetMismatch);
      }
      if hash(blob.bytes) != want[blob.path] {
        return Err(FileHashMismatch(blob.path));
      }
      OneMoreReceived(blobs, k);
      want := want - {blob.path};
    }
    assert Received(blobs)[..|blobs|] == Received(blobs);
    AllGoodIsSame(hash, files, blobs);
    return if want == map[] then Ok(()) else Err(FileSetMismatch);
  }
}
