/** The capture file: a 24-byte header whose count is patched on close, then 88-byte records. */
module CaptureFormat {
  import opened Options
  import opened Words
  import opened Bytes
  import opened FeedEvents
  import Packets

  const MAGIC: nat := 0x5546_4153_5446_4545
  const VERSION: nat := 1
  const COUNT_OFFSET: nat := 16
  const HEADER_SIZE: nat := 24
  const RECORD_SIZE: nat := 88

  /** Field values fit the widths of the event structure. */
  predicate ValidEvent(ev: FeedEvent) {
    ev.injectNs < WORD && ev.receiveNs < WORD && ev.payloadLen < 65536 && |ev.payload| == MAX_PAYLOAD
  }

  /** What a record keeps of an event: the source address and the ports are not written. */
  function Project(ev: FeedEvent): (r: FeedEvent) {
    FeedEvent(ev.injectNs, ev.receiveNs, 0, 0, 0, ev.payloadLen, ev.payload)
  }

  function Record(ev: FeedEvent): (r: seq<byte>)
    requires ValidEvent(ev)
    ensures |r| == RECORD_SIZE
  {
    LeBytes(ev.injectNs, 8) + LeBytes(ev.receiveNs, 8) + LeBytes(ev.payloadLen, 2) + Zeros(6) + ev.payload
  }

  function Header(count: nat): (r: seq<byte>)
    ensures |r| == HEADER_SIZE
  {
    LeBytes(MAGIC, 8) + LeBytes(VERSION, 4) + LeBytes(0, 4) + LeBytes(count, 8)
  }

  /** The event a record of 88 bytes stands for. */
  function Decode(bs: seq<byte>): (r: FeedEvent)
    requires |bs| == RECORD_SIZE
  {
    FeedEvent(LittleEndian(bs[..8]), LittleEndian(bs[8..16]), 0, 0, 0, LittleEndian(bs[16..18]), bs[24..])
  }

  lemma Widths()
    ensures Pow256(8) == WORD && Pow256(4) == 0x1_0000_0000 && Pow256(2) == 65536
  {
    assert Pow256(2) == 65536;
    assert Pow256(4) == 256 * 256 * Pow256(2);
    assert Pow256(6) == 256 * 256 * Pow256(4);
    assert Pow256(8) == 256 * 256 * Pow256(6);
  }

  /** Where a record keeps each field. */
  lemma FieldsOfRecord(ev: FeedEvent)
    requires ValidEvent(ev)
    ensures var r := Record(ev);
            && r[0..8] == LeBytes(ev.injectNs, 8) && r[8..16] == LeBytes(ev.receiveNs, 8)
            && r[16..18] == LeBytes(ev.payloadLen, 2) && r[18..24] == Zeros(6) && r[24..88] == ev.payload
  {
    FivePieces(LeBytes(ev.injectNs, 8), LeBytes(ev.receiveNs, 8), LeBytes(ev.payloadLen, 2), Zeros(6), ev.payload);
  }

  lemma FivePieces(a: seq<byte>, b: seq<byte>, c: seq<byte>, d: seq<byte>, e: seq<byte>)
    requires |a| == 8 && |b| == 8 && |c| == 2 && |d| == 6 && |e| == 64
    ensures var r := a + b + c + d + e;
            |r| == 88 && r[0..8] == a && r[8..16] == b && r[16..18] == c && r[18..24] == d && r[24..88] == e
  {
  }

  /** Decoding a record gives back everything a record keeps. */
  lemma DecodeRecord(ev: FeedEvent)
    requires ValidEvent(ev)
    ensures Decode(Record(ev)) == Project(ev)
  {
    Widths();
    LeRoundTrip(ev.injectNs, 8);
    LeRoundTrip(ev.receiveNs, 8);
    LeRoundTrip(ev.payloadLen, 2);
    FieldsOfRecord(ev);
    assert Record(ev)[..8] == Record(ev)[0..8] && Record(ev)[24..] == Record(ev)[24..88];
  }

  /** Every event the receive loop builds can be captured. */
  lemma LoopEventsAreValid(p: Packets.Packet, ts: nat)
    requires ts < WORD && FeedEvents.Parsable(p) && EventOf(p, ts).Some?
    ensures ValidEvent(EventOf(p, ts).value)
  {
    Widths();
  }

  // ----- Files -----

  /** Write at a position, filling a gap past the end with zeros. */
  function Overwrite(bytes: seq<byte>, pos: nat, data: seq<byte>): (r: seq<byte>) {
    if data == [] then bytes
    else if pos > |bytes| then bytes + Zeros(pos - |bytes|) + data
    else bytes[..pos] + data + if pos + |data| < |bytes| then bytes[pos + |data|..] else []
  }

  predicate AllValid(evs: seq<FeedEvent>) {
    forall i :: 0 <= i < |evs| ==> ValidEvent(evs[i])
  }

  /** Pieces of a file, one after the other. */
  function Flat(parts: seq<seq<byte>>): (r: seq<byte>) {
    if parts == [] then [] else Flat(parts[..|parts| - 1]) + parts[|parts| - 1]
  }

  predicate RecordSized(parts: seq<seq<byte>>) {
    forall i :: 0 <= i < |parts| ==> |parts[i]| == RECORD_SIZE
  }

  lemma {:induction false} FlatSize(parts: seq<seq<byte>>)
    requires RecordSized(parts)
    ensures |Flat(parts)| == RECORD_SIZE * |parts|
  {
    if parts != [] {
      FlatSize(parts[..|parts| - 1]);
    }
  }

  lemma {:induction false} FlatAt(parts: seq<seq<byte>>, j: nat)
    requires RecordSized(parts) && j < |parts|
    ensures |Flat(parts)| == RECORD_SIZE * |parts|
    ensures Flat(parts)[RECORD_SIZE * j..RECORD_SIZE * (j + 1)] == parts[j]
  {
    var front, last := parts[..|parts| - 1], parts[|parts| - 1];
    FlatSize(front);
    if j < |parts| - 1 {
      FlatAt(front, j);
      SliceLeft(Flat(front), last, RECORD_SIZE * j, RECORD_SIZE * (j + 1));
    } else {
      SliceRight(Flat(front), last);
    }
  }

  /** The records of a list of events. */
  function RecordList(evs: seq<FeedEvent>): (r: seq<seq<byte>>)
    requires AllValid(evs)
    ensures |r| == |evs| && RecordSized(r)
    ensures forall i :: 0 <= i < |evs| ==> r[i] == Record(evs[i])
  {
    seq(|evs|, i requires 0 <= i < |evs| => Record(evs[i]))
  }

  function Records(evs: seq<FeedEvent>): (r: seq<byte>)
    requires AllValid(evs)
    ensures |r| == RECORD_SIZE * |evs|
  {
    FlatSize(RecordList(evs));
    Flat(RecordList(evs))
  }

  function Projects(evs: seq<FeedEvent>): (r: seq<FeedEvent>)
    ensures |r| == |evs|
  {
    seq(|evs|, i requires 0 <= i < |evs| => Project(evs[i]))
  }

  lemma SliceLeft(a: seq<byte>, b: seq<byte>, lo: nat, hi: nat)
    requires lo <= hi <= |a|
    ensures (a + b)[lo..hi] == a[lo..hi]
  {
  }

  lemma SliceRight(a: seq<byte>, b: seq<byte>)
    ensures (a + b)[|a|..|a| + |b|] == b
  {
  }

  /** Patching the count changes the header's count and no byte after it. */
  lemma PatchKeepsBody(before: nat, body: seq<byte>, count: nat)
    ensures Overwrite(Header(before) + body, COUNT_OFFSET, LeBytes(count, 8)) == Header(count) + body
  {
    var b := Header(before) + body;
    assert b[..16] == Header(count)[..16];
    assert b[24..] == body;
    assert Header(count) == Header(count)[..16] + LeBytes(count, 8);
  }

  // ----- Opening -----

  /** What open() finds: the declared count, if the header is complete and matches. */
  function Opened(bytes: seq<byte>): (r: Option<nat>) {
    if |bytes| < HEADER_SIZE then None
    else if LittleEndian(bytes[..8]) != MAGIC || LittleEndian(bytes[8..12]) != VERSION then None
    else Some(LittleEndian(bytes[16..24]))
  }

  lemma OpenedHeader(count: nat, body: seq<byte>)
    requires count < WORD
    ensures Opened(Header(count) + body) == Some(count)
  {
    Widths();
    LeRoundTrip(MAGIC, 8);
    LeRoundTrip(VERSION, 4);
    LeRoundTrip(count, 8);
    HeaderPieces(LeBytes(MAGIC, 8), LeBytes(VERSION, 4), LeBytes(0, 4), LeBytes(count, 8), body);
  }

  lemma HeaderPieces(a: seq<byte>, b: seq<byte>, c: seq<byte>, d: seq<byte>, body: seq<byte>)
    requires |a| == 8 && |b| == 4 && |c| == 4 && |d| == 8
    ensures var r := a + b + c + d + body; |r| >= 24 && r[..8] == a && r[8..12] == b && r[16..24] == d
  {
  }

  // ----- Reading -----

  /** The reader's place: the file position and the number of events read. */
  datatype Cursor = Cursor(pos: nat, count: nat)

  const FIRST: Cursor := Cursor(HEADER_SIZE, 0)

  /** One call of next(). A short read leaves the file position at the end. */
  function Next(bytes: seq<byte>, total: nat, at: Cursor): (r: (Option<FeedEvent>, Cursor)) {
    if at.count >= total then (None, at)
    else if at.pos + RECORD_SIZE <= |bytes| then
      (Some(Decode(bytes[at.pos..at.pos + RECORD_SIZE])), Cursor(at.pos + RECORD_SIZE, at.count + 1))
    else (None, at.(pos := if at.pos < |bytes| then |bytes| else at.pos))
  }

  /** next() until it returns nothing. */
  function ReadAll(bytes: seq<byte>, total: nat, at: Cursor): (r: seq<FeedEvent>)
    decreases if at.count < total then total - at.count else 0
  {
    var (ev, at') := Next(bytes, total, at);
    if ev.None? then [] else [ev.value] + ReadAll(bytes, total, at')
  }

  lemma ReadAllStep(bytes: seq<byte>, total: nat, at: Cursor, done: seq<FeedEvent>)
    ensures var (ev, at') := Next(bytes, total, at);
            done + ReadAll(bytes, total, at)
            == if ev.None? then done else done + [ev.value] + ReadAll(bytes, total, at')
  {
  }

  /** Once next() returned nothing it keeps returning nothing, and stays where it is. */
  lemma ExhaustedStays(bytes: seq<byte>, total: nat, at: Cursor)
    requires Next(bytes, total, at).0.None?
    ensures Next(bytes, total, Next(bytes, total, at).1) == (None, Next(bytes, total, at).1)
  {
  }

  /** How many records can be read: as declared, or as many as are complete. */
  function Readable(bytes: seq<byte>, total: nat): (r: nat)
    requires |bytes| >= HEADER_SIZE
  {
    Min(total, (|bytes| - HEADER_SIZE) / RECORD_SIZE)
  }

  /** The j-th record's slot of a file. */
  function Chunk(bytes: seq<byte>, j: nat): (r: seq<byte>)
    requires HEADER_SIZE + RECORD_SIZE * (j + 1) <= |bytes|
    ensures |r| == RECORD_SIZE
  {
    bytes[HEADER_SIZE + RECORD_SIZE * j..HEADER_SIZE + RECORD_SIZE * (j + 1)]
  }

  /** The events in the complete records of a file, as far as its count declares them. */
  function Chunks(bytes: seq<byte>, total: nat): (r: seq<FeedEvent>)
    requires |bytes| >= HEADER_SIZE
    ensures |r| == Readable(bytes, total)
  {
    seq(Readable(bytes, total), i requires 0 <= i < Readable(bytes, total) => Decode(Chunk(bytes, i)))
  }

  /** The reader's place before the j-th record. */
  function At(j: nat): (r: Cursor) {
    Cursor(HEADER_SIZE + RECORD_SIZE * j, j)
  }

  lemma NextChunk(bytes: seq<byte>, total: nat, j: nat)
    requires |bytes| >= HEADER_SIZE && j < Readable(bytes, total)
    ensures Next(bytes, total, At(j)) == (Some(Chunks(bytes, total)[j]), At(j + 1))
  {
  }

  lemma NoChunk(bytes: seq<byte>, total: nat)
    requires |bytes| >= HEADER_SIZE
    ensures Next(bytes, total, At(Readable(bytes, total))).0.None?
  {
  }

  /** Reading on from the j-th record gives all complete records from there. */
  lemma {:induction false} ReadsChunks(bytes: seq<byte>, total: nat, j: nat)
    requires |bytes| >= HEADER_SIZE && j <= Readable(bytes, total)
    ensures ReadAll(bytes, total, At(j)) == Chunks(bytes, total)[j..]
    decreases Readable(bytes, total) - j
  {
    if j == Readable(bytes, total) {
      NoChunk(bytes, total);
    } else {
      NextChunk(bytes, total, j);
      ReadsChunks(bytes, total, j + 1);
      ConsSlice(Chunks(bytes, total), j);
    }
  }

  lemma ConsSlice<T>(s: seq<T>, j: nat)
    requires j < |s|
    ensures s[j..] == [s[j]] + s[j + 1..]
  {
  }

  /** A capture of these events, followed by anything at all and then cut at any length past the
      header, reads back as exactly the events that are still complete. */
  lemma ReadBack(file: seq<byte>, evs: seq<FeedEvent>, junk: seq<byte>)
    requires AllValid(evs) && |evs| < WORD
    requires |file| >= HEADER_SIZE && file <= Header(|evs|) + (Records(evs) + junk)
    ensures Opened(file) == Some(|evs|)
    ensures ReadAll(file, |evs|, FIRST) == Projects(evs)[..Min(|evs|, (|file| - HEADER_SIZE) / RECORD_SIZE)]
  {
    var h := Header(|evs|);
    assert Opened(file) == Some(|evs|) by {
      assert file == h + file[HEADER_SIZE..];
      OpenedHeader(|evs|, file[HEADER_SIZE..]);
    }
    ReadBackAfter(file, h, evs, junk);
  }

  lemma ReadBackAfter(file: seq<byte>, header: seq<byte>, evs: seq<FeedEvent>, junk: seq<byte>)
    requires AllValid(evs) && |header| == HEADER_SIZE
    requires |file| >= HEADER_SIZE && file <= header + (Records(evs) + junk)
    ensures ReadAll(file, |evs|, FIRST) == Projects(evs)[..Min(|evs|, (|file| - HEADER_SIZE) / RECORD_SIZE)]
  {
    var m := Readable(file, |evs|);
    forall i | 0 <= i < m
      ensures Chunks(file, |evs|)[i] == Projects(evs)[i]
    {
      ChunkOfCapture(file, header, evs, junk, i);
      DecodeRecord(evs[i]);
    }
    ReadsChunks(file, |evs|, 0);
    assert Chunks(file, |evs|)[0..] == Projects(evs)[..m];
  }

  lemma ChunkOfCapture(file: seq<byte>, header: seq<byte>, evs: seq<FeedEvent>, junk: seq<byte>, i: nat)
    requires AllValid(evs) && |header| == HEADER_SIZE && i < |evs|
    requires file <= header + (Records(evs) + junk) && HEADER_SIZE + RECORD_SIZE * (i + 1) <= |file|
    ensures Chunk(file, i) == Record(evs[i])
  {
    var lo, hi := RECORD_SIZE * i, RECORD_SIZE * (i + 1);
    FlatAt(RecordList(evs), i);
    PrefixSlice(file, header, Records(evs), junk, lo, hi);
  }

  lemma PrefixSlice(file: seq<byte>, a: seq<byte>, b: seq<byte>, c: seq<byte>, lo: nat, hi: nat)
    requires file <= a + (b + c) && lo <= hi <= |b| && |a| + hi <= |file|
    ensures file[|a| + lo..|a| + hi] == b[lo..hi]
  {
  }
}
