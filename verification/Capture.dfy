/** The capture writer and reader, working on a file through a position. `accepted` and `io` say
    how many bytes of each fwrite reach the file; fewer than asked is an I/O error. */
module Capture {
  import opened Options
  import opened Words
  import opened Bytes
  import opened FeedEvents
  import opened CaptureFormat
  import opened CaptureRuns
  import opened Replay

  class File {
    var bytes: seq<byte>
    var pos: nat

    constructor ()
      ensures bytes == [] && pos == 0
    {
      bytes, pos := [], 0;
    }

    method Write(data: seq<byte>, accepted: nat) returns (ok: bool)
      modifies this
      ensures ok <==> accepted >= |data|
      ensures bytes == Overwrite(old(bytes), old(pos), data[..Min(accepted, |data|)])
      ensures pos == old(pos) + Min(accepted, |data|)
    {
      var k := Min(accepted, |data|);
      bytes := Overwrite(bytes, pos, data[..k]);
      pos := pos + k;
      ok := k == |data|;
    }

    /** Write at the end of the file. */
    method Append(data: seq<byte>, accepted: nat) returns (ok: bool)
      requires pos == |bytes|
      modifies this
      ensures ok <==> accepted >= |data|
      ensures bytes == old(bytes) + data[..Min(accepted, |data|)] && pos == |bytes|
    {
      ok := Write(data, accepted);
    }

    /** Write one field of a record of which the first `off` bytes are already in the file. */
    method AppendField(data: seq<byte>, accepted: nat, ghost was: seq<byte>, ghost rec: seq<byte>, ghost off: nat)
      returns (ok: bool)
      requires pos == |bytes| && off + |data| <= |rec| && rec[off..off + |data|] == data && bytes == was + rec[..off]
      modifies this
      ensures ok <==> accepted >= |data|
      ensures bytes == was + rec[..off + Min(accepted, |data|)] && pos == |bytes|
    {
      ok := Append(data, accepted);
      ghost var k := Min(accepted, |data|);
      assert rec[..off + k] == rec[..off] + data[..k];
    }

    /** All of n bytes, or none; a short read leaves the position at the end. */
    method Read(n: nat) returns (ok: bool, data: seq<byte>)
      modifies this`pos
      ensures ok <==> old(pos) + n <= |bytes|
      ensures ok ==> data == bytes[old(pos)..old(pos) + n] && pos == old(pos) + n
      ensures !ok ==> data == [] && pos == if old(pos) < |bytes| then |bytes| else old(pos)
    {
      if pos + n <= |bytes| {
        ok, data := true, bytes[pos..pos + n];
        pos := pos + n;
      } else {
        ok, data := false, [];
        if pos < |bytes| {
          pos := |bytes|;
        }
      }
    }

    method Seek(to: nat)
      modifies this`pos
      ensures pos == to
    {
      pos := to;
    }
  }

  /** How much of a record reaches the file when its five fields are written in turn and the
      first short write ends the attempt. */
  function Taken(io: seq<nat>): (r: nat)
    requires |io| == 5
    ensures r <= RECORD_SIZE
  {
    if io[0] < 8 then io[0]
    else if io[1] < 8 then 8 + io[1]
    else if io[2] < 2 then 16 + io[2]
    else if io[3] < 6 then 18 + io[3]
    else if io[4] < 64 then 24 + io[4]
    else RECORD_SIZE
  }

  /** How much of the header reaches the file when its four fields are written in turn. */
  function HeaderTaken(io: seq<nat>): (r: seq<byte>)
    requires |io| == 4
  {
    LeBytes(MAGIC, 8)[..Min(io[0], 8)] + LeBytes(VERSION, 4)[..Min(io[1], 4)]
    + LeBytes(0, 4)[..Min(io[2], 4)] + LeBytes(0, 8)[..Min(io[3], 8)]
  }

  lemma WholeHeader(io: seq<nat>)
    requires |io| == 4 && io[0] >= 8 && io[1] >= 4 && io[2] >= 4 && io[3] >= 8
    ensures HeaderTaken(io) == Header(0)
  {
    Whole4(LeBytes(MAGIC, 8), LeBytes(VERSION, 4), LeBytes(0, 4), LeBytes(0, 8));
  }

  lemma Whole4(a: seq<byte>, b: seq<byte>, c: seq<byte>, d: seq<byte>)
    ensures a[..|a|] + b[..|b|] + c[..|c|] + d[..|d|] == a + b + c + d
  {
  }

  class PcapWriter {
    var file: File?
    var count: nat

    /** The position is at the end of the file, where the next record goes. */
    ghost predicate AtEnd()
      reads this, file
    {
      file != null ==> file.pos == |file.bytes|
    }

    /** Open for writing on what fopen returned, and write a header that counts no events; nothing
        checks whether all of it was written. */
    constructor (f: File?, io: seq<nat>)
      requires |io| == 4 && (f != null ==> f.bytes == [] && f.pos == 0)
      modifies f
      ensures file == f && count == 0 && AtEnd()
      ensures f != null ==> f.bytes == HeaderTaken(io)
    {
      file, count := f, 0;
      new;
      if f != null {
        var _ := f.Append(LeBytes(MAGIC, 8), io[0]);
        var _ := f.Append(LeBytes(VERSION, 4), io[1]);
        var _ := f.Append(LeBytes(0, 4), io[2]);
        var _ := f.Append(LeBytes(0, 8), io[3]);
        assert [] + LeBytes(MAGIC, 8)[..Min(io[0], 8)] == LeBytes(MAGIC, 8)[..Min(io[0], 8)];
      }
    }

    /** Append a record field by field; stop and report failure at the first short write. */
    method WriteEvent(ev: FeedEvent, io: seq<nat>) returns (ok: bool)
      requires |io| == 5 && ValidEvent(ev) && AtEnd()
      modifies this`count, file
      ensures AtEnd() && file == old(file)
      ensures ok <==> file != null && Taken(io) == RECORD_SIZE
      ensures file != null ==> file.bytes == old(file.bytes) + Record(ev)[..Taken(io)]
      ensures count == if ok then Wrap(old(count) + 1) else old(count)
    {
      if file == null {
        return false;
      }
      ghost var was, rec := file.bytes, Record(ev);
      FieldsOfRecord(ev);
      ok := file.AppendField(LeBytes(ev.injectNs, 8), io[0], was, rec, 0);
      if !ok { return; }
      ok := file.AppendField(LeBytes(ev.receiveNs, 8), io[1], was, rec, 8);
      if !ok { return; }
      ok := file.AppendField(LeBytes(ev.payloadLen, 2), io[2], was, rec, 16);
      if !ok { return; }
      ok := file.AppendField(Zeros(6), io[3], was, rec, 18);
      if !ok { return; }
      ok := file.AppendField(ev.payload, io[4], was, rec, 24);
      if !ok { return; }
      count := Wrap(count + 1);
    }

    /** Patch the count and let go of the file; a second call does nothing. */
    method Close(io: nat)
      modifies this`file, file
      ensures file == null
      ensures old(file) != null ==>
                old(file).bytes == Overwrite(old(file.bytes), COUNT_OFFSET, LeBytes(count, 8)[..Min(io, 8)])
      ensures old(file) != null && io >= 8 ==>
                old(file).bytes == Overwrite(old(file.bytes), COUNT_OFFSET, LeBytes(count, 8))
    {
      if file == null {
        return;
      }
      assert LeBytes(count, 8)[..8] == LeBytes(count, 8);
      file.Seek(COUNT_OFFSET);
      var _ := file.Write(LeBytes(count, 8), io);
      file := null;
    }
  }

  class PcapReader {
    var file: File?
    var totalEvents: nat
    var eventsRead: nat

    constructor ()
      ensures file == null && totalEvents == 0 && eventsRead == 0
    {
      file, totalEvents, eventsRead := null, 0, 0;
    }

    method Close()
      modifies this
      ensures file == null && totalEvents == 0 && eventsRead == 0
    {
      file, totalEvents, eventsRead := null, 0, 0;
    }

    /** Open what fopen returned: succeed exactly on a complete header with the right magic and
        version, and stand at the first record. */
    method Open(f: File?) returns (ok: bool)
      requires f != null ==> f.pos == 0
      modifies this, if f == null then {} else {f}
      ensures f != null ==> f.bytes == old(f.bytes)
      ensures ok <==> f != null && Opened(f.bytes).Some?
      ensures ok ==> file == f && Some(totalEvents) == Opened(f.bytes) && Cursor(f.pos, eventsRead) == FIRST
      ensures !ok ==> file == null
    {
      file := f;
      if f == null {
        return false;
      }
      var magic, version, pad, count;
      ok, magic := f.Read(8);
      if ok { ok, version := f.Read(4); }
      if ok { ok, pad := f.Read(4); }
      if ok { ok, count := f.Read(8); }
      if !ok {
        Close();
        return;
      }
      if LittleEndian(magic) != MAGIC || LittleEndian(version) != VERSION {
        Close();
        return false;
      }
      totalEvents, eventsRead := LittleEndian(count), 0;
    }

    /** The next event, or nothing when the file is exhausted or not open. */
    method Next() returns (ev: Option<FeedEvent>)
      modifies `eventsRead, if file == null then {} else {file}
      ensures file == null ==> ev.None? && eventsRead == old(eventsRead)
      ensures file != null ==>
                && file.bytes == old(file.bytes)
                && (ev, Cursor(file.pos, eventsRead))
                   == CaptureFormat.Next(file.bytes, totalEvents, Cursor(old(file.pos), old(eventsRead)))
    {
      if file == null || eventsRead >= totalEvents {
        return None;
      }
      var inject, receive, plen, pad, payload;
      var ok;
      ok, inject := file.Read(8);
      if ok { ok, receive := file.Read(8); }
      if ok { ok, plen := file.Read(2); }
      if ok { ok, pad := file.Read(6); }
      if ok { ok, payload := file.Read(MAX_PAYLOAD); }
      if !ok {
        return None;
      }
      eventsRead := eventsRead + 1;
      ev := Some(FeedEvent(LittleEndian(inject), LittleEndian(receive), 0, 0, 0, LittleEndian(plen), payload));
      RecordFields(file.bytes, old(file.pos));
    }

    /** Back to the first record, from anywhere. */
    method Rewind() returns (ok: bool)
      modifies `eventsRead, if file == null then {} else {file}
      ensures ok <==> file != null
      ensures file != null ==> file.bytes == old(file.bytes) && Cursor(file.pos, eventsRead) == FIRST
    {
      if file == null {
        return false;
      }
      eventsRead := 0;
      file.Seek(COUNT_OFFSET + 8);
      ok := true;
    }

    /** The reading loop of every caller: all events from here to the end. */
    method Drain() returns (evs: seq<FeedEvent>)
      requires file != null
      modifies `eventsRead, file
      ensures file.bytes == old(file.bytes)
      ensures evs == ReadAll(file.bytes, totalEvents, Cursor(old(file.pos), old(eventsRead)))
      ensures CaptureFormat.Next(file.bytes, totalEvents, Cursor(file.pos, eventsRead)).0.None?
    {
      evs := [];
      ghost var all := ReadAll(file.bytes, totalEvents, Cursor(file.pos, eventsRead));
      while true
        invariant file.bytes == old(file.bytes)
        invariant all == evs + ReadAll(file.bytes, totalEvents, Cursor(file.pos, eventsRead))
        decreases if eventsRead < totalEvents then totalEvents - eventsRead else 0
      {
        ghost var at := Cursor(file.pos, eventsRead);
        ReadAllStep(file.bytes, totalEvents, at, evs);
        var ev := Next();
        if ev.None? {
          ExhaustedStays(file.bytes, totalEvents, at);
          return;
        }
        evs := evs + [ev.value];
      }
    }

    /** Rewind, then call back once for each readable event in file order with its target time, up
        to the first whose time is undefined, if there is one. The callback is represented by the
        list of its arguments; sleeping changes nothing here. */
    method ReplayAtRate(rate: real, rnd: real -> real, startNs: nat)
      returns (calls: seq<(FeedEvent, nat)>, complete: bool)
      modifies `eventsRead, if file == null then {} else {file}
      ensures file == null ==> calls == [] && complete
      ensures file != null ==>
                file.bytes == old(file.bytes)
                && Follows(calls, Schedule(ReadAll(file.bytes, totalEvents, FIRST), rate, rnd, startNs), complete)
    {
      calls, complete := [], true;
      if file == null || totalEvents == 0 {
        return;
      }
      var _ := Rewind();
      ghost var all := ReadAll(file.bytes, totalEvents, FIRST);
      ReadAllStep(file.bytes, totalEvents, FIRST, []);
      var first := Next();
      if first.None? {
        return;
      }
      var origin := first.value.injectNs;
      calls := [(first.value, startNs)];
      ghost var done := [first.value];
      while eventsRead < totalEvents
        invariant file != null && file.bytes == old(file.bytes)
        invariant all == done + ReadAll(file.bytes, totalEvents, Cursor(file.pos, eventsRead))
        invariant done != [] && done[0].injectNs == origin && Follows(calls, Schedule(done, rate, rnd, startNs), true)
        decreases totalEvents - eventsRead
      {
        ReadAllStep(file.bytes, totalEvents, Cursor(file.pos, eventsRead), done);
        var ev := Next();
        if ev.None? {
          break;
        }
        var target := Target(startNs, origin, ev.value.injectNs, rate, rnd);
        ghost var schedule := Schedule(done, rate, rnd, startNs);
        ScheduleAppend(done, ev.value, rate, rnd, startNs);
        done := done + [ev.value];
        if target.None? {
          SchedulePrefix(done, all, rate, rnd, startNs);
          FollowsUpTo(calls, schedule, ev.value, Schedule(all, rate, rnd, startNs));
          complete := false;
          return;
        }
        FollowsOn(calls, schedule, ev.value, target.value);
        calls := calls + [(ev.value, target.value)];
      }
      ReadAllStep(file.bytes, totalEvents, Cursor(file.pos, eventsRead), done);
    }
  }

  /** The i-th attempt, with these outcomes of its five writes, leaves ks[i] bytes. */
  ghost predicate Attempts(ios: seq<seq<nat>>, ks: seq<nat>) {
    |ios| == |ks| && forall i {:trigger Attempt(ios[i], ks[i])} :: 0 <= i < |ios| ==> Attempt(ios[i], ks[i])
  }

  predicate Attempt(io: seq<nat>, k: nat) {
    |io| == 5 && Taken(io) == k
  }

  method WriteNext(w: PcapWriter, f: File, evs: seq<FeedEvent>, i: nat, io: seq<nat>,
                   ghost header: seq<byte>, ghost ks: seq<nat>)
    returns (ok: bool)
    requires ValidRun(evs, ks) && i < |evs| < WORD && Attempt(io, ks[i])
    requires w.file == f && w.AtEnd() && f.bytes == Written(header, evs, ks, i) && w.count == Counted(ks, i)
    modifies w`count, f
    ensures w.file == f && w.AtEnd() && f.bytes == Written(header, evs, ks, i + 1) && w.count == Counted(ks, i + 1)
    ensures ok <==> ks[i] == RECORD_SIZE
  {
    ok := w.WriteEvent(evs[i], io);
  }

  /** Write every event in turn, whatever fails. */
  method WriteAll(w: PcapWriter, f: File, evs: seq<FeedEvent>, ios: seq<seq<nat>>,
                  ghost header: seq<byte>, ghost ks: seq<nat>)
    returns (oks: seq<bool>)
    requires ValidRun(evs, ks) && Attempts(ios, ks) && |evs| < WORD
    requires w.file == f && w.AtEnd() && f.bytes == header && w.count == 0
    modifies w`count, f
    ensures w.file == f && f.bytes == Written(header, evs, ks, |evs|) && w.count == Counted(ks, |evs|)
    ensures |oks| == |evs| && forall i :: 0 <= i < |oks| ==> (oks[i] <==> ks[i] == RECORD_SIZE)
  {
    oks := [];
    var i := 0;
    while i < |evs|
      invariant i <= |evs| && w.file == f && w.AtEnd()
      invariant f.bytes == Written(header, evs, ks, i) && w.count == Counted(ks, i)
      invariant |oks| == i && forall j :: 0 <= j < i ==> (oks[j] <==> ks[j] == RECORD_SIZE)
    {
      var ok := WriteNext(w, f, evs, i, ios[i], header, ks);
      oks := oks + [ok];
      i := i + 1;
    }
  }

  /** A whole capture, whatever fails: open, write every event, close. The file is what each write
      took, in order, with what the last one took over the count; the results say which events
      were written whole. With header and count whole it is the file of the run. */
  method CaptureAll(f: File, evs: seq<FeedEvent>, headerIo: seq<nat>, ios: seq<seq<nat>>, countIo: nat, ghost ks: seq<nat>)
    returns (oks: seq<bool>)
    requires f.bytes == [] && f.pos == 0 && |evs| < WORD && |headerIo| == 4
    requires ValidRun(evs, ks) && Attempts(ios, ks)
    modifies f
    ensures f.bytes == Overwrite(HeaderTaken(headerIo) + RunBody(evs, ks), COUNT_OFFSET,
                                 LeBytes(Successes(ks), 8)[..Min(countIo, 8)])
    ensures headerIo[0] >= 8 && headerIo[1] >= 4 && headerIo[2] >= 4 && headerIo[3] >= 8 && countIo >= 8 ==>
              f.bytes == RunFile(evs, ks)
    ensures Gives(ks, oks)
  {
    var w := new PcapWriter(f, headerIo);
    oks := WriteAll(w, f, evs, ios, HeaderTaken(headerIo), ks);
    WrittenIsRun(HeaderTaken(headerIo), evs, ks);
    w.Close(countIo);
    if headerIo[0] >= 8 && headerIo[1] >= 4 && headerIo[2] >= 4 && headerIo[3] >= 8 {
      WholeHeader(headerIo);
    }
  }

  /** Write, close, open and read to the end. Whatever the writes did, if no write succeeded after
      one that left part of a record behind then exactly the events written come back, projected
      to what a record keeps; so also if no write succeeded after one that failed, and if none
      failed every event comes back. */
  method RoundTrip(f: File, evs: seq<FeedEvent>, ios: seq<seq<nat>>, ghost ks: seq<nat>)
    returns (oks: seq<bool>, isOpen: bool, back: seq<FeedEvent>)
    requires f.bytes == [] && f.pos == 0 && |evs| < WORD && ValidRun(evs, ks) && Attempts(ios, ks)
    modifies f
    ensures Gives(ks, oks) && isOpen
    ensures Clean(ks) ==> back == Projects(Kept(evs, ks))
    ensures NoSuccessAfterFailure(oks) ==> back == Projects(Kept(evs, ks))
    ensures (forall i :: 0 <= i < |oks| ==> oks[i]) ==> back == Projects(evs)
  {
    oks := CaptureAll(f, evs, [8, 4, 4, 8], ios, 8, ks);
    SuccessesAtMost(ks);
    RunFileIs(evs, ks);
    OpenedHeader(Successes(ks), RunBody(evs, ks));
    f.Seek(0);
    var reader := new PcapReader();
    isOpen := reader.Open(f);
    back := reader.Drain();
    ReadBackAs(evs, ks, oks, back);
  }

  lemma ReadBackAs(evs: seq<FeedEvent>, ks: seq<nat>, oks: seq<bool>, back: seq<FeedEvent>)
    requires ValidRun(evs, ks) && Gives(ks, oks) && Successes(ks) < WORD
    requires back == ReadAll(RunFile(evs, ks), Successes(ks), FIRST)
    ensures Clean(ks) ==> back == Projects(Kept(evs, ks))
    ensures NoSuccessAfterFailure(oks) ==> back == Projects(Kept(evs, ks))
    ensures (forall i :: 0 <= i < |oks| ==> oks[i]) ==> back == Projects(evs)
  {
    if Clean(ks) {
      CleanReadsBack(evs, ks);
    }
    if NoSuccessAfterFailure(oks) {
      ResultsClean(ks, oks);
    }
    if forall i :: 0 <= i < |oks| ==> oks[i] {
      AllKept(evs, ks);
      assert NoSuccessAfterFailure(oks);
    }
  }

  lemma RecordFields(bytes: seq<byte>, pos: nat)
    requires pos + RECORD_SIZE <= |bytes|
    ensures var r := bytes[pos..pos + RECORD_SIZE];
            && bytes[pos..pos + 8] == r[..8] && bytes[pos + 8..pos + 16] == r[8..16]
            && bytes[pos + 16..pos + 18] == r[16..18] && bytes[pos + 24..pos + 88] == r[24..]
  {
  }
}
