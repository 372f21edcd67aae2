/** Whole runs of the capture writer with I/O errors: attempt i writes the first ks[i] of its 88
    bytes, and succeeds exactly if that is all of them. */
module CaptureRuns {
  import opened Options
  import opened Words
  import opened Bytes
  import opened FeedEvents
  import opened CaptureFormat

  predicate ValidRun(evs: seq<FeedEvent>, ks: seq<nat>) {
    && |evs| == |ks| && (forall i :: 0 <= i < |ks| ==> ks[i] <= RECORD_SIZE)
    && (forall i :: 0 <= i < |evs| ==> ValidEvent(evs[i]))
  }

  /** What each attempt left in the file. */
  function Parts(evs: seq<FeedEvent>, ks: seq<nat>): (r: seq<seq<byte>>)
    requires ValidRun(evs, ks)
    ensures |r| == |evs| && forall i :: 0 <= i < |r| ==> r[i] == Record(evs[i])[..ks[i]]
  {
    seq(|evs|, i requires 0 <= i < |evs| => Record(evs[i])[..ks[i]])
  }

  /** The bytes after the header once the run is over. */
  function RunBody(evs: seq<FeedEvent>, ks: seq<nat>): (r: seq<byte>)
    requires ValidRun(evs, ks)
  {
    Flat(Parts(evs, ks))
  }

  /** The events whose write_event returned true. */
  function Kept(evs: seq<FeedEvent>, ks: seq<nat>): (r: seq<FeedEvent>)
    requires ValidRun(evs, ks)
    ensures AllValid(r) && |r| == Successes(ks)
  {
    if evs == [] then []
    else
      var n := |evs| - 1;
      Kept(evs[..n], ks[..n]) + if ks[n] == RECORD_SIZE then [evs[n]] else []
  }

  function Successes(ks: seq<nat>): (r: nat) {
    if ks == [] then 0 else Successes(ks[..|ks| - 1]) + if ks[|ks| - 1] == RECORD_SIZE then 1 else 0
  }

  /** An attempt that left part of a record behind. */
  predicate Torn(k: nat) {
    0 < k < RECORD_SIZE
  }

  /** No attempt succeeds after one that left part of a record behind. */
  ghost predicate Clean(ks: seq<nat>) {
    forall i, j :: 0 <= i < j < |ks| && Torn(ks[i]) ==> ks[j] != RECORD_SIZE
  }

  ghost predicate NoTear(ks: seq<nat>) {
    forall i :: 0 <= i < |ks| ==> !Torn(ks[i])
  }

  /** The file a closed run leaves, its count patched. */
  function RunFile(evs: seq<FeedEvent>, ks: seq<nat>): (r: seq<byte>)
    requires ValidRun(evs, ks)
  {
    Overwrite(Header(0) + RunBody(evs, ks), COUNT_OFFSET, LeBytes(Successes(ks), 8))
  }

  lemma RunFileIs(evs: seq<FeedEvent>, ks: seq<nat>)
    requires ValidRun(evs, ks)
    ensures RunFile(evs, ks) == Header(Successes(ks)) + RunBody(evs, ks)
  {
    PatchKeepsBody(0, RunBody(evs, ks), Successes(ks));
  }

  /** The file after the first i attempts, and how many of them succeeded. */
  function Written(header: seq<byte>, evs: seq<FeedEvent>, ks: seq<nat>, i: nat): (r: seq<byte>)
    requires ValidRun(evs, ks) && i <= |evs|
  {
    if i == 0 then header else Written(header, evs, ks, i - 1) + Record(evs[i - 1])[..ks[i - 1]]
  }

  function Counted(ks: seq<nat>, i: nat): (r: nat)
    requires i <= |ks|
    ensures r <= i
  {
    if i == 0 then 0 else Counted(ks, i - 1) + if ks[i - 1] == RECORD_SIZE then 1 else 0
  }

  lemma {:induction false} WrittenIs(header: seq<byte>, evs: seq<FeedEvent>, ks: seq<nat>, i: nat)
    requires ValidRun(evs, ks) && i <= |evs|
    ensures ValidRun(evs[..i], ks[..i]) && Written(header, evs, ks, i) == header + RunBody(evs[..i], ks[..i])
    ensures Counted(ks, i) == Successes(ks[..i])
    decreases i
  {
    if i > 0 {
      WrittenIs(header, evs, ks, i - 1);
      RunExtends(evs, ks, i - 1);
      var body, last := RunBody(evs[..i - 1], ks[..i - 1]), Record(evs[i - 1])[..ks[i - 1]];
      assert Written(header, evs, ks, i) == header + body + last;
      JoinLeft(header, body, last);
    }
  }

  lemma JoinLeft(a: seq<byte>, b: seq<byte>, c: seq<byte>)
    ensures a + b + c == a + (b + c)
  {
  }

  /** What the attempts wrote, after any header; and with the count patched into a whole one, the
      file of the run. */
  lemma WrittenIsRun(header: seq<byte>, evs: seq<FeedEvent>, ks: seq<nat>)
    requires ValidRun(evs, ks)
    ensures Written(header, evs, ks, |evs|) == header + RunBody(evs, ks) && Counted(ks, |evs|) == Successes(ks)
  {
    WrittenIs(header, evs, ks, |evs|);
    assert evs[..|evs|] == evs && ks[..|ks|] == ks;
  }

  /** One more attempt adds its bytes to the body and, if all were written, one success. */
  lemma RunExtends(evs: seq<FeedEvent>, ks: seq<nat>, i: nat)
    requires ValidRun(evs, ks) && i < |evs|
    ensures ValidRun(evs[..i], ks[..i]) && ValidRun(evs[..i + 1], ks[..i + 1])
    ensures RunBody(evs[..i + 1], ks[..i + 1]) == RunBody(evs[..i], ks[..i]) + Record(evs[i])[..ks[i]]
    ensures Successes(ks[..i + 1]) == Successes(ks[..i]) + if ks[i] == RECORD_SIZE then 1 else 0
  {
    var evs', ks' := evs[..i + 1], ks[..i + 1];
    assert evs'[..i] == evs[..i] && ks'[..i] == ks[..i];
    PartsFront(evs', ks', i);
    var parts := Parts(evs', ks');
    assert parts[i] == Record(evs[i])[..ks[i]];
    assert Flat(parts) == Flat(parts[..i]) + parts[i];
  }

  // ----- Pieces of a run -----

  /** The pieces that are whole records. */
  function Whole(parts: seq<seq<byte>>): (r: seq<seq<byte>>) {
    if parts == [] then []
    else
      var p := parts[|parts| - 1];
      Whole(parts[..|parts| - 1]) + if |p| == RECORD_SIZE then [p] else []
  }

  function Sizes(parts: seq<seq<byte>>): (r: seq<nat>)
    ensures |r| == |parts|
  {
    seq(|parts|, i requires 0 <= i < |parts| => |parts[i]|)
  }

  lemma FlatAppend(parts: seq<seq<byte>>, p: seq<byte>)
    ensures Flat(parts + [p]) == Flat(parts) + p
  {
    assert (parts + [p])[..|parts|] == parts;
  }

  /** If the sizes are clean, the whole records come first, unbroken. */
  lemma {:induction false} CleanPrefix(parts: seq<seq<byte>>)
    requires forall i :: 0 <= i < |parts| ==> |parts[i]| <= RECORD_SIZE
    ensures Clean(Sizes(parts)) ==> Flat(Whole(parts)) <= Flat(parts)
    ensures NoTear(Sizes(parts)) ==> Flat(Whole(parts)) == Flat(parts)
    decreases |parts|
  {
    if parts != [] {
      var n := |parts| - 1;
      var front, p, ks := parts[..n], parts[n], Sizes(parts);
      assert Sizes(front) == ks[..n];
      CleanPrefix(front);
      FrontOf(ks);
      if |p| == RECORD_SIZE {
        assert Clean(ks) ==> NoTear(ks[..n]) by { CleanMeansNoTear(ks); }
        FlatAppend(Whole(front), p);
      } else {
        assert Whole(parts) == Whole(front);
        assert NoTear(ks) ==> p == [];
        PrefixExtends(Flat(Whole(front)), Flat(front), p);
      }
    }
  }

  lemma FrontOf(ks: seq<nat>)
    requires ks != []
    ensures Clean(ks) ==> Clean(ks[..|ks| - 1])
    ensures NoTear(ks) ==> NoTear(ks[..|ks| - 1]) && !Torn(ks[|ks| - 1])
  {
  }

  lemma PrefixExtends(a: seq<byte>, b: seq<byte>, c: seq<byte>)
    ensures a <= b ==> a <= b + c
    ensures c == [] ==> b + c == b
  {
  }

  lemma CleanMeansNoTear(ks: seq<nat>)
    requires ks != [] && ks[|ks| - 1] == RECORD_SIZE
    ensures Clean(ks) ==> NoTear(ks[..|ks| - 1])
  {
  }

  lemma {:induction false} FlatPrefix(parts: seq<seq<byte>>, m: nat)
    requires m <= |parts|
    ensures Flat(parts[..m]) <= Flat(parts)
    decreases |parts|
  {
    if m == |parts| {
      assert parts[..m] == parts;
    } else {
      FlatPrefix(parts[..|parts| - 1], m);
      assert parts[..|parts| - 1][..m] == parts[..m];
    }
  }

  lemma PartSizes(evs: seq<FeedEvent>, ks: seq<nat>)
    requires ValidRun(evs, ks)
    ensures Sizes(Parts(evs, ks)) == ks
  {
    forall i | 0 <= i < |ks| ensures Sizes(Parts(evs, ks))[i] == ks[i] {
      assert Parts(evs, ks)[i] == Record(evs[i])[..ks[i]];
    }
  }

  lemma PartsFront(evs: seq<FeedEvent>, ks: seq<nat>, n: nat)
    requires ValidRun(evs, ks) && n <= |evs|
    ensures ValidRun(evs[..n], ks[..n]) && Parts(evs, ks)[..n] == Parts(evs[..n], ks[..n])
  {
  }

  lemma RecordListAppend(evs: seq<FeedEvent>, ev: FeedEvent)
    requires AllValid(evs) && ValidEvent(ev)
    ensures AllValid(evs + [ev]) && RecordList(evs + [ev]) == RecordList(evs) + [Record(ev)]
  {
  }

  lemma LastPart(evs: seq<FeedEvent>, ks: seq<nat>, n: nat)
    requires ValidRun(evs, ks) && n < |evs|
    ensures |Parts(evs, ks)[n]| == ks[n]
    ensures ks[n] == RECORD_SIZE ==> Parts(evs, ks)[n] == Record(evs[n])
  {
  }

  lemma {:induction false} WholeIsKept(evs: seq<FeedEvent>, ks: seq<nat>)
    requires ValidRun(evs, ks)
    ensures Whole(Parts(evs, ks)) == RecordList(Kept(evs, ks))
    decreases |evs|
  {
    if evs != [] {
      var n := |evs| - 1;
      PartsFront(evs, ks, n);
      WholeIsKept(evs[..n], ks[..n]);
      LastPart(evs, ks, n);
      RecordListAppend(Kept(evs[..n], ks[..n]), evs[n]);
    }
  }

  /** A clean run reads back as exactly the events whose write succeeded. */
  lemma CleanReadsBack(evs: seq<FeedEvent>, ks: seq<nat>)
    requires ValidRun(evs, ks) && Clean(ks) && Successes(ks) < WORD
    ensures Opened(RunFile(evs, ks)) == Some(Successes(ks))
    ensures ReadAll(RunFile(evs, ks), Successes(ks), FIRST) == Projects(Kept(evs, ks))
  {
    var kept, body := Kept(evs, ks), RunBody(evs, ks);
    assert Records(kept) <= body by {
      CleanPrefix(Parts(evs, ks));
      PartSizes(evs, ks);
      WholeIsKept(evs, ks);
    }
    RunFileIs(evs, ks);
    WholeReadsBack(kept, body);
  }

  /** A body that starts with these records, under a header that counts them. */
  lemma WholeReadsBack(evs: seq<FeedEvent>, body: seq<byte>)
    requires AllValid(evs) && |evs| < WORD && Records(evs) <= body
    ensures Opened(Header(|evs|) + body) == Some(|evs|)
    ensures ReadAll(Header(|evs|) + body, |evs|, FIRST) == Projects(evs)
  {
    var recs := Records(evs);
    var junk := body[|recs|..];
    assert body == recs + junk;
    Reflexive(Header(|evs|), body);
    ReadBack(Header(|evs|) + body, evs, junk);
    assert Projects(evs)[..|evs|] == Projects(evs);
  }

  lemma Reflexive(a: seq<byte>, b: seq<byte>)
    ensures a + b <= a + b && |a + b| == |a| + |b|
  {
  }

  // ----- The condition is exact -----

  /** Whatever the events are, the file reads back as those that were kept. */
  ghost predicate AlwaysReadsBack(ks: seq<nat>) {
    forall evs :: ValidRun(evs, ks) ==> ReadAll(RunFile(evs, ks), Successes(ks), FIRST) == Projects(Kept(evs, ks))
  }

  function Blank(injectNs: nat): (r: FeedEvent) {
    FeedEvent(injectNs, 0, 0, 0, 0, 0, Zeros(MAX_PAYLOAD))
  }

  /** Blank events, except that the one at `mark` has a recognisable first byte. */
  function Marked(n: nat, mark: nat): (r: seq<FeedEvent>)
    ensures |r| == n && forall i :: 0 <= i < n ==> r[i] == Blank(if i == mark then 7 else 0)
  {
    seq(n, i => Blank(if i == mark then 7 else 0))
  }

  lemma {:induction false} FlatLength(parts: seq<seq<byte>>)
    ensures |Flat(parts)| >= RECORD_SIZE * Successes(Sizes(parts))
    decreases |parts|
  {
    if parts != [] {
      FlatLength(parts[..|parts| - 1]);
      assert Sizes(parts)[..|parts| - 1] == Sizes(parts[..|parts| - 1]);
    }
  }

  /** Every kept event is an event of the run that was written completely. */
  lemma {:induction false} KeptFrom(evs: seq<FeedEvent>, ks: seq<nat>, j: nat)
    requires ValidRun(evs, ks) && j < |Kept(evs, ks)|
    ensures exists i :: 0 <= i < |evs| && ks[i] == RECORD_SIZE && Kept(evs, ks)[j] == evs[i]
    decreases |evs|
  {
    var n := |evs| - 1;
    var front := Kept(evs[..n], ks[..n]);
    if j < |front| {
      KeptFrom(evs[..n], ks[..n], j);
      var i :| 0 <= i < n && ks[..n][i] == RECORD_SIZE && front[j] == evs[..n][i];
      assert ks[i] == RECORD_SIZE && Kept(evs, ks)[j] == evs[i];
    } else {
      assert ks[n] == RECORD_SIZE && Kept(evs, ks)[j] == evs[n];
    }
  }

  lemma FirstByte(bs: seq<byte>)
    requires |bs| == RECORD_SIZE && bs[0] == 7
    ensures Decode(bs).injectNs != 0
  {
    assert bs[..8][0] == 7;
  }

  /** After a tear, a later success makes the reader return, in the place of the first misplaced
      record, an event that is none of those whose write succeeded. */
  lemma TearShows(ks: seq<nat>, t: nat, s: nat)
    requires forall i :: 0 <= i < |ks| ==> ks[i] <= RECORD_SIZE
    requires 0 <= t < s < |ks| && Torn(ks[t]) && NoTear(ks[..t]) && ks[s] == RECORD_SIZE
    ensures ValidRun(Marked(|ks|, t), ks)
    ensures var r, c := ReadAll(RunFile(Marked(|ks|, t), ks), Successes(ks), FIRST), Successes(ks[..t]);
            c < |r| && r[c] !in Projects(Kept(Marked(|ks|, t), ks))
  {
    var evs := Marked(|ks|, t);
    var body, n, c := RunBody(evs, ks), Successes(ks), Successes(ks[..t]);
    SuccessesGrow(ks, t, s);
    MarkedByte(ks, t);
    assert |body| >= RECORD_SIZE * n by { PartSizes(evs, ks); FlatLength(Parts(evs, ks)); }
    RunFileIs(evs, ks);
    TornChunk(Header(n), body, n, c);
    var kept := Projects(Kept(evs, ks));
    forall i | 0 <= i < |kept|
      ensures kept[i].injectNs == 0
    {
      KeptBlank(ks, t, i);
    }
  }

  lemma KeptBlank(ks: seq<nat>, t: nat, c: nat)
    requires t < |ks| && Torn(ks[t]) && ValidRun(Marked(|ks|, t), ks) && c < Successes(ks)
    ensures Projects(Kept(Marked(|ks|, t), ks))[c].injectNs == 0
  {
    var evs := Marked(|ks|, t);
    KeptFrom(evs, ks, c);
    var i :| 0 <= i < |evs| && ks[i] == RECORD_SIZE && Kept(evs, ks)[c] == evs[i];
  }

  lemma TornChunk(header: seq<byte>, body: seq<byte>, n: nat, c: nat)
    requires |header| == HEADER_SIZE && c < n && RECORD_SIZE * n <= |body| && body[RECORD_SIZE * c] == 7
    ensures var r := ReadAll(header + body, n, FIRST); |r| > c && r[c].injectNs != 0
  {
    var file := header + body;
    assert c < Readable(file, n);
    ReadsChunks(file, n, 0);
    assert Chunks(file, n)[0..][c] == Decode(Chunk(file, c));
    assert Chunk(file, c)[0] == body[RECORD_SIZE * c];
    FirstByte(Chunk(file, c));
  }

  lemma MarkedByte(ks: seq<nat>, t: nat)
    requires forall i :: 0 <= i < |ks| ==> ks[i] <= RECORD_SIZE
    requires t < |ks| && Torn(ks[t]) && NoTear(ks[..t])
    ensures ValidRun(Marked(|ks|, t), ks)
    ensures var body, c := RunBody(Marked(|ks|, t), ks), Successes(ks[..t]);
            |body| > RECORD_SIZE * c && body[RECORD_SIZE * c] == 7
  {
    var evs := Marked(|ks|, t);
    var parts := Parts(evs, ks);
    PartsFront(evs, ks, t);
    UntornLength(evs[..t], ks[..t]);
    MarkedPart(ks, t);
    PieceStarts(parts, t);
  }

  lemma MarkedPart(ks: seq<nat>, t: nat)
    requires t < |ks| && ValidRun(Marked(|ks|, t), ks) && ks[t] > 0
    ensures var p := Parts(Marked(|ks|, t), ks)[t]; p != [] && p[0] == 7
  {
    MarkByte();
    assert Parts(Marked(|ks|, t), ks)[t] == Record(Blank(7))[..ks[t]];
  }

  lemma UntornLength(evs: seq<FeedEvent>, ks: seq<nat>)
    requires ValidRun(evs, ks) && NoTear(ks)
    ensures |RunBody(evs, ks)| == RECORD_SIZE * Successes(ks)
  {
    PartSizes(evs, ks);
    CleanPrefix(Parts(evs, ks));
    assert Flat(Parts(evs, ks)) == Flat(RecordList(Kept(evs, ks))) by { WholeIsKept(evs, ks); }
    FlatSize(RecordList(Kept(evs, ks)));
  }

  lemma MarkByte()
    ensures ValidEvent(Blank(7)) && Record(Blank(7))[0] == 7
  {
    assert LeBytes(7, 8)[0] == 7;
  }

  /** The first byte of a piece follows the pieces before it. */
  lemma PieceStarts(parts: seq<seq<byte>>, t: nat)
    requires t < |parts| && parts[t] != []
    ensures |Flat(parts)| > |Flat(parts[..t])| && Flat(parts)[|Flat(parts[..t])|] == parts[t][0]
  {
    FlatPrefix(parts, t + 1);
    assert parts[..t + 1][..t] == parts[..t];
  }

  lemma {:induction false} SuccessesGrow(ks: seq<nat>, t: nat, s: nat)
    requires t <= s < |ks| && ks[s] == RECORD_SIZE
    ensures Successes(ks[..t]) < Successes(ks)
    decreases |ks|
  {
    var n := |ks| - 1;
    if s < n {
      SuccessesGrow(ks[..n], t, s);
      assert ks[..n][..t] == ks[..t];
    } else {
      SuccessesMonotone(ks[..n], t);
      assert ks[..n][..t] == ks[..t];
    }
  }

  lemma {:induction false} SuccessesMonotone(ks: seq<nat>, t: nat)
    requires t <= |ks|
    ensures Successes(ks[..t]) <= Successes(ks)
    decreases |ks|
  {
    if t == |ks| {
      assert ks[..t] == ks;
    } else {
      SuccessesMonotone(ks[..|ks| - 1], t);
      assert ks[..|ks| - 1][..t] == ks[..t];
    }
  }

  lemma {:induction false} FirstTear(ks: seq<nat>, i: nat) returns (t: nat)
    requires i < |ks| && Torn(ks[i])
    ensures t <= i && Torn(ks[t]) && NoTear(ks[..t])
    decreases i
  {
    if NoTear(ks[..i]) {
      t := i;
    } else {
      var k :| 0 <= k < i && Torn(ks[..i][k]);
      t := FirstTear(ks, k);
    }
  }

  /** Which patterns of I/O errors are harmless, exactly: the capture reads back as the events
      whose write succeeded, whatever they contain, if and only if no write succeeds after one
      that left part of a record behind. */
  lemma ReadsBackIffClean(ks: seq<nat>)
    requires forall i :: 0 <= i < |ks| ==> ks[i] <= RECORD_SIZE
    requires Successes(ks) < WORD
    ensures AlwaysReadsBack(ks) <==> Clean(ks)
  {
    if Clean(ks) {
      forall evs | ValidRun(evs, ks)
        ensures ReadAll(RunFile(evs, ks), Successes(ks), FIRST) == Projects(Kept(evs, ks))
      {
        CleanReadsBack(evs, ks);
      }
    } else {
      var i, j :| 0 <= i < j < |ks| && Torn(ks[i]) && ks[j] == RECORD_SIZE;
      var t := FirstTear(ks, i);
      TearHarms(ks, t, j);
    }
  }

  lemma TearHarms(ks: seq<nat>, t: nat, s: nat)
    requires forall i :: 0 <= i < |ks| ==> ks[i] <= RECORD_SIZE
    requires 0 <= t < s < |ks| && Torn(ks[t]) && NoTear(ks[..t]) && ks[s] == RECORD_SIZE
    ensures !AlwaysReadsBack(ks)
  {
    var evs := Marked(|ks|, t);
    TearShows(ks, t, s);
    var r := ReadAll(RunFile(evs, ks), Successes(ks), FIRST);
    assert r[Successes(ks[..t])] in r;
  }

  // ----- What the caller can see -----

  /** Attempts that leave ks[i] bytes return these results. */
  ghost predicate Gives(ks: seq<nat>, oks: seq<bool>) {
    |ks| == |oks| && forall i :: 0 <= i < |ks| ==> ks[i] <= RECORD_SIZE && (oks[i] <==> ks[i] == RECORD_SIZE)
  }

  /** Whatever reached the file, a run with these results reads back as the events written. */
  ghost predicate ResultsReadBack(oks: seq<bool>) {
    forall ks :: Gives(ks, oks) ==> AlwaysReadsBack(ks)
  }

  ghost predicate NoSuccessAfterFailure(oks: seq<bool>) {
    forall i, j :: 0 <= i < j < |oks| && !oks[i] ==> !oks[j]
  }

  lemma {:induction false} SuccessesAtMost(ks: seq<nat>)
    ensures Successes(ks) <= |ks|
  {
    if ks != [] {
      SuccessesAtMost(ks[..|ks| - 1]);
    }
  }

  /** On the results write_event returned: the capture is certain to read back as the events whose
      write succeeded if and only if no write succeeded after one that failed. */
  lemma ReadsBackIffResults(oks: seq<bool>)
    requires |oks| < WORD
    ensures ResultsReadBack(oks) <==> NoSuccessAfterFailure(oks)
  {
    if NoSuccessAfterFailure(oks) {
      forall ks | Gives(ks, oks)
        ensures AlwaysReadsBack(ks)
      {
        ResultsClean(ks, oks);
        SuccessesAtMost(ks);
        ReadsBackIffClean(ks);
      }
    } else {
      var i, j :| 0 <= i < j < |oks| && !oks[i] && oks[j];
      var ks := Tearing(oks);
      assert Torn(ks[i]) && ks[j] == RECORD_SIZE;
      SuccessesAtMost(ks);
      ReadsBackIffClean(ks);
    }
  }

  lemma ResultsClean(ks: seq<nat>, oks: seq<bool>)
    requires Gives(ks, oks) && NoSuccessAfterFailure(oks)
    ensures Clean(ks)
  {
  }

  /** Every failure leaves one byte behind. */
  function Tearing(oks: seq<bool>): (ks: seq<nat>)
    ensures Gives(ks, oks) && forall i :: 0 <= i < |oks| && !oks[i] ==> Torn(ks[i])
  {
    seq(|oks|, i requires 0 <= i < |oks| => if oks[i] then RECORD_SIZE else 1)
  }

  /** When every write succeeds, everything is kept. */
  lemma {:induction false} AllKept(evs: seq<FeedEvent>, ks: seq<nat>)
    requires ValidRun(evs, ks) && forall i :: 0 <= i < |ks| ==> ks[i] == RECORD_SIZE
    ensures Kept(evs, ks) == evs
    decreases |evs|
  {
    if evs != [] {
      AllKept(evs[..|evs| - 1], ks[..|evs| - 1]);
    }
  }

  /** A concrete pattern that is not harmless: one byte of a record, then a whole record. */
  lemma TornThenWhole()
    ensures !AlwaysReadsBack([1, RECORD_SIZE])
  {
    var ks: seq<nat> := [1, RECORD_SIZE];
    assert Torn(ks[0]) && ks[1] == RECORD_SIZE;
    assert ks[..1] == [1] && Successes(ks) <= 1 + Successes([1]);
    ReadsBackIffClean(ks);
  }
}
