/** From the sender's frame to the consumer's event, in every run of the feed handler. */
module EndToEnd {
  import opened Options
  import opened Words
  import opened Bytes
  import opened Frames
  import opened Packets
  import opened FeedEvents
  import opened WireFormat
  import opened Pipeline
  import opened PipelineTheorems
  import RingIndex
  import Ring = SpscProtocol
  import SpscSafety
  import SpscTheorems

  /** In every run a received frame that was delivered as the encoding of f ends, queued or
      dropped, as the event carrying f's ports, address and payload, stamped with the clock reading
      of its batch. */
  lemma EncodedFrameDelivered(c: Config, n: nat, zero: FeedEvent, mem: Memory, steps: seq<Step>, k: nat, f: UdpFrame)
    requires ValidConfig(c) && RingIndex.ValidCapacity(n) && Runs(c, Start(c, n, zero, mem), steps)
    requires var s := Exec(c, Start(c, n, zero, mem), steps); k < |s.fates| && k < |s.arrivals|
    requires var a := Exec(c, Start(c, n, zero, mem), steps).arrivals[k];
             WellFormed(f) && a.desc.len == |Encode(f)| && Holds(a.mem, a.desc.addr, Encode(f))
    ensures var s := Exec(c, Start(c, n, zero, mem), steps);
            k < |s.stamps| &&
            var ev := WireFormat.FrameEvent(f, s.stamps[k]); s.fates[k] == Queued(ev) || s.fates[k] == Dropped(ev)
  {
    var s := Exec(c, Start(c, n, zero, mem), steps);
    RunBody(c, n, zero, mem, steps);
    EncodedFate(c, s.arrivals[k], s.stamps[k], s.fates[k], f);
  }

  lemma EncodedFate(c: Config, a: Arrival, ts: nat, fate: Fate, f: UdpFrame)
    requires c.frameSize >= 1 && DescInFrame(c, a.desc) && FateFor(c, a, ts, fate)
    requires WellFormed(f) && a.desc.len == |Encode(f)| && Holds(a.mem, a.desc.addr, Encode(f))
    ensures fate == Queued(WireFormat.FrameEvent(f, ts)) || fate == Dropped(WireFormat.FrameEvent(f, ts))
  {
    EventOfEncode(f, a.mem, a.desc.addr, ts);
    CopyStaysInFrame(c, a);
  }

  /** In particular a datagram of the synthetic sender ends as an event with the sender's own
      timestamp. */
  lemma SenderTimeDelivered(c: Config, n: nat, zero: FeedEvent, mem: Memory, steps: seq<Step>, k: nat, f: UdpFrame,
                            injectNs: nat)
    requires ValidConfig(c) && RingIndex.ValidCapacity(n) && Runs(c, Start(c, n, zero, mem), steps)
    requires var s := Exec(c, Start(c, n, zero, mem), steps); k < |s.fates| && k < |s.arrivals|
    requires var a := Exec(c, Start(c, n, zero, mem), steps).arrivals[k];
             WellFormed(f) && a.desc.len == |Encode(f)| && Holds(a.mem, a.desc.addr, Encode(f))
    requires f.payload == SenderPayload(injectNs) && injectNs < Pow256(8)
    ensures var s := Exec(c, Start(c, n, zero, mem), steps);
            && k < |s.stamps| && !s.fates[k].Skipped? && s.fates[k].ev.injectNs == injectNs
            && s.fates[k].ev.receiveNs == s.stamps[k] && s.fates[k].ev.payload == SenderPayload(injectNs)
  {
    EncodedFrameDelivered(c, n, zero, mem, steps, k, f);
    SenderToEvent(f, injectNs, Exec(c, Start(c, n, zero, mem), steps).stamps[k]);
  }

  /** The step that drops a frame: a push whose acquired head leaves N - 1 events unread. */
  ghost predicate RefusedPush(s: State, step: Step, n: nat) {
    match step
    case PushAccess(a) => a.PushLoadHead? && |s.ring.pushed| - a.at == n - 1
    case _ => false
  }

  /** In every run a step records a drop if and only if it is such a push. */
  lemma DroppedIffFull(c: Config, n: nat, zero: FeedEvent, mem: Memory, steps: seq<Step>, step: Step)
    requires ValidConfig(c) && RingIndex.ValidCapacity(n) && Runs(c, Start(c, n, zero, mem), steps)
    requires Can(c, Exec(c, Start(c, n, zero, mem), steps), step)
    ensures var s := Exec(c, Start(c, n, zero, mem), steps);
            var s' := Do(c, s, step);
            && s.fates <= s'.fates && |s'.fates| <= |s.fates| + 1
            && (|s'.fates| > |s.fates| && s'.fates[|s.fates|].Dropped? <==> RefusedPush(s, step, n))
  {
    var s := Exec(c, Start(c, n, zero, mem), steps);
    RunRing(c, n, zero, mem, steps);
    assert s.ring.n == n by { RingKept(c, n, zero, mem, steps); }
    DropStep(c, s, step);
  }

  lemma DropStep(c: Config, s: State, step: Step)
    requires c.frameSize >= 1 && SpscSafety.Inv(s.ring) && Can(c, s, step)
    ensures var s' := Do(c, s, step);
            && s.fates <= s'.fates && |s'.fates| <= |s.fates| + 1
            && (|s'.fates| > |s.fates| && s'.fates[|s.fates|].Dropped? <==> RefusedPush(s, step, s.ring.n))
  {
    match step
    case PushAccess(a) =>
      PushAccessEffect(s.ring, a);
      if a.PushLoadHead? {
        SpscTheorems.Refused(s.ring, a.at);
      }
    case _ =>
  }

  lemma {:induction false} RingKept(c: Config, n: nat, zero: FeedEvent, mem: Memory, steps: seq<Step>)
    requires c.frameSize >= 1 && RingIndex.ValidCapacity(n) && Runs(c, Start(c, n, zero, mem), steps)
    ensures Exec(c, Start(c, n, zero, mem), steps).ring.n == n
    decreases |steps|
  {
    if steps != [] {
      RingKept(c, n, zero, mem, steps[..|steps| - 1]);
      SizeKept(c, Exec(c, Start(c, n, zero, mem), steps[..|steps| - 1]), steps[|steps| - 1]);
    }
  }

  lemma SizeKept(c: Config, s: State, step: Step)
    requires c.frameSize >= 1 && Can(c, s, step)
    ensures Do(c, s, step).ring.n == s.ring.n
  {
  }

  /** Therefore every frame a run dropped met a ring with no room: some step of the run was its
      refused push. */
  lemma {:induction false} EveryDropWasRefused(c: Config, n: nat, zero: FeedEvent, mem: Memory, steps: seq<Step>, k: nat)
    requires ValidConfig(c) && RingIndex.ValidCapacity(n) && Runs(c, Start(c, n, zero, mem), steps)
    requires var s := Exec(c, Start(c, n, zero, mem), steps); k < |s.fates| && s.fates[k].Dropped?
    ensures exists j :: 0 <= j < |steps| && DropsAt(c, n, zero, mem, steps, j, k)
    decreases |steps|
  {
    if steps == [] {
      assert false;
    } else {
      var m := |steps| - 1;
      var before := Exec(c, Start(c, n, zero, mem), steps[..m]);
      DroppedIffFull(c, n, zero, mem, steps[..m], steps[m]);
      if k < |before.fates| {
        EveryDropWasRefused(c, n, zero, mem, steps[..m], k);
        var j :| 0 <= j < m && DropsAt(c, n, zero, mem, steps[..m], j, k);
        assert steps[..m][..j] == steps[..j];
        assert DropsAt(c, n, zero, mem, steps, j, k);
      } else {
        assert DropsAt(c, n, zero, mem, steps, m, k);
      }
    }
  }

  /** Step j of the run is the refused push of the k-th frame received. */
  ghost predicate DropsAt(c: Config, n: nat, zero: FeedEvent, mem: Memory, steps: seq<Step>, j: nat, k: nat)
    requires c.frameSize >= 1 && RingIndex.ValidCapacity(n) && j < |steps|
  {
    && Runs(c, Start(c, n, zero, mem), steps[..j])
    && |Exec(c, Start(c, n, zero, mem), steps[..j]).fates| == k
    && RefusedPush(Exec(c, Start(c, n, zero, mem), steps[..j]), steps[j], n)
  }
}
