/** The nozzle's batcher: read envelopes, hand full or overdue batches to the writers, drop what they cannot take. */
module EnvelopeBatchers {
  import opened Envelopes

  const BATCH_CHANNEL_SIZE := 512

  /** A slice: the first `len` elements of a backing array that other slices may share. */
  datatype Slice = Slice(backing: array<Envelope>, len: nat)

  /** A run of consecutive envelopes that left the batcher together. */
  datatype Segment = Segment(sent: bool, envelopes: seq<Envelope>)

  ghost function Concat(log: seq<Segment>): seq<Envelope> {
    if log == [] then [] else Concat(log[..|log| - 1]) + log[|log| - 1].envelopes
  }

  /** The batches handed over, in order. */
  ghost function SentOf(log: seq<Segment>): seq<seq<Envelope>> {
    if log == [] then [] else
    var s := log[|log| - 1];
    SentOf(log[..|log| - 1]) + if s.sent then [s.envelopes] else []
  }

  ghost predicate ProperSizes(log: seq<Segment>) {
    forall i :: 0 <= i < |log| ==> 1 <= |log[i].envelopes| <= BATCH_CHANNEL_SIZE
  }

  lemma LogMore(log: seq<Segment>, s: Segment)
    ensures Concat(log + [s]) == Concat(log) + s.envelopes
    ensures SentOf(log + [s]) == SentOf(log) + if s.sent then [s.envelopes] else []
    ensures ProperSizes(log) && 1 <= |s.envelopes| <= BATCH_CHANNEL_SIZE ==> ProperSizes(log + [s])
  {
    assert (log + [s])[..|log|] == log;
  }

  /** How many envelopes were handed over, or dropped. */
  ghost function Carried(log: seq<Segment>, sent: bool): nat {
    if log == [] then 0 else
    var s := log[|log| - 1];
    Carried(log[..|log| - 1], sent) + if s.sent == sent then |s.envelopes| else 0
  }

  lemma {:induction false} NothingElse(log: seq<Segment>)
    ensures |Concat(log)| == Carried(log, true) + Carried(log, false)
  {
    if log != [] { NothingElse(log[..|log| - 1]); }
  }

  /** Every segment is a contiguous piece of what was read, right behind the segment before it. */
  lemma {:induction false} SegmentsAreContiguous(log: seq<Segment>, i: nat)
    requires i < |log|
    ensures var at := |Concat(log[..i])|;
      && at + |log[i].envelopes| == |Concat(log[..i + 1])| <= |Concat(log)|
      && Concat(log)[at..at + |log[i].envelopes|] == log[i].envelopes
  {
    assert log[..i + 1][..i] == log[..i];
    var k := |log| - 1;
    if i == k {
      assert log[..i + 1] == log;
    } else {
      SegmentsAreContiguous(log[..k], i);
      assert log[..k][..i] == log[..i] && log[..k][..i + 1] == log[..i + 1];
    }
  }

  /** What one round of the batcher sees: an envelope or none, the timer, room in the channel. */
  datatype Tick = Tick(found: Option<Envelope>, timerFired: bool, channelReady: bool, growth: nat)

  ghost function Reads(ticks: seq<Tick>): seq<Envelope> {
    if ticks == [] then [] else
    var t := ticks[|ticks| - 1];
    Reads(ticks[..|ticks| - 1]) + if t.found.Some? then [t.found.value] else []
  }

  class EnvelopeBatcher {
    var envelopes: Slice
    /** The batches in the channel or beyond it. */
    var sent: seq<Slice>
    ghost var read: seq<Envelope>
    ghost var log: seq<Segment>

    constructor ()
      ensures Valid() && read == [] && log == [] && sent == [] && envelopes.len == 0
      ensures fresh(envelopes.backing)
    {
      var none := new Envelope[0];
      envelopes, sent, read, log := Slice(none, 0), [], [], [];
    }

    ghost function Pending(): seq<Envelope>
      requires envelopes.len <= envelopes.backing.Length
      reads this`envelopes, envelopes.backing
    {
      envelopes.backing[..envelopes.len]
    }

    ghost function Backings(): set<array<Envelope>>
      reads this`sent
    {
      set i | 0 <= i < |sent| :: sent[i].backing
    }

    /** The batches handed over still hold what they held then, and share nothing with the batch being filled. */
    ghost predicate BatchesIntact()
      reads this`envelopes, this`sent, this`log, Backings()
    {
      && envelopes.backing !in Backings()
      && |sent| == |SentOf(log)|
      && forall i :: 0 <= i < |sent| ==>
           sent[i].len <= sent[i].backing.Length && sent[i].backing[..sent[i].len] == SentOf(log)[i]
    }

    ghost predicate Accounted()
      reads this, envelopes.backing
    {
      && envelopes.len <= envelopes.backing.Length
      && read == Concat(log) + Pending() && ProperSizes(log)
    }

    ghost predicate Valid()
      reads this, envelopes.backing, Backings()
    {
      Accounted() && envelopes.len < BATCH_CHANNEL_SIZE && BatchesIntact()
    }

    /** `append`: in place while the backing array has room, in a larger copy otherwise. */
    method Append(e: Envelope, growth: nat)
      requires Accounted() && BatchesIntact()
      modifies this`envelopes, this`read, envelopes.backing
      ensures Accounted() && BatchesIntact() && read == old(read) + [e]
      ensures envelopes.len == old(envelopes.len) + 1 && Pending() == old(Pending()) + [e]
      ensures envelopes.backing == old(envelopes.backing) || fresh(envelopes.backing)
    {
      var a, n := envelopes.backing, envelopes.len;
      if n == a.Length {
        var larger := new Envelope[n + 1 + growth](i reads a => if 0 <= i < a.Length then a[i] else e);
        assert larger[..n] == a[..n];
        a := larger;
      }
      a[n] := e;
      envelopes := Slice(a, n + 1);
      read := read + [e];
      assert Pending() == old(Pending()) + [e];
    }

    /** Hand the batch to the writers and start a new one, or drop it and reuse its backing array. */
    method Flush(channelReady: bool)
      requires Accounted() && BatchesIntact() && 1 <= envelopes.len <= BATCH_CHANNEL_SIZE
      modifies this`envelopes, this`sent, this`log
      ensures Valid() && envelopes.len == 0
      ensures log == old(log) + [Segment(channelReady, old(Pending()))]
      ensures sent == old(sent) + if channelReady then [old(envelopes)] else []
      ensures envelopes.backing == old(envelopes.backing) || fresh(envelopes.backing)
    {
      LogMore(log, Segment(channelReady, Pending()));
      log := log + [Segment(channelReady, Pending())];
      if channelReady {
        sent := sent + [envelopes];
        var none := new Envelope[0];
        envelopes := Slice(none, 0);
      } else {
        envelopes := Slice(envelopes.backing, 0);
      }
    }

    /** One round of the loop. */
    method Step(t: Tick)
      requires Valid()
      modifies this, envelopes.backing
      ensures Valid()
      ensures read == old(read) + if t.found.Some? then [t.found.value] else []
      ensures old(log) <= log && old(sent) <= sent
      ensures forall i :: 0 <= i < |old(sent)| ==> old(sent)[i].backing[..] == old(sent[i].backing[..])
      ensures t.timerFired ==> envelopes.len == 0
      ensures |log| > |old(log)| <==>
        var filled := old(envelopes.len) + (if t.found.Some? then 1 else 0);
        filled == 512 || (t.timerFired && filled > 0)
      ensures |log| > |old(log)| ==>
        log == old(log) + [Segment(t.channelReady, old(Pending()) + if t.found.Some? then [t.found.value] else [])]
      ensures envelopes.backing == old(envelopes.backing) || fresh(envelopes.backing)
    {
      if t.found.Some? {
        Append(t.found.value, t.growth);
      }
      assert Pending() == old(Pending()) + if t.found.Some? then [t.found.value] else [];
      if t.timerFired {
        if envelopes.len > 0 {
          Flush(t.channelReady);
        }
      } else if envelopes.len >= BATCH_CHANNEL_SIZE {
        Flush(t.channelReady);
      }
    }

    /** Any number of rounds: everything read was sent, dropped or is pending, and sent batches stay as they were. */
    method Run(ticks: seq<Tick>)
      requires Valid()
      modifies this, envelopes.backing
      ensures Valid() && read == old(read) + Reads(ticks)
      ensures |read| == Carried(log, true) + Carried(log, false) + envelopes.len
      ensures old(log) <= log && old(sent) <= sent
      ensures forall i :: 0 <= i < |old(sent)| ==> old(sent)[i].backing[..] == old(sent[i].backing[..])
    {
      hide Reads, Concat, SentOf, Carried;
      NoReads();
      for i := 0 to |ticks|
        invariant Valid() && read == old(read) + Reads(ticks[..i])
        invariant envelopes.backing == old(envelopes.backing) || fresh(envelopes.backing)
        invariant old(log) <= log && old(sent) <= sent
        invariant forall j :: 0 <= j < |old(sent)| ==> old(sent)[j].backing[..] == old(sent[j].backing[..])
      {
        MoreReads(ticks, i);
        Step(ticks[i]);
      }
      assert ticks[..|ticks|] == ticks;
      NothingElse(log);
    }
  }

  lemma NoReads()
    ensures Reads([]) == []
  {
  }

  lemma MoreReads(ticks: seq<Tick>, i: nat)
    requires i < |ticks|
    ensures Reads(ticks[..i + 1]) == Reads(ticks[..i]) + if ticks[i].found.Some? then [ticks[i].found.value] else []
  {
    assert ticks[..i + 1][..i] == ticks[..i];
  }
}
