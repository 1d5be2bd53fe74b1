/** Byte streams whose reads are cut by an adversary, and the read-append-decide loop that
    src/tls.rs, src/http.rs and src/proxy.rs share. */
module Streams {
  import opened Wrappers
  import opened Bytes

  /** What the next read meets: some bytes, or a failure. `Fault` stands for an I/O error and
      for an enclosing timeout that expires while the read is pending. */
  datatype Arrival = Arrive(size: nat) | Fault

  datatype ReadResult = Data(bytes: seq<byte>) | Eof | Failed

  ghost predicate Suffix(a: seq<byte>, b: seq<byte>) {
    |a| <= |b| && a == b[|b| - |a|..]
  }

  /** What is a prefix of `w` and `a` is a prefix of `w`, `a` and `b`. */
  lemma PrefixGrows(x: seq<byte>, w: seq<byte>, a: seq<byte>, b: seq<byte>)
    requires x <= w + a
    ensures x <= w + (a + b)
  {
    assert w + (a + b) == (w + a) + b;
  }

  lemma PrefixAfter(x: seq<byte>, w: seq<byte>, a: seq<byte>, b: seq<byte>)
    requires w + a <= x <= w + a + b
    ensures w <= x <= w + (a + b)
    ensures x == w + a + b ==> x == w + (a + b)
  {
    assert w + (a + b) == (w + a) + b;
    assert x[..|w|] == (w + a)[..|w|] == w;
  }

  /** The incoming half of a connection: every byte the peer will still send, then end of
      file, and the sizes in which they arrive (an exhausted plan delivers all that fits). */
  datatype Source = Source(rest: seq<byte>, plan: seq<Arrival>) {
    predicate FaultFree() {
      forall i :: 0 <= i < |plan| ==> plan[i].Arrive?
    }

    function Read(cap: nat): (r: (ReadResult, Source))
      requires cap > 0
      ensures r.0.Data? ==> 0 < |r.0.bytes| <= cap && r.0.bytes + r.1.rest == rest
      ensures !r.0.Data? ==> r.1.rest == rest
      ensures r.0.Eof? ==> rest == []
      ensures FaultFree() ==> !r.0.Failed? && r.1.FaultFree()
      ensures FaultFree() && rest != [] ==> r.0.Data?
    {
      if plan != [] && plan[0].Fault? then (Failed, Source(rest, plan[1..]))
      else if rest == [] then (Eof, this)
      else
        var fits := if cap < |rest| then cap else |rest|;
        var offered := if plan == [] then fits else if plan[0].size == 0 then 1 else plan[0].size;
        var n := if offered < fits then offered else fits;
        (Data(rest[..n]), Source(rest[n..], if plan == [] then [] else plan[1..]))
    }
  }

  /** A connection. `limit` is how many bytes its peer takes before the connection breaks. */
  class Stream {
    var source: Source
    var written: seq<byte>
    var closed: bool
    const limit: Option<nat>

    constructor (source: Source, limit: Option<nat>)
      ensures this.source == source && this.limit == limit && written == [] && !closed
    {
      this.source, this.limit := source, limit;
      written, closed := [], false;
    }

    /** No read fails and no write does. */
    predicate Reliable()
      reads `source
    {
      source.FaultFree() && limit.None?
    }

    method Read(cap: nat) returns (r: ReadResult)
      requires cap > 0
      modifies this`source
      ensures (r, source) == old(source).Read(cap)
    {
      var step := source.Read(cap);
      r, source := step.0, step.1;
    }

    /** Reads exactly `n` bytes, as many reads as that takes. */
    method ReadExact(n: nat) returns (r: Option<seq<byte>>)
      modifies this`source
      ensures r.Some? ==> |r.value| == n && r.value + source.rest == old(source.rest)
      ensures Suffix(source.rest, old(source.rest))
      ensures old(source.FaultFree()) ==> source.FaultFree() && (r.Some? <==> n <= |old(source.rest)|)
    {
      var got: seq<byte> := [];
      while |got| < n
        invariant |got| <= n && got + source.rest == old(source.rest)
        invariant old(source.FaultFree()) ==> source.FaultFree()
        decreases n - |got|
      {
        var step := Read(n - |got|);
        match step {
          case Data(bytes) => got := got + bytes;
          case Eof => return None;
          case Failed => return None;
        }
      }
      return Some(got);
    }

    /** Writes all bytes, or breaks after a prefix of them. A closed side is never written. */
    method WriteAll(bytes: seq<byte>) returns (ok: bool)
      requires !closed
      modifies this`written
      ensures ok <==> limit.None? || |old(written)| + |bytes| <= limit.value
      ensures ok ==> written == old(written) + bytes
      ensures old(written) <= written <= old(written) + bytes
    {
      ok := limit.None? || |written| + |bytes| <= limit.value;
      var sent := bytes;
      if !ok {
        sent := if |written| <= limit.value then bytes[..limit.value - |written|] else [];
      }
      written := written + sent;
    }

    /** Shuts the write side down, once. */
    method Shutdown() returns (ok: bool)
      requires !closed
      modifies this`closed
      ensures closed
      ensures limit.None? ==> ok
    {
      closed := true;
      ok := limit.None? || |written| < limit.value;
    }
  }

  /** Why an initial read or a handshake gives up. */
  datatype ReadError = ClosedEarly | TooLarge | Io | Rejected(reason: string)

  // ---------------------------------------------------------------- read until a verdict

  datatype Reading<+V> = Decided(verdict: V, buf: seq<byte>) | Closed | Broken

  /** Reads chunks of at most `chunk` bytes, appending each, until the buffer gets a verdict. */
  function Accumulate<V>(chunk: nat, decide: seq<byte> -> Option<V>, buf: seq<byte>, src: Source)
    : (r: (Reading<V>, Source))
    requires chunk > 0
    decreases |src.rest|
  {
    var step := src.Read(chunk);
    match step.0
    case Failed => (Broken, step.1)
    case Eof => (Closed, step.1)
    case Data(bytes) =>
      var got := buf + bytes;
      var v := decide(got);
      if v.Some? then (Decided(v.value, got), step.1) else Accumulate(chunk, decide, got, step.1)
  }

  /** Nothing is lost or reordered, and the deciding read started from an undecided buffer
      of `p` bytes, at most a chunk shorter. */
  lemma {:induction false} AccumulateKeepsBytes<V>(chunk: nat, decide: seq<byte> -> Option<V>,
                                                   buf: seq<byte>, src: Source)
    returns (p: nat)
    requires chunk > 0
    ensures var (r, s) := Accumulate(chunk, decide, buf, src);
      && (r.Decided? ==>
            && r.buf + s.rest == buf + src.rest && decide(r.buf) == Some(r.verdict)
            && |buf| <= p < |r.buf| <= p + chunk
            && (p == |buf| || decide((buf + src.rest)[..p]).None?))
      && (r.Closed? ==> s.rest == [] && (src.rest == [] || decide(buf + src.rest).None?))
      && (src.FaultFree() ==> !r.Broken? && s.FaultFree())
    decreases |src.rest|
  {
    p := |buf|;
    var step := src.Read(chunk);
    if step.0.Data? {
      var got := buf + step.0.bytes;
      assert got + step.1.rest == buf + src.rest;
      if decide(got).None? {
        p := AccumulateKeepsBytes(chunk, decide, got, step.1);
        assert (buf + src.rest)[..|got|] == got;
        if step.1.rest == [] {
          assert got == buf + src.rest;
        }
      }
    }
  }

  lemma {:induction false} AccumulateLeavesSuffix<V>(chunk: nat, decide: seq<byte> -> Option<V>,
                                                     buf: seq<byte>, src: Source)
    requires chunk > 0
    ensures Suffix(Accumulate(chunk, decide, buf, src).1.rest, src.rest)
    decreases |src.rest|
  {
    var step := src.Read(chunk);
    if step.0.Data? && decide(buf + step.0.bytes).None? {
      AccumulateLeavesSuffix(chunk, decide, buf + step.0.bytes, step.1);
    }
  }

  /** `n` single bytes, then `last`. */
  function Trickle(n: nat, last: seq<Arrival>): seq<Arrival> {
    if n == 0 then last else [Arrive(1)] + Trickle(n - 1, last)
  }

  lemma {:induction false} TrickleIsFaultFree(n: nat, last: seq<Arrival>, rest: seq<byte>)
    requires Source(rest, last).FaultFree()
    ensures Source(rest, Trickle(n, last)).FaultFree()
  {
    if n > 0 {
      TrickleIsFaultFree(n - 1, last, rest);
    }
  }

  lemma TrickleReadsOne(chunk: nat, rest: seq<byte>, n: nat, last: seq<Arrival>)
    requires chunk > 0 && 0 < n && rest != []
    ensures Source(rest, Trickle(n, last)).Read(chunk) == (Data(rest[..1]), Source(rest[1..], Trickle(n - 1, last)))
  {
    assert ([Arrive(1)] + Trickle(n - 1, last))[1..] == Trickle(n - 1, last);
  }

  lemma AccumulateOne<V>(chunk: nat, decide: seq<byte> -> Option<V>, all: seq<byte>, i: nat, n: nat, last: seq<Arrival>)
    requires chunk > 0 && i < |all| && n > 0 && decide(all[..i + 1]).None?
    ensures Accumulate(chunk, decide, all[..i], Source(all[i..], Trickle(n, last)))
         == Accumulate(chunk, decide, all[..i + 1], Source(all[i + 1..], Trickle(n - 1, last)))
  {
    TrickleReadsOne(chunk, all[i..], n, last);
    assert all[..i] + all[i..][..1] == all[..i + 1];
    assert all[i..][1..] == all[i + 1..];
  }

  /** Bytes of `all` that leave the buffer undecided can be made to arrive one by one. */
  lemma {:induction false} AccumulateTrickles<V>(chunk: nat, decide: seq<byte> -> Option<V>, all: seq<byte>,
                                                 i: nat, end: nat, last: seq<Arrival>)
    requires chunk > 0 && i <= end <= |all|
    requires forall k :: i < k <= end ==> decide(all[..k]).None?
    ensures Accumulate(chunk, decide, all[..i], Source(all[i..], Trickle(end - i, last)))
         == Accumulate(chunk, decide, all[..end], Source(all[end..], last))
    decreases end - i
  {
    hide Accumulate;
    if i < end {
      assert decide(all[..i + 1]).None?;
      AccumulateOne(chunk, decide, all, i, end - i, last);
      AccumulateTrickles(chunk, decide, all, i + 1, end, last);
    }
  }

  /** A read that completes the buffer ends the loop. */
  lemma AccumulateDecides<V>(chunk: nat, decide: seq<byte> -> Option<V>, all: seq<byte>,
                             i: nat, n: nat, last: seq<Arrival>)
    requires chunk > 0 && i + n <= |all|
    requires Source(all[i..], last).Read(chunk).0 == Data(all[i..i + n])
    requires decide(all[..i + n]).Some?
    ensures Accumulate(chunk, decide, all[..i], Source(all[i..], last)).0
         == Decided(decide(all[..i + n]).value, all[..i + n])
  {
    assert all[..i] + all[i..i + n] == all[..i + n];
  }
}
