// The byte streams and the channel the core works on: io.Writer (a connection, or a
// bytes.Buffer that never fails), io.Reader with io.ReadFull, a closable connection,
// and the buffered channel of received messages.
module Streams {
  import opened Model
  import opened Bytes

  /** What the write calls made so far on a writer amount to */
  datatype Sink = Sink(written: seq<byte>, calls: nat)

  datatype Outcome = Outcome(sink: Sink, err: Option<Error>)

  /**
   * Performs the writes `chunks` in order on a writer whose call number k fails with
   * faults[k] (and writes nothing); the first failing call ends the sequence.
   */
  function Run(faults: map<nat, Error>, s: Sink, chunks: seq<seq<byte>>): Outcome
    decreases |chunks|
  {
    if chunks == [] then Outcome(s, None)
    else if s.calls in faults then Outcome(Sink(s.written, s.calls + 1), Some(faults[s.calls]))
    else Run(faults, Sink(s.written + chunks[0], s.calls + 1), chunks[1..])
  }

  /** Writing a + b is writing a and then, unless that failed, writing b */
  lemma {:induction false} RunAppend(faults: map<nat, Error>, s: Sink, a: seq<seq<byte>>, b: seq<seq<byte>>)
    ensures Run(faults, s, a + b) ==
            var r := Run(faults, s, a); if r.err.Some? then r else Run(faults, r.sink, b)
    decreases |a|
  {
    if a == [] {
      assert a + b == b;
    } else if s.calls !in faults {
      assert (a + b)[1..] == a[1..] + b;
      RunAppend(faults, Sink(s.written + a[0], s.calls + 1), a[1..], b);
    }
  }

  /** Two writes: the second is made only if the first succeeded */
  lemma RunTwo(faults: map<nat, Error>, s: Sink, a: seq<byte>, b: seq<byte>)
    ensures Run(faults, s, [a, b]) ==
            var r := Run(faults, s, [a]); if r.err.Some? then r else Run(faults, r.sink, [b])
  {
    RunAppend(faults, s, [a], [b]);
    assert [a] + [b] == [a, b];
  }

  /** Once a prefix of the writes has failed, the writes after it make no difference */
  lemma RunStopsAtPrefix(faults: map<nat, Error>, s: Sink, chunks: seq<seq<byte>>, k: nat)
    requires k <= |chunks|
    requires Run(faults, s, chunks[..k]).err.Some?
    ensures Run(faults, s, chunks) == Run(faults, s, chunks[..k])
  {
    assert chunks == chunks[..k] + chunks[k..];
    RunAppend(faults, s, chunks[..k], chunks[k..]);
  }

  /**
   * One more step of a sequence of writes: after a prefix `done` that succeeded, the
   * writes `part` lead to `after`; and if they failed, whatever was to follow is never written.
   */
  lemma RunStep(faults: map<nat, Error>, s0: Sink, done: seq<seq<byte>>, part: seq<seq<byte>>,
                rest: seq<seq<byte>>, after: Outcome)
    requires Run(faults, s0, done).err.None?
    requires Run(faults, Run(faults, s0, done).sink, part) == after
    ensures Run(faults, s0, done + part) == after
    ensures after.err.Some? ==> Run(faults, s0, done + part + rest) == after
  {
    RunAppend(faults, s0, done, part);
    RunAppend(faults, s0, done + part, rest);
  }

  /** The writes all succeed exactly when none of their calls is faulty, and then every byte is written in order */
  lemma {:induction false} RunSucceeds(faults: map<nat, Error>, s: Sink, chunks: seq<seq<byte>>)
    ensures Run(faults, s, chunks).err.None? <==>
            forall k :: s.calls <= k < s.calls + |chunks| ==> k !in faults
    ensures Run(faults, s, chunks).err.None? ==>
            Run(faults, s, chunks).sink == Sink(s.written + Flatten(chunks), s.calls + |chunks|)
    decreases |chunks|
  {
    if chunks != [] && s.calls !in faults {
      var s' := Sink(s.written + chunks[0], s.calls + 1);
      RunSucceeds(faults, s', chunks[1..]);
      assert s.written + chunks[0] + Flatten(chunks[1..]) == s.written + Flatten(chunks);
    }
  }

  /**
   * When call j is the first faulty one, its error is returned, the chunks before it
   * are written and nothing after it is attempted.
   */
  lemma {:induction false} RunFails(faults: map<nat, Error>, s: Sink, chunks: seq<seq<byte>>, j: nat)
    requires j < |chunks| && s.calls + j in faults
    requires forall k :: s.calls <= k < s.calls + j ==> k !in faults
    ensures Run(faults, s, chunks) ==
            Outcome(Sink(s.written + Flatten(chunks[..j]), s.calls + j + 1), Some(faults[s.calls + j]))
    decreases j
  {
    if j > 0 {
      var s' := Sink(s.written + chunks[0], s.calls + 1);
      RunFails(faults, s', chunks[1..], j - 1);
      assert chunks[..j] == [chunks[0]] + chunks[1..][..j - 1];
      assert s.written + chunks[0] + Flatten(chunks[1..][..j - 1]) == s.written + Flatten(chunks[..j]);
    }
  }

  /** An io.Writer whose write calls fail at the positions `faults` names */
  class Writer {
    var written: seq<byte>
    var calls: nat
    const faults: map<nat, Error>

    function State(): Sink
      reads this
    {
      Sink(written, calls)
    }

    constructor (faults: map<nat, Error>)
      ensures State() == Sink([], 0) && this.faults == faults
    {
      written, calls := [], 0;
      this.faults := faults;
    }

    /** A bytes.Buffer: every write succeeds */
    constructor Buffer()
      ensures State() == Sink([], 0) && faults == map[]
    {
      written, calls := [], 0;
      faults := map[];
    }

    method Write(b: seq<byte>) returns (n: nat, err: Option<Error>)
      modifies this
      ensures Outcome(State(), err) == Run(faults, old(State()), [b])
      ensures n == if err.None? then |b| else 0
    {
      if calls in faults {
        n, err := 0, Some(faults[calls]);
      } else {
        n, err := |b|, None;
        written := written + b;
      }
      calls := calls + 1;
    }
  }

  datatype Read = Read(got: seq<byte>, used: nat, err: Option<Error>)

  /** io.ReadFull of n bytes from a stream whose remaining bytes are s */
  function ReadFullOf(s: seq<byte>, n: nat): (r: Read)
    ensures r.used <= |s| && r.got == s[..r.used]
    ensures r.err.None? <==> n <= |s|
    ensures r.err.None? ==> r.used == n
    ensures r.err.Some? ==> r.used == |s| && r.err.value == (if s == [] then EOF else UnexpectedEOF)
  {
    if n <= |s| then Read(s[..n], n, None)
    else Read(s, |s|, Some(if s == [] then EOF else UnexpectedEOF))
  }

  /** An io.Reader over a finite byte stream (a bytes.Reader, or what a peer sends) */
  class Reader {
    var rest: seq<byte>

    constructor (data: seq<byte>)
      ensures rest == data
    {
      rest := data;
    }

    method ReadFull(n: nat) returns (got: seq<byte>, err: Option<Error>)
      modifies this
      ensures var r := ReadFullOf(old(rest), n); got == r.got && err == r.err && rest == old(rest)[r.used..]
    {
      var r := ReadFullOf(rest, n);
      got, err := r.got, r.err;
      rest := rest[r.used..];
    }
  }

  /** A connection to the node: what the peer sends, what is written to it, and whether it was closed */
  class Connection {
    const input: Reader
    const output: Writer
    var closed: bool

    constructor (input: Reader, output: Writer)
      ensures this.input == input && this.output == output && !closed
    {
      this.input, this.output := input, output;
      closed := false;
    }

    method Close()
      modifies this
      ensures closed
    {
      closed := true;
    }
  }

  /** The buffered channel of received messages, as the queue of events not yet taken */
  class Channel {
    const capacity: nat
    var events: seq<Event>

    constructor (capacity: nat)
      ensures this.capacity == capacity && events == []
    {
      this.capacity := capacity;
      events := [];
    }

    method Send(e: Event)
      modifies this
      ensures events == old(events) + [e]
    {
      events := events + [e];
    }

    method Receive() returns (e: Event)
      requires events != []
      modifies this
      ensures e == old(events)[0] && events == old(events)[1..]
    {
      e := events[0];
      events := events[1..];
    }
  }
}
