// The listening side of the handshake (listenReceiveChannel in core/receive.go): the
// messages taken from the receive channel become signals on two unbuffered gate
// channels, one for a version message and one for the first verack. The sender
// receives from the version gate at most once, and a signal nobody receives blocks
// the listener for good (the send is not guarded by the deadline): after the verack
// signal, or after a version signal the sender does not take, the listener takes
// no more messages.
module Handshake {
  import opened Model

  /** The two gate channels the listener signals on */
  datatype Gate = VersionGate | VerackGate

  predicate IsVersion(e: Event)
  {
    e.header.command == VersionCmd
  }

  predicate IsVerack(e: Event)
  {
    e.header.command == VerackCmd
  }

  /** Neither a version nor a verack: logged and passed over */
  predicate Other(e: Event)
  {
    !IsVersion(e) && !IsVerack(e)
  }

  /**
   * The signals the listener gives for the messages es, in order, when `accepted`
   * says whether the sender will still receive a version signal. A version signal
   * that is not received is the last one: the listener blocks on it.
   */
  function Listen(es: seq<Event>, accepted: bool): seq<Gate>
  {
    if es == [] then []
    else if IsVersion(es[0]) then [VersionGate] + (if accepted then Listen(es[1..], false) else [])
    else if IsVerack(es[0]) then [VerackGate]
    else Listen(es[1..], accepted)
  }

  /** How many of the messages es the listener takes before it stops or blocks */
  function Taken(es: seq<Event>, accepted: bool): (n: nat)
    ensures n <= |es|
  {
    if es == [] then 0
    else if IsVersion(es[0]) then 1 + (if accepted then Taken(es[1..], false) else 0)
    else if IsVerack(es[0]) then 1
    else 1 + Taken(es[1..], accepted)
  }

  /**
   * The listener takes the messages up to and including the first version or verack;
   * after a version the sender receives, it goes on with the version gate closed.
   */
  lemma {:induction false} TakenFirst(es: seq<Event>, accepted: bool, j: nat)
    requires j < |es| && !Other(es[j]) && forall k :: 0 <= k < j ==> Other(es[k])
    ensures Taken(es, accepted) == if IsVersion(es[j]) && accepted then j + 1 + Taken(es[j + 1..], false) else j + 1
  {
    if j > 0 {
      assert forall k :: 0 <= k < j - 1 ==> es[1..][k] == es[k + 1];
      assert es[1..][j - 1..] == es[j..] && es[1..][j..] == es[j + 1..];
      TakenFirst(es[1..], accepted, j - 1);
    }
  }

  /** Without a version or a verack the listener takes every message */
  lemma {:induction false} TakenWithoutSignal(es: seq<Event>, accepted: bool)
    requires forall k :: 0 <= k < |es| ==> Other(es[k])
    ensures Taken(es, accepted) == |es|
  {
    if es != [] {
      assert forall k :: 0 <= k < |es| - 1 ==> es[1..][k] == es[k + 1];
      TakenWithoutSignal(es[1..], accepted);
    }
  }

  /**
   * The listener gives at most two signals (one when the sender takes no version
   * signal), and only the last one can be a verack signal.
   */
  lemma {:induction false} ListenStops(es: seq<Event>, accepted: bool)
    ensures |Listen(es, accepted)| <= if accepted then 2 else 1
    ensures forall k :: 0 <= k < |Listen(es, accepted)| - 1 ==> Listen(es, accepted)[k] == VersionGate
  {
    if es != [] {
      ListenStops(es[1..], accepted);
      ListenStops(es[1..], false);
    }
  }

  /** Messages that are neither version nor verack make no difference to the signals */
  lemma {:induction false} SkipOthers(es: seq<Event>, accepted: bool, a: nat, b: nat)
    requires a <= b <= |es| && forall k :: a <= k < b ==> Other(es[k])
    ensures Listen(es[a..], accepted) == Listen(es[b..], accepted)
    decreases b - a
  {
    if a < b {
      assert es[a..][1..] == es[a + 1..];
      SkipOthers(es, accepted, a + 1, b);
    }
  }

  /** When the listener gives some signal from position a on, there is a first version or verack from a */
  lemma {:induction false} FirstListed(es: seq<Event>, accepted: bool, a: nat)
    requires a <= |es| && Listen(es[a..], accepted) != []
    ensures exists b :: a <= b < |es| && !Other(es[b]) && forall k :: a <= k < b ==> Other(es[k])
    decreases |es| - a
  {
    if a == |es| {
      assert false;
    } else if Other(es[a]) {
      assert es[a..][1..] == es[a + 1..];
      FirstListed(es, accepted, a + 1);
      var b :| a + 1 <= b < |es| && !Other(es[b]) && forall k :: a + 1 <= k < b ==> Other(es[k]);
      assert forall k :: a <= k < b ==> Other(es[k]);
    } else {
      assert !Other(es[a]);
    }
  }

  /** Exactly one version message before the first verack, at i, with the verack at j */
  ghost predicate OneVersionThenVerack(es: seq<Event>, i: int, j: int)
  {
    0 <= i < j < |es| && IsVersion(es[i]) && IsVerack(es[j]) && forall k :: 0 <= k < j && k != i ==> Other(es[k])
  }

  lemma ListenAt(es: seq<Event>, accepted: bool, a: nat)
    requires a < |es|
    ensures Listen(es[a..], accepted) ==
            if IsVersion(es[a]) then [VersionGate] + (if accepted then Listen(es[a + 1..], false) else [])
            else if IsVerack(es[a]) then [VerackGate]
            else Listen(es[a + 1..], accepted)
  {
    assert es[a..][0] == es[a] && es[a..][1..] == es[a + 1..];
  }

  /** The first message that counts is a version, and after it the listener gives only the verack signal */
  lemma FirstVersion(es: seq<Event>) returns (i: nat)
    requires Listen(es, true) == [VersionGate, VerackGate]
    ensures i < |es| && IsVersion(es[i]) && (forall k :: 0 <= k < i ==> Other(es[k]))
    ensures Listen(es[i + 1..], false) == [VerackGate]
  {
    assert es[0..] == es;
    FirstListed(es, true, 0);
    i :| 0 <= i < |es| && !Other(es[i]) && forall k :: 0 <= k < i ==> Other(es[k]);
    SkipOthers(es, true, 0, i);
    ListenAt(es, true, i);
    var rest := Listen(es[i + 1..], false);
    assert IsVersion(es[i]);
    assert rest == Listen(es[i..], true)[1..];
  }

  /** When only the verack signal is left from a on, the next message that counts is a verack */
  lemma NextVerack(es: seq<Event>, a: nat) returns (j: nat)
    requires a <= |es| && Listen(es[a..], false) == [VerackGate]
    ensures a <= j < |es| && IsVerack(es[j]) && forall k :: a <= k < j ==> Other(es[k])
  {
    FirstListed(es, false, a);
    j :| a <= j < |es| && !Other(es[j]) && forall k :: a <= k < j ==> Other(es[k]);
    SkipOthers(es, false, a, j);
    ListenAt(es, false, j);
    assert Listen(es[j..], false)[0] == VerackGate;
  }

  lemma ListenOneVersion(es: seq<Event>)
    requires Listen(es, true) == [VersionGate, VerackGate]
    ensures exists i, j :: OneVersionThenVerack(es, i, j)
  {
    var i := FirstVersion(es);
    var j := NextVerack(es, i + 1);
    assert OneVersionThenVerack(es, i, j);
  }

  lemma OneVersionListen(es: seq<Event>, i: int, j: int)
    requires OneVersionThenVerack(es, i, j)
    ensures Listen(es, true) == [VersionGate, VerackGate]
  {
    assert es[0..] == es;
    SkipOthers(es, true, 0, i);
    SkipOthers(es, false, i + 1, j);
    ListenAt(es, true, i);
    ListenAt(es, false, j);
  }

  /**
   * When the sender takes the version signal, the listener gives exactly one version
   * signal and then the verack signal exactly when, before the first verack, exactly
   * one version message arrives; it then takes the messages up to that verack.
   */
  lemma ListenHandshake(es: seq<Event>)
    ensures Listen(es, true) == [VersionGate, VerackGate] <==> exists i, j :: OneVersionThenVerack(es, i, j)
    ensures forall i, j :: OneVersionThenVerack(es, i, j) ==> Taken(es, true) == j + 1
  {
    if Listen(es, true) == [VersionGate, VerackGate] {
      ListenOneVersion(es);
    }
    if exists i, j :: OneVersionThenVerack(es, i, j) {
      var i, j :| OneVersionThenVerack(es, i, j);
      OneVersionListen(es, i, j);
    }
    forall i, j | OneVersionThenVerack(es, i, j)
      ensures Taken(es, true) == j + 1
    {
      TakenFirst(es, true, i);
      var rest := es[i + 1..];
      assert forall k :: 0 <= k < j - i - 1 ==> rest[k] == es[i + 1 + k];
      TakenFirst(rest, false, j - i - 1);
    }
  }
}
