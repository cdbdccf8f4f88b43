/**
 * The client channel of local/proxy/channel.go: the state a RemoteChannel keeps
 * (sent-event counter, auth result, IV, running flag, the queue feeding the writer)
 * and the decisions its loops take on each turn: which frames a batch holds and
 * under which key each is encrypted, how decoded inbound events are gated on the
 * authentication result, what a reconnect resets, and how Init reads the auth code.
 *
 * The event codec is uninterpreted: encrypting is recorded as a Frame (event, key)
 * and decoding is given as the sequence of results DecryptEvent produced. The
 * transport is reduced to its `closed` flag. The goroutines, the sleeps and the
 * wall clock are not modelled: each method is one turn of one loop.
 */
module ProxyChannel {
  import opened Wrappers

  /** connSendedEvents is a Go uint32. */
  const UInt32Modulus: int := 0x1_0000_0000
  /** The IV is a Go uint64 filled from rand.Int63, so it is below 2^63. */
  const Int63Bound: int := 0x8000_0000_0000_0000

  /**
   * The auth result codes Init distinguishes (event.SuccessAuthed, event.ErrAuthFailed).
   * The event package is not part of this model: the values below are placeholders,
   * and every proof uses only that they are distinct and non-zero.
   */
  const SuccessAuthed: int := 1
  const ErrAuthFailed: int := 2

  /** The events the channel looks inside; every other event type is opaque. */
  datatype Event =
    | AuthEvent(index: int, iv: nat)
    | NotifyEvent(code: int)
    | OpaqueEvent(id: int)

  /** One call of event.EncryptEvent: the event and the key it is encrypted under. */
  datatype Frame = Frame(ev: Event, key: nat)

  /** One result of event.DecryptEvent on the read buffer. */
  datatype Decoded =
    | DecodedEvent(ev: Event)
    | NeedMoreBytes   // event.EBNR: the buffer holds no complete event yet
    | DecodeFailed    // any other decode error

  /** How the decode loop over one read buffer ended. */
  datatype DecodeStop = BufferEmpty | AwaitMoreBytes | DecodeError

  /** What one turn of the write loop did. */
  datatype WriteTurn =
    | WriterExit(dropped: seq<Event>)              // writer returns; `dropped` are never sent
    | WaitForConnection(pending: seq<Event>)       // connection closed: keep the events
    | BatchWritten(batch: seq<Frame>, failed: bool) // batch handed to conn.Write

  /** What the reconnect step at the top of the read loop did. */
  datatype ReconnectTurn =
    | ReaderExit              // not running: the read loop ends
    | ConnectionOpen          // connection was not closed: nothing to do
    | IdleNoSessions          // closed, but no proxy session needs it
    | OpenFailed              // closed, fresh IV drawn, Open failed
    | Reopened(wakeWriter: bool) // closed, fresh IV drawn, Open succeeded

  /** How Init ends. */
  datatype InitResult = InitOk | AuthTimeout | AuthFailed | UnexpectedAuthCode(code: int)

  // ---------------------------------------------------------------------------
  // Batch composition (processWrite)
  // ---------------------------------------------------------------------------

  /** Whether the writer prepends its own auth frame to a batch. */
  predicate JoinsAuth(writeJoinAuth: bool, openJoinAuth: bool, sent: nat): (b: bool)
    ensures b ==> writeJoinAuth || openJoinAuth
  {
    writeJoinAuth || (sent == 0 && openJoinAuth)
  }

  /** How one queued event is encrypted: an AuthEvent gets the current IV and key 0,
      every other event is encrypted with the current IV as key. */
  function EventFrame(ev: Event, civ: nat): (f: Frame)
    ensures f.key == (if ev.AuthEvent? then 0 else civ)
    ensures ev.AuthEvent? ==> f.ev == AuthEvent(ev.index, civ)
    ensures !ev.AuthEvent? ==> f.ev == ev
  {
    match ev
    case AuthEvent(ix, _) => Frame(AuthEvent(ix, civ), 0)
    case _ => Frame(ev, civ)
  }

  /** The frames of one batch: an optional auth frame, then the events in queue order. */
  function BatchFrames(joinAuth: bool, index: int, civ: nat, evs: seq<Event>): (b: seq<Frame>)
    ensures |b| == |evs| + (if joinAuth then 1 else 0)
  {
    (if joinAuth then [Frame(AuthEvent(index, civ), 0)] else [])
    + seq(|evs|, i requires 0 <= i < |evs| => EventFrame(evs[i], civ))
  }

  /**
   * A batch holds exactly one frame per queued event, in queue order, plus one auth
   * frame carrying the channel index and the current IV under key 0, placed first,
   * exactly when the writer joins auth.
   */
  lemma BatchShape(joinAuth: bool, index: int, civ: nat, evs: seq<Event>)
    ensures var b := BatchFrames(joinAuth, index, civ, evs);
            var off := if joinAuth then 1 else 0;
            && |b| == |evs| + off
            && (joinAuth ==> b[0] == Frame(AuthEvent(index, civ), 0))
            && forall i :: 0 <= i < |evs| ==> b[off + i] == EventFrame(evs[i], civ)
  {
  }

  /** Queuing one more event appends its frame to the batch. */
  lemma BatchFramesSnoc(joinAuth: bool, index: int, civ: nat, evs: seq<Event>, ev: Event)
    ensures BatchFrames(joinAuth, index, civ, evs + [ev]) == BatchFrames(joinAuth, index, civ, evs) + [EventFrame(ev, civ)]
  {
    var a := seq(|evs| + 1, i requires 0 <= i < |evs| + 1 => EventFrame((evs + [ev])[i], civ));
    var b := seq(|evs|, i requires 0 <= i < |evs| => EventFrame(evs[i], civ));
    assert a == b + [EventFrame(ev, civ)];
  }

  /**
   * Whether each of successive batches on one connection carries the writer's auth
   * frame, the counter advancing between them as ComposeBatch advances it (one per
   * frame, modulo 2^32). `civ` is the IV of the connection.
   */
  function AuthFlags(writeJoinAuth: bool, openJoinAuth: bool, index: int, civ: nat, sent: nat,
                     batches: seq<seq<Event>>): (r: seq<bool>)
    ensures |r| == |batches|
    decreases |batches|
  {
    if |batches| == 0 then []
    else
      var join := JoinsAuth(writeJoinAuth, openJoinAuth, sent);
      var next := (sent + |BatchFrames(join, index, civ, batches[0])|) % UInt32Modulus;
      [join] + AuthFlags(writeJoinAuth, openJoinAuth, index, civ, next, batches[1..])
  }

  /** The number of queued events in a run of batches. */
  function EventCount(batches: seq<seq<Event>>): nat {
    if |batches| == 0 then 0 else |batches[0]| + EventCount(batches[1..])
  }

  /** With WriteJoinAuth every batch carries the auth frame. */
  lemma {:induction false} WriteJoinAuthEveryBatch(openJoinAuth: bool, index: int, civ: nat, sent: nat, batches: seq<seq<Event>>)
    ensures forall k :: 0 <= k < |batches| ==> AuthFlags(true, openJoinAuth, index, civ, sent, batches)[k]
    decreases |batches|
  {
    if |batches| > 0 {
      var next := (sent + |BatchFrames(true, index, civ, batches[0])|) % UInt32Modulus;
      WriteJoinAuthEveryBatch(openJoinAuth, index, civ, next, batches[1..]);
    }
  }

  /** Once the counter is past zero and does not wrap, no batch carries the OpenJoinAuth frame. */
  lemma {:induction false} NoAuthOnceCounted(index: int, civ: nat, sent: nat, batches: seq<seq<Event>>)
    requires 0 < sent && sent + EventCount(batches) < UInt32Modulus
    ensures forall k :: 0 <= k < |batches| ==> !AuthFlags(false, true, index, civ, sent, batches)[k]
    decreases |batches|
  {
    if |batches| > 0 {
      BatchShape(false, index, civ, batches[0]);
      var next := (sent + |BatchFrames(false, index, civ, batches[0])|) % UInt32Modulus;
      assert next == sent + |batches[0]|;
      NoAuthOnceCounted(index, civ, next, batches[1..]);
    }
  }

  /**
   * With OpenJoinAuth alone, starting from the zero counter a (re)connect leaves, the
   * first batch carries the writer's auth frame and no later batch on the same
   * connection does, as long as the uint32 counter does not wrap back to zero.
   */
  lemma {:induction false} OpenJoinAuthFirstBatchOnly(index: int, civ: nat, batches: seq<seq<Event>>)
    requires |batches| > 0 && EventCount(batches) + 1 < UInt32Modulus
    ensures forall k :: 0 <= k < |batches| ==> (AuthFlags(false, true, index, civ, 0, batches)[k] <==> k == 0)
  {
    BatchShape(true, index, civ, batches[0]);
    var next := |BatchFrames(true, index, civ, batches[0])| % UInt32Modulus;
    assert next == |batches[0]| + 1;
    NoAuthOnceCounted(index, civ, next, batches[1..]);
  }

  /** The uint32 counter wraps around, so it counts frames modulo 2^32. */
  lemma AddModulo(a: nat, b: nat)
    ensures (a % UInt32Modulus + b % UInt32Modulus) % UInt32Modulus == (a + b) % UInt32Modulus
  {
  }

  /** The events readBufferEv keeps from the queue: nil entries are dropped. */
  function Present(items: seq<Option<Event>>): (evs: seq<Event>)
    ensures |evs| <= |items|
  {
    if |items| == 0 then []
    else (if items[0].Some? then [items[0].value] else []) + Present(items[1..])
  }

  /** Dropping nil entries distributes over concatenation, so the order is kept. */
  lemma {:induction false} PresentAppend(a: seq<Option<Event>>, b: seq<Option<Event>>)
    ensures Present(a + b) == Present(a) + Present(b)
  {
    if |a| > 0 {
      assert (a + b)[1..] == a[1..] + b;
      PresentAppend(a[1..], b);
    } else {
      assert a + b == b;
    }
  }

  /** Only Some entries reach the batch, and all of them do. */
  lemma {:induction false} PresentCount(items: seq<Option<Event>>, e: Event)
    ensures multiset(Present(items))[e] == multiset(items)[Some(e)]
  {
    if |items| > 0 {
      PresentCount(items[1..], e);
      assert items == [items[0]] + items[1..];
    }
  }

  // ---------------------------------------------------------------------------
  // Inbound gating (processRead)
  // ---------------------------------------------------------------------------

  /** The part of the read loop's state the gate reads and writes, plus the events
      handed to HandleEvent so far. */
  datatype GateState = GateState(authResult: int, closed: bool, handled: seq<Event>)

  /** The gate applied to one decoded event. */
  function GateEvent(s: GateState, ev: Event): (r: GateState)
    ensures s.closed ==> r.closed
    ensures s.authResult != 0 ==> r.authResult == s.authResult && r.closed == s.closed
    ensures r.handled == s.handled || r.handled == s.handled + [ev]
  {
    if ev.NotifyEvent? && s.authResult == 0 then s.(authResult := ev.code)
    else if s.authResult == 0 then s.(closed := true)
    else s.(handled := s.handled + [ev])
  }

  /** The decode loop over the results DecryptEvent produced for one read buffer. */
  function Gate(s: GateState, ds: seq<Decoded>): (r: (GateState, DecodeStop))
    ensures s.closed ==> r.0.closed
    ensures r.1 == DecodeError ==> r.0.closed
    ensures |r.0.handled| >= |s.handled|
    decreases |ds|
  {
    if |ds| == 0 then (s, BufferEmpty)
    else
      match ds[0]
      case NeedMoreBytes => (s, AwaitMoreBytes)
      case DecodeFailed => (s.(closed := true), DecodeError)
      case DecodedEvent(ev) => Gate(GateEvent(s, ev), ds[1..])
  }

  /** The events decoded before the first decode error or need-more-bytes result. */
  function DecodedPrefix(ds: seq<Decoded>): seq<Event> {
    if |ds| == 0 || !ds[0].DecodedEvent? then [] else [ds[0].ev] + DecodedPrefix(ds[1..])
  }

  /** Position of the first notification with a non-zero code, if there is one. */
  function FirstAuthNotice(evs: seq<Event>): (k: Option<nat>)
    ensures k.Some? ==> k.value < |evs| && evs[k.value].NotifyEvent? && evs[k.value].code != 0
    ensures k.Some? ==> forall j :: 0 <= j < k.value ==> !(evs[j].NotifyEvent? && evs[j].code != 0)
    ensures k.None? ==> forall j :: 0 <= j < |evs| ==> !(evs[j].NotifyEvent? && evs[j].code != 0)
  {
    if |evs| == 0 then None
    else if evs[0].NotifyEvent? && evs[0].code != 0 then Some(0)
    else match FirstAuthNotice(evs[1..])
      case None => None
      case Some(k) => Some(k + 1)
  }

  /**
   * Once the channel is authenticated, every decoded event is handed to HandleEvent
   * in order (notifications included) and the auth result does not change.
   */
  lemma {:induction false} GateWhenAuthed(s: GateState, ds: seq<Decoded>)
    requires s.authResult != 0
    ensures Gate(s, ds).0.authResult == s.authResult
    ensures Gate(s, ds).0.handled == s.handled + DecodedPrefix(ds)
    decreases |ds|
  {
    if |ds| > 0 && ds[0].DecodedEvent? {
      var ev := ds[0].ev;
      var s' := s.(handled := s.handled + [ev]);
      assert GateEvent(s, ev) == s';
      assert Gate(s, ds) == Gate(s', ds[1..]);
      GateWhenAuthed(s', ds[1..]);
      assert DecodedPrefix(ds) == [ev] + DecodedPrefix(ds[1..]);
      assert s.handled + [ev] + DecodedPrefix(ds[1..]) == s.handled + DecodedPrefix(ds);
    } else {
      assert DecodedPrefix(ds) == [];
      assert s.handled + [] == s.handled;
    }
  }

  /**
   * While the channel is not authenticated nothing is handed to HandleEvent before
   * the first notification with a non-zero code: that notification sets the auth
   * result and is swallowed, and only the events decoded after it are dispatched.
   * Without such a notification the auth result stays 0 and nothing is dispatched.
   */
  lemma {:induction false} GateBeforeAuth(s: GateState, ds: seq<Decoded>)
    requires s.authResult == 0
    ensures var evs := DecodedPrefix(ds);
            var r := Gate(s, ds).0;
            match FirstAuthNotice(evs)
            case None => r.authResult == 0 && r.handled == s.handled
            case Some(k) => r.authResult == evs[k].code && r.handled == s.handled + evs[k + 1..]
    decreases |ds|
  {
    if |ds| > 0 && ds[0].DecodedEvent? {
      var ev := ds[0].ev;
      var evs := DecodedPrefix(ds);
      assert evs == [ev] + DecodedPrefix(ds[1..]);
      if ev.NotifyEvent? && ev.code != 0 {
        GateWhenAuthed(GateEvent(s, ev), ds[1..]);
        assert evs[1..] == DecodedPrefix(ds[1..]);
      } else {
        GateBeforeAuth(GateEvent(s, ev), ds[1..]);
        SkipUnauthedEvent(ev, DecodedPrefix(ds[1..]));
      }
    }
  }

  /** An event other than a non-zero notification only shifts the first auth notice. */
  lemma SkipUnauthedEvent(ev: Event, rest: seq<Event>)
    requires !(ev.NotifyEvent? && ev.code != 0)
    ensures match FirstAuthNotice(rest)
            case None => FirstAuthNotice([ev] + rest).None?
            case Some(k) => FirstAuthNotice([ev] + rest) == Some(k + 1)
                            && ([ev] + rest)[k + 1] == rest[k] && ([ev] + rest)[k + 2..] == rest[k + 1..]
  {
    assert ([ev] + rest)[1..] == rest;
  }

  /** A non-notification decoded while not authenticated closes the connection. */
  lemma {:induction false} GateProtocolErrorCloses(s: GateState, ds: seq<Decoded>, j: nat)
    requires s.authResult == 0
    requires j < |DecodedPrefix(ds)| && !DecodedPrefix(ds)[j].NotifyEvent?
    requires forall i :: 0 <= i < j ==> !(DecodedPrefix(ds)[i].NotifyEvent? && DecodedPrefix(ds)[i].code != 0)
    ensures Gate(s, ds).0.closed
    decreases |ds|
  {
    var ev := ds[0].ev;
    var s' := GateEvent(s, ev);
    assert DecodedPrefix(ds) == [ev] + DecodedPrefix(ds[1..]);
    if j > 0 {
      assert DecodedPrefix(ds)[0] == ev;
      forall i | 0 <= i < j - 1
        ensures !(DecodedPrefix(ds[1..])[i].NotifyEvent? && DecodedPrefix(ds[1..])[i].code != 0)
      {
        assert DecodedPrefix(ds[1..])[i] == DecodedPrefix(ds)[i + 1];
      }
      assert DecodedPrefix(ds[1..])[j - 1] == DecodedPrefix(ds)[j];
      GateProtocolErrorCloses(s', ds[1..], j - 1);
    }
  }

  /** Once authenticated, only a fatal decode error changes the closed flag: without
      one an open connection stays open (and a closed one stays closed). */
  lemma {:induction false} AuthedKeepsConnection(s: GateState, ds: seq<Decoded>)
    requires s.authResult != 0
    requires forall i :: 0 <= i < |ds| ==> !ds[i].DecodeFailed?
    ensures Gate(s, ds).0.closed == s.closed
    decreases |ds|
  {
    if |ds| > 0 && ds[0].DecodedEvent? {
      AuthedKeepsConnection(GateEvent(s, ds[0].ev), ds[1..]);
    }
  }

  /** A decode pass only appends to the dispatched events: those dispatched before it
      stay at the front, unchanged and in order. */
  lemma {:induction false} GatePrefix(s: GateState, ds: seq<Decoded>)
    ensures |s.handled| <= |Gate(s, ds).0.handled| && Gate(s, ds).0.handled[..|s.handled|] == s.handled
    decreases |ds|
  {
    if |ds| > 0 && ds[0].DecodedEvent? {
      var s' := GateEvent(s, ds[0].ev);
      GatePrefix(s', ds[1..]);
      assert s'.handled[..|s.handled|] == s.handled;
    }
  }

  /** The pass runs to the end of the buffer exactly when every result was an event;
      a decode error or a shortage of bytes ends it early. */
  lemma {:induction false} GateStopReason(s: GateState, ds: seq<Decoded>)
    ensures Gate(s, ds).1 == BufferEmpty <==> forall i :: 0 <= i < |ds| ==> ds[i].DecodedEvent?
    decreases |ds|
  {
    if |ds| > 0 && ds[0].DecodedEvent? {
      GateStopReason(GateEvent(s, ds[0].ev), ds[1..]);
      assert forall i :: 1 <= i < |ds| ==> ds[i] == ds[1..][i - 1];
    }
  }

  // ---------------------------------------------------------------------------
  // Init
  // ---------------------------------------------------------------------------

  /**
   * How Init reads the auth result it waited for: `observed` is None when the auth
   * timeout elapsed first, otherwise the first non-zero authResult seen.
   */
  function ClassifyAuth(observed: Option<int>): (r: InitResult)
    requires observed.Some? ==> observed.value != 0
    ensures r == InitOk <==> observed == Some(SuccessAuthed)
    ensures r == AuthFailed <==> observed == Some(ErrAuthFailed)
    ensures r == AuthTimeout <==> observed.None?
    ensures r.UnexpectedAuthCode? <==> observed.Some? && observed.value != SuccessAuthed && observed.value != ErrAuthFailed
    ensures r.UnexpectedAuthCode? ==> r.code == observed.value
  {
    match observed
    case None => AuthTimeout
    case Some(code) =>
      if code == ErrAuthFailed then AuthFailed
      else if code == SuccessAuthed then InitOk
      else UnexpectedAuthCode(code)
  }

  /** Init stops the channel on a timeout and on an auth failure, and only then. */
  predicate StopsChannel(r: InitResult) {
    r == AuthTimeout || r == AuthFailed
  }

  // ---------------------------------------------------------------------------
  // The channel object
  // ---------------------------------------------------------------------------

  class RemoteChannel {
    const index: int
    const directIO: bool
    const writeJoinAuth: bool
    const openJoinAuth: bool

    var connSendedEvents: nat
    var authResult: int
    var iv: nat
    var running: bool
    /** rc.C.Closed(): the only part of the transport the model keeps. */
    var closed: bool
    /** The events buffered in rc.wch, oldest first; nil is a wake-up signal. */
    var wch: seq<Option<Event>>
    /** How many times Stop was called. */
    ghost var stopCalls: nat

    ghost predicate Valid()
      reads this
    {
      connSendedEvents < UInt32Modulus && iv < Int63Bound
    }

    constructor (index: int, directIO: bool, writeJoinAuth: bool, openJoinAuth: bool)
      ensures Valid()
      ensures this.index == index && this.directIO == directIO && this.writeJoinAuth == writeJoinAuth
      ensures this.openJoinAuth == openJoinAuth
      ensures connSendedEvents == 0 && authResult == 0 && iv == 0
      ensures !running && closed && wch == [] && stopCalls == 0
    {
      this.index := index;
      this.directIO := directIO;
      this.writeJoinAuth := writeJoinAuth;
      this.openJoinAuth := openJoinAuth;
      connSendedEvents, authResult, iv := 0, 0, 0;
      running, closed, wch := false, true, [];
      stopCalls := 0;
    }

    /** authed(): an auth result has been received. */
    predicate Authed()
      reads this
    {
      authResult != 0
    }

    /** Stop: clear the running flag and close the transport. */
    method Stop()
      modifies this`running, this`closed, this`stopCalls
      ensures !running && closed && stopCalls == old(stopCalls) + 1
    {
      running := false;
      closed := true;
      stopCalls := stopCalls + 1;
    }

    /** Write: hand an event (or nil, to wake the writer) to the write loop. */
    method Write(ev: Option<Event>)
      modifies this`wch
      ensures wch == old(wch) + [ev]
    {
      wch := wch + [ev];
    }

    /**
     * Init: reset the auth state, then wait for the read loop to record an auth
     * result. `observed` is what the wait saw (see ClassifyAuth). The channel is
     * stopped on a timeout and on an auth failure; an unexpected code is reported
     * without stopping it.
     */
    method Init(observed: Option<int>) returns (r: InitResult)
      requires observed.Some? ==> observed.value != 0
      modifies this`running, this`authResult, this`wch, this`closed, this`stopCalls
      ensures r == ClassifyAuth(observed)
      ensures authResult == (if observed.Some? then observed.value else 0)
      ensures !directIO ==> wch == []
      ensures directIO ==> wch == old(wch)
      ensures StopsChannel(r) ==> !running && closed && stopCalls == old(stopCalls) + 1
      ensures !StopsChannel(r) ==> running && closed == old(closed) && stopCalls == old(stopCalls)
    {
      running := true;
      authResult := 0;
      if !directIO {
        wch := [];
      }
      if observed.None? {
        Stop();
        return AuthTimeout;
      }
      authResult := observed.value;
      if authResult == ErrAuthFailed {
        Stop();
        r := AuthFailed;
      } else if authResult == SuccessAuthed {
        r := InitOk;
      } else {
        r := UnexpectedAuthCode(authResult);
      }
    }

    /**
     * The frames of one batch, in the order they are encrypted into the buffer,
     * and the sent-event counter after it: it grows by one per frame, modulo 2^32.
     */
    method ComposeBatch(sendEvents: seq<Event>) returns (batch: seq<Frame>)
      requires Valid()
      modifies this`connSendedEvents
      ensures Valid()
      ensures batch == BatchFrames(JoinsAuth(writeJoinAuth, openJoinAuth, old(connSendedEvents)), index, iv, sendEvents)
      ensures connSendedEvents == (old(connSendedEvents) + |batch|) % UInt32Modulus
    {
      var civ := iv;
      var join := writeJoinAuth || (connSendedEvents == 0 && openJoinAuth);
      var header: seq<Frame> := [];
      if join {
        header := [Frame(AuthEvent(index, civ), 0)];
        connSendedEvents := (connSendedEvents + 1) % UInt32Modulus;
      }
      batch := header;
      assert sendEvents[..0] == [];
      for i := 0 to |sendEvents|
        invariant batch == BatchFrames(join, index, civ, sendEvents[..i])
        invariant connSendedEvents == (old(connSendedEvents) + |header|) % UInt32Modulus
      {
        BatchFramesSnoc(join, index, civ, sendEvents[..i], sendEvents[i]);
        assert sendEvents[..i + 1] == sendEvents[..i] + [sendEvents[i]];
        match sendEvents[i]
        case AuthEvent(ix, _) =>
          batch := batch + [Frame(AuthEvent(ix, civ), 0)];
        case _ =>
          batch := batch + [Frame(sendEvents[i], civ)];
      }
      assert sendEvents[..|sendEvents|] == sendEvents;
      BatchShape(join, index, civ, sendEvents);
      assert |batch| == |header| + |sendEvents|;
      AddModulo(old(connSendedEvents) + |header|, |sendEvents|);
      connSendedEvents := (connSendedEvents + |sendEvents| % UInt32Modulus) % UInt32Modulus;
    }

    /** The draining of rc.wch by readBufferEv: every buffered item is received, and
        the non-nil ones are kept in order. */
    method DrainQueue() returns (evs: seq<Event>)
      modifies this`wch
      ensures evs == Present(old(wch)) && wch == []
    {
      evs := [];
      ghost var all := wch;
      while |wch| > 0
        invariant all == old(wch)
        invariant Present(all) == evs + Present(wch)
        decreases |wch|
      {
        var sev := wch[0];
        assert Present(wch) == (if sev.Some? then [sev.value] else []) + Present(wch[1..]);
        wch := wch[1..];
        if sev.Some? {
          evs := evs + [sev.value];
        }
      }
    }

    /**
     * One turn of processWrite: the `for rc.running` test, then the loop body.
     * `pending` are the events kept from the previous turn (the connection was closed
     * then); when there are none the queue is drained. A turn that would block on an
     * empty queue is not a turn of this model. `stopMeanwhile` is whether Stop ran on
     * another goroutine while the writer was receiving. `writeOk` is whether
     * conn.Write succeeded; every frame encodes to at least one byte, so a batch with
     * a frame is written.
     */
    method ProcessWriteTurn(pending: seq<Event>, stopMeanwhile: bool, writeOk: bool) returns (turn: WriteTurn)
      requires Valid()
      requires running && |pending| == 0 ==> |wch| > 0
      modifies this`connSendedEvents, this`closed, this`wch, this`running, this`stopCalls
      ensures Valid()
      ensures !old(running) ==>
                && turn == WriterExit(pending) && !running
                && connSendedEvents == old(connSendedEvents) && closed == old(closed)
                && wch == old(wch) && stopCalls == old(stopCalls)
      ensures old(running) ==>
                && wch == (if |pending| == 0 then [] else old(wch))
                && running == !stopMeanwhile
                && stopCalls == old(stopCalls) + (if stopMeanwhile then 1 else 0)
      ensures old(running) ==>
              var evs := if |pending| == 0 then Present(old(wch)) else pending;
              var batch := BatchFrames(JoinsAuth(writeJoinAuth, openJoinAuth, old(connSendedEvents)), index, iv, evs);
              if stopMeanwhile && |evs| == 0 then
                turn == WriterExit([]) && connSendedEvents == old(connSendedEvents) && closed
              else if old(closed) || stopMeanwhile then
                turn == WaitForConnection(evs) && connSendedEvents == old(connSendedEvents) && closed
              else
                && turn == BatchWritten(batch, !writeOk && |batch| > 0)
                && connSendedEvents == (old(connSendedEvents) + |batch|) % UInt32Modulus
                && closed == (!writeOk && |batch| > 0)
    {
      if !running {
        return WriterExit(pending);
      }
      var sendEvents := pending;
      if |sendEvents| == 0 {
        sendEvents := DrainQueue();
      }
      if stopMeanwhile {
        Stop();
      }
      if !running && |sendEvents| == 0 {
        return WriterExit([]);
      }
      if closed {
        return WaitForConnection(sendEvents);
      }
      var batch := ComposeBatch(sendEvents);
      var failed := |batch| > 0 && !writeOk;
      if failed {
        closed := true;
      }
      turn := BatchWritten(batch, failed);
    }

    /**
     * The reconnect step at the top of processRead: the `for rc.running` test, then
     * the reconnect of a closed connection. A closed connection is left
     * alone while no proxy session exists; otherwise a fresh IV (`freshIv`, drawn
     * by rand.Int63) is taken, the sent-event counter is reset and Open is tried.
     * After a successful Open with OpenJoinAuth a nil event wakes the writer. The
     * auth result is not reset. The zeroed counter makes the writer's next batch
     * carry its auth frame again when OpenJoinAuth is set (OpenJoinAuthFirstBatchOnly).
     */
    method Reconnect(sessions: nat, freshIv: nat, openOk: bool) returns (r: ReconnectTurn)
      requires Valid() && freshIv < Int63Bound
      modifies this`iv, this`connSendedEvents, this`closed, this`wch
      ensures Valid()
      ensures !running ==> r == ReaderExit
      ensures running && !old(closed) ==> r == ConnectionOpen
      ensures running && old(closed) && sessions == 0 ==> r == IdleNoSessions
      ensures r == ReaderExit || r == ConnectionOpen || r == IdleNoSessions ==>
                iv == old(iv) && connSendedEvents == old(connSendedEvents) && closed == old(closed) && wch == old(wch)
      ensures running && old(closed) && sessions > 0 ==>
                && iv == freshIv && connSendedEvents == 0
                && JoinsAuth(writeJoinAuth, openJoinAuth, connSendedEvents) == (writeJoinAuth || openJoinAuth)
                && closed == !openOk
                && r == (if openOk then Reopened(openJoinAuth) else OpenFailed)
                && wch == (if openOk && openJoinAuth then old(wch) + [None] else old(wch))
    {
      if !running {
        return ReaderExit;
      }
      if !closed {
        return ConnectionOpen;
      }
      if sessions == 0 {
        return IdleNoSessions;
      }
      iv := freshIv;
      connSendedEvents := 0;
      if !openOk {
        return OpenFailed;
      }
      closed := false;
      if openJoinAuth {
        Write(None);
      }
      r := Reopened(openJoinAuth);
    }

    /**
     * One pass of the inner read loop: the results DecryptEvent produced for the
     * bytes read, gated one by one, then the read error if there was one. Returns
     * the events handed to HandleEvent, in order, and whether the loop breaks to
     * reconnect.
     */
    method ProcessReadTurn(decoded: seq<Decoded>, readFailed: bool) returns (handled: seq<Event>, stop: DecodeStop, reconnect: bool)
      modifies this`authResult, this`closed
      ensures var (g, st) := Gate(GateState(old(authResult), old(closed), []), decoded);
              && handled == g.handled && stop == st && authResult == g.authResult
              && closed == (g.closed || readFailed)
      ensures reconnect == readFailed
    {
      ghost var start := GateState(authResult, closed, []);
      handled := [];
      var i := 0;
      stop := BufferEmpty;
      while i < |decoded|
        invariant 0 <= i <= |decoded|
        invariant Gate(start, decoded) == Gate(GateState(authResult, closed, handled), decoded[i..])
      {
        assert decoded[i..][1..] == decoded[i + 1..];
        match decoded[i]
        case NeedMoreBytes =>
          stop := AwaitMoreBytes;
          break;
        case DecodeFailed =>
          closed := true;
          stop := DecodeError;
          break;
        case DecodedEvent(ev) =>
          if ev.NotifyEvent? && !Authed() {
            authResult := ev.code;
          } else if !Authed() {
            closed := true;
          } else {
            handled := handled + [ev];
          }
        i := i + 1;
      }
      if readFailed {
        closed := true;
      }
      reconnect := readFailed;
    }
  }
}
