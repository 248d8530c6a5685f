/**
 Reading PDUs in stages: the PDUs of the received stream, then one step of the bus model, then the
 PDUs that the bus model produced.

 A stream is a list of messages. The bus model is any deterministic model: whether it consumes a PDU
 and what it produces are functions of everything that happened to it before.
 */
module PduReader {
  import opened Bytes

  datatype Pdu = Pdu(id: nat, swcId: nat, payload: seq<byte>)

  /** `size` is the size prefix; `known` says that the message has the identifier of a PDU stream. */
  datatype Message = Message(size: nat, known: bool, pdus: Option<seq<Pdu>>)

  /** What happens to the bus model. */
  datatype Event = Consumed(pdu: Pdu) | Progressed(time: nat)

  // ---------------------------------------------------------------------------------------------
  // Streams
  // ---------------------------------------------------------------------------------------------

  /**
   The PDUs of a stream, in order. An empty message ends the stream, as does a message without a PDU
   vector; a message with another identifier is passed over.
   */
  function PdusFrom(messages: seq<Message>): seq<Pdu> {
    if messages == [] || messages[0].size == 0 then []
    else if !messages[0].known then PdusFrom(messages[1..])
    else if messages[0].pdus.None? then []
    else messages[0].pdus.value + PdusFrom(messages[1..])
  }

  class Stream {
    var messages: seq<Message>
    var pos: nat

    constructor ()
      ensures messages == [] && pos == 0
    {
      messages, pos := [], 0;
    }
  }

  /** The position of the reader in a stream: the message and the PDU vector in hand. */
  class Cursor {
    var message: Option<Message>
    var vector: Option<seq<Pdu>>
    var idx: nat

    constructor ()
      ensures IsReset()
    {
      message, vector, idx := None, None, 0;
    }

    predicate IsReset()
      reads this
    {
      message == None && vector == None && idx == 0
    }

    predicate Valid(s: Stream)
      reads this, s
    {
      && s.pos <= |s.messages|
      && (vector.Some? ==> message.Some? && message.value.pdus == vector && idx <= |vector.value|)
      && (vector.None? ==> idx == 0 && (message.Some? ==> message.value.pdus.None?))
    }

    /** The PDUs still to be read. */
    function Remaining(s: Stream): seq<Pdu>
      requires Valid(s)
      reads this, s
    {
      if message.None? then PdusFrom(s.messages[s.pos..])
      else if vector.None? then []
      else vector.value[idx..] + PdusFrom(s.messages[s.pos..])
    }

    method Reset()
      modifies this
      ensures IsReset()
    {
      message, vector, idx := None, None, 0;
    }

    /** Find the next message of a PDU stream, or go to the end of the stream. */
    method GetStream(s: Stream)
      requires s.pos <= |s.messages|
      modifies this, s`pos
      ensures s.pos <= |s.messages| && vector == None && idx == 0
      ensures message.Some? ==>
                && s.pos > old(s.pos)
                && PdusFrom(old(s.messages[s.pos..])) ==
                   if message.value.pdus.None? then []
                   else message.value.pdus.value + PdusFrom(s.messages[s.pos..])
      ensures message.None? ==> PdusFrom(old(s.messages[s.pos..])) == [] && s.pos == |s.messages|
    {
      Reset();
      while s.pos < |s.messages|
        invariant old(s.pos) <= s.pos <= |s.messages| && IsReset()
        invariant PdusFrom(s.messages[s.pos..]) == PdusFrom(old(s.messages[s.pos..]))
        decreases |s.messages| - s.pos
      {
        var m := s.messages[s.pos];
        assert s.messages[s.pos..][1..] == s.messages[s.pos + 1..];
        if m.size == 0 {
          break;
        }
        s.pos := s.pos + 1;
        if m.known {
          message := Some(m);
          return;
        }
      }
      s.pos := |s.messages|;
    }

    method GetVector()
      requires vector == None && idx == 0
      modifies this
      ensures message == old(message) && idx == 0
      ensures vector == if message.Some? then message.value.pdus else None
    {
      if message.None? {
        return;
      }
      vector := message.value.pdus;
    }

    /** Take the next PDU of the stream. */
    method GetPdu(s: Stream) returns (r: Option<Pdu>)
      requires Valid(s)
      modifies this, s`pos
      ensures Valid(s)
      ensures old(Remaining(s)) == [] ==> r == None && Remaining(s) == []
      ensures old(Remaining(s)) != [] ==> r == Some(old(Remaining(s))[0]) && Remaining(s) == old(Remaining(s))[1..]
    {
      if message.None? {
        GetStream(s);
      }
      if vector.None? {
        GetVector();
      }
      while message.Some? && vector.Some?
        invariant Valid(s) && Remaining(s) == old(Remaining(s))
        invariant message.None? ==> s.pos == |s.messages|
        decreases |s.messages| - s.pos, if message.Some? then 1 else 0
      {
        if idx < |vector.value| {
          r := Some(vector.value[idx]);
          idx := idx + 1;
          return;
        }
        GetStream(s);
        if message.Some? {
          GetVector();
        }
      }
      s.pos := |s.messages|;
      r := None;
    }
  }

  // ---------------------------------------------------------------------------------------------
  // What the stages deliver
  // ---------------------------------------------------------------------------------------------

  /** The bus model, if there is one: which PDUs it consumes, and what it produces, given its history. */
  datatype BusModel = BusModel(takes: (seq<Event>, Pdu) -> bool, produces: seq<Event> -> seq<Message>)

  datatype Setup = Setup(swcId: nat, loopback: bool, model: Option<BusModel>)
  {
    /** The PDU comes from this very component. */
    predicate Drops(p: Pdu) {
      swcId != 0 && swcId == p.swcId && !loopback
    }

    predicate Takes(events: seq<Event>, p: Pdu) {
      model.Some? && model.value.takes(events, p)
    }

    /** The history after the model has been offered a PDU. */
    function After(events: seq<Event>, p: Pdu): seq<Event> {
      if model.Some? then events + [Consumed(p)] else events
    }

    /** The history after the model's step. */
    function AfterProgress(events: seq<Event>, time: nat): seq<Event> {
      if model.Some? then events + [Progressed(time)] else events
    }

    function Produced(events: seq<Event>): seq<Pdu> {
      if model.Some? then PdusFrom(model.value.produces(events)) else []
    }
  }

  /** What is still to come: the PDUs to deliver, and the model's history when they are delivered. */
  datatype Outcome = Outcome(pdus: seq<Pdu>, events: seq<Event>)

  /** The first stage, from the stream PDUs still to be read. */
  function FirstStage(u: Setup, events: seq<Event>, pdus: seq<Pdu>): Outcome
    decreases |pdus|
  {
    if pdus == [] then Outcome([], events)
    else
      var rest := FirstStage(u, u.After(events, pdus[0]), pdus[1..]);
      if u.Takes(events, pdus[0]) || u.Drops(pdus[0]) then rest
      else Outcome([pdus[0]] + rest.pdus, rest.events)
  }

  /** All stages. */
  function AllStages(u: Setup, events: seq<Event>, pdus: seq<Pdu>, time: nat): Outcome {
    var first := FirstStage(u, events, pdus);
    var events' := u.AfterProgress(first.events, time);
    Outcome(first.pdus + u.Produced(events'), events')
  }

  function ConsumedAll(pdus: seq<Pdu>): (r: seq<Event>)
    ensures |r| == |pdus|
  {
    seq(|pdus|, i requires 0 <= i < |pdus| => Consumed(pdus[i]))
  }

  /** The history when PDU `k` of the stream is offered to the model. */
  function HistoryAt(u: Setup, events: seq<Event>, pdus: seq<Pdu>, k: nat): seq<Event>
    requires k <= |pdus|
  {
    if u.model.Some? then events + ConsumedAll(pdus[..k]) else events
  }

  predicate Kept(u: Setup, events: seq<Event>, pdus: seq<Pdu>, k: nat)
    requires k < |pdus|
  {
    !u.Takes(HistoryAt(u, events, pdus, k), pdus[k]) && !u.Drops(pdus[k])
  }

  /** The kept ones among the first `n` PDUs of the stream, in order. */
  function KeptOf(u: Setup, events: seq<Event>, pdus: seq<Pdu>, n: nat): seq<Pdu>
    requires n <= |pdus|
  {
    if n == 0 then []
    else KeptOf(u, events, pdus, n - 1) + if Kept(u, events, pdus, n - 1) then [pdus[n - 1]] else []
  }

  /** The history and what is kept, seen from the second PDU on. */
  lemma HistoryTail(u: Setup, events: seq<Event>, pdus: seq<Pdu>, k: nat)
    requires 0 < k <= |pdus|
    ensures HistoryAt(u, events, pdus, k) == HistoryAt(u, u.After(events, pdus[0]), pdus[1..], k - 1)
  {
    assert pdus[..k][1..] == pdus[1..][..k - 1];
    assert ConsumedAll(pdus[..k]) == [Consumed(pdus[0])] + ConsumedAll(pdus[1..][..k - 1]);
  }

  lemma {:induction false} KeptTail(u: Setup, events: seq<Event>, pdus: seq<Pdu>, n: nat)
    requires 0 < n <= |pdus|
    ensures KeptOf(u, events, pdus, n) ==
            (if Kept(u, events, pdus, 0) then [pdus[0]] else [])
            + KeptOf(u, u.After(events, pdus[0]), pdus[1..], n - 1)
  {
    if n > 1 {
      KeptTail(u, events, pdus, n - 1);
      HistoryTail(u, events, pdus, n - 1);
    }
  }

  /**
   The first stage offers every PDU of the stream to the model, once and in order, and delivers
   exactly those that the model does not take and the filter does not drop.
   */
  lemma {:induction false} FirstStageIs(u: Setup, events: seq<Event>, pdus: seq<Pdu>)
    ensures FirstStage(u, events, pdus) ==
            Outcome(KeptOf(u, events, pdus, |pdus|), HistoryAt(u, events, pdus, |pdus|))
    decreases |pdus|
  {
    if pdus != [] {
      FirstStageIs(u, u.After(events, pdus[0]), pdus[1..]);
      KeptTail(u, events, pdus, |pdus|);
      HistoryTail(u, events, pdus, |pdus|);
      assert pdus[..0] == [] && HistoryAt(u, events, pdus, 0) == events;
    }
  }

  /** The model takes the PDU, given everything that happened to it before. */
  predicate IsTaken(u: Setup, events: seq<Event>, p: Pdu) {
    match u.model
    case Some(model) => model.takes(events, p)
    case None => false
  }

  /** The PDU is not the component's own, or those are wanted. */
  predicate IsWanted(u: Setup, p: Pdu) {
    u.swcId == 0 || p.swcId != u.swcId || u.loopback
  }

  /**
   PDU by PDU: the last one of a stream is delivered exactly if the model does not take it, and it comes
   from another component, or from one without an id, or loopback is on; either way the model has
   been offered it.
   */
  lemma DeliversIff(u: Setup, events: seq<Event>, pdus: seq<Pdu>, p: Pdu)
    ensures FirstStage(u, events, []) == Outcome([], events)
    ensures var before, after := FirstStage(u, events, pdus), FirstStage(u, events, pdus + [p]);
            && after.pdus == before.pdus + (if !IsTaken(u, before.events, p) && IsWanted(u, p) then [p] else [])
            && after.events == (if u.model.Some? then before.events + [Consumed(p)] else before.events)
  {
    hide FirstStage;
    var all := pdus + [p];
    FirstStageIs(u, events, []);
    FirstStageIs(u, events, pdus);
    FirstStageIs(u, events, all);
    assert all[..|pdus|] == pdus && all[..|all|] == all && pdus[..|pdus|] == pdus;
    KeptOfPrefix(u, events, pdus, p, |pdus|);
    assert ConsumedAll(all) == ConsumedAll(pdus) + [Consumed(p)];
    assert ConsumedAll([]) == [];
  }

  lemma {:induction false} KeptOfPrefix(u: Setup, events: seq<Event>, pdus: seq<Pdu>, p: Pdu, n: nat)
    requires n <= |pdus|
    ensures KeptOf(u, events, pdus + [p], n) == KeptOf(u, events, pdus, n)
  {
    if n > 0 {
      KeptOfPrefix(u, events, pdus, p, n - 1);
      assert (pdus + [p])[..n - 1] == pdus[..n - 1];
    }
  }

  /** What the last stage delivers, and that the model has made its step. */
  lemma LastStageIs(u: Setup, events: seq<Event>, pdus: seq<Pdu>, time: nat)
    ensures var first, all := FirstStage(u, events, pdus), AllStages(u, events, pdus, time);
            match u.model
            case None => all == first
            case Some(model) =>
              && all.events == first.events + [Progressed(time)]
              && all.pdus == first.pdus + PdusFrom(model.produces(all.events))
  {
  }

  /** A message that carries PDUs. */
  predicate Carries(m: Message) {
    m.size > 0 && m.known && m.pdus.Some?
  }

  /** A message that ends the stream: an empty one, or one of a PDU stream without a vector. */
  predicate Stops(m: Message) {
    m.size == 0 || (m.known && m.pdus.None?)
  }

  /**
   Message by message: the PDUs of a message follow those before it, a message with another identifier
   is passed over, and what comes after a message that ends the stream is lost.
   */
  lemma {:induction false} StreamIs(a: seq<Message>, m: Message, b: seq<Message>)
    requires forall k :: 0 <= k < |a| ==> !Stops(a[k])
    ensures PdusFrom([]) == []
    ensures Stops(m) ==> PdusFrom(a + [m] + b) == PdusFrom(a)
    ensures Carries(m) ==> PdusFrom(a + [m] + b) == PdusFrom(a) + m.pdus.value + PdusFrom(b)
    ensures !Stops(m) && !Carries(m) ==> PdusFrom(a + [m] + b) == PdusFrom(a) + PdusFrom(b)
    decreases |a|
  {
    var s := a + [m] + b;
    if a == [] {
      assert s[1..] == b;
    } else {
      assert s[1..] == a[1..] + [m] + b && s[0] == a[0];
      StreamIs(a[1..], m, b);
    }
  }

  // ---------------------------------------------------------------------------------------------
  // The reader
  // ---------------------------------------------------------------------------------------------

  class Reader {
    const setup: Setup
    const stream: Stream
    const modelStream: Stream
    const cursor: Cursor
    var ncodecConsumed: bool
    var modelProduced: bool
    var modelConsumed: bool
    var events: seq<Event>
    /** The simulation time, in steps, and the time that writers see. */
    var time: nat
    var writeTime: nat

    predicate Valid()
      reads this, stream, modelStream, cursor
    {
      && stream != modelStream
      && (ncodecConsumed == modelProduced)
      && (modelConsumed ==> modelProduced)
      && cursor.Valid(if ncodecConsumed then modelStream else stream)
      && (modelConsumed ==> cursor.IsReset())
    }

    /** What the reads up to the next end will deliver. */
    function Future(): Outcome
      requires Valid()
      reads this, stream, modelStream, cursor
    {
      if !ncodecConsumed then AllStages(setup, events, cursor.Remaining(stream), time)
      else if !modelConsumed && setup.model.Some? then Outcome(cursor.Remaining(modelStream), events)
      else Outcome([], events)
    }

    constructor (setup: Setup)
      ensures Valid() && this.setup == setup && events == [] && time == 0
      ensures fresh(stream) && fresh(modelStream) && fresh(cursor)
      ensures Future().pdus == AllStages(setup, [], [], 0).pdus
    {
      this.setup := setup;
      stream := new Stream();
      modelStream := new Stream();
      cursor := new Cursor();
      ncodecConsumed, modelProduced, modelConsumed := false, false, false;
      events, time, writeTime := [], 0, 0;
    }

    /** Read the stream up to the next PDU that is neither consumed nor dropped. */
    method ReadStream() returns (r: Option<Pdu>)
      requires Valid() && !ncodecConsumed
      modifies this`events, stream`pos, cursor
      ensures Valid()
      ensures var before := old(FirstStage(setup, events, cursor.Remaining(stream)));
              if before.pdus == []
              then r == None && events == before.events && cursor.Remaining(stream) == []
              else r == Some(before.pdus[0])
                   && FirstStage(setup, events, cursor.Remaining(stream)) == Outcome(before.pdus[1..], before.events)
    {
      while true
        invariant Valid()
        invariant FirstStage(setup, events, cursor.Remaining(stream)) ==
                  old(FirstStage(setup, events, cursor.Remaining(stream)))
        decreases |cursor.Remaining(stream)|
      {
        r := cursor.GetPdu(stream);
        if r.None? {
          return;
        }
        var taken := setup.Takes(events, r.value);
        events := setup.After(events, r.value);
        if taken || setup.Drops(r.value) {
          continue;
        }
        return;
      }
    }

    /** Let the model make its step, and rewind its stream. */
    method RunModel()
      requires Valid() && !ncodecConsumed && cursor.IsReset()
      modifies this`events, this`ncodecConsumed, this`modelProduced, modelStream
      ensures Valid() && ncodecConsumed && modelProduced
      ensures events == setup.AfterProgress(old(events), time)
      ensures cursor.Remaining(modelStream) == setup.Produced(events)
    {
      ncodecConsumed, modelProduced := true, true;
      modelStream.messages, modelStream.pos := [], 0;
      if setup.model.Some? {
        events := events + [Progressed(time)];
        modelStream.messages := setup.model.value.produces(events);
      }
      assert modelStream.messages[0..] == modelStream.messages;
    }

    /** The next PDU, or the end, where the simulation time moves on. */
    method NextPdu() returns (r: Option<Pdu>)
      requires Valid()
      modifies this, stream`pos, modelStream, cursor
      ensures Valid()
      ensures old(Future().pdus) != [] ==>
                r == Some(old(Future().pdus)[0])
                && Future() == Outcome(old(Future().pdus)[1..], old(Future().events))
                && time == old(time) && writeTime == old(writeTime)
      ensures old(Future().pdus) == [] ==>
                r == None && modelConsumed
                && events == old(Future().events) && Future() == Outcome([], events)
                && time == old(time) + 1 && writeTime == old(time)
    {
      hide Future, Valid;
      if !ncodecConsumed {
        r := FinishStream();
        if r.Some? {
          return;
        }
      }
      r := ReadModel();
      if r.Some? {
        return;
      }
      AdvanceTime();
    }

    /** Deliver from the stream; at its end, run the model and rewind for its PDUs. */
    method FinishStream() returns (r: Option<Pdu>)
      requires Valid() && !ncodecConsumed
      modifies this`events, this`ncodecConsumed, this`modelProduced, stream`pos, modelStream, cursor
      ensures Valid()
      ensures r.Some? ==> old(Future().pdus) != [] && r.value == old(Future().pdus)[0]
                          && Future() == Outcome(old(Future().pdus)[1..], old(Future().events))
      ensures r.None? ==> ncodecConsumed && Future() == old(Future())
    {
      hide FirstStage, PdusFrom;
      r := ReadStream();
      if r.Some? {
        return;
      }
      EmptyStage(setup, events);
      stream.pos := 0;
      cursor.Reset();
      RunModel();
    }

    /** Deliver from the model's stream; at its end, everything has been delivered. */
    method ReadModel() returns (r: Option<Pdu>)
      requires Valid() && ncodecConsumed
      modifies this`modelConsumed, modelStream`pos, cursor
      ensures Valid() && ncodecConsumed
      ensures old(Future().pdus) != [] ==>
                r == Some(old(Future().pdus)[0])
                && Future() == Outcome(old(Future().pdus)[1..], old(Future().events))
      ensures old(Future().pdus) == [] ==>
                r == None && modelConsumed && events == old(Future().events) && Future() == Outcome([], events)
    {
      hide FirstStage, PdusFrom;
      if !modelConsumed {
        if setup.model.Some? {
          r := cursor.GetPdu(modelStream);
          if r.Some? {
            return;
          }
        }
        cursor.Reset();
      }
      modelConsumed := true;
      r := None;
    }

    /** No more PDUs: move the simulation time on. */
    method AdvanceTime()
      requires Valid() && ncodecConsumed && modelConsumed
      modifies this`time, this`writeTime
      ensures Valid() && Future() == Outcome([], events)
      ensures time == old(time) + 1 && writeTime == old(time)
    {
      writeTime := time;
      time := time + 1;
    }

    lemma EmptyStage(u: Setup, events: seq<Event>)
      ensures FirstStage(u, events, []) == Outcome([], events)
    {
    }

    /** Read until there is no more. */
    method ReadAll() returns (pdus: seq<Pdu>)
      requires Valid()
      modifies this, stream`pos, modelStream, cursor
      ensures Valid() && modelConsumed
      ensures Outcome(pdus, events) == old(Future()) && time == old(time) + 1 && writeTime == old(time)
    {
      hide Future, Valid, FirstStage, AllStages, PdusFrom;
      pdus := [];
      ghost var all := Future();
      ghost var pending := all.pdus;
      while true
        invariant Valid() && time == old(time) && writeTime == old(writeTime)
        invariant Future() == Outcome(pending, all.events)
        invariant pdus + pending == all.pdus
        decreases |pending|
      {
        var r := NextPdu();
        if r.None? {
          return;
        }
        OneMore(pdus, pending);
        pdus := pdus + [r.value];
        pending := pending[1..];
      }
    }

    static lemma OneMore(pdus: seq<Pdu>, pending: seq<Pdu>)
      requires pending != []
      ensures pdus + pending == (pdus + [pending[0]]) + pending[1..]
    {
    }

    /** Empty the stream and start over with the first stage. */
    method Truncate()
      requires Valid()
      modifies this`ncodecConsumed, this`modelProduced, this`modelConsumed, stream, cursor
      ensures Valid() && !ncodecConsumed && cursor.IsReset()
      ensures stream.messages == [] && stream.pos == 0
    {
      stream.messages, stream.pos := [], 0;
      ncodecConsumed, modelProduced, modelConsumed := false, false, false;
      cursor.Reset();
    }

    /**
     One round between truncates: whatever was left unread before, reading the received messages to
     the end delivers the kept PDUs of the stream in order and then what the model produced, with
     every PDU offered to the model once and one step of the model after the last of them.
     */
    method Round(messages: seq<Message>) returns (pdus: seq<Pdu>)
      requires Valid()
      modifies this, stream, modelStream, cursor
      ensures Valid()
      ensures var read := PdusFrom(messages);
              && events == setup.AfterProgress(HistoryAt(setup, old(events), read, |read|), old(time))
              && pdus == KeptOf(setup, old(events), read, |read|) + setup.Produced(events)
      ensures time == old(time) + 1
    {
      Truncate();
      stream.messages := messages;
      assert messages[0..] == messages;
      FirstStageIs(setup, events, PdusFrom(messages));
      pdus := ReadAll();
    }
  }
}
