/** The persistent model session seen from the application (app/decoder_ipc.c:764-768, 939-1004):
    whatever the helper sends, the session keeps this discipline. */
module ModelSession {
  import opened Wire
  import opened Reply
  import opened Transfer

  const INPUT_MAX := 0x800_0000
  const OUTPUT_MAX := 0x2000_0000
  const POSE := 1
  const U32_MAX := 0xFFFF_FFFF

  const REQUEST_MAGIC: seq<u8> := [0x46, 0x42, 0x49, 0x31]

  /** An accepted exchange: what was asked, every byte sent, and every byte of the reply stream. */
  datatype Exchanged = Exchanged(operation: u32, data: seq<u8>, request: seq<u8>, reply: seq<u8>)

  function RequestHeader(operation: u32, size: u32, sequence: u32): (h: seq<u8>)
    ensures |h| == 16
  {
    REQUEST_MAGIC + Put32(operation) + Put32(size) + Put32(sequence)
  }

  /** The bytes ask for this operation on this data, under this number. */
  predicate Asks(request: seq<u8>, operation: u32, data: seq<u8>, sequence: nat) {
    && |request| == 16 + |data| && request[..4] == REQUEST_MAGIC && request[16..] == data
    && U32At(request, 4) == operation && U32At(request, 8) == |data| && U32At(request, 12) == sequence
  }

  lemma HeaderAsks(operation: u32, data: seq<u8>, sequence: u32)
    requires |data| <= U32_MAX
    ensures Asks(RequestHeader(operation, |data|, sequence) + data, operation, data, sequence)
  {
    var b := RequestHeader(operation, |data|, sequence) + data;
    PutGet(operation);
    PutGet(|data|);
    PutGet(sequence);
    assert b[4..8] == Put32(operation) && b[8..12] == Put32(|data|) && b[12..16] == Put32(sequence);
    U32Slice(b, 4, 8, 0);
    U32Slice(b, 8, 12, 0);
    U32Slice(b, 12, 16, 0);
  }

  function WantedReply(operation: u32, sequence: u32, cap: u32): Wanted {
    Wanted(Model, List, 0, cap, operation, 0, sequence)
  }

  function Capacity(given: bool, capacity: u32): u32 {
    if given && capacity < OUTPUT_MAX then capacity else OUTPUT_MAX
  }

  /** There is a number for the next request, and the helper's bytes are a reply to it that finds room. */
  predicate AnswersNext(sequence: u32, operation: u32, room: nat, incoming: seq<u8>) {
    && sequence < U32_MAX && |incoming| >= 16 && incoming[..4] == MODEL_MAGIC
    && U32At(incoming, 4) == operation && U32At(incoming, 8) == sequence + 1
    && U32At(incoming, 12) == |incoming| - 16 <= room && |incoming| - 16 <= 0x2000_0000
  }

  lemma AnswerIsValid(sequence: u32, operation: u32, given: bool, capacity: u32, incoming: seq<u8>)
    ensures AnswersNext(sequence, operation, if given then capacity else OUTPUT_MAX, incoming) ==>
              && sequence < U32_MAX
              && ValidReply(WantedReply(operation, sequence + 1, Capacity(given, capacity)), incoming)
  {
  }

  /** One transfer into the caller's buffer, or into one of its own. */
  method Transact(wanted: Wanted, output: array?<u8>, memory: bool, header: seq<u8>, data: seq<u8>,
                  incoming: seq<u8>, first: Peek, turns: seq<Turn>)
    returns (result: array?<u8>, length: u32, ghost stream: seq<u8>, ghost wire: seq<u8>)
    requires wanted.kind.Model? && wanted.Sensible()
    requires output != null ==> output.Length >= wanted.cap
    modifies output
    ensures wire <= header + data && (result != null ==> wire == header + data)
    ensures first.Busy? ==> result == null && wire == []
    ensures result != null ==>
              && ValidReply(wanted, stream) && stream <= incoming
              && length == U32At(stream, 12) && length <= result.Length && result[..length] == ReplyPayload(stream)
              && (output != null ==> result == output)
    ensures result == null || output != null || fresh(result)
    ensures ValidReply(wanted, incoming) && (memory || output != null) && !first.Busy?
            && Serves(turns, |header + data|, |incoming|, false) ==>
              result != null
  {
    hide ValidReply, Serves;
    var reply := new ImageReply(wanted, output, memory);
    var ok;
    ghost var used;
    ok, wire, used := DecoderTransfer(reply, header, data, false, incoming, first, turns);
    if !ok {
      return null, 0, [], wire;
    }
    WholeReply(reply);
    return reply.pixels, reply.bytes, reply.stream, wire;
  }

  lemma WholeReply(reply: ImageReply)
    requires reply.Valid() && reply.Complete() && reply.wanted.kind.Model?
    ensures |reply.stream| >= HEADER && reply.pixels != null && reply.bytes == U32At(reply.stream, 12)
    ensures reply.bytes <= reply.pixels.Length && reply.pixels[..reply.bytes] == ReplyPayload(reply.stream)
  {
    reply.CompleteIsValidReply();
  }

  /** The guard of wn_model_exchange. */
  predicate Allowed(lengthGiven: bool, dataGiven: bool, size: nat, operation: u32, sequence: u32, clock: bool) {
    lengthGiven && (size > 0 ==> dataGiven) && size <= INPUT_MAX && operation <= POSE && sequence < U32_MAX && clock
  }

  /** The first bytes of such a request. */
  ghost predicate AsksInPart(sent: seq<u8>, operation: u32, data: seq<u8>, sequence: nat) {
    exists request :: sent <= request && Asks(request, operation, data, sequence)
  }

  class Session {
    var active: bool
    var sequence: u32
    ghost var accepted: seq<Exchanged>

    /** The k-th accepted reply is a valid reply to the k-th request, numbered k. */
    ghost predicate Valid()
      reads this
    {
      && |accepted| <= sequence
      && (active ==> |accepted| == sequence)
      && forall k :: 0 <= k < |accepted| ==> Answers(accepted[k], k + 1)
    }

    constructor ()
      ensures Valid() && active && sequence == 0 && accepted == []
    {
      active, sequence, accepted := true, 0, [];
    }

    /** wn_model_exchange. The caller's pointers appear as: data absent, output absent, length absent. */
    method Exchange(operation: u32, data: seq<u8>, dataGiven: bool, output: array?<u8>, capacity: u32,
                    lengthGiven: bool, clock: bool, memory: bool, incoming: seq<u8>,
                    first: Peek, turns: seq<Turn>)
      returns (result: array?<u8>, length: u32, ghost wire: seq<u8>)
      requires Valid() && |data| <= U32_MAX
      requires output != null ==> output.Length == capacity
      modifies this, output
      ensures Valid()
      ensures !old(active) ==> result == null && unchanged(this) && wire == []
      ensures !Allowed(lengthGiven, dataGiven, |data|, operation, old(sequence), clock) || first.Busy? ==>
                result == null && wire == []
      ensures wire == [] || (old(sequence) < U32_MAX && AsksInPart(wire, operation, data, old(sequence) + 1))
      ensures old(active) && result == null ==>
                !active && accepted == old(accepted) && sequence <= old(sequence) + 1
      ensures result == null ==> length == 0
      ensures result != null ==>
                && active && sequence == old(sequence) + 1
                && |accepted| == |old(accepted)| + 1 && accepted[..|old(accepted)|] == old(accepted)
                && accepted[|old(accepted)|].operation == operation && accepted[|old(accepted)|].data == data
                && length <= result.Length && result[..length] == ReplyPayload(accepted[|old(accepted)|].reply)
                && accepted[|old(accepted)|].reply <= incoming && accepted[|old(accepted)|].request == wire
                && Asks(wire, operation, data, sequence)
                && (output != null ==> result == output)
                && length <= 0x2000_0000 && (output != null ==> length <= capacity)
      ensures old(active) && Allowed(lengthGiven, dataGiven, |data|, operation, old(sequence), clock)
              && AnswersNext(old(sequence), operation, if output != null then capacity else OUTPUT_MAX, incoming)
              && (memory || output != null) && !first.Busy? && Serves(turns, HEADER + |data|, |incoming|, false) ==>
                result != null
    {
      hide ValidReply, AnswersNext, RequestHeader, Serves, Answers;
      length := 0;
      if !active {
        return null, 0, [];
      }
      if !lengthGiven || (|data| > 0 && !dataGiven) || |data| > INPUT_MAX || operation > POSE
        || sequence == U32_MAX || !clock {
        active := false;
        return null, 0, [];
      }
      AnswerIsValid(sequence, operation, output != null, capacity, incoming);
      sequence := sequence + 1;
      var wanted := WantedReply(operation, sequence, Capacity(output != null, capacity));
      HeaderAsks(operation, data, sequence);
      ghost var stream;
      result, length, stream, wire :=
        Transact(wanted, output, memory, RequestHeader(operation, |data|, sequence), data, incoming, first, turns);
      if result == null {
        active := false;
        return null, 0, wire;
      }
      AcceptedAnswers(Exchanged(operation, data, wire, stream), sequence, wanted.cap);
      accepted := accepted + [Exchanged(operation, data, wire, stream)];
    }
  }

  ghost predicate Answers(x: Exchanged, sequence: nat) {
    && Asks(x.request, x.operation, x.data, sequence)
    && |x.reply| >= 16 && x.reply[..4] == MODEL_MAGIC
    && U32At(x.reply, 4) == x.operation
    && U32At(x.reply, 8) == sequence
    && |x.reply| == 16 + U32At(x.reply, 12)
  }

  lemma AcceptedAnswers(x: Exchanged, sequence: u32, cap: u32)
    requires Asks(x.request, x.operation, x.data, sequence)
    requires ValidReply(WantedReply(x.operation, sequence, cap), x.reply)
    ensures Answers(x, sequence) && |x.reply| - HEADER <= cap
  {
  }

  function ReplyPayload(reply: seq<u8>): seq<u8>
    requires |reply| >= 16
  {
    reply[16..]
  }
}
