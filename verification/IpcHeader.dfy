/** Shared memory between the app and a helper: bounded copies, and a header word whose four bytes
    are written by several processes (app/helper_ipc.c:155-185). */
module IpcHeader {
  import opened Wire

  type Word = w: seq<u8> | |w| == 4 witness [0, 0, 0, 0]
  type Thread = nat

  /** A write to consecutive bytes that lie inside the header word. */
  datatype Write = Write(offset: nat, data: seq<u8>)

  predicate InHeader(w: Write) {
    w.offset + |w.data| <= 4
  }

  predicate Covers(w: Write, i: nat) {
    w.offset <= i < w.offset + |w.data|
  }

  function Patch(word: Word, w: Write): (next: Word)
    requires InHeader(w)
  {
    word[..w.offset] + w.data + word[w.offset + |w.data|..]
  }

  lemma PatchBytes(word: Word, w: Write, i: nat)
    requires InHeader(w) && i < 4
    ensures Patch(word, w)[i] == if Covers(w, i) then w.data[i - w.offset] else word[i]
  {
  }

  // ----- one mapping used by one process -----

  class Mapping {
    var data: array<u8>

    constructor (size: nat)
      ensures fresh(data) && data.Length == size
    {
      data := new u8[size](_ => 0);
    }

    /** Copies size bytes out, or refuses a range outside the mapping. */
    method Read(size: nat, offset: nat) returns (result: int, bytes: seq<u8>)
      ensures offset + size > data.Length ==> result == -1 && bytes == []
      ensures offset + size <= data.Length ==> result == size && bytes == data[offset..offset + size]
    {
      if offset > data.Length || size > data.Length - offset {
        return -1, [];
      }
      return size, data[offset..offset + size];
    }

    /** Copies bytes in and touches no others, or refuses a range outside the mapping. */
    method Store(bytes: seq<u8>, offset: nat) returns (result: int)
      modifies data
      ensures offset + |bytes| > data.Length ==> result == -1 && data[..] == old(data[..])
      ensures offset + |bytes| <= data.Length ==>
        && result == |bytes| && data[offset..offset + |bytes|] == bytes
        && forall j :: 0 <= j < data.Length && !(offset <= j < offset + |bytes|) ==> data[j] == old(data[j])
    {
      if offset > data.Length || |bytes| > data.Length - offset {
        return -1;
      }
      for i := 0 to |bytes|
        invariant forall j :: 0 <= j < data.Length ==>
          data[j] == if offset <= j < offset + i then bytes[j - offset] else old(data[j])
      {
        data[offset + i] := bytes[i];
      }
      return |bytes|;
    }
  }

  // ----- the header word under every interleaving -----

  /** A call in progress: what it writes and the word it last saw. */
  datatype Call = Call(write: Write, previous: Word)

  /** log lists the committed writes in the order of their exchanges. */
  datatype State = State(word: Word, calls: map<Thread, Call>, log: seq<Write>)

  datatype Action = Load(t: Thread, write: Write) | Exchange(t: Thread)

  /** The exchange commits when the word still has the value seen; else the call goes round again. */
  function Step(s: State, a: Action): State
    requires Sound(s)
  {
    match a
    case Load(t, w) =>
      if t in s.calls || !InHeader(w) then s else s.(calls := s.calls[t := Call(w, s.word)])
    case Exchange(t) =>
      if t !in s.calls then s
      else
        var call := s.calls[t];
        if s.word == call.previous
        then State(Patch(call.previous, call.write), s.calls - {t}, s.log + [call.write])
        else s.(calls := s.calls[t := call.(previous := s.word)])
  }

  predicate Sound(s: State) {
    && (forall t :: t in s.calls ==> InHeader(s.calls[t].write))
    && AllInHeader(s.log)
  }

  function Run(s: State, actions: seq<Action>): (t: State)
    requires Sound(s)
    ensures Sound(t)
    decreases |actions|
  {
    if actions == [] then s else Step(Run(s, actions[..|actions| - 1]), actions[|actions| - 1])
  }

  function Init(word: Word): State {
    State(word, map[], [])
  }

  predicate AllInHeader(log: seq<Write>) {
    forall i :: 0 <= i < |log| ==> InHeader(log[i])
  }

  /** The word after the first n writes one after the other. */
  function Replay(word: Word, log: seq<Write>, n: nat): Word
    requires n <= |log| && AllInHeader(log)
  {
    if n == 0 then word else Patch(Replay(word, log, n - 1), log[n - 1])
  }

  lemma {:induction false} ReplayPrefix(word: Word, log: seq<Write>, more: seq<Write>, n: nat)
    requires n <= |log| && AllInHeader(log) && AllInHeader(log + more)
    ensures Replay(word, log + more, n) == Replay(word, log, n)
  {
    if n > 0 {
      ReplayPrefix(word, log, more, n - 1);
    }
  }

  /** Concurrent calls act one at a time, each at its successful exchange: none overwrites another. */
  lemma {:induction false} CallsAreAtomic(word: Word, actions: seq<Action>)
    ensures var s := Run(Init(word), actions); s.word == Replay(word, s.log, |s.log|)
    decreases |actions|
  {
    if actions == [] {
    } else {
      CallsAreAtomic(word, actions[..|actions| - 1]);
      var s := Run(Init(word), actions[..|actions| - 1]);
      var a := actions[|actions| - 1];
      if a.Exchange? && a.t in s.calls {
        ReplayPrefix(word, s.log, [s.calls[a.t].write], |s.log|);
      }
    }
  }

  /** When the word is not what a call last saw, another call has committed since. */
  lemma {:induction false} ChangeMeansProgress(s: State, actions: seq<Action>)
    requires Sound(s)
    ensures |Run(s, actions).log| >= |s.log|
    ensures Run(s, actions).word != s.word ==> |Run(s, actions).log| > |s.log|
    decreases |actions|
  {
    if actions == [] {
    } else {
      ChangeMeansProgress(s, actions[..|actions| - 1]);
    }
  }

  /** The position behind the last of the first n writes that covers byte i, 0 when none does. */
  function LastWrite(log: seq<Write>, n: nat, i: nat): (k: nat)
    requires n <= |log|
    ensures k <= n
    ensures k > 0 ==> Covers(log[k - 1], i)
    ensures forall j :: k <= j < n ==> !Covers(log[j], i)
  {
    if n == 0 then 0
    else if Covers(log[n - 1], i) then n
    else LastWrite(log, n - 1, i)
  }

  /** No write to a byte is lost: it has the value of the last one that covers it. */
  lemma {:induction false} ByteIsLastWritten(word: Word, log: seq<Write>, n: nat, i: nat)
    requires i < 4 && n <= |log| && AllInHeader(log)
    ensures
      var k := LastWrite(log, n, i);
      Replay(word, log, n)[i] == if k == 0 then word[i] else log[k - 1].data[i - log[k - 1].offset]
  {
    if n > 0 {
      PatchBytes(Replay(word, log, n - 1), log[n - 1], i);
      if !Covers(log[n - 1], i) {
        ByteIsLastWritten(word, log, n - 1, i);
      }
    }
  }

  /** A field that every write covers entirely or not at all. */
  predicate Whole(log: seq<Write>, from: nat, to: nat) {
    forall j :: 0 <= j < |log| ==>
      (log[j].offset <= from && to <= log[j].offset + |log[j].data|)
      || log[j].offset + |log[j].data| <= from || to <= log[j].offset
  }

  lemma SameLast(log: seq<Write>, from: nat, to: nat, i: nat)
    requires from <= i < to && Whole(log, from, to)
    ensures LastWrite(log, |log|, i) == LastWrite(log, |log|, from)
  {
    var k, m := LastWrite(log, |log|, from), LastWrite(log, |log|, i);
    assert k > 0 ==> Covers(log[k - 1], i);
    assert m > 0 ==> Covers(log[m - 1], from);
  }

  /** The bytes of the field are those of the write, in order. */
  predicate Wrote(w: Write, field: seq<u8>, from: nat) {
    w.offset <= from && from + |field| <= w.offset + |w.data|
    && field == w.data[from - w.offset..from - w.offset + |field|]
  }

  lemma FieldByte(word: Word, log: seq<Write>, from: nat, to: nat, i: nat)
    requires from <= i < to <= 4 && Whole(log, from, to) && AllInHeader(log)
    ensures
      var k := LastWrite(log, |log|, from);
      var end := Replay(word, log, |log|);
      if k == 0 then end[i] == word[i]
      else Covers(log[k - 1], i) && end[i] == log[k - 1].data[i - log[k - 1].offset]
  {
    SameLast(log, from, to, i);
    ByteIsLastWritten(word, log, |log|, i);
  }

  lemma FieldOfLast(word: Word, end: Word, w: Write, from: nat, to: nat)
    requires from < to <= 4
    requires forall i :: from <= i < to ==> Covers(w, i) && end[i] == w.data[i - w.offset]
    ensures Wrote(w, end[from..to], from)
  {
    assert Covers(w, from) && Covers(w, to - 1);
  }

  /** Such a field is never torn: all its bytes come from one write, or all from the start. */
  lemma FieldIsNotTorn(word: Word, log: seq<Write>, from: nat, to: nat)
    requires from < to <= 4 && Whole(log, from, to) && AllInHeader(log)
    ensures
      var k := LastWrite(log, |log|, from);
      var field := Replay(word, log, |log|)[from..to];
      if k == 0 then field == word[from..to] else Wrote(log[k - 1], field, from)
  {
    hide LastWrite, Replay;
    var k := LastWrite(log, |log|, from);
    var end := Replay(word, log, |log|);
    forall i | from <= i < to
      ensures if k == 0 then end[i] == word[i]
              else Covers(log[k - 1], i) && end[i] == log[k - 1].data[i - log[k - 1].offset]
    {
      FieldByte(word, log, from, to, i);
    }
    if k > 0 {
      FieldOfLast(word, end, log[k - 1], from, to);
    }
  }

  // ----- the three writers of the speech header -----

  /** A status byte; a status and a length; a command byte. */
  predicate SpeechWrite(w: Write) {
    (w.offset == 0 && (|w.data| == 1 || |w.data| == 3)) || (w.offset == 3 && |w.data| == 1)
  }

  predicate AllSpeech(log: seq<Write>) {
    forall i :: 0 <= i < |log| ==> SpeechWrite(log[i])
  }

  lemma {:induction false} CommitsAreSpeech(word: Word, actions: seq<Action>)
    requires forall i :: 0 <= i < |actions| && actions[i].Load? ==> SpeechWrite(actions[i].write)
    ensures
      var s := Run(Init(word), actions);
      AllSpeech(s.log) && forall t :: t in s.calls ==> SpeechWrite(s.calls[t].write)
    decreases |actions|
  {
    if actions != [] {
      CommitsAreSpeech(word, actions[..|actions| - 1]);
    }
  }

  /** The word holds in its length field what one update put there, or what was there first. */
  predicate LengthFrom(word: Word, end: Word, log: seq<Write>) {
    var k := LastWrite(log, |log|, 1);
    if k == 0 then end[1..3] == word[1..3]
    else log[k - 1].offset == 0 && |log[k - 1].data| == 3 && end[1..3] == log[k - 1].data[1..]
  }

  predicate CommandFrom(word: Word, end: Word, log: seq<Write>) {
    var k := LastWrite(log, |log|, 3);
    if k == 0 then end[3] == word[3]
    else log[k - 1].offset == 3 && |log[k - 1].data| == 1 && end[3] == log[k - 1].data[0]
  }

  lemma LengthIsWhole(word: Word, log: seq<Write>)
    requires AllInHeader(log) && AllSpeech(log)
    ensures LengthFrom(word, Replay(word, log, |log|), log)
  {
    hide Replay;
    FieldIsNotTorn(word, log, 1, 3);
  }

  lemma CommandIsLast(word: Word, log: seq<Write>)
    requires AllInHeader(log) && AllSpeech(log)
    ensures CommandFrom(word, Replay(word, log, |log|), log)
  {
    hide Replay;
    ByteIsLastWritten(word, log, |log|, 3);
  }

  /** Whatever the interleaving of helper and app, the length a reader sees is one that an update put
      there, or the first; and the command is the one given last, which no status and no length
      overwrites. */
  lemma SpeechHeaderIsWhole(word: Word, actions: seq<Action>)
    requires forall i :: 0 <= i < |actions| && actions[i].Load? ==> SpeechWrite(actions[i].write)
    ensures var s := Run(Init(word), actions); LengthFrom(word, s.word, s.log) && CommandFrom(word, s.word, s.log)
  {
    hide Replay, Run, LastWrite, LengthFrom, CommandFrom, SpeechWrite;
    var s := Run(Init(word), actions);
    CallsAreAtomic(word, actions);
    CommitsAreSpeech(word, actions);
    LengthIsWhole(word, s.log);
    CommandIsLast(word, s.log);
  }
}
