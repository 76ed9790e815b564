/** A transcription published piece by piece in shared memory (app/stt.c:78-131): the helper copies
    a segment, then commits its length in the header word; the app reads at any moment
    (app/stt.odin:374-425) and may send a command in the same word. */
module Transcribe {
  import opened Wire
  import opened Radix
  import opened IpcHeader

  const CHUNK_SAMPLES: nat := 16000 * 29
  const MAX_AUDIO_SAMPLES: nat := 16000 * 600
  const TEXT_LIMIT: nat := 16384

  const PARTIAL: u8 := 'P' as int
  const TOTAL: u8 := 'T' as int
  const SPACE: u8 := 32

  // ----- windows -----

  datatype Window = Window(offset: nat, n: nat)

  /** The windows follow each other from the first sample to the end without gap or overlap. */
  predicate Tile(windows: seq<Window>, end: nat) {
    && (forall i :: 0 <= i < |windows| ==> windows[i].n > 0)
    && (windows != [] ==> windows[0].offset == 0 && windows[|windows| - 1].offset + windows[|windows| - 1].n == end)
    && (windows == [] ==> end == 0)
    && forall i :: 0 < i < |windows| ==> windows[i].offset == windows[i - 1].offset + windows[i - 1].n
  }

  predicate Fit(windows: seq<Window>) {
    forall i :: 0 <= i < |windows| ==> windows[i].n <= CHUNK_SAMPLES
  }

  /** The window loop: every sample is decoded once, no window is longer than the recogniser
      takes, and the number of windows is the least that allows it. */
  method Windows(count: int) returns (ok: bool, windows: seq<Window>)
    ensures ok <==> 0 < count <= MAX_AUDIO_SAMPLES
    ensures !ok ==> windows == []
    ensures ok ==> Tile(windows, count) && Fit(windows) && |windows| == (count + CHUNK_SAMPLES - 1) / CHUNK_SAMPLES
  {
    windows := [];
    if count <= 0 || count > MAX_AUDIO_SAMPLES {
      return false, windows;
    }
    var chunks := (count + CHUNK_SAMPLES - 1) / CHUNK_SAMPLES;
    var window := (count + chunks - 1) / chunks;
    EvenWindows(count, chunks, window);
    var offset := 0;
    while offset < count
      invariant offset == |windows| * window
      invariant |windows| <= chunks
      invariant Tile(windows, Least(offset, count)) && Fit(windows)
      decreases count - offset
    {
      var n := Least(window, count - offset);
      NextWindow(count, chunks, window, |windows|);
      AddWindow(windows, offset, n);
      windows := windows + [Window(offset, n)];
      offset := offset + window;
    }
    LastWindow(count, chunks, window, |windows|);
    return true, windows;
  }

  function Least(a: int, b: int): int {
    if a < b then a else b
  }

  lemma AddWindow(windows: seq<Window>, offset: nat, n: nat)
    requires Tile(windows, offset) && Fit(windows) && 0 < n <= CHUNK_SAMPLES
    ensures Tile(windows + [Window(offset, n)], offset + n) && Fit(windows + [Window(offset, n)])
  {
  }

  lemma LastWindow(count: int, chunks: int, window: int, k: nat)
    requires (chunks - 1) * window < count <= k * window && k <= chunks && window > 0
    ensures k == chunks
  {
    if k < chunks {
      MulLe(k, chunks - 1, window);
    }
  }

  lemma EvenWindows(count: int, chunks: int, window: int)
    requires 0 < count <= MAX_AUDIO_SAMPLES && chunks == (count + CHUNK_SAMPLES - 1) / CHUNK_SAMPLES
    requires chunks > 0 ==> window == (count + chunks - 1) / chunks
    ensures 1 <= chunks <= 21 && 0 < window <= CHUNK_SAMPLES
    ensures (chunks - 1) * window < count <= chunks * window
  {
    Recompose(count + CHUNK_SAMPLES - 1, CHUNK_SAMPLES);
    Recompose(count + chunks - 1, chunks);
    assert chunks * window == window * chunks;
    assert count <= chunks * window <= count + chunks - 1;
    if window > CHUNK_SAMPLES {
      MulLe(CHUNK_SAMPLES + 1, window, chunks);
    }
    if window < chunks {
      MulLe(window, 20, chunks);
    }
    MulAddLeft(chunks - 1, 1, window);
  }

  lemma NextWindow(count: int, chunks: int, window: int, k: nat)
    requires window > 0 && (chunks - 1) * window < count <= chunks * window && k * window < count && k <= chunks
    ensures k < chunks && (k + 1) * window == k * window + window
  {
    MulAddLeft(k, 1, window);
  }

  /** No tiling by windows that fit uses fewer of them. */
  lemma {:induction false} LeastWindows(windows: seq<Window>, count: nat)
    requires Tile(windows, count) && Fit(windows)
    ensures |windows| >= (count + CHUNK_SAMPLES - 1) / CHUNK_SAMPLES
    decreases |windows|
  {
    TileBound(windows, count);
  }

  lemma {:induction false} TileBound(windows: seq<Window>, count: nat)
    requires Tile(windows, count) && Fit(windows)
    ensures count <= |windows| * CHUNK_SAMPLES
    decreases |windows|
  {
    if |windows| > 1 {
      var init := windows[..|windows| - 1];
      TileBound(init, windows[|windows| - 1].offset);
    }
  }

  // ----- appending and publishing -----

  type Text = seq<u8>

  /** The transcript: the segments, with a space before each that does not come first. */
  function Join(segments: seq<Text>, k: nat): Text
    requires k <= |segments|
  {
    if k == 0 then []
    else
      var before := Join(segments, k - 1);
      before + (if before == [] then [] else [SPACE]) + segments[k - 1]
  }

  /** What the helper does next: recognise the next window, copy the bytes of the new segment,
      commit a header update in its two atomic accesses, or nothing any more. */
  datatype Phase =
    | Recognizing
    | Copying(from: nat, copied: set<nat>)
    | Loading(update: seq<u8>)
    | Exchanging(update: seq<u8>, previous: Word)
    | Ended

  /** The reader's copy: the header it read, and the payload bytes it has so far. */
  datatype Reader = Away | Reading(status: u8, length: nat, bytes: Text)

  datatype State = State(word: Word, payload: Text, phase: Phase, segments: seq<Text>, published: nat,
                         commands: map<Thread, Call>, reader: Reader)

  datatype Action =
    | Segment(text: Text)
    | CopyByte(at: nat)
    | LoadHeader
    | SwapHeader
    | Finish
    | CommandLoad(t: Thread, command: u8)
    | CommandExchange(t: Thread)
    | ReadHeader
    | ReadByte

  function Transcript(s: State): Text {
    Join(s.segments, |s.segments|)
  }

  function Length(n: nat): (bytes: seq<u8>)
    requires n <= TEXT_LIMIT
    ensures |bytes| == 2
  {
    [n % 256, n / 256]
  }

  function LengthIn(word: Word): nat {
    var low: int, high: int := word[1], word[2];
    low + 256 * high
  }

  /** The order of the two bytes: they are the low half of the word the other protocols write. */
  lemma LengthOrder(n: nat)
    requires n <= TEXT_LIMIT
    ensures Length(n) == Put32(n)[..2] && Put32(n)[2..] == [0, 0]
  {
  }

  ghost predicate Copied(s: State)
    requires s.phase.Copying?
  {
    forall i :: s.phase.from <= i < |Transcript(s)| ==> i in s.phase.copied
  }

  ghost function HelperStep(s: State, a: Action): State
    requires Shape(s)
  {
    match a
    case Segment(text) =>
      if s.phase != Recognizing then s
      else if |Transcript(s)| + |text| + 1 > TEXT_LIMIT then s.(phase := Ended)
      else s.(segments := s.segments + [text], phase := Copying(|Transcript(s)|, {}))
    case CopyByte(at) =>
      if !s.phase.Copying? || at < s.phase.from || at >= |Transcript(s)| then s
      else s.(payload := s.payload[at := Transcript(s)[at]], phase := s.phase.(copied := s.phase.copied + {at}))
    case LoadHeader =>
      if s.phase.Copying? && Copied(s) then s.(phase := Loading([PARTIAL] + Length(|Transcript(s)|)))
      else if s.phase.Loading? then s.(phase := Exchanging(s.phase.update, s.word))
      else s
    case SwapHeader =>
      if !s.phase.Exchanging? then s
      else if s.word != s.phase.previous then s.(phase := Exchanging(s.phase.update, s.word))
      else s.(word := Patch(s.word, Write(0, s.phase.update)), published := |s.segments|,
              phase := if s.phase.update == [TOTAL] then Ended else Recognizing)
    case Finish => if s.phase == Recognizing && s.published > 0 then s.(phase := Loading([TOTAL])) else s
    case _ => s
  }

  ghost function AppStep(s: State, a: Action): State
    requires Shape(s)
  {
    match a
    case CommandLoad(t, command) =>
      if t in s.commands then s else s.(commands := s.commands[t := Call(Write(3, [command]), s.word)])
    case CommandExchange(t) =>
      if t !in s.commands then s
      else if s.word != s.commands[t].previous
      then s.(commands := s.commands[t := s.commands[t].(previous := s.word)])
      else s.(word := Patch(s.word, s.commands[t].write), commands := s.commands - {t})
    case ReadHeader =>
      var length := LengthIn(s.word);
      if (s.word[0] != PARTIAL && s.word[0] != TOTAL) || length > TEXT_LIMIT then s.(reader := Away)
      else s.(reader := Reading(s.word[0], length, []))
    case ReadByte =>
      if s.reader.Reading? && |s.reader.bytes| < s.reader.length
      then s.(reader := s.reader.(bytes := s.reader.bytes + [s.payload[|s.reader.bytes|]]))
      else s
    case _ => s
  }

  /** Sizes that make the steps defined. */
  ghost predicate Shape(s: State) {
    && |s.payload| == TEXT_LIMIT
    && |Transcript(s)| <= TEXT_LIMIT
    && (s.phase.Loading? || s.phase.Exchanging? ==> |s.phase.update| <= 3)
    && (forall t :: t in s.commands ==> s.commands[t].write.offset == 3 && |s.commands[t].write.data| == 1)
    && (s.reader.Reading? ==> s.reader.length <= TEXT_LIMIT)
  }

  // ----- what every interleaving keeps -----

  lemma {:induction false} JoinExtends(segments: seq<Text>, more: seq<Text>, k: nat)
    requires k <= |segments|
    ensures Join(segments + more, k) == Join(segments, k)
  {
    if k > 0 {
      JoinExtends(segments, more, k - 1);
    }
  }

  lemma {:induction false} JoinPrefix(segments: seq<Text>, k: nat, m: nat)
    requires k <= m <= |segments|
    ensures Join(segments, k) <= Join(segments, m)
    decreases m
  {
    if k < m {
      JoinPrefix(segments, k, m - 1);
    }
  }

  /** The payload holds the first n bytes of the transcript. */
  ghost predicate Holds(s: State, n: nat)
    requires Shape(s) && n <= |Transcript(s)|
  {
    forall i :: 0 <= i < n ==> s.payload[i] == Transcript(s)[i]
  }

  ghost predicate HelperInv(s: State)
    requires Shape(s)
  {
    var n := |s.segments|;
    match s.phase
    case Recognizing => s.published == n && Holds(s, |Transcript(s)|)
    case Ended => s.published == n && Holds(s, |Transcript(s)|)
    case Copying(from, copied) =>
      && n > 0 && s.published == n - 1 && from == |Join(s.segments, n - 1)| <= |Transcript(s)| && Holds(s, from)
      && forall i :: from <= i < |Transcript(s)| && i in copied ==> s.payload[i] == Transcript(s)[i]
    case Loading(update) => Commits(s, update)
    case Exchanging(update, _) => Commits(s, update)
  }

  /** The two updates a helper commits, and what is in place when it does. */
  ghost predicate Commits(s: State, update: seq<u8>)
    requires Shape(s)
  {
    var n := |s.segments|;
    && n > 0 && Holds(s, |Transcript(s)|)
    && ((update == [TOTAL] && s.published == n)
        || (update == [PARTIAL] + Length(|Transcript(s)|) && s.published == n - 1))
  }

  ghost predicate HeaderInv(s: State) {
    && s.published <= |s.segments|
    && ((s.word[0] == PARTIAL || s.word[0] == TOTAL) <==> s.published > 0)
    && (s.published > 0 ==> LengthIn(s.word) == |Join(s.segments, s.published)|)
    && (s.word[0] == TOTAL ==> s.phase == Ended && s.published == |s.segments|)
  }

  ghost predicate ReaderInv(s: State) {
    s.reader.Reading? ==>
      && (exists k :: 0 < k <= s.published <= |s.segments| && s.reader.length == |Join(s.segments, k)|)
      && |s.reader.bytes| <= s.reader.length <= |Transcript(s)|
      && s.reader.bytes == Transcript(s)[..|s.reader.bytes|]
      && (s.reader.status == TOTAL ==> s.phase == Ended && s.reader.length == |Transcript(s)|)
  }

  ghost predicate Inv(s: State) {
    Shape(s) && HelperInv(s) && HeaderInv(s) && ReaderInv(s)
  }

  lemma LengthReads(word: Word, n: nat)
    requires n <= TEXT_LIMIT && word[1..3] == Length(n)
    ensures LengthIn(word) == n
  {
    assert word[1] == word[1..3][0] && word[2] == word[1..3][1];
  }

  /** Helper and app write the header in the three ways that leave its length and command whole. */
  lemma WritesAreSpeech(s: State)
    requires Inv(s)
    ensures s.phase.Exchanging? ==> SpeechWrite(Write(0, s.phase.update))
    ensures forall t :: t in s.commands ==> SpeechWrite(s.commands[t].write)
  {
  }

  lemma SegmentKeeps(s: State, text: Text)
    requires Inv(s) && s.phase == Recognizing && |Transcript(s)| + |text| + 1 <= TEXT_LIMIT
    ensures Inv(HelperStep(s, Segment(text)))
  {
    var t := HelperStep(s, Segment(text));
    var n := |s.segments|;
    JoinExtends(s.segments, [text], n);
    JoinPrefix(t.segments, n, n + 1);
    assert Transcript(s) <= Transcript(t);
    JoinExtends(s.segments, [text], s.published);
    if s.reader.Reading? {
      var k :| 0 < k <= s.published <= |s.segments| && s.reader.length == |Join(s.segments, k)|;
      JoinExtends(s.segments, [text], k);
    }
  }

  lemma CopyKeeps(s: State, at: nat)
    requires Inv(s)
    ensures Inv(HelperStep(s, CopyByte(at)))
  {
  }

  lemma CommitLoadKeeps(s: State)
    requires Inv(s)
    ensures Inv(HelperStep(s, LoadHeader)) && Inv(HelperStep(s, Finish))
  {
  }

  lemma PatchStatus(word: Word, update: seq<u8>)
    requires |update| == 1 || |update| == 3
    ensures Patch(word, Write(0, update))[0] == update[0]
    ensures |update| == 3 ==> Patch(word, Write(0, update))[1..3] == update[1..]
    ensures |update| == 1 ==> LengthIn(Patch(word, Write(0, update))) == LengthIn(word)
  {
  }

  lemma CommitKeeps(s: State)
    requires Inv(s)
    ensures Inv(HelperStep(s, SwapHeader))
  {
    if s.phase.Exchanging? && s.word == s.phase.previous {
      var update := s.phase.update;
      PatchStatus(s.word, update);
      if |update| == 3 {
        LengthReads(Patch(s.word, Write(0, update)), |Transcript(s)|);
      }
    }
  }

  /** A command only touches the fourth byte. */
  lemma PatchCommand(word: Word, w: Write)
    requires w.offset == 3 && |w.data| == 1
    ensures Patch(word, w)[0] == word[0] && LengthIn(Patch(word, w)) == LengthIn(word)
  {
  }

  lemma SameButCommand(s: State, word: Word, commands: map<Thread, Call>)
    requires Inv(s) && word[0] == s.word[0] && LengthIn(word) == LengthIn(s.word)
    requires Shape(s.(word := word, commands := commands))
    ensures Inv(s.(word := word, commands := commands))
  {
  }

  lemma CommandKeeps(s: State, a: Action)
    requires Inv(s) && (a.CommandLoad? || a.CommandExchange?)
    ensures Inv(AppStep(s, a))
  {
    var t := AppStep(s, a);
    if a.CommandExchange? && a.t in s.commands {
      PatchCommand(s.word, s.commands[a.t].write);
    }
    SameButCommand(s, t.word, t.commands);
  }

  /** What is committed is in place. */
  lemma CommittedHolds(s: State)
    requires Shape(s) && HelperInv(s) && s.published <= |s.segments|
    ensures |Join(s.segments, s.published)| <= |Transcript(s)| && Holds(s, |Join(s.segments, s.published)|)
    ensures Join(s.segments, s.published) <= Transcript(s)
  {
    JoinPrefix(s.segments, s.published, |s.segments|);
  }

  lemma ReadHeaderKeeps(s: State)
    requires Inv(s)
    ensures Inv(AppStep(s, ReadHeader))
  {
    CommittedHolds(s);
  }

  /** The bytes below a committed length never change, so reading them one by one is safe. */
  lemma ReadByteKeeps(s: State)
    requires Inv(s)
    ensures Inv(AppStep(s, ReadByte))
  {
    hide Join;
    CommittedHolds(s);
    if s.reader.Reading? && |s.reader.bytes| < s.reader.length {
      var k :| 0 < k <= s.published <= |s.segments| && s.reader.length == |Join(s.segments, k)|;
      JoinPrefix(s.segments, k, s.published);
      var i := |s.reader.bytes|;
      assert s.payload[i] == Transcript(s)[i];
      assert Transcript(s)[..i + 1] == Transcript(s)[..i] + [s.payload[i]];
    }
  }

  ghost function Step(s: State, a: Action): State
    requires Shape(s)
  {
    if a.CommandLoad? || a.CommandExchange? || a.ReadHeader? || a.ReadByte? then AppStep(s, a) else HelperStep(s, a)
  }

  lemma StepKeeps(s: State, a: Action)
    requires Inv(s)
    ensures Inv(Step(s, a))
  {
    match a
    case Segment(text) =>
      if s.phase == Recognizing && |Transcript(s)| + |text| + 1 <= TEXT_LIMIT {
        SegmentKeeps(s, text);
      }
    case CopyByte(at) => CopyKeeps(s, at);
    case LoadHeader => CommitLoadKeeps(s);
    case Finish => CommitLoadKeeps(s);
    case SwapHeader => CommitKeeps(s);
    case CommandLoad(_, _) => CommandKeeps(s, a);
    case CommandExchange(_) => CommandKeeps(s, a);
    case ReadHeader => ReadHeaderKeeps(s);
    case ReadByte => ReadByteKeeps(s);
  }

  // ----- whole runs -----

  predicate Initial(s: State) {
    && |s.payload| == TEXT_LIMIT && s.phase == Recognizing && s.segments == [] && s.published == 0
    && s.commands == map[] && s.reader == Away && s.word[0] != PARTIAL && s.word[0] != TOTAL
  }

  /** The state is reached by some interleaving of the helper and the app. */
  ghost predicate Reaches(s: State, actions: seq<Action>, t: State)
    decreases |actions|
  {
    if actions == [] then s == t else Shape(s) && Reaches(Step(s, actions[0]), actions[1..], t)
  }

  lemma {:induction false} RunKeeps(s: State, actions: seq<Action>, t: State)
    requires Inv(s) && Reaches(s, actions, t)
    ensures Inv(t)
    decreases |actions|
  {
    if actions == [] {
    } else {
      StepKeeps(s, actions[0]);
      RunKeeps(Step(s, actions[0]), actions[1..], t);
    }
  }

  lemma StepGrows(s: State, a: Action)
    requires Shape(s) && s.published <= |s.segments|
    ensures s.segments <= Step(s, a).segments && s.published <= Step(s, a).published <= |Step(s, a).segments|
  {
  }

  lemma {:induction false} RunGrows(s: State, actions: seq<Action>, t: State)
    requires Reaches(s, actions, t) && s.published <= |s.segments|
    ensures s.segments <= t.segments && s.published <= t.published <= |t.segments|
    decreases |actions|
  {
    if actions == [] {
    } else {
      StepGrows(s, actions[0]);
      RunGrows(Step(s, actions[0]), actions[1..], t);
    }
  }

  /** What the app has when it has read as many bytes as the header announced: the transcript up to
      the end of a segment, whatever happened since; all of it when the header said T. */
  lemma ReaderSeesWholeSegments(s: State, actions: seq<Action>, t: State)
    requires Initial(s) && Reaches(s, actions, t)
    requires t.reader.Reading? && |t.reader.bytes| == t.reader.length
    ensures exists k :: 0 < k <= |t.segments| && t.reader.bytes == Join(t.segments, k)
    ensures t.reader.bytes <= Transcript(t)
    ensures t.reader.status == TOTAL ==> t.reader.bytes == Transcript(t)
  {
    InitialHolds(s);
    RunKeeps(s, actions, t);
    var k :| 0 < k <= t.published <= |t.segments| && t.reader.length == |Join(t.segments, k)|;
    JoinPrefix(t.segments, k, |t.segments|);
    assert t.reader.bytes == Join(t.segments, k);
  }

  lemma InitialHolds(s: State)
    requires Initial(s)
    ensures Inv(s)
  {
  }

  /** The transcript and the announced length only grow, so a later look extends an earlier one. */
  lemma LaterLooksExtend(s: State, actions: seq<Action>, t: State)
    requires Inv(s) && Reaches(s, actions, t)
    ensures Transcript(s) <= Transcript(t)
    ensures s.published > 0 ==> LengthIn(t.word) >= LengthIn(s.word)
  {
    RunKeeps(s, actions, t);
    RunGrows(s, actions, t);
    var more := t.segments[|s.segments|..];
    assert t.segments == s.segments + more;
    JoinExtends(s.segments, more, |s.segments|);
    JoinPrefix(t.segments, |s.segments|, |t.segments|);
    JoinExtends(s.segments, more, s.published);
    JoinPrefix(t.segments, s.published, t.published);
  }
}
