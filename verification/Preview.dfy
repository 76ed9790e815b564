/** The bounded preview of a streaming agent answer (app/agent_streams.odin:61-136). */
module Preview {
  import opened Options
  import opened Wire
  import Utf8

  const PREVIEW_BYTES: nat := 256 * 1024

  type Text = seq<u8>

  /** A UTF-8 continuation byte: its top two bits are 10. */
  predicate Continues(b: u8) {
    b / 0x40 == 2
  }

  /** A character of s starts or s ends at position i. */
  predicate Boundary(s: Text, i: nat) {
    i == |s| || (i < |s| && !Continues(s[i]))
  }

  /** A text made of whole characters does not start inside one. */
  predicate Whole(s: Text) {
    Boundary(s, 0)
  }

  function NextBoundary(s: Text, i: nat): (k: nat)
    requires i <= |s|
    ensures i <= k <= |s| && Boundary(s, k)
    ensures forall j :: i <= j < k ==> !Boundary(s, j)
    decreases |s| - i
  {
    if Boundary(s, i) then i else NextBoundary(s, i + 1)
  }

  function TrimStart(s: Text): (k: nat)
    ensures k <= |s|
  {
    NextBoundary(s, if |s| > PREVIEW_BYTES then |s| - PREVIEW_BYTES else 0)
  }

  function Trim(s: Text): Text {
    s[TrimStart(s)..]
  }

  /** Trim keeps the longest suffix that fits and starts on a character. */
  lemma TrimIsLongest(s: Text, j: nat)
    requires j <= |s|
    ensures |Trim(s)| <= PREVIEW_BYTES && Whole(Trim(s)) && Trim(s) == s[|s| - |Trim(s)|..]
    ensures |s| - j <= PREVIEW_BYTES && Boundary(s, j) ==> |s[j..]| <= |Trim(s)|
  {
  }

  /** UTF-8 has at most three continuation bytes in a row, so at most three bytes of the room stay unused. */
  lemma TrimFillsTheRoom(s: Text)
    requires Whole(s)
    requires forall i :: 0 <= i && i + 3 < |s| ==>
               !(Continues(s[i]) && Continues(s[i + 1]) && Continues(s[i + 2]) && Continues(s[i + 3]))
    ensures |s| <= PREVIEW_BYTES ==> Trim(s) == s
    ensures |s| > PREVIEW_BYTES ==> |Trim(s)| >= PREVIEW_BYTES - 3
  {
    if |s| > PREVIEW_BYTES {
      var i := |s| - PREVIEW_BYTES;
      assert Boundary(s, i) || Boundary(s, i + 1) || Boundary(s, i + 2) || Boundary(s, i + 3);
    }
  }

  /** Trimming text that is UTF-8 leaves UTF-8, with at most three bytes of the room unused. */
  lemma TrimKeepsText(s: Text)
    requires Utf8.Spells(s)
    ensures Utf8.Spells(Trim(s)) && Whole(s)
    ensures |Trim(s)| == |s| <= PREVIEW_BYTES || PREVIEW_BYTES - 3 <= |Trim(s)| <= PREVIEW_BYTES
  {
    hide Utf8.Spells, Utf8.Characters, Utf8.Text;
    Utf8.CharactersIffText(s);
    if s != [] {
      Utf8.StartIsNoTail(s, 0, |s|);
    }
    TrimIsLongest(s, |s|);
    CharactersFillTheRoom(s);
    SuffixIsText(s, TrimStart(s));
  }

  lemma CharactersFillTheRoom(s: Text)
    requires Utf8.Characters(s, 0, |s|) && Whole(s)
    ensures |s| <= PREVIEW_BYTES ==> Trim(s) == s
    ensures |s| > PREVIEW_BYTES ==> |Trim(s)| >= PREVIEW_BYTES - 3
  {
    hide Utf8.Characters, Trim;
    forall i | 0 <= i && i + 3 < |s|
      ensures !(Continues(s[i]) && Continues(s[i + 1]) && Continues(s[i + 2]) && Continues(s[i + 3]))
    {
      Utf8.NoFourTails(s, 0, i);
    }
    TrimFillsTheRoom(s);
  }

  lemma SuffixIsText(s: Text, k: nat)
    requires k <= |s| && Utf8.Characters(s, 0, |s|) && Boundary(s, k)
    ensures Utf8.Spells(s[k..])
  {
    hide Utf8.Spells, Utf8.Characters, Utf8.Text;
    Utf8.CutHere(s, 0, k);
    var cs := Utf8.CharactersSpell(s, k);
    Utf8.IsText(s[k..], cs);
  }

  /** The first boundary is found from anywhere between the start and itself. */
  lemma NextBoundaryIs(s: Text, i: nat, k: nat)
    requires i <= k <= |s| && Boundary(s, k)
    requires forall j :: i <= j < k ==> !Boundary(s, j)
    ensures NextBoundary(s, i) == k
  {
    var n := NextBoundary(s, i);
    assert Boundary(s, n);
  }

  /** What is appended shifts no boundary, and neither does leaving out a beginning. */
  lemma BoundariesShift(s: Text, more: Text, k: nat, j: nat)
    requires Whole(more) && k <= |s| && Boundary(s, k) && j <= |s| + |more|
    ensures Boundary(s + more, k)
    ensures j >= k ==> (Boundary(s[k..] + more, j - k) <==> Boundary(s + more, j))
    ensures j < |s| ==> (Boundary(s, j) <==> Boundary(s + more, j))
  {
  }

  /** Only what was kept can still matter: trimming early and again gives the same as trimming once. */
  lemma TrimAppend(s: Text, more: Text)
    requires Whole(more)
    ensures Trim(s + more) == Trim(Trim(s) + more)
  {
    hide Boundary, Whole;
    var k := TrimStart(s);
    var all, kept := s + more, s[k..] + more;
    var i := if |all| > PREVIEW_BYTES then |all| - PREVIEW_BYTES else 0;
    var e := TrimStart(kept);
    BoundariesShift(s, more, k, k + e);
    forall j | i <= j < k + e
      ensures !Boundary(all, j)
    {
      BoundariesShift(s, more, k, j);
    }
    NextBoundaryIs(all, i, k + e);
    assert all[k + e..] == kept[e..];
  }

  // ----- updates -----

  datatype Update =
    | Chunk(text: Text)
    | Progress(text: Text)
    | Checkpoint(text: Text)
    | Abort
    | OtherRecord
    | Finished(text: Text)
    | Failed
    | Status

  /** The fields of an Agent_Preview that an update may touch. */
  datatype View = View(text: Text, dirty: bool, cancel: bool, failed: bool, final: bool, checkpoint: bool,
                       progress: bool)

  predicate Stopped(p: View) {
    p.cancel || p.final || p.failed
  }

  function Joined(old_: Text, s: Text): Text {
    if |old_| + |s| > PREVIEW_BYTES then Trim(old_ + s) else old_ + s
  }

  function Applied(p: View, update: Update): View {
    if Stopped(p) then p
    else
      match update
      case Chunk(s) => p.(text := Joined(if p.progress then [] else p.text, s), dirty := true, progress := false)
      case Progress(s) =>
        if p.checkpoint || (p.text != [] && !p.progress) then p
        else p.(text := Joined(p.text, s), dirty := true, progress := true)
      case Checkpoint(s) => p.(text := Trim(s), dirty := true, checkpoint := true, progress := false)
      case Finished(s) =>
        var q := p.(final := true, progress := false);
        if p.checkpoint && p.text != [] then q else q.(text := Trim(s), dirty := true)
      case Abort => p.(failed := true, dirty := true)
      case Failed => p.(failed := true, dirty := true)
      case OtherRecord => p
      case Status => p
  }

  class AgentPreview {
    var text: Text
    var dirty: bool
    var cancel: bool
    var failed: bool
    var final: bool
    var checkpoint: bool
    var progress: bool

    constructor ()
      ensures Value() == INITIAL
    {
      text, dirty, cancel, failed, final, checkpoint, progress := [], false, false, false, false, false, false;
    }

    function Value(): View
      reads this
    {
      View(text, dirty, cancel, failed, final, checkpoint, progress)
    }

    method SetText(s: Text)
      modifies this`text, this`dirty
      ensures text == Trim(s) && dirty
    {
      var start := if |s| > PREVIEW_BYTES then |s| - PREVIEW_BYTES else 0;
      while start < |s| && Continues(s[start])
        invariant start <= |s| && TrimStart(s) == NextBoundary(s, start)
      {
        start := start + 1;
      }
      text := s[start..];
      dirty := true;
    }

    method Append(s: Text)
      modifies this`text, this`dirty
      ensures text == Joined(old(text), s) && dirty
    {
      if |text| + |s| > PREVIEW_BYTES {
        SetText(text + s);
      } else {
        text := text + s;
        dirty := true;
      }
    }

    method Apply(update: Update)
      modifies this
      ensures Value() == Applied(old(Value()), update)
    {
      if cancel || final || failed {
        return;
      }
      match update
      case Chunk(s) =>
        if progress {
          text := [];
        }
        progress := false;
        Append(s);
      case Progress(s) =>
        if checkpoint || (|text| > 0 && !progress) {
          return;
        }
        progress := true;
        Append(s);
      case Checkpoint(s) =>
        checkpoint := true;
        progress := false;
        SetText(s);
      case Abort =>
        failed := true;
        dirty := true;
      case OtherRecord =>
      case Finished(s) =>
        if !checkpoint || |text| == 0 {
          SetText(s);
        }
        final := true;
        progress := false;
      case Failed =>
        failed := true;
        dirty := true;
      case Status =>
    }
  }

  const INITIAL: View := View([], false, false, false, false, false, false)

  /** Everything that touches a preview under its mutex: an update of the stream, the switch to
      another conversation, and the end of the worker that reads the stream. */
  datatype Event = Received(update: Update) | Cancelled | WorkerEnds

  function After(p: View, e: Event): View {
    match e
    case Received(u) => Applied(p, u)
    case Cancelled => p.(cancel := true)
    case WorkerEnds => if p.final then p else p.(failed := true, dirty := true)
  }

  /** What changes on the screen marks the preview for redrawing, and only drawing takes the mark away;
      a stream ends final or failed. */
  lemma ChangeIsMarked(p: View, e: Event)
    ensures
      var q := After(p, e);
      && (q.text != p.text || q.failed != p.failed ==> q.dirty) && (p.dirty ==> q.dirty)
      && (e == WorkerEnds ==> (q.final || q.failed) && (p.final ==> q == p))
  {
  }

  function Run(p: View, events: seq<Event>): View
    decreases |events|
  {
    if events == [] then p else After(Run(p, events[..|events| - 1]), events[|events| - 1])
  }

  /** The marmot library hands out texts made of whole characters. */
  predicate WholeUpdate(u: Update) {
    u.Chunk? || u.Progress? || u.Checkpoint? || u.Finished? ==> Whole(u.text)
  }

  predicate WholeTexts(events: seq<Event>) {
    forall i :: 0 <= i < |events| && events[i].Received? ==> WholeUpdate(events[i].update)
  }

  /** The stream is still going: nothing in the events ends or cancels it. */
  predicate Going(events: seq<Event>) {
    forall i :: 0 <= i < |events| ==> events[i].Received? && !Ending(events[i].update)
  }

  predicate Ending(u: Update) {
    u.Abort? || u.Failed? || u.Finished?
  }

  // ----- what a reader who kept everything would have -----

  /** The whole answer so far: the last checkpoint and the chunks behind it. */
  function Transcript(events: seq<Event>): Text
    decreases |events|
  {
    if events == [] then []
    else
      var before := Transcript(events[..|events| - 1]);
      match events[|events| - 1]
      case Received(Chunk(s)) => before + s
      case Received(Checkpoint(s)) => s
      case _ => before
  }

  predicate Checkpointed(events: seq<Event>) {
    exists i :: 0 <= i < |events| && events[i].Received? && events[i].update.Checkpoint?
  }

  /** Progress may show as long as no answer text could. */
  predicate NothingToShow(events: seq<Event>) {
    !Checkpointed(events) && Trim(Transcript(events)) == []
  }

  /** The progress texts since the answer last changed, as far as they may show. */
  function Notes(events: seq<Event>): Option<Text>
    decreases |events|
  {
    if events == [] then None
    else
      var before := events[..|events| - 1];
      match events[|events| - 1]
      case Received(Progress(s)) =>
        if !NothingToShow(before) then Notes(before)
        else if Notes(before).None? then Some(s) else Some(Notes(before).value + s)
      case Received(Chunk(_)) => None
      case Received(Checkpoint(_)) => None
      case _ => Notes(before)
  }

  /** The preview of a going stream. */
  function Shown(events: seq<Event>): View {
    View(if Notes(events).Some? then Trim(Notes(events).value) else Trim(Transcript(events)),
         Run(INITIAL, events).dirty, false, false, false, Checkpointed(events), Notes(events).Some?)
  }

  lemma JoinedIsTrimmed(old_: Text, s: Text)
    requires Whole(s)
    ensures Joined(Trim(old_), s) == Trim(old_ + s)
  {
    TrimAppend(old_, s);
    var y := Trim(old_) + s;
    if |y| <= PREVIEW_BYTES {
      assert Whole(y);
      NextBoundaryIs(y, 0, 0);
      assert y[0..] == y;
    }
  }

  lemma CheckpointedLast(events: seq<Event>)
    requires events != []
    ensures
      var last := events[|events| - 1];
      Checkpointed(events) == (Checkpointed(events[..|events| - 1]) || (last.Received? && last.update.Checkpoint?))
  {
    var before := events[..|events| - 1];
    if Checkpointed(before) {
      var i :| 0 <= i < |before| && before[i].Received? && before[i].update.Checkpoint?;
      assert events[i] == before[i];
    }
    if Checkpointed(events) {
      var i :| 0 <= i < |events| && events[i].Received? && events[i].update.Checkpoint?;
      assert i < |before| ==> before[i] == events[i];
    }
  }

  /** Notes are there only while there is no answer to show. */
  lemma {:induction false} NotesMeanNothingToShow(events: seq<Event>)
    ensures Notes(events).Some? ==> NothingToShow(events)
    decreases |events|
  {
    if events == [] {
    } else {
      NotesMeanNothingToShow(events[..|events| - 1]);
      CheckpointedLast(events);
    }
  }

  /** The incremental preview of a going stream equals trimming the whole transcript at once;
      while progress shows it is the trimmed progress text and no answer text is hidden. */
  lemma {:induction false} PreviewIsTrimmedTranscript(events: seq<Event>)
    requires WholeTexts(events) && Going(events)
    ensures Run(INITIAL, events) == Shown(events)
    ensures Run(INITIAL, events).progress ==> NothingToShow(events)
    decreases |events|
  {
    NotesMeanNothingToShow(events);
    if events == [] {
      assert Trim([]) == [];
    } else {
      var before := events[..|events| - 1];
      var u := events[|events| - 1].update;
      PreviewIsTrimmedTranscript(before);
      NotesMeanNothingToShow(before);
      CheckpointedLast(events);
      match u
      case Chunk(s) =>
        JoinedIsTrimmed(Transcript(before), s);
      case Progress(s) =>
        if NothingToShow(before) {
          JoinedIsTrimmed(if Notes(before).Some? then Notes(before).value else Transcript(before), s);
          JoinedIsTrimmed([], s);
          assert Trim([]) == [] && [] + s == s;
        }
      case _ =>
    }
  }

  /** Once final, failed or cancelled, the text never changes again. */
  lemma {:induction false} StoppedIsFrozen(p: View, events: seq<Event>)
    requires Stopped(p)
    ensures Stopped(Run(p, events)) && Run(p, events).text == p.text
    ensures Run(p, events).progress == p.progress && Run(p, events).final == p.final
    decreases |events|
  {
    if events == [] {
    } else {
      StoppedIsFrozen(p, events[..|events| - 1]);
    }
  }

  lemma {:induction false} RunJoin(p: View, first: seq<Event>, rest: seq<Event>)
    ensures Run(p, first + rest) == Run(Run(p, first), rest)
    decreases |rest|
  {
    if rest == [] {
      assert first + rest == first;
    } else {
      RunJoin(p, first, rest[..|rest| - 1]);
      assert (first + rest)[..|first + rest| - 1] == first + rest[..|rest| - 1];
    }
  }

  /** A finished stream shows the checkpointed answer with its later chunks, or without one the
      authoritative text that came with the end, whatever events follow. */
  lemma FinishedShows(events: seq<Event>, s: Text, later: seq<Event>)
    requires WholeTexts(events) && Going(events)
    ensures
      var p := Run(INITIAL, events + ([Received(Finished(s))] + later));
      && p.final && !p.progress
      && p.text == if Checkpointed(events) && Trim(Transcript(events)) != [] then Trim(Transcript(events)) else Trim(s)
  {
    var finish := [Received(Finished(s))];
    assert events + (finish + later) == (events + finish) + later;
    RunJoin(INITIAL, events + finish, later);
    assert (events + finish)[..|events|] == events;
    PreviewIsTrimmedTranscript(events);
    NotesMeanNothingToShow(events);
    StoppedIsFrozen(Run(INITIAL, events + finish), later);
  }
}
