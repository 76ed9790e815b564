/** That transcripts get through: undisturbed, the helper's and the app's steps deliver every segment,
    the end and every command (app/stt.c:81-131, 200-213, app/stt.odin:412-425). */
module TranscribeProgress {
  import opened Wire
  import IpcHeader
  import opened Transcribe

  // ----- what the transcript is -----

  /** Texts with one space between each and the next. */
  function Spaced(texts: seq<Text>): Text {
    if texts == [] then [] else if |texts| == 1 then texts[0] else texts[0] + [0x20] + Spaced(texts[1..])
  }

  lemma {:induction false} SpacedSnoc(texts: seq<Text>, text: Text)
    requires texts != []
    ensures Spaced(texts + [text]) == Spaced(texts) + [0x20] + text
    decreases |texts|
  {
    var all := texts + [text];
    assert all[1..] == texts[1..] + [text];
    if |texts| == 1 {
      assert all[1..] == [text];
    } else {
      SpacedSnoc(texts[1..], text);
      assert texts[0] + [0x20] + (Spaced(texts[1..]) + [0x20] + text)
          == (texts[0] + [0x20] + Spaced(texts[1..])) + [0x20] + text;
    }
  }

  lemma {:induction false} JoinIsSpaced(segments: seq<Text>, k: nat)
    requires k <= |segments| && forall i :: 0 <= i < k ==> segments[i] != []
    ensures Join(segments, k) == Spaced(segments[..k])
    ensures k > 0 ==> Join(segments, k) != []
  {
    if k > 0 {
      JoinIsSpaced(segments, k - 1);
      assert segments[..k] == segments[..k - 1] + [segments[k - 1]];
      if k > 1 {
        SpacedSnoc(segments[..k - 1], segments[k - 1]);
      }
    }
  }

  // ----- runs -----

  lemma {:induction false} ReachesOn(s: State, a: seq<Action>, t: State, b: seq<Action>, u: State)
    requires Reaches(s, a, t) && Reaches(t, b, u)
    ensures Reaches(s, a + b, u)
    decreases |a|
  {
    if a == [] {
      assert a + b == b;
    } else {
      assert (a + b)[1..] == a[1..] + b;
      ReachesOn(Step(s, a[0]), a[1..], t, b, u);
    }
  }

  lemma ReachesOne(s: State, a: Action)
    requires Shape(s)
    ensures Reaches(s, [a], Step(s, a))
  {
    assert [a][1..] == [];
  }

  /** The bytes from position at on are copied one after the other. */
  lemma {:induction false} CopiesRest(s: State, at: nat) returns (actions: seq<Action>, t: State)
    requires Inv(s) && s.phase.Copying? && s.phase.from <= at <= |Transcript(s)|
    requires forall i :: s.phase.from <= i < at ==> i in s.phase.copied
    ensures Reaches(s, actions, t) && Inv(t) && t.phase.Copying? && Copied(t)
    ensures t == s.(payload := t.payload, phase := t.phase)
    decreases |Transcript(s)| - at
  {
    hide Join, Inv;
    InvShape(s);
    if at == |Transcript(s)| {
      actions, t := [], s;
    } else {
      var u := Step(s, CopyByte(at));
      StepKeeps(s, CopyByte(at));
      ReachesOne(s, CopyByte(at));
      actions, t := CopiesRest(u, at + 1);
      ReachesOn(s, [CopyByte(at)], u, actions, t);
      actions := [CopyByte(at)] + actions;
    }
  }

  lemma InvShape(s: State)
    requires Inv(s)
    ensures Shape(s)
  {
  }

  /** A header update that nobody overtakes is in the word after a load and an exchange. */
  lemma CommitGoesThrough(s: State)
    requires Inv(s) && s.phase.Loading?
    ensures
      var t := Step(Step(s, LoadHeader), SwapHeader);
      && Inv(t) && Reaches(s, [LoadHeader, SwapHeader], t)
      && t == s.(word := IpcHeader.Patch(s.word, IpcHeader.Write(0, s.phase.update)), published := |s.segments|,
                 phase := if s.phase.update == [TOTAL] then Ended else Recognizing)
  {
    hide Inv, Join;
    InvShape(s);
    StepKeeps(s, LoadHeader);
    var u := Step(s, LoadHeader);
    InvShape(u);
    StepKeeps(u, SwapHeader);
    ReachesOne(s, LoadHeader);
    ReachesOne(u, SwapHeader);
    ReachesOn(s, [LoadHeader], u, [SwapHeader], Step(u, SwapHeader));
  }

  /** And so is a command, which changes nothing else. */
  lemma CommandGoesThrough(s: State, t: IpcHeader.Thread, command: u8)
    requires Inv(s) && t !in s.commands
    ensures
      var u := Step(s, CommandLoad(t, command));
      Inv(u) && Step(u, CommandExchange(t)) == s.(word := [s.word[0], s.word[1], s.word[2], command])
  {
    StepKeeps(s, CommandLoad(t, command));
  }

  /** A segment that fits gets published: its bytes, then the header with the new length. */
  lemma SegmentGoesThrough(s: State, text: Text) returns (actions: seq<Action>, t: State)
    requires Inv(s) && s.phase == Recognizing && |Transcript(s)| + |text| + 1 <= TEXT_LIMIT
    ensures Reaches(s, actions, t) && Inv(t) && t.phase == Recognizing
    ensures t.segments == s.segments + [text] && t.published == |t.segments| && t.word[0] == PARTIAL
    ensures t.commands == s.commands && t.word[3] == s.word[3] && t.reader == s.reader
  {
    hide Inv, Join, Reaches;
    InvShape(s);
    var a := Step(s, Segment(text));
    StepKeeps(s, Segment(text));
    ReachesOne(s, Segment(text));
    InvShape(a);
    JoinExtends(s.segments, [text], |s.segments|);
    JoinPrefix(a.segments, |s.segments|, |a.segments|);
    var copies, b := CopiesRest(a, |Transcript(s)|);
    InvShape(b);
    var c := Step(b, LoadHeader);
    StepKeeps(b, LoadHeader);
    ReachesOne(b, LoadHeader);
    CommitGoesThrough(c);
    t := Step(Step(c, LoadHeader), SwapHeader);
    ReachesOn(s, [Segment(text)], a, copies, b);
    ReachesOn(s, [Segment(text)] + copies, b, [LoadHeader], c);
    actions := [Segment(text)] + copies + [LoadHeader];
    ReachesOn(s, actions, c, [LoadHeader, SwapHeader], t);
    actions := actions + [LoadHeader, SwapHeader];
    PatchedStatus(c.word, [PARTIAL] + Length(|Transcript(b)|));
  }

  lemma PatchedStatus(word: IpcHeader.Word, update: seq<u8>)
    requires |update| == 1 || |update| == 3
    ensures IpcHeader.Patch(word, IpcHeader.Write(0, update))[0] == update[0]
    ensures IpcHeader.Patch(word, IpcHeader.Write(0, update))[3] == word[3]
  {
  }

  /** All segments, one after the other. */
  lemma {:induction false} SegmentsGoThrough(s: State, texts: seq<Text>) returns (actions: seq<Action>, t: State)
    requires Initial(s) && |Join(texts, |texts|)| + |texts| <= TEXT_LIMIT
    ensures Reaches(s, actions, t) && Inv(t) && t.phase == Recognizing
    ensures t.segments == texts && t.published == |texts|
    decreases |texts|
  {
    hide Inv, Reaches;
    InitialHolds(s);
    if texts == [] {
      actions, t := [], s;
      NoSteps(s);
    } else {
      var init, last := texts[..|texts| - 1], texts[|texts| - 1];
      assert texts == init + [last];
      JoinExtends(init, [last], |init|);
      var before, u := SegmentsGoThrough(s, init);
      var more;
      more, t := SegmentGoesThrough(u, last);
      ReachesOn(s, before, u, more, t);
      actions := before + more;
    }
  }

  lemma NoSteps(s: State)
    ensures Reaches(s, [], s)
  {
  }

  /** The app has read the whole of what the header announces. */
  lemma {:induction false} ReadsOn(s: State) returns (actions: seq<Action>, t: State)
    requires Inv(s) && s.reader.Reading?
    ensures Reaches(s, actions, t) && Inv(t)
    ensures t.reader.Reading? && |t.reader.bytes| == t.reader.length && t.reader.status == s.reader.status
    ensures t.reader.length == s.reader.length && t.segments == s.segments && t.phase == s.phase
    decreases s.reader.length - |s.reader.bytes|
  {
    hide Join, HelperInv, HeaderInv, Reaches;
    if |s.reader.bytes| == s.reader.length {
      actions, t := [], s;
      NoSteps(s);
    } else {
      var u := Step(s, ReadByte);
      StepKeeps(s, ReadByte);
      ReachesOne(s, ReadByte);
      actions, t := ReadsOn(u);
      ReachesOn(s, [ReadByte], u, actions, t);
      actions := [ReadByte] + actions;
    }
  }

  /** From the start: whatever texts are recognised, if they fit they can reach the app as a whole,
      with a space between each and the next, under a header that says this is all. */
  lemma TranscriptGoesThrough(s: State, texts: seq<Text>) returns (actions: seq<Action>, t: State)
    requires Initial(s) && texts != [] && |Join(texts, |texts|)| + |texts| <= TEXT_LIMIT
    ensures Reaches(s, actions, t) && t.reader.Reading? && t.reader.status == TOTAL
    ensures t.reader.bytes == Join(texts, |texts|)
    ensures (forall i :: 0 <= i < |texts| ==> texts[i] != []) ==> t.reader.bytes == Spaced(texts)
  {
    hide Inv, Join, Reaches;
    var segments, a := SegmentsGoThrough(s, texts);
    InvShape(a);
    var b := Step(a, Finish);
    StepKeeps(a, Finish);
    ReachesOne(a, Finish);
    CommitGoesThrough(b);
    var c := Step(Step(b, LoadHeader), SwapHeader);
    PatchedStatus(b.word, [TOTAL]);
    InvShape(c);
    AllAnnounced(c);
    var d := Step(c, ReadHeader);
    StepKeeps(c, ReadHeader);
    ReachesOne(c, ReadHeader);
    var looks;
    looks, t := ReadsOn(d);
    ReachesOn(s, segments, a, [Finish], b);
    ReachesOn(s, segments + [Finish], b, [LoadHeader, SwapHeader], c);
    ReachesOn(s, segments + [Finish] + [LoadHeader, SwapHeader], c, [ReadHeader], d);
    actions := segments + [Finish] + [LoadHeader, SwapHeader] + [ReadHeader];
    ReachesOn(s, actions, d, looks, t);
    actions := actions + looks;
    ReaderSeesWholeSegments(s, actions, t);
    if forall i :: 0 <= i < |texts| ==> texts[i] != [] {
      JoinIsSpaced(texts, |texts|);
      assert texts[..|texts|] == texts;
    }
  }

  /** A header that says this is all can be read. */
  lemma AllAnnounced(s: State)
    requires Inv(s) && s.word[0] == TOTAL
    ensures LengthIn(s.word) <= TEXT_LIMIT
  {
  }
}
