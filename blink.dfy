/** The `first_read` state machine of the eye-blink detector.

    The script keeps one module-level flag, `first_read`, across its frame loop.
    Per detected face the number of eyes found and the flag choose the text drawn
    over the frame; a face without two eyes while the flag is clear is a blink,
    which saves a snapshot and sets the flag again. After all faces of a frame,
    key `q` ends the loop and key `s` clears the flag when it is set.

    The camera, the cascade classifiers and every drawing call are replaced by
    inputs: each frame is the list of eye counts of the faces found in it, in
    detection order, and the key code `cv2.waitKey(1)` returned after showing it.
*/
module BlinkDetection {

  /** What the script shows for one face, or for a frame without a face. */
  datatype Overlay =
    | PressToBegin  // "Eye detected press s to begin"
    | EyesOpen      // "Eyes open!"
    | NoEyes        // "No eyes detected"
    | Blink         // blink detected: snapshot saved, flag set again
    | NoFace        // "No face detected"

  /** Key codes the loop reacts to; any other code, including -1 (no key), is ignored. */
  const QuitKey: int := 113   // ord('q')
  const StartKey: int := 115  // ord('s')

  /** One captured frame: eye counts of its faces, and the key read after it is shown. */
  datatype Frame = Frame(eyeCounts: seq<nat>, key: int)

  /** What an observer of a run sees: an overlay (or snapshot), the flag being
      cleared by `s`, or the loop ending on `q`. */
  datatype Event = Shown(overlay: Overlay) | Armed | Quit

  // ---------------------------------------------------------------------------
  // Specification of one step of each kind
  // ---------------------------------------------------------------------------

  /** One face with `eyes` eyes found: the overlay chosen and the new flag. */
  function FaceStep(firstRead: bool, eyes: nat): (r: (Overlay, bool))
    // a blink is exactly a face without two eyes while the flag is clear
    ensures r.0 == Blink <==> !firstRead && eyes < 2
    // only a blink touches the flag, and it sets it
    ensures r.1 == (firstRead || r.0 == Blink)
    // with two eyes or more, only the text depends on the flag
    ensures eyes >= 2 ==> r.0 == (if firstRead then PressToBegin else EyesOpen)
    ensures eyes < 2 && firstRead ==> r.0 == NoEyes
  {
    if eyes >= 2 then
      (if firstRead then PressToBegin else EyesOpen, firstRead)
    else if firstRead then
      (NoEyes, true)
    else
      (Blink, true)
  }

  /** The faces of one frame, in order: the overlays and the flag afterwards. */
  function FacesStep(firstRead: bool, eyeCounts: seq<nat>): (r: (seq<Overlay>, bool))
    ensures |r.0| == |eyeCounts|
    // at most one blink per frame: after a blink the flag is set for the remaining faces
    ensures multiset(r.0)[Blink] <= 1
    ensures multiset(r.0)[Blink] == 1 ==> !firstRead && r.1
    ensures multiset(r.0)[Blink] == 0 ==> r.1 == firstRead
    decreases |eyeCounts|
  {
    if eyeCounts == [] then
      ([], firstRead)
    else
      var (shown, flag) := FacesStep(firstRead, eyeCounts[..|eyeCounts| - 1]);
      var (overlay, flag') := FaceStep(flag, eyeCounts[|eyeCounts| - 1]);
      (shown + [overlay], flag')
  }

  /** One frame: a frame without faces shows "No face detected" and leaves the flag alone. */
  function FrameStep(firstRead: bool, eyeCounts: seq<nat>): (r: (seq<Overlay>, bool))
    ensures eyeCounts == [] ==> r.0 == [NoFace] && r.1 == firstRead
    ensures eyeCounts != [] ==> |r.0| == |eyeCounts| && NoFace !in r.0
    ensures multiset(r.0)[Blink] <= 1
    ensures multiset(r.0)[Blink] == 1 ==> !firstRead && r.1
    ensures multiset(r.0)[Blink] == 0 ==> r.1 == firstRead
  {
    if eyeCounts == [] then ([NoFace], firstRead) else NoFaceOverlayLemma(firstRead, eyeCounts); FacesStep(firstRead, eyeCounts)
  }

  lemma {:induction false} NoFaceOverlayLemma(firstRead: bool, eyeCounts: seq<nat>)
    ensures NoFace !in FacesStep(firstRead, eyeCounts).0
    decreases |eyeCounts|
  {
    if eyeCounts != [] {
      NoFaceOverlayLemma(firstRead, eyeCounts[..|eyeCounts| - 1]);
    }
  }

  /** The key read after a frame: the new flag, and whether the loop stops. */
  function KeyStep(firstRead: bool, key: int): (r: (bool, bool))
    ensures r.1 <==> key == QuitKey
    // only `s` pressed while the flag is set changes it, and it clears it
    ensures r.0 != firstRead <==> key == StartKey && firstRead
    ensures r.0 ==> firstRead
  {
    if key == QuitKey then (firstRead, true)
    else if key == StartKey && firstRead then (false, false)
    else (firstRead, false)
  }

  /** The overlays of a frame as events. */
  function Displayed(shown: seq<Overlay>): (events: seq<Event>)
  {
    seq(|shown|, i requires 0 <= i < |shown| => Shown(shown[i]))
  }

  /** One frame and the key read after it: the events shown, the new flag, and whether the loop stops. */
  datatype FrameResult = FrameResult(events: seq<Event>, flag: bool, stop: bool)

  function FrameEvents(firstRead: bool, frame: Frame): (r: FrameResult)
  {
    var (shown, flag) := FrameStep(firstRead, frame.eyeCounts);
    var (flag', stop) := KeyStep(flag, frame.key);
    if stop then FrameResult(Displayed(shown) + [Quit], flag', true)
    else FrameResult(Displayed(shown) + (if flag' != flag then [Armed] else []), flag', false)
  }

  /** A run over the frames the loop processes: everything shown, in order, and the final flag. */
  function Run(firstRead: bool, frames: seq<Frame>): (r: (seq<Event>, bool))
    decreases |frames|
  {
    if frames == [] then
      ([], firstRead)
    else
      var step := FrameEvents(firstRead, frames[0]);
      if step.stop then
        (step.events, step.flag)
      else
        var (rest, final) := Run(step.flag, frames[1..]);
        (step.events + rest, final)
  }

  // ---------------------------------------------------------------------------
  // Trace properties
  // ---------------------------------------------------------------------------

  /** The events that matter to the protocol: arming by `s`, and blinks. */
  function Milestones(log: seq<Event>): (m: seq<Event>)
    decreases |log|
  {
    if log == [] then []
    else (if log[0] == Armed || log[0] == Shown(Blink) then [log[0]] else []) + Milestones(log[1..])
  }

  /** Milestones keep exactly the armings and blinks of a log: nothing else, and each of them. */
  lemma {:induction false} MilestonesFilter(log: seq<Event>)
    ensures forall e :: e in Milestones(log) <==> e in log && (e == Armed || e == Shown(Blink))
    decreases |log|
  {
    if log != [] {
      MilestonesFilter(log[1..]);
      assert log == [log[0]] + log[1..];
    }
  }

  /** Milestones alternate, starting with an arming when `armNext` and with a blink otherwise. */
  ghost predicate Alternating(m: seq<Event>, armNext: bool)
  {
    forall i :: 0 <= i < |m| ==> m[i] == (if (i % 2 == 0) == armNext then Armed else Shown(Blink))
  }

  lemma {:induction false} MilestonesAppend(a: seq<Event>, b: seq<Event>)
    ensures Milestones(a + b) == Milestones(a) + Milestones(b)
    decreases |a|
  {
    if a != [] {
      assert (a + b)[0] == a[0];
      assert (a + b)[1..] == a[1..] + b;
      MilestonesAppend(a[1..], b);
      var head := if a[0] == Armed || a[0] == Shown(Blink) then [a[0]] else [];
      calc {
        Milestones(a + b);
        head + Milestones(a[1..] + b);
        head + (Milestones(a[1..]) + Milestones(b));
        (head + Milestones(a[1..])) + Milestones(b);
        Milestones(a) + Milestones(b);
      }
    } else {
      assert a + b == b;
    }
  }

  lemma {:induction false} MilestonesCount(log: seq<Event>)
    ensures multiset(Milestones(log))[Armed] == multiset(log)[Armed]
    ensures multiset(Milestones(log))[Shown(Blink)] == multiset(log)[Shown(Blink)]
    decreases |log|
  {
    if log != [] {
      assert log == [log[0]] + log[1..];
      MilestonesCount(log[1..]);
    }
  }

  /** The milestones of a frame's overlays are its blinks. */
  lemma {:induction false} MilestonesOfShown(shown: seq<Overlay>)
    ensures Milestones(Displayed(shown)) == seq(multiset(shown)[Blink], _ => Shown(Blink))
    decreases |shown|
  {
    if shown != [] {
      assert shown == [shown[0]] + shown[1..];
      assert Displayed(shown)[1..] == Displayed(shown[1..]);
      MilestonesOfShown(shown[1..]);
    }
  }

  /** Joining two alternating stretches where the first leaves off. */
  lemma AlternatingChain(a: seq<Event>, b: seq<Event>, s: bool, t: bool, u: bool)
    requires Alternating(a, s) && (t <==> (s <==> |a| % 2 == 0))
    requires Alternating(b, t) && (u <==> (t <==> |b| % 2 == 0))
    ensures Alternating(a + b, s) && (u <==> (s <==> |a + b| % 2 == 0))
  {
    forall i | |a| <= i < |a + b|
      ensures (a + b)[i] == (if (i % 2 == 0) == s then Armed else Shown(Blink))
    {
      var j := i - |a|;
      assert (a + b)[i] == b[j];
      assert (i % 2 == 0) == ((j % 2 == 0) == (|a| % 2 == 0));
    }
  }

  /** One frame on its own: at most the frame's blink and then the arming by
      `s`, in protocol order, and the new flag says which comes next. */
  lemma FrameAlternates(firstRead: bool, frame: Frame)
    ensures var step := FrameEvents(firstRead, frame);
      Alternating(Milestones(step.events), firstRead) &&
      (step.flag <==> (firstRead <==> |Milestones(step.events)| % 2 == 0))
  {
    var faces := FrameStep(firstRead, frame.eyeCounts);
    var key := KeyStep(faces.1, frame.key);
    var step := FrameEvents(firstRead, frame);
    FrameMilestones(firstRead, frame);
    var blink: seq<Event> := if faces.1 == firstRead then [] else [Shown(Blink)];
    var armed: seq<Event> := if !key.1 && key.0 != faces.1 then [Armed] else [];
    ShortAlternating();
    if faces.1 == firstRead {
      assert blink + armed == armed;
      assert |Milestones(step.events)| == |armed|;
    } else if armed == [] {
      assert blink + armed == [Shown(Blink)];
      assert |Milestones(step.events)| == 1;
    } else {
      assert blink + armed == [Shown(Blink), Armed];
      assert |Milestones(step.events)| == 2;
    }
  }

  /** The milestones of one frame: its blink if the faces changed the flag,
      then the arming if the key changed it. */
  lemma FrameMilestones(firstRead: bool, frame: Frame)
    ensures var faces := FrameStep(firstRead, frame.eyeCounts);
      var key := KeyStep(faces.1, frame.key);
      var step := FrameEvents(firstRead, frame);
      step.flag == key.0 &&
      Milestones(step.events) ==
        (if faces.1 == firstRead then [] else [Shown(Blink)]) + (if !key.1 && key.0 != faces.1 then [Armed] else [])
  {
    var faces := FrameStep(firstRead, frame.eyeCounts);
    var key := KeyStep(faces.1, frame.key);
    var step := FrameEvents(firstRead, frame);
    var tail: seq<Event> := if key.1 then [Quit] else if key.0 != faces.1 then [Armed] else [];
    assert step.events == Displayed(faces.0) + tail;
    FrameBlinkMilestones(firstRead, frame.eyeCounts);
    MilestonesAppend(Displayed(faces.0), tail);
    assert Milestones(tail) == if !key.1 && key.0 != faces.1 then [Armed] else [];
  }

  /** The alternating sequences a single frame can produce. */
  lemma ShortAlternating()
    ensures Alternating([], true) && Alternating([], false)
    ensures Alternating([Armed], true) && Alternating([Shown(Blink)], false)
    ensures Alternating([Shown(Blink), Armed], false)
  {
  }

  /** The milestones of a frame's overlays: its blink, if the flag changed. */
  lemma FrameBlinkMilestones(firstRead: bool, eyeCounts: seq<nat>)
    ensures var (shown, flag) := FrameStep(firstRead, eyeCounts);
      Milestones(Displayed(shown)) == if flag == firstRead then [] else [Shown(Blink)]
  {
    var (shown, flag) := FrameStep(firstRead, eyeCounts);
    MilestonesOfShown(shown);
  }

  /** Over any run, arming by `s` and blinks strictly alternate, and the final
      flag says which of the two comes next. */
  lemma {:induction false} RunAlternates(firstRead: bool, frames: seq<Frame>)
    ensures Alternating(Milestones(Run(firstRead, frames).0), firstRead)
    ensures Run(firstRead, frames).1 <==> (firstRead <==> |Milestones(Run(firstRead, frames).0)| % 2 == 0)
    decreases |frames|
  {
    if frames != [] {
      var step := FrameEvents(firstRead, frames[0]);
      FrameAlternates(firstRead, frames[0]);
      if !step.stop {
        var (rest, final) := Run(step.flag, frames[1..]);
        RunAlternates(step.flag, frames[1..]);
        MilestonesAppend(step.events, rest);
        AlternatingChain(Milestones(step.events), Milestones(rest), firstRead, step.flag, final);
      }
    }
  }

  lemma {:induction false} AlternatingCounts(m: seq<Event>)
    requires Alternating(m, true)
    ensures multiset(m)[Armed] == (|m| + 1) / 2
    ensures multiset(m)[Shown(Blink)] == |m| / 2
    decreases |m|
  {
    if m != [] {
      var n := |m| - 1;
      assert m == m[..n] + [m[n]];
      assert Alternating(m[..n], true);
      AlternatingCounts(m[..n]);
    }
  }

  /** From the initial flag, every blink comes right after an arming by `s`
      (no blink without a prior `s`, and one between any two blinks), and
      there are never more blinks than such `s` presses. */
  lemma BlinkNeedsStart(frames: seq<Frame>)
    ensures var m := Milestones(Run(true, frames).0);
      forall i :: 0 <= i < |m| && m[i] == Shown(Blink) ==> 0 < i && m[i - 1] == Armed
    ensures var log := Run(true, frames).0;
      multiset(log)[Shown(Blink)] <= multiset(log)[Armed]
  {
    var log := Run(true, frames).0;
    RunAlternates(true, frames);
    MilestonesCount(log);
    AlternatingCounts(Milestones(log));
    AlternatingPrecedes(Milestones(log));
  }

  /** Starting with an arming, every blink directly follows an arming. */
  lemma AlternatingPrecedes(m: seq<Event>)
    requires Alternating(m, true)
    ensures forall i :: 0 <= i < |m| && m[i] == Shown(Blink) ==> 0 < i && m[i - 1] == Armed
  {
    forall i | 0 <= i < |m| && m[i] == Shown(Blink)
      ensures 0 < i && m[i - 1] == Armed
    {
      assert i % 2 == 1;
    }
  }

  /** Without any `s` key, the flag stays set and nothing is ever reported as a blink. */
  lemma {:induction false} NoStartNoBlink(frames: seq<Frame>)
    requires forall i :: 0 <= i < |frames| ==> frames[i].key != StartKey
    ensures Shown(Blink) !in Run(true, frames).0 && Armed !in Run(true, frames).0
    ensures Run(true, frames).1
    decreases |frames|
  {
    if frames != [] {
      FrameNoStart(frames[0]);
      assert forall i :: 0 <= i < |frames[1..]| ==> frames[1..][i] == frames[i + 1];
      NoStartNoBlink(frames[1..]);
    }
  }

  /** A frame whose key is not `s`, with the flag set: no blink, no arming, flag still set. */
  lemma FrameNoStart(frame: Frame)
    requires frame.key != StartKey
    ensures var step := FrameEvents(true, frame);
      Shown(Blink) !in step.events && Armed !in step.events && step.flag
  {
    var (shown, flag) := FrameStep(true, frame.eyeCounts);
    assert Blink !in shown by {
      assert multiset(shown)[Blink] == 0;
    }
  }

  // ---------------------------------------------------------------------------
  // The script's loop, as an object holding `first_read`
  // ---------------------------------------------------------------------------

  class BlinkMonitor {
    var firstRead: bool

    /** The flag starts set, before any frame is processed. */
    constructor ()
      ensures firstRead
    {
      firstRead := true;
    }

    /** The eye test for one face. */
    method ObserveFace(eyes: nat) returns (overlay: Overlay)
      modifies this
      ensures (overlay, firstRead) == FaceStep(old(firstRead), eyes)
    {
      if eyes >= 2 {
        overlay := if firstRead then PressToBegin else EyesOpen;
      } else if firstRead {
        overlay := NoEyes;
      } else {
        overlay := Blink;
        firstRead := true;
      }
    }

    /** All faces found in one frame, in detection order. */
    method ObserveFrame(eyeCounts: seq<nat>) returns (shown: seq<Overlay>)
      modifies this
      ensures (shown, firstRead) == FrameStep(old(firstRead), eyeCounts)
    {
      if |eyeCounts| == 0 {
        shown := [NoFace];
        return;
      }
      shown := [];
      var i := 0;
      while i < |eyeCounts|
        invariant 0 <= i <= |eyeCounts|
        invariant (shown, firstRead) == FacesStep(old(firstRead), eyeCounts[..i])
      {
        var overlay := ObserveFace(eyeCounts[i]);
        assert eyeCounts[..i + 1][..i] == eyeCounts[..i];
        shown := shown + [overlay];
        i := i + 1;
      }
      assert eyeCounts[..i] == eyeCounts;
    }

    /** The key read after the frame is shown; `stop` is the loop's `break`. */
    method HandleKey(key: int) returns (stop: bool)
      modifies this
      ensures (firstRead, stop) == KeyStep(old(firstRead), key)
    {
      if key == QuitKey {
        stop := true;
      } else {
        stop := false;
        if key == StartKey && firstRead {
          firstRead := false;
        }
      }
    }

    /** One pass of the loop body: the faces of a frame, then the key. */
    method Step(frame: Frame) returns (events: seq<Event>, stop: bool)
      modifies this
      ensures FrameEvents(old(firstRead), frame) == FrameResult(events, firstRead, stop)
    {
      var shown := ObserveFrame(frame.eyeCounts);
      var armedBefore := firstRead;
      stop := HandleKey(frame.key);
      events := Displayed(shown) + if stop then [Quit] else if armedBefore != firstRead then [Armed] else [];
    }

    /** One pass of the loop over the frames still to come, with what it shows
        appended to the log: the log so far followed by the run over `frames`
        is the new log followed by the run over what remains. */
    method Advance(frames: seq<Frame>, log: seq<Event>) returns (log': seq<Event>, stop: bool)
      requires frames != []
      modifies this
      ensures stop ==> log + Run(old(firstRead), frames).0 == log' && Run(old(firstRead), frames).1 == firstRead
      ensures !stop ==> log + Run(old(firstRead), frames).0 == log' + Run(firstRead, frames[1..]).0 &&
                        Run(old(firstRead), frames).1 == Run(firstRead, frames[1..]).1
    {
      ghost var before := firstRead;
      var events;
      events, stop := Step(frames[0]);
      RunUnfold(before, frames, log, events, firstRead, stop);
      log' := log + events;
    }

    /** The frame loop. `captured` holds the frames the camera delivers before
        its first failed read; the first of them is read before the loop and
        never examined. */
    method Monitor(captured: seq<Frame>) returns (log: seq<Event>)
      modifies this
      ensures (log, firstRead) == Run(old(firstRead), if captured == [] then [] else captured[1..])
    {
      log := [];
      var frames := if captured == [] then [] else captured[1..];
      ghost var total := Run(firstRead, frames);
      var stop := false;
      assert [] + total.0 == total.0;
      while frames != [] && !stop
        invariant total == if stop then (log, firstRead) else (log + Run(firstRead, frames).0, Run(firstRead, frames).1)
        decreases |frames|
      {
        log, stop := Advance(frames, log);
        frames := frames[1..];
      }
      assert log + [] == log;
    }
  }

  /** The run over `frames` is the first frame's events followed, unless it
      stopped the loop, by the run over the rest. */
  lemma RunUnfold(firstRead: bool, frames: seq<Frame>, log: seq<Event>, events: seq<Event>, flag: bool, stop: bool)
    requires frames != [] && FrameEvents(firstRead, frames[0]) == FrameResult(events, flag, stop)
    ensures stop ==> log + Run(firstRead, frames).0 == log + events && Run(firstRead, frames).1 == flag
    ensures !stop ==> log + Run(firstRead, frames).0 == (log + events) + Run(flag, frames[1..]).0 &&
                      Run(firstRead, frames).1 == Run(flag, frames[1..]).1
  {
    if !stop {
      var rest := Run(flag, frames[1..]).0;
      assert log + (events + rest) == (log + events) + rest;
    }
  }

  /** A session as the script runs it: flag set, then the frame loop. */
  method RunSession(captured: seq<Frame>) returns (log: seq<Event>)
    ensures captured != [] ==> log == Run(true, captured[1..]).0
    ensures captured == [] ==> log == []
    ensures multiset(log)[Shown(Blink)] <= multiset(log)[Armed]
  {
    var monitor := new BlinkMonitor();
    log := monitor.Monitor(captured);
    if captured != [] {
      BlinkNeedsStart(captured[1..]);
    }
  }
}
