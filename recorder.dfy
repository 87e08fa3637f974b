/**
 * The script's state (its top-level variables and the clear-button
 * counter of `bindEvents`) and the operations that change it:
 * recording with duplicate rejection, deletion, the two-press clear,
 * the single-key store, and the replay commands.
 */
module Recorder {
  import opened Options
  import opened Geometry
  import opened Locator
  import opened Replay

  /**
   * The value under the store's one key: text that parses to a recording, or
   * text that does not parse at all.
   */
  datatype Entry = Saved(points: seq<Point>) | Corrupt

  /** What a press of the clear button did. */
  datatype ClearOutcome = NothingToClear | AwaitingConfirmation | Cleared

  /** Why a replay command was refused (the script shows an alert and returns). */
  datatype Refusal = EmptyRecording | SurfaceNotFound

  /** What `playOnce` did: refused, or played one round with these actions. */
  datatype PlayResult = Refused(why: Refusal) | Played(actions: seq<Action>)

  /** What `playLoop` did: refused, or played these rounds in order. */
  datatype LoopResult = LoopRefused(why: Refusal) | Looped(rounds: seq<seq<Action>>)

  /**
   * What one round of `playLoop` sees: the flag at each point check, whether
   * dispatch throws at each point, and the flag at the loop test after the round.
   */
  datatype RoundInput = RoundInput(playing: seq<bool>, throws: seq<bool>, playingAfter: bool)

  /**
   * `splice(i, 1)` for an index i >= 0: the sequence without its element at i,
   * or the sequence unchanged when i is past its end.
   */
  function Remove<T>(s: seq<T>, i: nat): (r: seq<T>)
    ensures i < |s| ==> |r| == |s| - 1
    ensures i < |s| ==> forall j :: 0 <= j < i ==> r[j] == s[j]
    ensures i < |s| ==> forall j :: i <= j < |r| ==> r[j] == s[j + 1]
    ensures i >= |s| ==> r == s
  {
    if i < |s| then s[..i] + s[i + 1..] else s
  }

  /** Removal keeps every other element and adds none: s is r with s[i] put back at i. */
  lemma RemoveThenInsert<T>(s: seq<T>, i: nat)
    requires i < |s|
    ensures Remove(s, i)[..i] + [s[i]] + Remove(s, i)[i..] == s
  {
  }

  /**
   * The first recorded point, from index `from` on, that lies too close to the
   * click at `at` once converted to pixels of `canvas`; None when there is none.
   */
  function FirstTooClose(points: seq<Point>, at: Pos, canvas: Canvas, from: nat): (r: Option<nat>)
    requires from <= |points|
    ensures r.None? <==> forall j :: from <= j < |points| ==> !TooClose(at, Denormalize(points[j], canvas.width, canvas.height))
    ensures r.Some? ==> from <= r.value < |points| && TooClose(at, Denormalize(points[r.value], canvas.width, canvas.height))
    ensures r.Some? ==> forall j :: from <= j < r.value ==> !TooClose(at, Denormalize(points[j], canvas.width, canvas.height))
    decreases |points| - from
  {
    if from == |points| then None
    else if TooClose(at, Denormalize(points[from], canvas.width, canvas.height)) then Some(from)
    else FirstTooClose(points, at, canvas, from + 1)
  }

  /** The flags the loop test sees after each round, in round order. */
  function FlagsAfter(rounds: seq<RoundInput>): (flags: seq<bool>)
    ensures |flags| == |rounds|
    ensures forall j :: 0 <= j < |rounds| ==> flags[j] == rounds[j].playingAfter
  {
    seq(|rounds|, j requires 0 <= j < |rounds| => rounds[j].playingAfter)
  }

  /** The index of the first round after which the flag is seen cleared, or |rounds|: `FirstStop` over the flags after each round. */
  function FirstStoppedRound(rounds: seq<RoundInput>, from: nat): (k: nat)
    requires from <= |rounds|
    ensures from <= k <= |rounds|
    ensures forall j :: from <= j < k ==> rounds[j].playingAfter
    ensures k == |rounds| || !rounds[k].playingAfter
  {
    FirstStop(|rounds|, FlagsAfter(rounds), from)
  }

  class Session {
    /** The located surface; once found it is never replaced. */
    var canvas: Option<Canvas>
    /** `recordedClicks`, in click order, which is replay order. */
    var clicks: seq<Point>
    var isRecording: bool
    var isPlaying: bool
    var isEditMode: bool
    /** Whether `recordHandler` is attached to the surface. */
    var listening: bool
    /** `clearClickCount` and whether its three-second reset timer is pending. */
    var clearCount: nat
    var clearTimerPending: bool
    /** The entry under the store's key, None when the key is absent. */
    var storage: Option<Entry>

    ghost predicate Valid()
      reads this
    {
      && (canvas.Some? ==> Area(canvas.value) > MinArea)
      && (listening ==> canvas.Some? && isRecording)
      && clearCount <= 1
      && (clearTimerPending <==> clearCount == 1)
    }

    /** The state when the script starts, with whatever the store holds from earlier visits. */
    constructor (stored: Option<Entry>)
      ensures Valid()
      ensures canvas == None && clicks == [] && storage == stored
      ensures !isRecording && !isPlaying && !isEditMode && !listening
      ensures clearCount == 0 && !clearTimerPending
    {
      canvas := None;
      clicks := [];
      isRecording, isPlaying, isEditMode, listening := false, false, false, false;
      clearCount, clearTimerPending := 0, false;
      storage := stored;
    }

    /**
     * `canvas = findCanvas()`, run at start-up and then every 500 ms while no
     * surface has been found. Returns the chosen candidate's index.
     */
    method Locate(candidates: seq<Canvas>) returns (found: Option<nat>)
      requires Valid() && canvas.None?
      modifies this`canvas
      ensures Valid()
      ensures found.None? <==> forall i :: 0 <= i < |candidates| ==> Area(candidates[i]) <= MinArea
      ensures found.Some? ==> found.value < |candidates| && canvas == Some(candidates[found.value])
      ensures found.Some? ==> forall i :: 0 <= i < |candidates| ==> Area(candidates[i]) <= Area(candidates[found.value])
      ensures found.Some? ==> forall i :: 0 <= i < found.value ==> Area(candidates[i]) < Area(candidates[found.value])
      ensures found.None? ==> canvas.None?
    {
      found := FindCanvas(candidates);
      canvas := if found.Some? then Some(candidates[found.value]) else None;
    }

    /**
     * `startRecord(append)`: a new recording empties the sequence, an appended one
     * keeps it; both set the recording flag. Without a surface attaching the
     * listener throws, so `ok` is false and no listener is attached.
     */
    method StartRecord(append: bool) returns (ok: bool)
      requires Valid()
      modifies this`clicks, this`isRecording, this`listening
      ensures Valid()
      ensures clicks == (if append then old(clicks) else [])
      ensures isRecording
      ensures ok == canvas.Some?
      ensures listening == (old(listening) || canvas.Some?)
    {
      if !append {
        clicks := [];
      }
      isRecording := true;
      if canvas.None? {
        return false;
      }
      listening := true;
      return true;
    }

    /** The append button: refused, changing nothing, while nothing is recorded. */
    method AppendRecord() returns (started: bool)
      requires Valid()
      modifies this`clicks, this`isRecording, this`listening
      ensures Valid()
      ensures clicks == old(clicks)
      ensures started ==> isRecording && listening
      ensures old(clicks) == [] ==> !started && isRecording == old(isRecording) && listening == old(listening)
      ensures old(clicks) != [] ==> isRecording && (started <==> canvas.Some?)
    {
      if |clicks| == 0 {
        return false;
      }
      started := StartRecord(true);
    }

    /** `saveToLocal`: stores the sequence under the key unless the store refuses (quota). */
    method SaveToLocal(fails: bool)
      modifies this`storage
      ensures storage == if fails then old(storage) else Some(Saved(clicks))
    {
      if !fails {
        storage := Some(Saved(clicks));
      }
    }

    /**
     * `loadFromLocal`: replaces the sequence only when the key holds a parseable
     * recording; an absent or malformed entry leaves the sequence as it was.
     */
    method LoadFromLocal() returns (loaded: bool)
      modifies this`clicks
      ensures loaded <==> storage.Some? && storage.value.Saved?
      ensures clicks == if loaded then storage.value.points else old(clicks)
    {
      if storage.Some? && storage.value.Saved? {
        clicks := storage.value.points;
        return true;
      }
      return false;
    }

    /** `clearLocal`: removes the key. */
    method ClearLocal()
      modifies this`storage
      ensures storage.None?
    {
      storage := None;
    }

    /**
     * `stopRecord`: clears the recording flag, detaches the listener and saves.
     * Without a surface detaching throws before the save.
     */
    method StopRecord(saveFails: bool)
      requires Valid()
      modifies this`isRecording, this`listening, this`storage
      ensures Valid()
      ensures !isRecording && !listening
      ensures clicks == old(clicks)
      ensures storage == if canvas.None? || saveFails then old(storage) else Some(Saved(clicks))
    {
      isRecording := false;
      if canvas.None? {
        return;
      }
      listening := false;
      SaveToLocal(saveFails);
    }

    /**
     * `recordHandler`, for a click at `at` relative to the surface: rejected, with
     * the index of the first recorded point it is too close to at the surface's
     * current size, or else appended as percentages.
     */
    method RecordHandler(at: Pos) returns (ignored: Option<nat>)
      requires Valid() && listening
      modifies this`clicks
      ensures Valid()
      ensures ignored == FirstTooClose(old(clicks), at, canvas.value, 0)
      ensures canvas.value.width > 0 && canvas.value.height > 0
      ensures clicks == if ignored.None? then old(clicks) + [Normalize(at, canvas.value.width, canvas.value.height)] else old(clicks)
    {
      var c := canvas.value;
      assert Area(c) > 0;
      for i := 0 to |clicks|
        invariant forall j :: 0 <= j < i ==> !TooClose(at, Denormalize(clicks[j], c.width, c.height))
      {
        var existing := Denormalize(clicks[i], c.width, c.height);
        if TooClose(at, existing) {
          return Some(i);
        }
      }
      clicks := clicks + [Normalize(at, c.width, c.height)];
      return None;
    }

    /** `toggleEditMode`: entering edit mode is refused while nothing is recorded. */
    method ToggleEditMode()
      modifies this`isEditMode
      ensures isEditMode == (!old(isEditMode) && clicks != [])
    {
      isEditMode := !isEditMode;
      if isEditMode && |clicks| == 0 {
        isEditMode := false;
      }
    }

    /**
     * `deleteClick(i)`, reached from the i-th deletable marker in edit mode:
     * removes that point (nothing when i is past the end, as for a marker left
     * on screen after a confirmed clear), saves, and leaves edit mode once the
     * sequence is empty.
     */
    method DeleteClick(i: nat, saveFails: bool)
      requires Valid() && isEditMode
      modifies this`clicks, this`storage, this`isEditMode
      ensures Valid()
      ensures clicks == Remove(old(clicks), i)
      ensures storage == if saveFails then old(storage) else Some(Saved(clicks))
      ensures isEditMode == (clicks != [])
    {
      clicks := Remove(clicks, i);
      SaveToLocal(saveFails);
      if |clicks| == 0 {
        ToggleEditMode();
      }
    }

    /**
     * A press of the clear button. With nothing recorded nothing changes; the
     * first press arms the reset timer and keeps the data; the second empties
     * the sequence and the store and rearms nothing.
     */
    method PressClear() returns (outcome: ClearOutcome)
      requires Valid()
      modifies this`clearCount, this`clearTimerPending, this`clicks, this`storage
      ensures Valid()
      ensures old(clicks) == [] ==>
        outcome == NothingToClear && clearCount == old(clearCount) && storage == old(storage) && clicks == old(clicks)
      ensures old(clicks) != [] && old(clearCount) == 0 ==>
        outcome == AwaitingConfirmation && clearCount == 1 && storage == old(storage) && clicks == old(clicks)
      ensures old(clicks) != [] && old(clearCount) == 1 ==>
        outcome == Cleared && clearCount == 0 && storage.None? && clicks == []
    {
      if |clicks| == 0 {
        return NothingToClear;
      }
      clearCount := clearCount + 1;
      if clearCount == 1 {
        clearTimerPending := true;
        outcome := AwaitingConfirmation;
      } else if clearCount == 2 {
        clearTimerPending := false;
        clearCount := 0;
        clicks := [];
        ClearLocal();
        outcome := Cleared;
      }
    }

    /** The three-second timer of a first clear press fires: the press is forgotten. */
    method ClearTimeout()
      requires Valid() && clearTimerPending
      modifies this`clearCount, this`clearTimerPending
      ensures Valid()
      ensures clearCount == 0
    {
      clearCount := 0;
      clearTimerPending := false;
    }

    /**
     * `playOnce`: refused without a recording or without a surface; otherwise it
     * leaves edit mode and plays the round over the recorded points. Nothing is
     * awaited before the check in front of the first point, so that check sees
     * the flag as it is at the call.
     */
    method PlayOnce(playing: seq<bool>, throws: seq<bool>) returns (r: PlayResult)
      requires Valid()
      requires |playing| >= |clicks| && |throws| >= |clicks|
      requires clicks != [] ==> playing[0] == isPlaying
      modifies this`isEditMode
      ensures Valid()
      ensures clicks == [] ==> r == Refused(EmptyRecording) && isEditMode == old(isEditMode)
      ensures clicks != [] && canvas.None? ==> r == Refused(SurfaceNotFound) && isEditMode == old(isEditMode)
      ensures clicks != [] && canvas.Some? ==> r == Played(Replayed(clicks, canvas.value, playing, throws)) && !isEditMode
    {
      if |clicks| == 0 {
        return Refused(EmptyRecording);
      }
      if canvas.None? {
        return Refused(SurfaceNotFound);
      }
      if isEditMode {
        ToggleEditMode();
      }
      var actions := PlayPoints(clicks, canvas, playing, throws);
      return Played(actions);
    }

    /**
     * The play button: set the flag, play one round, clear the flag. The flag
     * was just set when the round checks it before its first point, so a
     * played round clicks at least that point.
     */
    method PlayOnceButton(playing: seq<bool>, throws: seq<bool>) returns (r: PlayResult)
      requires Valid()
      requires |playing| >= |clicks| && |throws| >= |clicks|
      requires clicks != [] ==> playing[0]
      modifies this`isEditMode, this`isPlaying
      ensures Valid()
      ensures !isPlaying
      ensures clicks == [] ==> r == Refused(EmptyRecording) && isEditMode == old(isEditMode)
      ensures clicks != [] && canvas.None? ==> r == Refused(SurfaceNotFound) && isEditMode == old(isEditMode)
      ensures clicks != [] && canvas.Some? ==>
        && r == Played(Replayed(clicks, canvas.value, playing, throws))
        && !isEditMode
        && |r.actions| >= 1
        && r.actions[0] == PointAction(clicks[0], canvas.value, throws[0])
    {
      isPlaying := true;
      r := PlayOnce(playing, throws);
      isPlaying := false;
    }

    /**
     * `playLoop`: refused without a recording or a surface; otherwise rounds are
     * played while the flag is set. The run modelled is one in which some round
     * ends with the flag cleared; no round starts after that. The loop test and
     * the check before a round's first point run in one step, so every round
     * entered sees the flag set there.
     */
    method PlayLoop(rounds: seq<RoundInput>) returns (r: LoopResult)
      requires Valid()
      requires FirstStoppedRound(rounds, 0) < |rounds|
      requires forall j :: 0 <= j < |rounds| ==> |rounds[j].playing| >= |clicks| && |rounds[j].throws| >= |clicks|
      requires clicks != [] ==> forall j :: 0 <= j <= FirstStoppedRound(rounds, 0) ==> rounds[j].playing[0]
      modifies this`isEditMode, this`isPlaying
      ensures Valid()
      ensures clicks == [] ==>
        r == LoopRefused(EmptyRecording) && isPlaying == old(isPlaying) && isEditMode == old(isEditMode)
      ensures clicks != [] && canvas.None? ==>
        r == LoopRefused(SurfaceNotFound) && isPlaying == old(isPlaying) && isEditMode == old(isEditMode)
      ensures clicks != [] && canvas.Some? ==>
        && r.Looped?
        && !isPlaying
        && !isEditMode
        && |r.rounds| == FirstStoppedRound(rounds, 0) + 1
        && forall j :: 0 <= j < |r.rounds| ==> r.rounds[j] == Replayed(clicks, canvas.value, rounds[j].playing, rounds[j].throws)
    {
      if |clicks| == 0 {
        return LoopRefused(EmptyRecording);
      }
      if canvas.None? {
        return LoopRefused(SurfaceNotFound);
      }
      isPlaying := true;
      var played: seq<seq<Action>> := [];
      var k := 0;
      while isPlaying
        invariant Valid()
        invariant 0 <= k <= FirstStoppedRound(rounds, 0) + 1
        invariant isPlaying ==> k <= FirstStoppedRound(rounds, 0)
        invariant !isPlaying ==> k == FirstStoppedRound(rounds, 0) + 1
        invariant |played| == k
        invariant k > 0 ==> !isEditMode
        invariant forall j :: 0 <= j < k ==> played[j] == Replayed(clicks, canvas.value, rounds[j].playing, rounds[j].throws)
        decreases FirstStoppedRound(rounds, 0) + 1 - k
      {
        var round := PlayOnce(rounds[k].playing, rounds[k].throws);
        played := played + [round.actions];
        isPlaying := rounds[k].playingAfter;
        k := k + 1;
      }
      return Looped(played);
    }

    /** `stopPlay`: clears the flag; running loops notice it at their next check. */
    method StopPlay()
      modifies this`isPlaying
      ensures !isPlaying
    {
      isPlaying := false;
    }
  }
}
