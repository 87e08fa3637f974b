/**
 * Client code that drives the session through record and replay at another
 * size, the two-press clear, an unparseable entry, reload, a loop stopped
 * mid-round and a stale marker deleted after a clear;
 * each assertion is what a caller can conclude from the contracts alone.
 */
module Scenarios {
  import opened Options
  import opened Geometry
  import opened Locator
  import opened Replay
  import opened Recorder

  /**
   * Record (100,100) and (500,100) on a 1000x800 surface, reject (102,101) as a
   * duplicate of the first, and replay the two points on a 2000x1600 surface.
   */
  method RecordAndReplay()
  {
    var s := new Session(None);
    var page := [Canvas(0, 0), Canvas(1000, 800)];
    assert Area(page[0]) <= MinArea < Area(page[1]);
    var found := s.Locate(page);
    assert found == Some(1);
    var ok := s.StartRecord(false);
    assert ok && s.listening;

    var first := s.RecordHandler(Pos(100.0, 100.0));
    assert first == None;
    assert s.clicks == [Point(10.0, 12.5)];

    var second := s.RecordHandler(Pos(500.0, 100.0));
    assert Denormalize(Point(10.0, 12.5), 1000, 800) == Pos(100.0, 100.0);
    assert !TooClose(Pos(500.0, 100.0), Pos(100.0, 100.0));
    assert second == None;
    assert s.clicks == [Point(10.0, 12.5), Point(50.0, 12.5)];

    var third := s.RecordHandler(Pos(102.0, 101.0));
    assert TooClose(Pos(102.0, 101.0), Pos(100.0, 100.0));
    assert third == Some(0);
    assert s.clicks == [Point(10.0, 12.5), Point(50.0, 12.5)];

    var actions := PlayPoints(s.clicks, Some(Canvas(2000, 1600)), [true, true], [false, false]);
    assert actions == [Dispatched(Pos(200.0, 200.0)), Dispatched(Pos(1000.0, 200.0))];
  }

  /**
   * One press then the timeout keeps the data; two presses in a row empty the
   * sequence and the store; a press with nothing recorded does nothing.
   */
  method ClearNeedsConfirmation()
  {
    var s := new Session(Some(Saved([Point(1.0, 2.0)])));
    var loaded := s.LoadFromLocal();
    assert loaded && s.clicks == [Point(1.0, 2.0)];

    var o1 := s.PressClear();
    assert o1 == AwaitingConfirmation && s.clicks == [Point(1.0, 2.0)];
    s.ClearTimeout();
    assert s.clearCount == 0 && s.clicks == [Point(1.0, 2.0)];

    var o2 := s.PressClear();
    assert o2 == AwaitingConfirmation;
    var o3 := s.PressClear();
    assert o3 == Cleared && s.clicks == [] && s.storage == None;

    var o4 := s.PressClear();
    assert o4 == NothingToClear && s.clearCount == 0;
  }

  /** A malformed stored entry is not loaded: the session starts with nothing recorded. */
  method CorruptStoreLoadsNothing()
  {
    var s := new Session(Some(Corrupt));
    var loaded := s.LoadFromLocal();
    assert !loaded && s.clicks == [];
  }

  /**
   * Stopping a recording saves it; a later page load whose store holds that
   * entry loads exactly the same sequence.
   */
  method ReloadRestoresRecording(s: Session) returns (t: Session)
    requires s.Valid() && s.listening
    modifies s
    ensures t.clicks == s.clicks
  {
    s.StopRecord(false);
    t := new Session(s.storage);
    var loaded := t.LoadFromLocal();
  }

  /**
   * Stop is pressed during the second round, after its first point: that
   * round ends at its next check and no third round starts.
   */
  method LoopStoppedMidRound()
  {
    var s := new Session(Some(Saved([Point(10.0, 10.0), Point(20.0, 20.0)])));
    var loaded := s.LoadFromLocal();
    var page := [Canvas(100, 100)];
    assert Area(page[0]) > MinArea;
    var found := s.Locate(page);
    var rounds := [
      RoundInput([true, true], [false, false], true),
      RoundInput([true, false], [false, false], false),
      RoundInput([true, true], [false, false], true)
    ];
    assert FirstStoppedRound(rounds, 0) == 1 by {
      assert rounds[0].playingAfter && !rounds[1].playingAfter;
    }
    var r := s.PlayLoop(rounds);
    assert r.Looped? && |r.rounds| == 2 && !s.isPlaying;
    assert r.rounds[0] == [Dispatched(Pos(10.0, 10.0)), Dispatched(Pos(20.0, 20.0))];
    assert r.rounds[1] == [Dispatched(Pos(10.0, 10.0))];
  }

  /**
   * Clearing while in edit mode: the clear hides markers only when they were
   * shown read-only, so the deletable markers stay. Pressing one deletes
   * nothing, writes the empty recording back under the key the clear had
   * removed, and ends edit mode.
   */
  method StaleMarkerAfterClear()
  {
    var s := new Session(Some(Saved([Point(40.0, 40.0)])));
    var loaded := s.LoadFromLocal();
    s.ToggleEditMode();
    assert s.isEditMode;
    var o1 := s.PressClear();
    var o2 := s.PressClear();
    assert o2 == Cleared && s.clicks == [] && s.storage == None && s.isEditMode;
    s.DeleteClick(0, false);
    assert s.clicks == [] && s.storage == Some(Saved([])) && !s.isEditMode;
  }
}
