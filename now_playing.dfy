/**
 * The `NowPlaying` applet object. Its fields are updated in place by its slots
 * in the order the applet's own code updates them; each method's postcondition
 * ties the new fields to the transition of the same name in `NowPlayingSpec`,
 * where the properties of those transitions are proved.
 *
 * The data engine's source list is passed to the methods that read it, and the
 * data engine's and the controller's services are recorded in the request log.
 */
module NowPlayingApplet {
  import opened Wrappers
  import opened TimeFormat
  import opened NowPlayingSpec

  class NowPlaying {
    var watchingPlayer: string
    var controller: Option<string>
    var state: PlayState
    var currentLayout: Layout
    var length: int
    var title: string
    var artist: string
    /** Signals emitted so far, oldest first. */
    var signals: seq<Signal>
    /** Calls made into the data engine and into the controller, oldest first. */
    var requests: seq<Request>

    /** The fields as a value. */
    function Model(): Applet
      reads this
    {
      Applet(watchingPlayer, controller, state, currentLayout, length, title, artist, signals, requests)
    }

    ghost predicate Valid()
      reads this
    {
      NowPlayingSpec.Valid(Model())
    }

    constructor ()
      ensures Model() == Initial()
      ensures Valid()
    {
      controller := None;
      state := NoPlayer;
      currentLayout := NoLayout;
      length := 0;
      watchingPlayer := "";
      title := "";
      artist := "";
      signals := [];
      requests := [];
    }

    method Init(ff: FormFactor, engine: Option<seq<string>>)
      requires Valid()
      modifies this
      ensures Model() == NowPlayingSpec.Init(old(Model()), ff, engine)
      ensures Valid()
    {
      ApplyFormFactor(ff);
      if engine.Some? {
        FindPlayer(engine.value);
      }
    }

    /** The form-factor switch shared by init and constraintsEvent. */
    method ApplyFormFactor(ff: FormFactor)
      requires Valid()
      modifies this
      ensures Model() == NowPlayingSpec.ApplyFormFactor(old(Model()), ff)
      ensures Valid()
    {
      match ff
      case Horizontal => LayoutHorizontal();
      case Vertical => LayoutHorizontal();
      case _ => LayoutPlanar();
    }

    method LayoutPlanar()
      requires Valid()
      modifies this
      ensures Model() == NowPlayingSpec.LayoutPlanar(old(Model()))
      ensures Valid()
    {
      if currentLayout != PlanarLayout {
        currentLayout := PlanarLayout;
      }
    }

    method LayoutHorizontal()
      requires Valid()
      modifies this
      ensures Model() == NowPlayingSpec.LayoutHorizontal(old(Model()))
      ensures Valid()
    {
      if currentLayout != HorizontalLayout {
        currentLayout := HorizontalLayout;
      }
    }

    method ConstraintsEvent(formFactorConstraint: bool, ff: FormFactor)
      requires Valid()
      modifies this
      ensures Model() == NowPlayingSpec.ConstraintsEvent(old(Model()), formFactorConstraint, ff)
      ensures Valid()
    {
      if formFactorConstraint {
        ApplyFormFactor(ff);
      }
    }

    method DataUpdated(name: string, data: EngineData, players: seq<string>)
      requires Valid()
      modifies this
      ensures Model() == NowPlayingSpec.DataUpdated(old(Model()), name, data, players)
      ensures Valid()
    {
      if name != watchingPlayer {
        return;
      }
      if data.IsEmpty() {
        FindPlayer(players);
        return;
      }

      ghost var a := Model();
      UpdateState(StateFromText(data.Text("State")));

      var newLength := data.Number("Length");
      if newLength != length {
        length := newLength;
      }

      var metadata := MetadataOf(data);
      signals := signals + [MetadataChanged(metadata)];

      UpdateTrack(metadata.title, metadata.artist);
      TrackUpdateKeepsValid(a, data);
    }

    /** Stores a new playback state, emitting stateChanged only when it differs. */
    method UpdateState(newState: PlayState)
      modifies this
      ensures Model() == NowPlayingSpec.UpdateState(old(Model()), newState)
    {
      if newState != state {
        signals := signals + [StateChanged(newState)];
        state := newState;
      }
    }

    /** Stores a new title and artist, emitting coverChanged, only when one of them differs. */
    method UpdateTrack(newTitle: string, newArtist: string)
      modifies this
      ensures Model() == NowPlayingSpec.UpdateTrack(old(Model()), newTitle, newArtist)
    {
      if newTitle != title || newArtist != artist {
        title := newTitle;
        artist := newArtist;
        signals := signals + [CoverChanged];
      }
    }

    method PlayerAdded(name: string)
      requires Valid()
      modifies this
      ensures Model() == NowPlayingSpec.PlayerAdded(old(Model()), name)
      ensures Valid()
    {
      PlayerAddedKeepsValid(Model(), name);
      if watchingPlayer == PlayersSource {
        watchingPlayer := name;
        controller := Some(watchingPlayer);
        signals := signals + [ControllerChanged(controller)];
        requests := requests + [Connect(watchingPlayer, PlayerAddedIntervalMs)];
      }
    }

    method PlayerRemoved(name: string, players: seq<string>)
      requires Valid()
      modifies this
      ensures Model() == NowPlayingSpec.PlayerRemoved(old(Model()), name, players)
      ensures Valid()
    {
      if watchingPlayer == name {
        FindPlayer(players);
      }
    }

    method FindPlayer(players: seq<string>)
      requires Valid()
      modifies this
      ensures Model() == NowPlayingSpec.FindPlayer(old(Model()), players)
      ensures Valid()
    {
      FindPlayerKeepsValid(Model(), players);
      if players == [] {
        state := NoPlayer;
        watchingPlayer := "";
        controller := None;
        signals := signals + [StateChanged(state)];
        signals := signals + [ControllerChanged(None)];
      } else {
        watchingPlayer := players[0];
        controller := Some(watchingPlayer);
        signals := signals + [ControllerChanged(controller)];
        requests := requests + [Connect(watchingPlayer, FindPlayerIntervalMs)];
      }
    }

    /** Starts `operation` with `argument` on the controller, if there is one. */
    method StartOperation(operation: string, argument: Argument)
      requires Valid()
      modifies this
      ensures Model() == Command(old(Model()), operation, argument)
      ensures Valid()
    {
      if controller.Some? {
        requests := requests + [Operation(controller.value, operation, argument)];
      }
    }

    method Play()
      requires Valid()
      modifies this
      ensures Model() == Command(old(Model()), "play", NoArgument)
      ensures Valid()
    {
      StartOperation("play", NoArgument);
    }

    method Pause()
      requires Valid()
      modifies this
      ensures Model() == Command(old(Model()), "pause", NoArgument)
      ensures Valid()
    {
      StartOperation("pause", NoArgument);
    }

    method Stop()
      requires Valid()
      modifies this
      ensures Model() == Command(old(Model()), "stop", NoArgument)
      ensures Valid()
    {
      StartOperation("stop", NoArgument);
    }

    method Prev()
      requires Valid()
      modifies this
      ensures Model() == Command(old(Model()), "previous", NoArgument)
      ensures Valid()
    {
      StartOperation("previous", NoArgument);
    }

    method Next()
      requires Valid()
      modifies this
      ensures Model() == Command(old(Model()), "next", NoArgument)
      ensures Valid()
    {
      StartOperation("next", NoArgument);
    }

    method SetVolume(volumePercent: int)
      requires Valid()
      modifies this
      ensures Model() == NowPlayingSpec.SetVolume(old(Model()), volumePercent)
      ensures Valid()
    {
      var level := Bound(0, volumePercent, 100);
      StartOperation("volume", Level(level));
    }

    method SetPosition(position: int)
      requires Valid()
      modifies this
      ensures Model() == NowPlayingSpec.SetPosition(old(Model()), position)
      ensures Valid()
    {
      StartOperation("seek", Seconds(position));
    }
  }
}
