/** The title screen of game/screen_title.go: a menu of four options whose
    selection moves on once a second, the player-speed and maze-size
    settings that a press cycles through, and the transitions a press on
    "Start" or "About" asks for.  The button poll becomes the boolean
    released and the ticks per second the integer tps. */
module TitleScreens {
  import opened Text

  /** PlayerSpeed, an iota enumeration: SpeedLow = 0, SpeedMedium = 1, SpeedHigh = 2. */
  datatype PlayerSpeed = SpeedLow | SpeedMedium | SpeedHigh {

    function Index(): (i: nat)
      ensures i < 3
    {
      match this
      case SpeedLow => 0
      case SpeedMedium => 1
      case SpeedHigh => 2
    }

    /** PlayerSpeed.String: the name the menu shows. */
    function String(): (r: string)
      ensures r == ["Low", "Medium", "High"][Index()]
    {
      match this
      case SpeedLow => "Low"
      case SpeedMedium => "Medium"
      case SpeedHigh => "High"
    }

    /** The setting after one press: PlayerSpeed((int(s) + 1) % 3). */
    function Next(): (r: PlayerSpeed)
      ensures r.Index() == (Index() + 1) % 3
    {
      match this
      case SpeedLow => SpeedMedium
      case SpeedMedium => SpeedHigh
      case SpeedHigh => SpeedLow
    }
  }

  /** MazeSize, an iota enumeration: SizeSmall = 0, SizeMedium = 1, SizeBig = 2. */
  datatype MazeSize = SizeSmall | SizeMedium | SizeBig {

    function Index(): (i: nat)
      ensures i < 3
    {
      match this
      case SizeSmall => 0
      case SizeMedium => 1
      case SizeBig => 2
    }

    /** MazeSize.String: the name the menu shows. */
    function String(): (r: string)
      ensures r == ["Small", "Medium", "Big"][Index()]
    {
      match this
      case SizeSmall => "Small"
      case SizeMedium => "Medium"
      case SizeBig => "Big"
    }

    /** The setting after one press: MazeSize((int(s) + 1) % 3). */
    function Next(): (r: MazeSize)
      ensures r.Index() == (Index() + 1) % 3
    {
      match this
      case SizeSmall => SizeMedium
      case SizeMedium => SizeBig
      case SizeBig => SizeSmall
    }

    /** MazeSize.Dimensions: the width and height of the maze to generate. */
    function Dimensions(): (r: (int, int))
      ensures r.0 == r.1 && r.0 == [3, 10, 20][Index()]
    {
      match this
      case SizeSmall => (3, 3)
      case SizeMedium => (10, 10)
      case SizeBig => (20, 20)
    }
  }

  /** The names the menu shows tell the settings apart, and none of them
      is the "Unknown" of the unreachable default branch. */
  lemma NamesDistinct(p: PlayerSpeed, q: PlayerSpeed, m: MazeSize, n: MazeSize)
    ensures p.String() == q.String() ==> p == q
    ensures m.String() == n.String() ==> m == n
    ensures p.String() != "Unknown" && m.String() != "Unknown"
  {
  }

  /** Every size gives a square maze of at least one cell each way, as
      GenerateMaze needs, and the sizes grow from Small to Big. */
  lemma DimensionsUsable(s: MazeSize)
    ensures s.Dimensions().0 >= 1 && s.Dimensions().1 >= 1
    ensures s.Dimensions().0 == s.Dimensions().1
    ensures SizeSmall.Dimensions().0 < SizeMedium.Dimensions().0 < SizeBig.Dimensions().0
  {
  }

  /** Three presses bring a setting back to where it was. */
  lemma SettingsCycle(p: PlayerSpeed, m: MazeSize)
    ensures p.Next().Next().Next() == p && p.Next() != p
    ensures m.Next().Next().Next() == m && m.Next() != m
  {
  }

  /** ScreenType, an iota enumeration of the three screens. */
  datatype ScreenType = ScreenTitle | ScreenMaze | ScreenAbout

  /** A request to change screens; Go's zero values fill the fields a
      literal leaves out. */
  datatype ScreenTransition = ScreenTransition(nextScreen: ScreenType, playerSpeed: PlayerSpeed, mazeSize: MazeSize)

  /** The menu entries, in the order the selection visits them. */
  const Options: seq<string> := ["Start", "Player Speed", "Maze Size", "About"]

  /** The fields of TitleScreen that Update reads and writes. */
  datatype Menu = Menu(selectedOption: int, playerSpeed: PlayerSpeed, mazeSize: MazeSize, tickCounter: int)

  /** One call of Update: the counter advances and, on reaching tps, the
      selection moves to the next option and the counter restarts; then a
      release acts on the selected option. */
  function MenuStep(m: Menu, tps: int, released: bool): (Menu, Option<ScreenTransition>)
    requires 0 <= m.selectedOption < |Options|
  {
    var counted := m.(tickCounter := m.tickCounter + 1);
    var moved := if counted.tickCounter >= tps
                 then counted.(selectedOption := (m.selectedOption + 1) % |Options|, tickCounter := 0)
                 else counted;
    if !released then (moved, None)
    else
      var option := Options[moved.selectedOption];
      if option == "Player Speed" then (moved.(playerSpeed := moved.playerSpeed.Next()), None)
      else if option == "Maze Size" then (moved.(mazeSize := moved.mazeSize.Next()), None)
      else if option == "Start" then (moved, Some(ScreenTransition(ScreenMaze, moved.playerSpeed, moved.mazeSize)))
      else if option == "About" then (moved, Some(ScreenTransition(ScreenAbout, SpeedLow, SizeSmall)))
      else (moved, None)
  }

  /** The selection counter: one more tick, or the next option and a
      restart once tps ticks have passed; the selection stays in range. */
  lemma MenuRotation(m: Menu, tps: int, released: bool)
    requires 0 <= m.selectedOption < |Options|
    ensures var r := MenuStep(m, tps, released).0;
            && 0 <= r.selectedOption < |Options|
            && if m.tickCounter + 1 >= tps then r.selectedOption == (m.selectedOption + 1) % 4 && r.tickCounter == 0
               else r.selectedOption == m.selectedOption && r.tickCounter == m.tickCounter + 1
  {
  }

  /** The option a press acts on: the one selected after the tick. */
  function Selected(m: Menu, tps: int): (option: string)
    requires 0 <= m.selectedOption < |Options|
    ensures option in Options
  {
    Options[MenuStep(m, tps, false).0.selectedOption]
  }

  /** Without a release nothing but the selection and the counter changes,
      and no transition is asked for. */
  lemma MenuWithoutRelease(m: Menu, tps: int)
    requires 0 <= m.selectedOption < |Options|
    ensures var (r, t) := MenuStep(m, tps, false);
            t.None? && r.playerSpeed == m.playerSpeed && r.mazeSize == m.mazeSize
  {
  }

  /** A release on "Player Speed" or "Maze Size" cycles that setting, keeps
      the other and asks for no transition. */
  lemma MenuSettings(m: Menu, tps: int)
    requires 0 <= m.selectedOption < |Options|
    ensures var (r, t) := MenuStep(m, tps, true);
            && (Selected(m, tps) == "Player Speed" ==>
                  t.None? && r.playerSpeed == m.playerSpeed.Next() && r.mazeSize == m.mazeSize)
            && (Selected(m, tps) == "Maze Size" ==>
                  t.None? && r.mazeSize == m.mazeSize.Next() && r.playerSpeed == m.playerSpeed)
  {
  }

  /** A release on "Start" asks for the maze screen with the current
      settings, a release on "About" for the about screen; only these two
      ask for a transition, and neither changes the settings. */
  lemma MenuTransitions(m: Menu, tps: int)
    requires 0 <= m.selectedOption < |Options|
    ensures var (r, t) := MenuStep(m, tps, true);
            && (Selected(m, tps) == "Start" <==> t == Some(ScreenTransition(ScreenMaze, m.playerSpeed, m.mazeSize)))
            && (Selected(m, tps) == "About" <==> t == Some(ScreenTransition(ScreenAbout, SpeedLow, SizeSmall)))
            && (t.Some? <==> Selected(m, tps) in {"Start", "About"})
            && (t.Some? ==> r.playerSpeed == m.playerSpeed && r.mazeSize == m.mazeSize)
  {
  }

  // ---------------------------------------------------------------------------
  // TitleScreen
  // ---------------------------------------------------------------------------

  class TitleScreen {
    var selectedOption: int
    /** Set once by NewTitleScreen and never changed. */
    const options: seq<string>
    var playerSpeed: PlayerSpeed
    var mazeSize: MazeSize
    var tickCounter: int

    function State(): Menu
      reads this
    {
      Menu(selectedOption, playerSpeed, mazeSize, tickCounter)
    }

    /** The menu shown is Options and the selection is one of its entries. */
    predicate Valid()
      reads this
    {
      options == Options && 0 <= selectedOption < |options|
    }

    /** NewTitleScreen: first option selected, medium speed and size, counter at zero. */
    constructor ()
      ensures Valid() && State() == Menu(0, SpeedMedium, SizeMedium, 0)
    {
      selectedOption := 0;
      options := ["Start", "Player Speed", "Maze Size", "About"];
      playerSpeed := SpeedMedium;
      mazeSize := SizeMedium;
      tickCounter := 0;
    }

    /** TitleScreen.Update: the returned transition is None for Go's nil. */
    method Update(tps: int, released: bool) returns (t: Option<ScreenTransition>)
      requires Valid()
      modifies this
      ensures Valid()
      ensures (State(), t) == MenuStep(old(State()), tps, released)
    {
      tickCounter := tickCounter + 1;
      if tickCounter >= tps {
        selectedOption := (selectedOption + 1) % |options|;
        tickCounter := 0;
      }
      t := None;
      if released {
        var option := options[selectedOption];
        if option == "Player Speed" {
          playerSpeed := FromSpeedIndex((playerSpeed.Index() + 1) % 3);
        } else if option == "Maze Size" {
          mazeSize := FromSizeIndex((mazeSize.Index() + 1) % 3);
        } else if option == "Start" {
          t := Some(ScreenTransition(ScreenMaze, playerSpeed, mazeSize));
        } else if option == "About" {
          t := Some(ScreenTransition(ScreenAbout, SpeedLow, SizeSmall));
        }
      }
    }
  }

  /** The conversion PlayerSpeed(i) for the three values a speed can take. */
  function FromSpeedIndex(i: int): (s: PlayerSpeed)
    requires 0 <= i < 3
    ensures s.Index() == i
  {
    if i == 0 then SpeedLow else if i == 1 then SpeedMedium else SpeedHigh
  }

  /** The conversion MazeSize(i) for the three values a size can take. */
  function FromSizeIndex(i: int): (s: MazeSize)
    requires 0 <= i < 3
    ensures s.Index() == i
  {
    if i == 0 then SizeSmall else if i == 1 then SizeMedium else SizeBig
  }
}
