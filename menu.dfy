/** The start menu: a selection among three durations that the arrow keys move, clamped at
    both ends, and Enter or `q` leave. */
module Menu {

  /** `DURATIONS`, in the order shown. */
  const Durations: seq<int> := [15, 30, 60]

  /** `xs.indexOf(x)`: the first position holding `x`, or -1. */
  function IndexOf(xs: seq<int>, x: int): (i: int)
    ensures -1 <= i < |xs|
    ensures i == -1 <==> x !in xs
    ensures i >= 0 ==> xs[i] == x && forall j :: 0 <= j < i ==> xs[j] != x
  {
    if xs == [] then -1
    else if xs[0] == x then 0
    else
      var j := IndexOf(xs[1..], x);
      if j == -1 then -1 else j + 1
  }

  /** The parts of an Ink key event the menu reads. */
  datatype MenuKey = MenuKey(input: string, leftArrow: bool, rightArrow: bool, enter: bool)

  /** What a key asks of the application: quit, start a game of this many seconds, or
      nothing. */
  datatype MenuAction = Quit | StartGame(duration: int) | NoAction

  class DurationMenu {
    var selectedIndex: int

    ghost predicate Valid()
      reads this
    {
      0 <= selectedIndex < |Durations|
    }

    /** The selection starts on the duration last played. */
    constructor (defaultDuration: int)
      requires defaultDuration in Durations
      ensures Valid() && Durations[selectedIndex] == defaultDuration
    {
      selectedIndex := IndexOf(Durations, defaultDuration);
    }

    /** The `useInput` callback: `q` is looked at first; left or `h` and right or `l` move
        the selection by one without leaving the list; Enter starts a game with the selected
        duration; any other key changes nothing. */
    method HandleKey(key: MenuKey) returns (action: MenuAction)
      requires Valid()
      modifies this
      ensures Valid()
      ensures key.input == "q" ==> action == Quit && selectedIndex == old(selectedIndex)
      ensures key.input != "q" && (key.leftArrow || key.input == "h") ==>
        action == NoAction &&
        selectedIndex == (if old(selectedIndex) == 0 then 0 else old(selectedIndex) - 1)
      ensures key.input != "q" && !(key.leftArrow || key.input == "h") && (key.rightArrow || key.input == "l") ==>
        action == NoAction &&
        selectedIndex == (if old(selectedIndex) == |Durations| - 1 then old(selectedIndex) else old(selectedIndex) + 1)
      ensures key.input != "q" && !(key.leftArrow || key.input == "h") && !(key.rightArrow || key.input == "l") ==>
        selectedIndex == old(selectedIndex) &&
        action == (if key.enter then StartGame(Durations[selectedIndex]) else NoAction)
      ensures action.StartGame? ==> action.duration in {15, 30, 60}
    {
      action := NoAction;
      if key.input == "q" {
        action := Quit;
      } else if key.leftArrow || key.input == "h" {
        selectedIndex := if 0 >= selectedIndex - 1 then 0 else selectedIndex - 1;
      } else if key.rightArrow || key.input == "l" {
        selectedIndex := if |Durations| - 1 <= selectedIndex + 1 then |Durations| - 1 else selectedIndex + 1;
      } else if key.enter {
        action := StartGame(Durations[selectedIndex]);
      }
    }
  }
}
