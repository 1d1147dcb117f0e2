/**
 * The player's actions: moving through an exit (with traps and the hall's
 * random events), taking an item, using an item and answering the riddle.
 * The two `random.random()` draws of a move are parameters, and the messages
 * shown are left out.
 */
module PlayerActions {
  import opened Wrappers
  import opened PyStr
  import opened LabyrinthRooms

  // ---------------------------------------------------------------- move

  /**
   * `move_player`: go through `direction` from `currentRoom`. `trapRoll` is
   * the draw that decides whether the next room's trap fires, `eventRoll`
   * the one that decides the hall's event; each is only looked at where the
   * game draws it.
   */
  method MovePlayer(rooms: RoomMap, currentRoom: string, direction: string, health: int,
                    trapRoll: real, eventRoll: real)
    returns (room: string, newHealth: int, trapTriggered: bool)
    requires currentRoom in rooms && Closed(rooms)
    ensures direction !in rooms[currentRoom].exits ==>
      room == currentRoom && newHealth == health && !trapTriggered
    ensures direction in rooms[currentRoom].exits ==>
      var next := rooms[currentRoom].exits[direction];
      && (trapTriggered <==> rooms[next].trap && trapRoll < TrapChance)
      && (trapTriggered ==> newHealth == health - 1 && room == if next == TrapRoom then Entrance else next)
      && (!trapTriggered ==>
            && room == next
            && newHealth == health + if next == Hall && eventRoll < HealEventChance then HealAmount else 0)
    ensures health - 1 <= newHealth <= health + HealAmount
    ensures Entrance in rooms ==> room in rooms
  {
    var exits := rooms[currentRoom].exits;
    if direction !in exits {
      return currentRoom, health, false;
    }
    var nextRoom := exits[direction];
    var nextRoomData := rooms[nextRoom];
    newHealth := health;
    trapTriggered := false;

    if nextRoomData.trap {
      if nextRoom == TrapRoom {
        if trapRoll < TrapChance {
          newHealth := newHealth - 1;
          trapTriggered := true;
          // the fall lands the player back at the entrance
          return Entrance, newHealth, trapTriggered;
        }
      } else if trapRoll < TrapChance {
        newHealth := newHealth - 1;
        trapTriggered := true;
      }
    }

    // the hall's events: a potion, or (below 0.5) a draught that only shows a message
    if nextRoom == Hall && !trapTriggered && eventRoll < HealEventChance {
      newHealth := newHealth + HealAmount;
    }
    room := nextRoom;
  }

  // ---------------------------------------------------------------- take

  /** `xs.remove(x)`: drops the first occurrence of `x`; nothing when there is none. */
  function RemoveFirst(xs: seq<string>, x: string): (r: seq<string>)
    ensures x in xs ==> |r| == |xs| - 1 && multiset(r) == multiset(xs) - multiset{x}
    ensures x !in xs ==> r == xs
  {
    if xs == [] then []
    else
      assert xs == [xs[0]] + xs[1..];
      if xs[0] == x then xs[1..]
      else [xs[0]] + RemoveFirst(xs[1..], x)
  }

  /** It is the first occurrence that goes; the rest keep their order. */
  lemma {:induction false} RemoveFirstSplit(before: seq<string>, x: string, after: seq<string>)
    requires x !in before
    ensures RemoveFirst(before + [x] + after, x) == before + after
  {
    var s := before + [x] + after;
    if before == [] {
      assert s == [x] + after;
      assert s[1..] == after;
    } else {
      var tail := before[1..];
      assert s[0] == before[0] && before[0] != x;
      assert s[1..] == tail + [x] + after;
      calc {
        RemoveFirst(s, x);
        [before[0]] + RemoveFirst(tail + [x] + after, x);
        { RemoveFirstSplit(tail, x, after); }
        [before[0]] + (tail + after);
        { assert before == [before[0]] + tail; }
        before + after;
      }
    }
  }

  /**
   * The mutable part of a game: the item list of every room (the map's lists
   * are changed in place) and the player's inventory.
   */
  class Game {
    const rooms: RoomMap
    var roomItems: map<string, seq<string>>
    var inventory: seq<string>

    /** Every room has exactly one item list. */
    ghost predicate Valid()
      reads this
    {
      roomItems.Keys == rooms.Keys
    }

    /** A new game: each room holds the items the map lists, the inventory is empty. */
    constructor(rooms: RoomMap)
      ensures this.rooms == rooms && inventory == []
      ensures roomItems == map r | r in rooms :: rooms[r].items
      ensures Valid()
    {
      this.rooms := rooms;
      roomItems := map r | r in rooms :: rooms[r].items;
      inventory := [];
    }

    /**
     * `take_item`: move the first `itemName` of the current room to the end
     * of the inventory; nothing happens when the room has none.
     */
    method TakeItem(currentRoom: string, itemName: string)
      requires Valid() && currentRoom in rooms
      modifies this
      ensures Valid()
      ensures itemName in old(roomItems[currentRoom]) ==>
        && roomItems == old(roomItems)[currentRoom := RemoveFirst(old(roomItems[currentRoom]), itemName)]
        && inventory == old(inventory) + [itemName]
      ensures itemName !in old(roomItems[currentRoom]) ==>
        roomItems == old(roomItems) && inventory == old(inventory)
      ensures multiset(roomItems[currentRoom]) + multiset(inventory)
           == old(multiset(roomItems[currentRoom]) + multiset(inventory))
    {
      var items := roomItems[currentRoom];
      if itemName !in items {
        return;
      }
      roomItems := roomItems[currentRoom := RemoveFirst(items, itemName)];
      inventory := inventory + [itemName];
    }
  }

  // ---------------------------------------------------------------- use

  /**
   * `use_item`: the pair (door opened, game won). The key opens the door in
   * the treasure room; the treasure wins once the riddle is solved; anything
   * else, or an item not held, does nothing.
   */
  function UseItem(currentRoom: string, inventory: seq<string>, itemName: string,
                   solvedMainPuzzle: bool): (r: (bool, bool))
    ensures r.0 <==> itemName in inventory && currentRoom == TreasureRoom && itemName == KeyItem
    ensures r.1 <==> itemName in inventory && itemName == VictoryItem && solvedMainPuzzle
    ensures !(r.0 && r.1)
  {
    if itemName !in inventory then (false, false)
    else if currentRoom == TreasureRoom && itemName == KeyItem then (true, false)
    else if itemName == VictoryItem && solvedMainPuzzle then (false, true)
    else (false, false)
  }

  /** Using an item reads the inventory only through whether the item is in it. */
  lemma UseItemReadsMembership(currentRoom: string, inv1: seq<string>, inv2: seq<string>,
                               itemName: string, solved: bool)
    requires itemName in inv1 <==> itemName in inv2
    ensures UseItem(currentRoom, inv1, itemName, solved) == UseItem(currentRoom, inv2, itemName, solved)
  {
  }

  /** An item just taken can be used: the key then opens the treasure room's door. */
  lemma TakenKeyOpens(inventory: seq<string>, solved: bool)
    ensures UseItem(TreasureRoom, inventory + [KeyItem], KeyItem, solved) == (true, false)
  {
    assert (inventory + [KeyItem])[|inventory|] == KeyItem;
  }

  // ---------------------------------------------------------------- solve

  /** `if not puzzle`: a room whose puzzle is missing or empty has none. */
  predicate HasPuzzle(room: Room) {
    room.puzzle.Some? && room.puzzle.value != ""
  }

  /** `room.get("puzzle_answer", "").lower()`. */
  function CorrectAnswer(room: Room): string {
    Lower(if room.puzzleAnswer.Some? then room.puzzleAnswer.value else "")
  }

  /**
   * `solve_puzzle`: the new value of the solved flag. A right answer,
   * compared trimmed and lower-cased, sets it in the treasure room; every
   * other case returns the flag it was given.
   */
  function SolvePuzzle(rooms: RoomMap, currentRoom: string, userAnswer: string,
                       solvedMainPuzzle: bool): (r: bool)
    requires currentRoom in rooms
    ensures r <==>
      || solvedMainPuzzle
      || (&& currentRoom == TreasureRoom && HasPuzzle(rooms[currentRoom])
          && Lower(Strip(userAnswer)) == CorrectAnswer(rooms[currentRoom]))
  {
    var room := rooms[currentRoom];
    if !HasPuzzle(room) then solvedMainPuzzle
    else if Lower(Strip(userAnswer)) == CorrectAnswer(room) then
      if currentRoom == TreasureRoom then true else solvedMainPuzzle
    else solvedMainPuzzle
  }

  /** A lower-cased string is lower-case. */
  lemma LowerIsLower(s: string)
    ensures IsLower(Lower(s))
  {
    forall i | 0 <= i < |s| ensures LowerChar(Lower(s)[i]) == Lower(s)[i] {
      LowerCharIdempotent(s[i]);
    }
  }

  /** An answer already trimmed and lower-cased is judged the same as the raw one. */
  lemma SolveNormalised(rooms: RoomMap, currentRoom: string, userAnswer: string, solved: bool)
    requires currentRoom in rooms
    ensures SolvePuzzle(rooms, currentRoom, Lower(Strip(userAnswer)), solved)
         == SolvePuzzle(rooms, currentRoom, userAnswer, solved)
  {
    var t := Strip(userAnswer);
    var n := Lower(t);
    StripBounded(n);
    LowerIsLower(t);
    LowerFixed(n);
  }

  /** In the shipped map the riddle is solved by any spelling of "завтра" that trims and lower-cases to it. */
  lemma ShippedRiddle(userAnswer: string)
    requires Lower(Strip(userAnswer)) == "завтра"
    ensures SolvePuzzle(ShippedRooms, TreasureRoom, userAnswer, false)
  {
    ShippedPuzzle();
  }

  lemma ShippedPuzzle()
    ensures HasPuzzle(ShippedRooms[TreasureRoom]) && CorrectAnswer(ShippedRooms[TreasureRoom]) == "завтра"
  {
    var room := ShippedRooms[TreasureRoom];
    assert room.puzzleAnswer == Some("завтра");
    assert IsLower("завтра");
    LowerFixed("завтра");
  }

  /** The capitals and the padding do not matter: " ЗАВТРА " trims and lower-cases to "завтра". */
  lemma ShippedRiddleSpelling()
    ensures Lower(Strip(" ЗАВТРА ")) == "завтра"
  {
    PaddedStrip();
    CapitalsLower();
  }

  // The two steps of ShippedRiddleSpelling.

  lemma PaddedStrip()
    ensures Strip(" ЗАВТРА ") == "ЗАВТРА"
  {
    assert " ЗАВТРА " == " " + "ЗАВТРА" + " ";
    StripPadded(" ", "ЗАВТРА", " ");
  }

  lemma CapitalsLower()
    ensures Lower("ЗАВТРА") == "завтра"
  {
  }
}
