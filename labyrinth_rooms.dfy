/**
 * The labyrinth's map: rooms with exits, item lists, an optional riddle and
 * an optional trap, and the game's constants. A map is any `RoomMap`; the
 * one the game ships with is `ShippedRooms`.
 */
module LabyrinthRooms {
  import opened Wrappers

  /**
   * One room. A key the room's dictionary leaves out reads as its default:
   * no exits, no items, no puzzle, no trap.
   */
  datatype Room = Room(
    description: string,
    exits: map<string, string>,
    items: seq<string>,
    puzzle: Option<string>,
    puzzleAnswer: Option<string>,
    trap: bool,
    trapDescription: Option<string>)

  type RoomMap = map<string, Room>

  const Entrance := "entrance"
  const Hall := "hall"
  const TrapRoom := "trap_room"
  const TreasureRoom := "treasure_room"

  const VictoryItem := "treasure"
  const KeyItem := "key"

  /** `random.random() < TRAP_CHANCE` fires a trap. */
  const TrapChance: real := 0.5
  /** `random.random() < HEAL_EVENT_CHANCE` finds a potion in the hall. */
  const HealEventChance: real := 0.3
  const HealAmount: int := 1

  /** Every exit of every room leads to a room of the map. */
  predicate Closed(rooms: RoomMap) {
    forall r, d :: r in rooms && d in rooms[r].exits ==> rooms[r].exits[d] in rooms
  }

  /** No exit of any room leads to `room`. */
  predicate Unreachable(rooms: RoomMap, room: string) {
    forall r, d :: r in rooms && d in rooms[r].exits ==> rooms[r].exits[d] != room
  }

  const ShippedRooms: RoomMap := map[
    Entrance := Room(
      "Вы у входа в лабиринт. Впереди темный коридор.",
      map["north" := Hall],
      [],
      None, None, false, None),
    Hall := Room(
      "Зал с факелами на стенах. На полу виднеется странная плита.",
      map["south" := Entrance, "east" := TreasureRoom],
      [KeyItem],
      None, None, true,
      Some("Вы наступаете на плиту и слышите щелчок… ловушка!")),
    TrapRoom := Room(
      "Узкий коридор с мрачной атмосферой. В воздухе пахнет опасностью.",
      map["south" := Hall],
      [],
      None, None, true,
      Some("Из-под ног уходит пол, и вы проваливаетесь вниз!")),
    TreasureRoom := Room(
      "Комната сокровищ. Перед вами тяжелая дверь с замочной скважиной.",
      map["west" := Hall],
      [VictoryItem],
      Some("На двери надпись: 'Что всегда идет, но никогда не приходит?'"),
      Some("завтра"),
      false, None)
  ]

  /** The shipped map is closed and has an entrance to fall back to. */
  lemma ShippedClosed()
    ensures Closed(ShippedRooms) && Entrance in ShippedRooms
  {
  }

  /** In the shipped map no exit leads into the trap room, so its teleport never happens. */
  lemma ShippedTrapRoomUnreachable()
    ensures Unreachable(ShippedRooms, TrapRoom)
  {
  }
}
