/** The world data the engine reads: exits, things, actions and rooms as the
    world loader supplies them, the observable events of a command, and the
    room index and exit validation of the `Game` constructor. */
module World {
  import opened Wrappers

  /** An action effect or a hook callback; its body is not modelled, only
      that it was invoked. */
  type CallbackId = nat

  /** One value of a room's `exits` object. */
  datatype Exit = Exit(dir: string, room: string, blocked: bool)

  /** A phrase-triggered action: `phrase` and `requiresThing` are a string or
      an array of strings; `None` stands for a missing or falsy
      `requiresThing`. */
  datatype Action = Action(phrase: OneOrMany<string>, requiresThing: Option<OneOrMany<string>>, effect: CallbackId)

  /** A thing in a room or in the inventory; a missing `actions` is `[]`. */
  datatype Thing = Thing(name: string, gettable: bool, actions: seq<Action>)

  /** A room: its exits in `Object.values` order, its things, actions and
      on-enter hooks. */
  datatype Room = Room(name: string, exits: seq<Exit>, things: seq<Thing>, actions: seq<Action>, onEnter: seq<CallbackId>)

  /** What a command makes observable, in order: text said to the player,
      invocations of effects and hooks with the room they receive, and calls
      into the character's inventory. */
  datatype Event =
    | Said(text: string)
    | Effect(effect: CallbackId, room: Room)
    | MoveHook(hook: CallbackId, room: Room)
    | EnterHook(hook: CallbackId, room: Room)
    | ReportInventory
    | Take(thing: Thing)
    | Drop(thing: Thing)

  /** `this.rooms`: each room stored under its name; a later room with the
      same name replaces an earlier one. */
  function RoomsByName(rs: seq<Room>): (m: map<string, Room>)
    ensures m.Keys == set r | r in rs :: r.name
    decreases |rs|
  {
    if rs == [] then map[]
    else
      var last := rs[|rs| - 1];
      RoomsByName(rs[..|rs| - 1])[last.name := last]
  }

  /** The key order of `this.rooms`: each room name once; a name is added
      when a room with a new name is stored. */
  function NameOrder(rs: seq<Room>): (ns: seq<string>)
    ensures forall n :: n in ns <==> exists r :: r in rs && r.name == n
    ensures forall i, j :: 0 <= i < j < |ns| ==> ns[i] != ns[j]
    decreases |rs|
  {
    if rs == [] then []
    else
      var front := NameOrder(rs[..|rs| - 1]);
      var n := rs[|rs| - 1].name;
      assert forall r :: r in rs[..|rs| - 1] ==> r in rs;
      assert forall r :: r in rs ==> r in rs[..|rs| - 1] || r == rs[|rs| - 1];
      if n in front then front else front + [n]
  }

  /** The room stored under a name is the last room of that name. */
  lemma {:induction false} LastRoomWins(rs: seq<Room>, k: nat)
    requires k < |rs|
    requires forall m :: k < m < |rs| ==> rs[m].name != rs[k].name
    ensures rs[k].name in RoomsByName(rs) && RoomsByName(rs)[rs[k].name] == rs[k]
    decreases |rs|
  {
    if k < |rs| - 1 {
      var front := rs[..|rs| - 1];
      assert front[k] == rs[k];
      LastRoomWins(front, k);
    }
  }

  /** Every exit of every room leads to a room of the map. */
  ghost predicate ExitsKnown(rooms: map<string, Room>)
  {
    forall n, j :: n in rooms && 0 <= j < |rooms[n].exits| ==> rooms[n].exits[j].room in rooms
  }

  /** Exit `j` of the room named `order[m]` is the first exit, in key order
      and then exit order, that leads to no room of the map. */
  ghost predicate FirstBadExit(rooms: map<string, Room>, order: seq<string>, m: int, j: int)
  {
    && 0 <= m < |order| && order[m] in rooms && 0 <= j < |rooms[order[m]].exits|
    && rooms[order[m]].exits[j].room !in rooms
    && (forall m', i :: 0 <= m' < m && order[m'] in rooms && 0 <= i < |rooms[order[m']].exits| ==>
          rooms[order[m']].exits[i].room in rooms)
    && (forall i :: 0 <= i < j ==> rooms[order[m]].exits[i].room in rooms)
  }

  /** There is only one first bad exit, so the message thrown is fixed. */
  lemma FirstBadExitUnique(rooms: map<string, Room>, order: seq<string>, m: int, j: int, m2: int, j2: int)
    requires FirstBadExit(rooms, order, m, j) && FirstBadExit(rooms, order, m2, j2)
    ensures m == m2 && j == j2
  {
  }

  /** The text `validateDirections` throws. */
  function BadExitMessage(roomName: string, target: string): string
  {
    "Error! Room: " + roomName + " has an exit to a nonexistent room " + target
  }

  datatype Outcome = Pass | Fail(error: string)
}
