/** Class `Game` of src/Game.js and the module function `tryAction`: the
    session state that commands update in place. Output, effects and hooks
    are recorded in the ordered `trace` instead of being performed. */
module GameModel {
  import opened Wrappers
  import opened Text
  import opened Normalizer
  import opened AliasTable
  import opened World
  import opened Engine

  /** What the world loader hands to `new Game(data)`; `aliases` is `None`
      when the world supplies none. */
  datatype GameData = GameData(rooms: seq<Room>, startingRoom: string, prologue: string, name: string,
                               aliases: Option<AliasData>)

  /** The player character. Its implementation is not part of this model:
      `owned` is the set of item identifiers its `has` answers true for, and
      `inventory` the held things in `Object.values` order. */
  class Character {
    var room: Option<Room>
    var inventory: seq<Thing>
    var owned: set<string>

    constructor (room: Option<Room>)
      ensures this.room == room && inventory == [] && owned == {}
    {
      this.room := room;
      inventory := [];
      owned := {};
    }

    predicate Has(id: string)
      reads this
    {
      id in owned
    }
  }

  class Game {
    var rooms: map<string, Room>
    /** The key order of `this.rooms`, which `Object.values` follows. */
    var roomOrder: seq<string>
    var startingRoom: string
    var prologue: string
    var name: string
    /** The current room; `None` is `undefined`, for an unknown room name. */
    var room: Option<Room>
    const self: Character
    var onMoveCallbacks: seq<CallbackId>
    var aliases: Table
    /** The `junkWords` list and `directions.fullname`. */
    const junk: set<string>
    const fullname: string -> Option<string>
    /** Everything the game has said, invoked or asked the character to do. */
    var trace: seq<Event>

    /** `roomOrder` lists each key of `rooms` exactly once. */
    ghost predicate Valid()
      reads this
    {
      && (forall n :: n in roomOrder <==> n in rooms)
      && (forall i, j :: 0 <= i < j < |roomOrder| ==> roomOrder[i] != roomOrder[j])
    }

    /** The state a command is resolved against. */
    function Snapshot(): Session
      reads this`rooms, this`aliases, this`onMoveCallbacks, self`inventory, self`owned
    {
      Session(rooms, Norm(), fullname, onMoveCallbacks, self.inventory, self.owned)
    }

    /** `preprocessString` with the game's current alias table and junk
        words, as a function of the command. */
    function Norm(): string -> string
      reads this`aliases
    {
      var table := aliases;
      p => Preprocess(p, table, junk)
    }

    /** The constructor up to alias preparation; `NewGame` adds the exit
        validation that ends it. */
    constructor (data: GameData, defaults: AliasData, junk: set<string>, fullname: string -> Option<string>)
      ensures Valid()
      ensures rooms == RoomsByName(data.rooms) && roomOrder == NameOrder(data.rooms)
      ensures startingRoom == data.startingRoom && prologue == data.prologue && name == data.name
      ensures room == (if data.startingRoom in rooms then Some(rooms[data.startingRoom]) else None)
      ensures fresh(self) && self.room == room && self.inventory == [] && self.owned == {}
      ensures onMoveCallbacks == [] && trace == []
      ensures this.junk == junk && this.fullname == fullname
      ensures aliases == (var base := Prepared(map[], defaults);
                          if data.aliases.Some? then Prepared(base, data.aliases.value) else base)
    {
      var rs, order := IndexRooms(data.rooms);
      assert forall n :: n in order <==> n in rs;
      var start := if data.startingRoom in rs then Some(rs[data.startingRoom]) else None;
      rooms := rs;
      roomOrder := order;
      startingRoom := data.startingRoom;
      prologue := data.prologue;
      name := data.name;
      room := start;
      self := new Character(start);
      onMoveCallbacks := [];
      aliases := map[];
      this.junk := junk;
      this.fullname := fullname;
      trace := [];
      new;
      PrepareAliases(Some(defaults));
      PrepareAliases(data.aliases);
    }

    /** `onMove`: registers a callback run after every move. */
    method OnMove(action: CallbackId)
      modifies this`onMoveCallbacks
      ensures onMoveCallbacks == old(onMoveCallbacks) + [action]
    {
      onMoveCallbacks := onMoveCallbacks + [action];
    }

    /** `validateDirections`: fails exactly when some room has an exit to a
        room name that is not a key of `rooms`, with a message naming such a
        room and destination. */
    method ValidateDirections() returns (r: Outcome)
      requires Valid()
      ensures r.Pass? <==> ExitsKnown(rooms)
      ensures r.Fail? ==> exists n, j :: (n in rooms && 0 <= j < |rooms[n].exits|
        && rooms[n].exits[j].room !in rooms
        && r.error == BadExitMessage(rooms[n].name, rooms[n].exits[j].room))
      /** The message is that of the first bad exit met. */
      ensures r.Fail? ==> exists m, j :: (FirstBadExit(rooms, roomOrder, m, j)
        && r.error == BadExitMessage(rooms[roomOrder[m]].name, rooms[roomOrder[m]].exits[j].room))
    {
      for k := 0 to |roomOrder|
        invariant forall m, j :: 0 <= m < k && 0 <= j < |rooms[roomOrder[m]].exits| ==>
          rooms[roomOrder[m]].exits[j].room in rooms
      {
        var current := rooms[roomOrder[k]];
        var exits := current.exits;
        for j := 0 to |exits|
          invariant forall i :: 0 <= i < j ==> exits[i].room in rooms
        {
          if exits[j].room !in rooms {
            assert FirstBadExit(rooms, roomOrder, k, j);
            return Fail(BadExitMessage(current.name, exits[j].room));
          }
        }
      }
      forall n, j | n in rooms && 0 <= j < |rooms[n].exits|
        ensures rooms[n].exits[j].room in rooms
      {
        var m :| 0 <= m < |roomOrder| && roomOrder[m] == n;
      }
      return Pass;
    }

    /** `prepareAliases`: no data leaves the table as it was; otherwise every
        entry is written in order, each alias bound to its root. */
    method PrepareAliases(data: Option<AliasData>)
      modifies this`aliases
      ensures aliases == if data.None? then old(aliases) else Prepared(old(aliases), data.value)
    {
      if data.None? {
        return;
      }
      var entries := data.value;
      for i := 0 to |entries|
        invariant aliases == Prepared(old(aliases), entries[..i])
      {
        assert entries[..i + 1][..i] == entries[..i];
        BindAliases(entries[i].0, ToArray(entries[i].1));
      }
      assert entries[..|entries|] == entries;
    }

    /** The inner loop of `prepareAliases`: each alias of the list, in order,
        bound to the root. */
    method BindAliases(root: string, list: seq<string>)
      modifies this`aliases
      ensures aliases == BindAll(old(aliases), root, list)
    {
      for j := 0 to |list|
        invariant aliases == BindAll(old(aliases), root, list[..j])
      {
        assert list[..j + 1][..j] == list[..j];
        aliases := aliases[list[j] := root];
      }
      assert list[..|list|] == list;
    }

    /** `goToRoom`: the current room, of the game and of the character, is
        the room of that name (`None` for an unknown name). */
    method GoToRoom(roomName: string)
      modifies this`room, self`room
      ensures this.room == (if roomName in rooms then Some(rooms[roomName]) else None)
      ensures self.room == this.room
    {
      this.room := if roomName in rooms then Some(rooms[roomName]) else None;
      self.room := this.room;
    }

    /** `parseInput`: resolves one command against `room`, performing what
        `Dispatch` prescribes for the normalised input. */
    method ParseInput(input: string, room: Room)
      requires ExitsResolve(rooms, room)
      modifies this`room, this`trace, self`room
      ensures var reply := Dispatch(old(Snapshot()), Preprocess(input, aliases, junk), room);
        && trace == old(trace) + reply.events
        && (reply.moveTo.Some? ==> this.room == reply.moveTo && self.room == reply.moveTo)
        && (reply.moveTo.None? ==> this.room == old(this.room) && self.room == old(self.room))
    {
      var cmd := Preprocess(input, aliases, junk);
      Resolve(cmd, room);
    }

    /** The body of `parseInput` after normalisation: the resolvers in order,
        each tried only when the ones before it did not match. */
    method Resolve(cmd: string, room: Room)
      requires ExitsResolve(rooms, room)
      modifies this`room, this`trace, self`room
      ensures var reply := Dispatch(old(Snapshot()), cmd, room);
        && trace == old(trace) + reply.events
        && (reply.moveTo.Some? ==> this.room == reply.moveTo && self.room == reply.moveTo)
        && (reply.moveTo.None? ==> this.room == old(this.room) && self.room == old(self.room))
    {
      ghost var s := Snapshot();
      if |room.exits| == 0 {
        DispatchTrapped(s, cmd, room);
        trace := trace + [Said(Trapped)];
        return;
      }
      var moved := TakeExit(cmd, room);
      if moved {
        ghost var k := FirstExit(room.exits, cmd, s.fullname).value;
        DispatchMove(s, cmd, room, k);
        ghost var dest := s.rooms[room.exits[k].room];
        assert this.room == Some(dest) && self.room == Some(dest);
        assert trace == old(trace) + (MoveHooks(s.onMove, dest) + EnterHooks(dest.onEnter, dest));
        return;
      }
      DispatchStays(s, cmd, room);
      StayInRoom(cmd, room, s);
    }

    /** The steps of `parseInput` after the exits: room actions, then the
        actions of held things and the built-ins. */
    method StayInRoom(cmd: string, room: Room, ghost s: Session)
      requires s == Snapshot()
      modifies this`trace
      ensures trace == old(trace) + InPlace(s, cmd, room)
    {
      InPlaceCases(s, cmd, room);
      var matched := RunActions(room.actions, cmd, room, s);
      if !matched {
        HeldOrBuiltinStep(cmd, room, s);
      }
    }

    /** The steps of `parseInput` after the room actions: the actions of held
        things, then the built-ins. */
    method HeldOrBuiltinStep(cmd: string, room: Room, ghost s: Session)
      requires s == Snapshot()
      modifies this`trace
      ensures trace == old(trace) + HeldOrBuiltin(s, cmd, room)
    {
      HeldOrBuiltinCases(s, cmd, room);
      var matched := RunItemActions(cmd, room, s);
      if !matched {
        RunBuiltin(cmd, room, s);
      }
    }

    /** The exit step of `parseInput`: through the first exit the command
        takes, to its room, running the on-move callbacks and then the new
        room's on-enter hooks. */
    method TakeExit(cmd: string, room: Room) returns (moved: bool)
      requires ExitsResolve(rooms, room)
      modifies this`room, this`trace, self`room
      ensures var k := FirstExit(room.exits, cmd, fullname);
        && moved == k.Some?
        && (k.Some? ==>
              var dest := rooms[room.exits[k.value].room];
              && trace == old(trace) + (MoveHooks(onMoveCallbacks, dest) + EnterHooks(dest.onEnter, dest))
              && this.room == Some(dest) && self.room == Some(dest))
        && (k.None? ==> trace == old(trace) && this.room == old(this.room) && self.room == old(self.room))
    {
      var exits := room.exits;
      for i := 0 to |exits|
        invariant forall j :: 0 <= j < i ==> !ExitMatches(exits[j], cmd, fullname)
      {
        var exit := exits[i];
        if !exit.blocked && (cmd == exit.dir || fullname(exit.dir) == Some(cmd)) {
          assert FirstExit(exits, cmd, fullname) == Some(i);
          assert exit in room.exits;
          var dest := rooms[exit.room];
          this.room := Some(dest);
          self.room := this.room;
          var hooks := onMoveCallbacks;
          for h := 0 to |hooks|
            invariant trace == old(trace) + MoveHooks(hooks[..h], dest)
            invariant this.room == Some(dest) && self.room == Some(dest)
          {
            assert hooks[..h + 1] == hooks[..h] + [hooks[h]];
            trace := trace + [MoveHook(hooks[h], dest)];
          }
          assert hooks[..|hooks|] == hooks;
          ghost var moved := trace;
          var enter := dest.onEnter;
          for h := 0 to |enter|
            invariant trace == moved + EnterHooks(enter[..h], dest)
            invariant this.room == Some(dest) && self.room == Some(dest)
          {
            assert enter[..h + 1] == enter[..h] + [enter[h]];
            trace := trace + [EnterHook(enter[h], dest)];
          }
          assert enter[..|enter|] == enter;
          assert trace == old(trace) + (MoveHooks(hooks, dest) + EnterHooks(enter, dest));
          assert this.room == Some(dest) && self.room == Some(dest);
          return true;
        }
      }
      return false;
    }

    /** The action loop of `parseInput`: tries the actions in order and stops
        at the first whose phrase matches. */
    method RunActions(actions: seq<Action>, cmd: string, room: Room, ghost s: Session) returns (matched: bool)
      requires s == Snapshot()
      modifies this`trace
      ensures var reply := FirstActionReply(actions, cmd, s.norm, s.owned, room);
        && matched == reply.Some?
        && (reply.Some? ==> trace == old(trace) + reply.value)
        && (reply.None? ==> trace == old(trace))
    {
      for a := 0 to |actions|
        invariant trace == old(trace)
        invariant forall j :: 0 <= j < a ==> !PhraseMatches(actions[j], cmd, s.norm)
      {
        matched := TryAction(actions[a], cmd, this, room);
        if matched {
          FirstActionReplyAt(actions, cmd, s.norm, s.owned, room, a);
          return;
        }
      }
      FirstActionReplyNone(actions, cmd, s.norm, s.owned, room);
      return false;
    }

    /** The held-item step of `parseInput`: the things in inventory order,
        each trying its own actions, until one matches. */
    method RunItemActions(cmd: string, room: Room, ghost s: Session) returns (matched: bool)
      requires s == Snapshot()
      modifies this`trace
      ensures var reply := FirstItemReply(s.inventory, cmd, s.norm, s.owned, room);
        && matched == reply.Some?
        && (reply.Some? ==> trace == old(trace) + reply.value)
        && (reply.None? ==> trace == old(trace))
    {
      var items := self.inventory;
      for t := 0 to |items|
        invariant trace == old(trace)
        invariant forall j :: 0 <= j < t ==> !HasMatch(items[j], cmd, s.norm)
      {
        matched := RunActions(items[t].actions, cmd, room, s);
        FirstActionReplySome(items[t].actions, cmd, s.norm, s.owned, room);
        if matched {
          FirstItemReplyAt(items, cmd, s.norm, s.owned, room, t);
          return;
        }
      }
      FirstItemReplyNone(items, cmd, s.norm, s.owned, room);
      return false;
    }

    /** The built-in commands of `parseInput` and its fallback. */
    method RunBuiltin(cmd: string, room: Room, ghost s: Session)
      requires s == Snapshot()
      modifies this`trace
      ensures trace == old(trace) + Builtin(s, cmd, room)
    {
      if cmd == "i" || cmd == "inventory" {
        trace := trace + [ReportInventory];
        return;
      }
      var words := Split(cmd);
      var want := WordAfter(words);
      if words[0] == "take" {
        var things := room.things;
        for k := 0 to |things|
          invariant forall j :: 0 <= j < k ==> want != Some(things[j].name)
        {
          var thing := things[k];
          if want == Some(thing.name) {
            assert FirstNamed(things, want) == Some(k);
            if !thing.gettable {
              trace := trace + [Said("You can't take the " + thing.name + ".")];
              return;
            }
            trace := trace + [Take(thing)];
            return;
          }
        }
        trace := trace + [Said(CannotTakeThat)];
        return;
      }
      if words[0] == "drop" {
        var items := self.inventory;
        for k := 0 to |items|
          invariant forall j :: 0 <= j < k ==> want != Some(items[j].name)
        {
          var thing := items[k];
          if want == Some(thing.name) {
            assert FirstNamed(items, want) == Some(k);
            trace := trace + [Drop(thing)];
            return;
          }
        }
        trace := trace + [Said("You have no " + Shown(want) + ".")];
        return;
      }
      trace := trace + [Said(CannotDo)];
    }
  }

  /** The room loop of the `Game` constructor: each room stored under its
      name, with the keys in first-insertion order. */
  method IndexRooms(rooms: seq<Room>) returns (rs: map<string, Room>, order: seq<string>)
    ensures rs == RoomsByName(rooms) && order == NameOrder(rooms)
  {
    rs := map[];
    order := [];
    for i := 0 to |rooms|
      invariant rs == RoomsByName(rooms[..i]) && order == NameOrder(rooms[..i])
    {
      var r := rooms[i];
      assert rooms[..i + 1][..i] == rooms[..i];
      assert r.name in rs <==> r.name in order;
      if r.name !in rs {
        order := order + [r.name];
      }
      rs := rs[r.name := r];
    }
    assert rooms[..|rooms|] == rooms;
  }

  /** `tryAction`: reports whether some phrase of the action matches the
      normalised input and appends the matched action's events — the
      refusal when a prerequisite is missing, otherwise one invocation of the
      effect with `room`. Without a match nothing is appended. */
  method TryAction(action: Action, input: string, game: Game, room: Room) returns (matched: bool)
    modifies game`trace
    ensures var reply := ActionReply(action, input, game.Norm(), game.self.owned, room);
      && matched == reply.Some?
      && (reply.Some? ==> game.trace == old(game.trace) + reply.value)
      && (reply.None? ==> game.trace == old(game.trace))
  {
    var norm := game.Norm();
    matched := FindPhrase(ToArray(action.phrase), input, norm);
    PhraseMatchesIff(action, input, norm);
    if matched {
      Perform(action, game, room);
    }
  }

  /** The phrase loop of `tryAction`: whether some phrase normalises to the
      input. */
  method FindPhrase(phrases: seq<string>, input: string, norm: string -> string) returns (found: bool)
    ensures found <==> exists q :: 0 <= q < |phrases| && norm(phrases[q]) == input
  {
    for p := 0 to |phrases|
      invariant forall q :: 0 <= q < p ==> norm(phrases[q]) != input
    {
      if input == norm(phrases[p]) {
        return true;
      }
    }
    return false;
  }

  /** The matched branch of `tryAction`: the refusal when the character
      lacks a listed prerequisite, otherwise one invocation of the effect. */
  method Perform(action: Action, game: Game, room: Room)
    modifies game`trace
    ensures game.trace == old(game.trace)
      + (if LacksThing(action, game.self.owned) then [Said(NoThing)] else [Effect(action.effect, room)])
  {
    if action.requiresThing.Some? {
      var things := ToArray(action.requiresThing.value);
      for t := 0 to |things|
        invariant forall q :: 0 <= q < t ==> things[q] in game.self.owned
      {
        if !game.self.Has(things[t]) {
          game.trace := game.trace + [Said(NoThing)];
          return;
        }
      }
    }
    game.trace := game.trace + [Effect(action.effect, room)];
  }

  /** `new Game(data)`: builds the game, then fails, before any command can
      be processed, exactly when some exit leads to an unknown room. */
  method NewGame(data: GameData, defaults: AliasData, junk: set<string>, fullname: string -> Option<string>)
    returns (r: Result<Game>)
    ensures r.Success? <==> ExitsKnown(RoomsByName(data.rooms))
    ensures r.Success? ==> var g := r.value;
      && fresh(g) && fresh(g.self) && g.Valid() && g.trace == []
      && g.rooms == RoomsByName(data.rooms) && g.roomOrder == NameOrder(data.rooms)
      && g.startingRoom == data.startingRoom && g.prologue == data.prologue && g.name == data.name
      && g.room == (if data.startingRoom in g.rooms then Some(g.rooms[data.startingRoom]) else None)
      && g.self.room == g.room && g.self.inventory == [] && g.self.owned == {}
      && g.onMoveCallbacks == [] && g.junk == junk && g.fullname == fullname
      && g.aliases == (var base := Prepared(map[], defaults);
                       if data.aliases.Some? then Prepared(base, data.aliases.value) else base)
    /** The built game's current room can be handed to `ParseInput`. */
    ensures r.Success? && r.value.room.Some? ==> ExitsResolve(r.value.rooms, r.value.room.value)
    ensures r.Failure? ==> exists n, j :: var rooms := RoomsByName(data.rooms);
      n in rooms && 0 <= j < |rooms[n].exits| && rooms[n].exits[j].room !in rooms
      && r.error == BadExitMessage(rooms[n].name, rooms[n].exits[j].room)
    /** The message is that of the first bad exit `validateDirections` meets. */
    ensures r.Failure? ==> exists m, j :: var rooms := RoomsByName(data.rooms); var order := NameOrder(data.rooms);
      FirstBadExit(rooms, order, m, j)
      && r.error == BadExitMessage(rooms[order[m]].name, rooms[order[m]].exits[j].room)
  {
    var game := new Game(data, defaults, junk, fullname);
    var outcome := game.ValidateDirections();
    if outcome.Fail? {
      return Failure(outcome.error);
    }
    if game.room.Some? {
      var start := game.rooms[data.startingRoom];
      assert forall j :: 0 <= j < |start.exits| ==> start.exits[j].room in game.rooms;
    }
    return Success(game);
  }
}
