/** The resolution rules of `tryAction` and `Game.parseInput` as functions of
    the engine state: which resolver a normalised command reaches, and the
    events and room change it produces. The methods of class `Game` are
    proved to follow these rules. */
module Engine {
  import opened Wrappers
  import opened Text
  import opened Normalizer
  import opened World

  const NoThing := "You don't have that."
  const Trapped := "You are trapped!"
  const CannotTakeThat := "You can't take that."
  const CannotDo := "You can't do that."

  /** What `parseInput` reads: the room map, the normalisation it applies to
      trigger phrases (`preprocessString` with the game's alias table and
      junk words), the direction-naming function, the on-move
      callbacks, the held things in `Object.values` order, and the item
      identifiers the character's `has` answers true for. */
  datatype Session = Session(
    rooms: map<string, Room>,
    norm: string -> string,
    fullname: string -> Option<string>,
    onMove: seq<CallbackId>,
    inventory: seq<Thing>,
    owned: set<string>)

  /** The events a command produces and the room it moves to, if any. */
  datatype Reply = Reply(events: seq<Event>, moveTo: Option<Room>)

  /** Some trigger phrase of `action`, normalised like the input, equals the
      command exactly. */
  predicate PhraseMatches(action: Action, cmd: string, norm: string -> string)
  {
    cmd in NormalizedPhrases(action, norm)
  }

  /** The action's trigger phrases, each normalised with the game's tables. */
  function NormalizedPhrases(action: Action, norm: string -> string): seq<string>
  {
    var ps := ToArray(action.phrase);
    seq(|ps|, k requires 0 <= k < |ps| => norm(ps[k]))
  }

  /** The action declares prerequisites and the character lacks one of them. */
  predicate LacksThing(action: Action, owned: set<string>)
  {
    action.requiresThing.Some?
    && exists k :: 0 <= k < |ToArray(action.requiresThing.value)| && ToArray(action.requiresThing.value)[k] !in owned
  }

  /** `tryAction`: `None` when no phrase matches; otherwise the events of the
      matched action, which are the refusal when a prerequisite is missing
      and the one invocation of the effect with the room otherwise. */
  function ActionReply(action: Action, cmd: string, norm: string -> string,
                       owned: set<string>, room: Room): Option<seq<Event>>
  {
    if !PhraseMatches(action, cmd, norm) then None
    else if LacksThing(action, owned) then Some([Said(NoThing)])
    else Some([Effect(action.effect, room)])
  }

  /** The index of the first action, in declaration order, whose phrase
      matches the command. */
  function FirstMatching(actions: seq<Action>, cmd: string, norm: string -> string): (r: Option<nat>)
    ensures r.Some? ==> (r.value < |actions| && PhraseMatches(actions[r.value], cmd, norm)
      && forall j :: 0 <= j < r.value ==> !(PhraseMatches(actions[j], cmd, norm)))
    ensures r.None? ==> forall j :: 0 <= j < |actions| ==> !(PhraseMatches(actions[j], cmd, norm))
    decreases |actions|
  {
    if actions == [] then None
    else if PhraseMatches(actions[0], cmd, norm) then Some(0)
    else
      match FirstMatching(actions[1..], cmd, norm)
      case None =>
        assert forall j :: 1 <= j < |actions| ==> actions[j] == actions[1..][j - 1];
        None
      case Some(k) =>
        assert forall j :: 1 <= j < k + 1 ==> actions[j] == actions[1..][j - 1];
        Some(k + 1)
  }

  /** The reply of the first matching action, or `None` when none matches. */
  function FirstActionReply(actions: seq<Action>, cmd: string, norm: string -> string,
                            owned: set<string>, room: Room): Option<seq<Event>>
  {
    match FirstMatching(actions, cmd, norm)
    case Some(k) => ActionReply(actions[k], cmd, norm, owned, room)
    case None => None
  }

  /** The first action reply is that of the first matching action. */
  lemma FirstActionReplyAt(actions: seq<Action>, cmd: string, norm: string -> string,
                           owned: set<string>, room: Room, a: nat)
    requires a < |actions| && PhraseMatches(actions[a], cmd, norm)
    requires forall j :: 0 <= j < a ==> !PhraseMatches(actions[j], cmd, norm)
    ensures FirstActionReply(actions, cmd, norm, owned, room)
         == ActionReply(actions[a], cmd, norm, owned, room)
  {
    var r := FirstMatching(actions, cmd, norm);
    assert r == Some(a);
  }

  /** No action matching means no reply. */
  lemma FirstActionReplyNone(actions: seq<Action>, cmd: string, norm: string -> string,
                             owned: set<string>, room: Room)
    requires forall j :: 0 <= j < |actions| ==> !PhraseMatches(actions[j], cmd, norm)
    ensures FirstActionReply(actions, cmd, norm, owned, room) == None
  {
    var r := FirstMatching(actions, cmd, norm);
    assert r == None;
  }

  /** Some action of the thing matches the command. */
  predicate HasMatch(thing: Thing, cmd: string, norm: string -> string)
  {
    exists k :: 0 <= k < |thing.actions| && PhraseMatches(thing.actions[k], cmd, norm)
  }

  /** The index of the first held thing, in inventory order, that has an
      action matching the command. */
  function FirstItemWithMatch(items: seq<Thing>, cmd: string, norm: string -> string): (r: Option<nat>)
    ensures r.Some? ==> (r.value < |items| && HasMatch(items[r.value], cmd, norm)
      && forall j :: 0 <= j < r.value ==> !(HasMatch(items[j], cmd, norm)))
    ensures r.None? ==> forall j :: 0 <= j < |items| ==> !(HasMatch(items[j], cmd, norm))
    decreases |items|
  {
    if items == [] then None
    else if HasMatch(items[0], cmd, norm) then Some(0)
    else
      match FirstItemWithMatch(items[1..], cmd, norm)
      case None =>
        assert forall j :: 1 <= j < |items| ==> items[j] == items[1..][j - 1];
        None
      case Some(k) =>
        assert forall j :: 1 <= j < k + 1 ==> items[j] == items[1..][j - 1];
        Some(k + 1)
  }

  /** The reply of the first matching action of the first held thing that
      has one, or `None`. */
  function FirstItemReply(items: seq<Thing>, cmd: string, norm: string -> string,
                          owned: set<string>, room: Room): Option<seq<Event>>
  {
    match FirstItemWithMatch(items, cmd, norm)
    case Some(t) => FirstActionReply(items[t].actions, cmd, norm, owned, room)
    case None => None
  }

  /** Some action replies exactly when some action matches. */
  lemma FirstActionReplySome(actions: seq<Action>, cmd: string, norm: string -> string,
                             owned: set<string>, room: Room)
    ensures FirstActionReply(actions, cmd, norm, owned, room).Some?
        <==> exists k :: 0 <= k < |actions| && PhraseMatches(actions[k], cmd, norm)
  {
    var r := FirstMatching(actions, cmd, norm);
    if r.Some? {
      assert PhraseMatches(actions[r.value], cmd, norm);
    }
  }

  /** The first item reply is that of the first held thing with a match. */
  lemma FirstItemReplyAt(items: seq<Thing>, cmd: string, norm: string -> string,
                         owned: set<string>, room: Room, t: nat)
    requires t < |items| && HasMatch(items[t], cmd, norm)
    requires forall j :: 0 <= j < t ==> !HasMatch(items[j], cmd, norm)
    ensures FirstItemReply(items, cmd, norm, owned, room)
         == FirstActionReply(items[t].actions, cmd, norm, owned, room)
  {
    var r := FirstItemWithMatch(items, cmd, norm);
    assert r == Some(t);
  }

  /** No held thing with a match means no reply. */
  lemma FirstItemReplyNone(items: seq<Thing>, cmd: string, norm: string -> string,
                           owned: set<string>, room: Room)
    requires forall j :: 0 <= j < |items| ==> !HasMatch(items[j], cmd, norm)
    ensures FirstItemReply(items, cmd, norm, owned, room) == None
  {
    var r := FirstItemWithMatch(items, cmd, norm);
    assert r == None;
  }

  /** An exit the command takes: not blocked, and the command is its short
      direction or the direction's full name. */
  predicate ExitMatches(e: Exit, cmd: string, fullname: string -> Option<string>)
  {
    !e.blocked && (cmd == e.dir || fullname(e.dir) == Some(cmd))
  }

  /** The index of the first exit the command takes. */
  function FirstExit(exits: seq<Exit>, cmd: string, fullname: string -> Option<string>): (r: Option<nat>)
    ensures r.Some? ==> (r.value < |exits| && ExitMatches(exits[r.value], cmd, fullname)
      && forall j :: 0 <= j < r.value ==> !(ExitMatches(exits[j], cmd, fullname)))
    ensures r.None? ==> forall j :: 0 <= j < |exits| ==> !(ExitMatches(exits[j], cmd, fullname))
    decreases |exits|
  {
    if exits == [] then None
    else if ExitMatches(exits[0], cmd, fullname) then Some(0)
    else
      match FirstExit(exits[1..], cmd, fullname)
      case None =>
        assert forall j :: 1 <= j < |exits| ==> exits[j] == exits[1..][j - 1];
        None
      case Some(k) =>
        assert forall j :: 1 <= j < k + 1 ==> exits[j] == exits[1..][j - 1];
        Some(k + 1)
  }

  /** The index of the first thing whose name is `want` (never, when `want`
      is `undefined`). */
  function FirstNamed(things: seq<Thing>, want: Option<string>): (r: Option<nat>)
    ensures r.Some? ==> (r.value < |things| && want == Some(things[r.value].name)
      && forall j :: 0 <= j < r.value ==> !(want == Some(things[j].name)))
    ensures r.None? ==> forall j :: 0 <= j < |things| ==> !(want == Some(things[j].name))
    decreases |things|
  {
    if things == [] then None
    else if want == Some(things[0].name) then Some(0)
    else
      match FirstNamed(things[1..], want)
      case None =>
        assert forall j :: 1 <= j < |things| ==> things[j] == things[1..][j - 1];
        None
      case Some(k) =>
        assert forall j :: 1 <= j < k + 1 ==> things[j] == things[1..][j - 1];
        Some(k + 1)
  }

  /** The on-move callbacks, each invoked with the new room, in order. */
  function MoveHooks(hooks: seq<CallbackId>, room: Room): seq<Event>
  {
    seq(|hooks|, k requires 0 <= k < |hooks| => MoveHook(hooks[k], room))
  }

  /** The on-enter hooks, each invoked with the new room, in order. */
  function EnterHooks(hooks: seq<CallbackId>, room: Room): seq<Event>
  {
    seq(|hooks|, k requires 0 <= k < |hooks| => EnterHook(hooks[k], room))
  }

  /** `words[1]`, which is `undefined` for a one-word command. */
  function WordAfter(words: seq<string>): Option<string>
  {
    if |words| > 1 then Some(words[1]) else None
  }

  /** A value interpolated into a template string. */
  function Shown(w: Option<string>): string
  {
    if w.Some? then w.value else "undefined"
  }

  function TakeReply(things: seq<Thing>, want: Option<string>): seq<Event>
  {
    match FirstNamed(things, want)
    case Some(k) =>
      if !things[k].gettable then [Said("You can't take the " + things[k].name + ".")]
      else [Take(things[k])]
    case None => [Said(CannotTakeThat)]
  }

  function DropReply(items: seq<Thing>, want: Option<string>): seq<Event>
  {
    match FirstNamed(items, want)
    case Some(k) => [Drop(items[k])]
    case None => [Said("You have no " + Shown(want) + ".")]
  }

  /** The built-in commands and the fallback. */
  function Builtin(s: Session, cmd: string, room: Room): seq<Event>
  {
    if cmd == "i" || cmd == "inventory" then [ReportInventory]
    else
      var words := Split(cmd);
      if words[0] == "take" then TakeReply(room.things, WordAfter(words))
      else if words[0] == "drop" then DropReply(s.inventory, WordAfter(words))
      else [Said(CannotDo)]
  }

  /** Every exit of the room leads to a room of the map. */
  predicate ExitsResolve(rooms: map<string, Room>, room: Room)
  {
    forall e :: e in room.exits ==> e.room in rooms
  }

  /** `parseInput` after normalisation: the first resolver that matches, in
      the order trapped check, exits, room actions, held-item actions,
      built-ins, fallback. */
  function Dispatch(s: Session, cmd: string, room: Room): Reply
    requires ExitsResolve(s.rooms, room)
  {
    if |room.exits| == 0 then Reply([Said(Trapped)], None)
    else match FirstExit(room.exits, cmd, s.fullname)
      case Some(k) =>
        var dest := s.rooms[room.exits[k].room];
        Reply(MoveHooks(s.onMove, dest) + EnterHooks(dest.onEnter, dest), Some(dest))
      case None => Reply(InPlace(s, cmd, room), None)
  }

  /** The events of a command that takes no exit: the first matching room
      action, else the first matching action of a held thing, else the
      built-ins and the fallback. */
  function InPlace(s: Session, cmd: string, room: Room): seq<Event>
  {
    match FirstActionReply(room.actions, cmd, s.norm, s.owned, room)
    case Some(events) => events
    case None => HeldOrBuiltin(s, cmd, room)
  }

  /** The events of a command that no exit and no room action matched. */
  function HeldOrBuiltin(s: Session, cmd: string, room: Room): seq<Event>
  {
    match FirstItemReply(s.inventory, cmd, s.norm, s.owned, room)
    case Some(events) => events
    case None => Builtin(s, cmd, room)
  }

  /** A room without exits traps the player, whatever the command. */
  lemma DispatchTrapped(s: Session, cmd: string, room: Room)
    requires ExitsResolve(s.rooms, room) && |room.exits| == 0
    ensures Dispatch(s, cmd, room) == Reply([Said(Trapped)], None)
  {
  }

  /** The first exit the command takes moves the player to its room. */
  lemma DispatchMove(s: Session, cmd: string, room: Room, k: nat)
    requires ExitsResolve(s.rooms, room) && |room.exits| > 0
    requires FirstExit(room.exits, cmd, s.fullname) == Some(k)
    ensures room.exits[k] in room.exits
    ensures var dest := s.rooms[room.exits[k].room];
      Dispatch(s, cmd, room) == Reply(MoveHooks(s.onMove, dest) + EnterHooks(dest.onEnter, dest), Some(dest))
  {
  }

  /** A command that takes no exit stays in the room. */
  lemma DispatchStays(s: Session, cmd: string, room: Room)
    requires ExitsResolve(s.rooms, room) && |room.exits| > 0
    requires FirstExit(room.exits, cmd, s.fullname).None?
    ensures Dispatch(s, cmd, room) == Reply(InPlace(s, cmd, room), None)
  {
  }

  /** The first matching room action decides before any held thing. */
  lemma InPlaceCases(s: Session, cmd: string, room: Room)
    ensures var reply := FirstActionReply(room.actions, cmd, s.norm, s.owned, room);
      InPlace(s, cmd, room) == if reply.Some? then reply.value else HeldOrBuiltin(s, cmd, room)
  {
  }

  /** Without a matching room action, the first held thing with a match
      decides, and without one the built-ins do. */
  lemma HeldOrBuiltinCases(s: Session, cmd: string, room: Room)
    ensures var reply := FirstItemReply(s.inventory, cmd, s.norm, s.owned, room);
      HeldOrBuiltin(s, cmd, room) == if reply.Some? then reply.value else Builtin(s, cmd, room)
  {
  }

  /** A phrase matches exactly when one of the action's trigger phrases
      normalises to the command. */
  lemma PhraseMatchesIff(action: Action, cmd: string, norm: string -> string)
    ensures var ps := ToArray(action.phrase);
      PhraseMatches(action, cmd, norm)
      <==> exists k :: 0 <= k < |ps| && norm(ps[k]) == cmd
  {
    var ps := ToArray(action.phrase);
    var normalized := NormalizedPhrases(action, norm);
    if PhraseMatches(action, cmd, norm) {
      var k :| 0 <= k < |normalized| && normalized[k] == cmd;
      assert norm(ps[k]) == cmd;
    }
    if exists k :: 0 <= k < |ps| && norm(ps[k]) == cmd {
      var k :| 0 <= k < |ps| && norm(ps[k]) == cmd;
      assert normalized[k] == cmd;
    }
  }

  /** `tryAction`'s three outcomes: no reply exactly when no trigger phrase
      normalises to the command; on a match, the refusal exactly when a
      declared prerequisite is not held, and otherwise a single invocation
      of the action's effect with the room. */
  lemma ActionReplyCases(action: Action, cmd: string, norm: string -> string,
                         owned: set<string>, room: Room)
    ensures var ps := ToArray(action.phrase);
      var reply := ActionReply(action, cmd, norm, owned, room);
      && (reply.None? <==> forall k :: 0 <= k < |ps| ==> norm(ps[k]) != cmd)
      && (reply.Some? ==>
            && (reply.value == [Said(NoThing)] <==>
                  (action.requiresThing.Some? && exists t :: t in ToArray(action.requiresThing.value) && t !in owned))
            && (reply.value != [Said(NoThing)] ==> reply.value == [Effect(action.effect, room)]))
  {
    PhraseMatchesIff(action, cmd, norm);
    if action.requiresThing.Some? {
      var things := ToArray(action.requiresThing.value);
      assert (exists t :: t in things && t !in owned) <==> (exists k :: 0 <= k < |things| && things[k] !in owned);
    }
  }

  /** A command takes an exit exactly when the room has an exit that is not
      blocked and whose direction, or its full name, is the command. */
  lemma MovesIff(s: Session, cmd: string, room: Room)
    requires ExitsResolve(s.rooms, room)
    ensures Dispatch(s, cmd, room).moveTo.Some?
        <==> exists k :: 0 <= k < |room.exits| && ExitMatches(room.exits[k], cmd, s.fullname)
  {
    if |room.exits| > 0 && FirstExit(room.exits, cmd, s.fullname).None? {
      DispatchStays(s, cmd, room);
    }
  }

  /** Taking an exit preempts every action and built-in: the command only
      runs the on-move callbacks and the new room's on-enter hooks, all with
      the new room, in that order. The new room is that of the first
      matching exit. */
  lemma MovePreemptsActions(s: Session, cmd: string, room: Room, k: nat)
    requires ExitsResolve(s.rooms, room)
    requires k < |room.exits| && ExitMatches(room.exits[k], cmd, s.fullname)
    ensures var reply := Dispatch(s, cmd, room);
      && reply.moveTo.Some?
      && |reply.events| == |s.onMove| + |reply.moveTo.value.onEnter|
      && (forall i :: 0 <= i < |s.onMove| ==> reply.events[i] == MoveHook(s.onMove[i], reply.moveTo.value))
      && (forall i :: |s.onMove| <= i < |reply.events| ==>
            reply.events[i] == EnterHook(reply.moveTo.value.onEnter[i - |s.onMove|], reply.moveTo.value))
      && ((forall j :: 0 <= j < k ==> !ExitMatches(room.exits[j], cmd, s.fullname)) ==>
            reply.moveTo == Some(s.rooms[room.exits[k].room]))
  {
    var first := FirstExit(room.exits, cmd, s.fullname);
    assert first.Some?;
    DispatchMove(s, cmd, room, first.value);
  }

  /** Without a matching exit, the first room action whose phrase matches
      decides the reply, whatever the held things or built-ins would do. */
  lemma RoomActionFirst(s: Session, cmd: string, room: Room, a: nat)
    requires ExitsResolve(s.rooms, room) && |room.exits| > 0
    requires forall k :: 0 <= k < |room.exits| ==> !ExitMatches(room.exits[k], cmd, s.fullname)
    requires a < |room.actions| && PhraseMatches(room.actions[a], cmd, s.norm)
    requires forall j :: 0 <= j < a ==> !PhraseMatches(room.actions[j], cmd, s.norm)
    ensures Dispatch(s, cmd, room)
         == Reply(ActionReply(room.actions[a], cmd, s.norm, s.owned, room).value, None)
  {
    FirstActionReplyAt(room.actions, cmd, s.norm, s.owned, room, a);
    DispatchStays(s, cmd, room);
  }

  /** Without a matching exit or room action, the first held thing with a
      matching action decides, through its first matching action. */
  lemma HeldThingFirst(s: Session, cmd: string, room: Room, t: nat, a: nat)
    requires ExitsResolve(s.rooms, room) && |room.exits| > 0
    requires forall k :: 0 <= k < |room.exits| ==> !ExitMatches(room.exits[k], cmd, s.fullname)
    requires forall j :: 0 <= j < |room.actions| ==> !PhraseMatches(room.actions[j], cmd, s.norm)
    requires t < |s.inventory| && forall j :: 0 <= j < t ==> !HasMatch(s.inventory[j], cmd, s.norm)
    requires var acts := s.inventory[t].actions;
      a < |acts| && PhraseMatches(acts[a], cmd, s.norm)
      && forall j :: 0 <= j < a ==> !PhraseMatches(acts[j], cmd, s.norm)
    ensures Dispatch(s, cmd, room)
         == Reply(ActionReply(s.inventory[t].actions[a], cmd, s.norm, s.owned, room).value, None)
  {
    var acts := s.inventory[t].actions;
    FirstActionReplyNone(room.actions, cmd, s.norm, s.owned, room);
    FirstActionReplyAt(acts, cmd, s.norm, s.owned, room, a);
    assert HasMatch(s.inventory[t], cmd, s.norm);
    FirstItemReplyAt(s.inventory, cmd, s.norm, s.owned, room, t);
    DispatchStays(s, cmd, room);
  }

  /** Only a command that no exit and no action matched reaches the
      built-ins. */
  lemma BuiltinOnlyUnmatched(s: Session, cmd: string, room: Room)
    requires ExitsResolve(s.rooms, room) && |room.exits| > 0
    requires forall k :: 0 <= k < |room.exits| ==> !ExitMatches(room.exits[k], cmd, s.fullname)
    requires forall j :: 0 <= j < |room.actions| ==> !PhraseMatches(room.actions[j], cmd, s.norm)
    requires forall t :: 0 <= t < |s.inventory| ==> !HasMatch(s.inventory[t], cmd, s.norm)
    ensures Dispatch(s, cmd, room) == Reply(Builtin(s, cmd, room), None)
  {
    FirstActionReplyNone(room.actions, cmd, s.norm, s.owned, room);
    FirstItemReplyNone(s.inventory, cmd, s.norm, s.owned, room);
    DispatchStays(s, cmd, room);
    InPlaceCases(s, cmd, room);
  }

  /** `take <w>`: a room thing named `w` is taken, or refused by name when
      it is not gettable, the first such thing deciding; with no thing of
      that name (or no second word) the command is refused. */
  lemma TakeCases(things: seq<Thing>, want: Option<string>)
    ensures (forall j :: 0 <= j < |things| ==> want != Some(things[j].name))
        ==> TakeReply(things, want) == [Said(CannotTakeThat)]
    ensures forall k :: (0 <= k < |things| && want == Some(things[k].name)
        && (forall j :: 0 <= j < k ==> want != Some(things[j].name))) ==>
        TakeReply(things, want)
          == (if things[k].gettable then [Take(things[k])]
              else [Said("You can't take the " + want.value + ".")])
  {
    var first := FirstNamed(things, want);
    if first.Some? {
      forall k | 0 <= k < |things| && want == Some(things[k].name)
          && (forall j :: 0 <= j < k ==> want != Some(things[j].name))
        ensures k == first.value
      {
      }
    }
  }

  /** `drop <w>`: the first held thing named `w` is dropped; otherwise the
      reply names the missing word, `undefined` when there is none. */
  lemma DropCases(items: seq<Thing>, want: Option<string>)
    ensures (forall j :: 0 <= j < |items| ==> want != Some(items[j].name))
        ==> DropReply(items, want) == [Said("You have no " + (if want.Some? then want.value else "undefined") + ".")]
    ensures forall k :: (0 <= k < |items| && want == Some(items[k].name)
        && (forall j :: 0 <= j < k ==> want != Some(items[j].name))) ==>
        DropReply(items, want) == [Drop(items[k])]
  {
    var first := FirstNamed(items, want);
    if first.Some? {
      forall k | 0 <= k < |items| && want == Some(items[k].name)
          && (forall j :: 0 <= j < k ==> want != Some(items[j].name))
        ensures k == first.value
      {
      }
    }
  }

  /** A junk word in front of a direction is dropped, so the command takes
      the exit for that direction: from a room whose only exit leads to `b`,
      with no on-move callbacks, the player moves to `b` and its on-enter
      hook runs exactly once. */
  lemma JunkPrefixedMove(s: Session, aliases: map<string, string>, junk: set<string>,
                          room: Room, u: string, d: string, b: string, h: CallbackId)
    requires u != [] && WordOnly(u) && u in junk
    requires d != [] && WordOnly(d) && d !in junk && ResolveWord(d, aliases) == d
    requires room.exits == [Exit(d, b, false)] && b in s.rooms
    requires s.onMove == [] && s.rooms[b].onEnter == [h]
    ensures Dispatch(s, Preprocess(u + " " + d, aliases, junk), room)
         == Reply([EnterHook(h, s.rooms[b])], Some(s.rooms[b]))
  {
    JunkWordDropped(u, d, aliases, junk);
    assert ExitMatches(room.exits[0], d, s.fullname);
    DispatchMove(s, d, room, 0);
    assert EnterHooks([h], s.rooms[b]) == [EnterHook(h, s.rooms[b])];
  }

  /** An alias bound to the empty root is not removed: unless it is junk,
      the leading word stays and the two-word command takes no exit for the
      direction; with no actions and no held things it falls through to
      "You can't do that.". */
  lemma EmptyRootPrefixStays(s: Session, aliases: map<string, string>, junk: set<string>,
                              room: Room, u: string, d: string, b: string)
    requires u != [] && WordOnly(u) && u !in junk && u in aliases && aliases[u] == ""
    requires u != "take" && u != "drop"
    requires d != [] && WordOnly(d) && d !in junk && ResolveWord(d, aliases) == d
    requires room.exits == [Exit(d, b, false)] && b in s.rooms
    requires s.fullname(d) != Some(u + " " + d)
    requires room.actions == [] && s.inventory == []
    ensures Dispatch(s, Preprocess(u + " " + d, aliases, junk), room) == Reply([Said(CannotDo)], None)
  {
    UnboundWordKept(u, d, aliases, junk);
    TwoWordShape(u, d);
    TwoWordFallsThrough(s, room, u, d, b);
  }

  lemma TwoWordFallsThrough(s: Session, room: Room, u: string, d: string, b: string)
    requires u != [] && u != "take" && u != "drop" && d != []
    requires Split(u + " " + d) == [u, d]
    requires room.exits == [Exit(d, b, false)] && b in s.rooms
    requires s.fullname(d) != Some(u + " " + d)
    requires room.actions == [] && s.inventory == []
    ensures Dispatch(s, u + " " + d, room) == Reply([Said(CannotDo)], None)
  {
    var cmd := u + " " + d;
    assert !ExitMatches(room.exits[0], cmd, s.fullname) by {
      assert |cmd| > |d|;
    }
    assert cmd != "i" && cmd != "inventory" by {
      assert cmd[|u|] == ' ';
      assert |cmd| >= 3;
      assert forall i :: 0 <= i < |"inventory"| ==> "inventory"[i] != ' ';
    }
    BuiltinOnlyUnmatched(s, cmd, room);
  }

  /** "go north" from a room whose only exit is north to `b`: with "go" a
      junk word the player moves to `b` and its one on-enter hook runs once;
      with "go" only bound to the empty root and not junk, the command is
      "go north", which takes no exit and is answered "You can't do that.". */
  lemma GoNorth(s: Session, aliases: map<string, string>, junk: set<string>,
                room: Room, b: string, h: CallbackId)
    requires "north" !in junk && ResolveWord("north", aliases) == "north"
    requires room.exits == [Exit("north", b, false)] && b in s.rooms
    requires s.onMove == [] && s.rooms[b].onEnter == [h]
    requires room.actions == [] && s.inventory == []
    requires s.fullname("north") != Some("go north")
    ensures "go" in junk ==>
      Dispatch(s, Preprocess("go north", aliases, junk), room)
        == Reply([EnterHook(h, s.rooms[b])], Some(s.rooms[b]))
    ensures "go" !in junk && "go" in aliases && aliases["go"] == "" ==>
      Dispatch(s, Preprocess("go north", aliases, junk), room) == Reply([Said(CannotDo)], None)
  {
    assert "go" + " " + "north" == "go north";
    assert WordOnly("go") && WordOnly("north");
    if "go" in junk {
      JunkPrefixedMove(s, aliases, junk, room, "go", "north", b, h);
    } else if "go" in aliases && aliases["go"] == "" {
      EmptyRootPrefixStays(s, aliases, junk, room, "go", "north", b);
    }
  }
}
