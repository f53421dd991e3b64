# Command resolution of a text-adventure engine

This project models the command-resolution engine of `src/Game.js` and proves
properties of the model in Dafny. The engine turns one line the player types
into what the game does next. It has five parts.

- **Normaliser** (`Text`, `Normalizer`). It lower-cases and trims the input,
  collapses each run of non-word characters into one space, drops junk words,
  and replaces each alias by its root.
- **Alias table** (`AliasTable`). World data is a map from each root to one
  alias or a list of aliases. The builder inverts it into a map from alias to
  root. The default table is written first and the world's table second, so
  the last write wins.
- **Action matcher** (`Engine.ActionReply`, `GameModel.TryAction`). It compares
  the normalised input with each normalised trigger phrase and checks the
  action's prerequisites. It then either invokes the effect or refuses.
- **World validation** (`GameModel.Game.ValidateDirections`,
  `GameModel.NewGame`). It rejects a world in which some exit leads to a room
  that does not exist.
- **Dispatcher** (`Engine.Dispatch`, `GameModel.Game.ParseInput`). It tries the
  resolvers in a fixed order and stops at the first that matches:
  1. the trapped check;
  2. the exits, after which the move hooks run;
  3. the room's actions;
  4. the actions of held things;
  5. `i` or `inventory`;
  6. `take`;
  7. `drop`;
  8. the fallback.

## How the model is built

`Engine` states the rules as functions of a `Session`. A `Session` is the room
map, the normaliser applied to trigger phrases, the direction-naming function,
the on-move callbacks and the character's belongings. The game's normaliser is
`Game.Norm()`: `preprocessString` with the game's alias table and junk words. Each rule returns a `Reply`:
the ordered events of one command, and the room it moves to, if any.

Class `GameModel.Game` keeps the fields the source updates in place:

- `rooms` and `roomOrder` (the order of the keys);
- `room`;
- `self.room` (on class `Character`);
- `aliases`;
- `onMoveCallbacks`.

Its methods have the loops and early returns of the source. Each method is
proved to do what the `Engine` function prescribes. For example, `ParseInput`
appends exactly `Dispatch(old(Snapshot()), Preprocess(input, …), room).events`
to the trace, and moves exactly when that reply moves.

The model stands in for the game's outside world as follows:

- **Output and invocations.** Text said to the player, invocations of action
  effects and of hooks (with the room each receives), and calls into the
  character are appended to one ordered `trace` of `Event`s.
- **Effects and hooks.** These are opaque `CallbackId`s.
- **Parameters.**
  - `junkWords` becomes the game's `junk`, a set.
  - `directions.fullname` becomes an uninterpreted function `fullname`.
  - The default alias table becomes the `defaults` argument of the constructor.
- **The character.** It is abstract: `owned` is the set of item identifiers
  its `has` accepts, and `inventory` is its held things in `Object.values`
  order.
- **JavaScript semantics.**
  - `\W` is the ASCII class `[^A-Za-z0-9_]`.
  - `toLowerCase` maps ASCII letters only.
  - `trim` removes the ECMAScript white-space and line-terminator characters.
  - `split(' ')` and `join(' ')` are written out in `Text.Split` and
    `Text.Join`.
  - `aliases[word] || word` leaves a word alone when it is bound to the empty
    string.
  - `words[1]` of a one-word command is `undefined`. The message then reads
    "You have no undefined.".

Two properties a reader might expect of the normaliser do not hold of the code.

- **Normalisation is not idempotent.** A word led by a punctuation mark, such
  as `!a`, normalises to ` a` with a leading space, and normalising that again
  gives `a`. The cause is that `trim` runs before the first collapse.
  `Normalizer.LeadingMarkNotIdempotent` proves this for every lower-case word
  that the tables neither drop nor rewrite, when the empty token is neither
  junk nor bound. Without those conditions the leading space can vanish: a
  junk word `w` after the mark is filtered out, and `"!w"` normalises to `""`.
  `Normalizer.CanonicalFixed` states the hypotheses under which a normalised
  command is a fixed point.
- **An empty root does not delete a word.** Take a world with an exit north,
  and a command "go north" where "go" is bound to the empty root. The code does
  not reduce the command to "north", because `aliases["go"] || "go"` is "go".
  The command moves the player only when "go" is a junk word. `Engine.GoNorth`
  proves both cases.

## Model

| member | source | states |
|---|---|---|
| Wrappers.ToArray | src/Game.js:10-12 | the definition of `toArray`: a list stays as it is, a single value becomes a one-element list; it has no contract of its own, and the members that use it state what it means for them |
| Text.Lower | src/Game.js:31 | the definition of `toLowerCase` on ASCII letters; its properties are in `Text.LowerSpec` |
| Text.Trim | src/Game.js:31 | the definition of `trim`; its properties are in `Text.TrimStartSpec` and `Text.TrimEndSpec` |
| Text.LowerSpec | src/Game.js:31 | lower-casing keeps the length and every non-upper-case character, turns each upper-case letter into the lower-case letter 32 code points on, leaves no upper-case letter, and keeps word characters word characters |
| Text.TrimStartSpec | src/Game.js:31 | the trimmed start is a suffix of the input, everything dropped is white space, and it does not start with white space |
| Text.TrimEndSpec | src/Game.js:31 | the trimmed end is a prefix of the input, everything dropped is white space, and it does not end with white space |
| Text.Collapse | src/Game.js:32 | the definition of `replace(/\W+/g, ' ')`; its properties are in `Text.CollapseShape`, `Text.CollapseRun`, `Text.CollapseKeepsWordChars` and `Text.CollapseFixed` |
| Text.CollapseShape | src/Game.js:32 | after `/\W+/g -> ' '` every character is a word character or a space, no two non-word characters are adjacent, the result is no longer than the input, and it is empty only for the empty input |
| Text.CollapseRun | src/Game.js:32 | after a word character, a run of non-word characters becomes exactly one space, both before the next word character and at the end of the string, where it leaves a trailing space; so the spaces stand where the runs were |
| Text.CollapseKeepsWordChars | src/Game.js:32 | the collapse keeps every word character of the input, in order |
| Text.CollapseFixed | src/Game.js:34 | a string already in collapsed shape comes out of the collapse unchanged |
| Text.Split | src/Game.js:23 | `split(' ')` gives at least one token, no token contains a space, and joining the tokens with spaces gives back the input |
| Text.SplitJoin | src/Game.js:27 | splitting a join of space-free tokens gives back the tokens |
| Text.Join | src/Game.js:23-27 | the definition of `join(' ')`; its properties are in `Text.Split` (joining the split gives back the input) and `Text.SplitJoin` (splitting a join gives back the tokens) |
| Normalizer.NonJunk | src/Game.js:23 | a token is kept exactly when it is in the input and is not a junk word |
| Normalizer.NonJunkAppend | src/Game.js:23 | the junk filter distributes over concatenation, so the kept tokens keep their relative order |
| Normalizer.RemoveJunk | src/Game.js:18-24 | the definition of `removeJunk`; its properties are in `Normalizer.RemoveJunkTokens`, `Normalizer.NonJunk` and `Normalizer.NonJunkAppend` |
| Normalizer.RemoveJunkTokens | src/Game.js:18-24 | the tokens of `removeJunk`'s result are exactly the input's non-junk tokens in order, and the result is empty when none is left |
| Normalizer.ResolveWord | src/Game.js:27 | the definition of the per-token lookup `aliases[word]` with its fallback to `word` when that is missing or empty; its properties are in `Normalizer.ResolveAliasesTokens`, `Normalizer.AliasesResolveOneStep` and `Normalizer.UnboundWordKept` |
| Normalizer.ResolveTokens | src/Game.js:27 | the definition of the `.map` over the tokens; its properties are in `Normalizer.ResolveAliasesTokens` and `Normalizer.AliasesResolveOneStep` |
| Normalizer.ResolveAliases | src/Game.js:26-28 | the definition of `resolveAliases`; its properties are in `Normalizer.ResolveAliasesTokens` and `Normalizer.AliasesResolveOneStep` |
| Normalizer.ResolveAliasesTokens | src/Game.js:26-28 | when no root contains a space, `resolveAliases` keeps the token count, and token k becomes the root of token k when that root is non-empty and stays the same otherwise |
| Normalizer.AliasesResolveOneStep | src/Game.js:27 | the substitution is applied once: a one-word input bound to a non-empty root resolves to that root, whatever the root is itself bound to |
| Normalizer.Preprocess | src/Game.js:30-38 | the definition of `preprocessString`; its properties are in `Normalizer.PreprocessShape`, `Normalizer.CanonicalFixed`, `Normalizer.LeadingMarkNotIdempotent`, `Normalizer.AliasConsistent`, `Normalizer.JunkWordDropped` and `Normalizer.UnboundWordKept` |
| Normalizer.PreprocessShape | src/Game.js:30-38 | for any tables, the normalised command has every non-word character as a single space and no two adjacent |
| Normalizer.CanonicalFixed | src/Game.js:30-38 | a command that is collapsed, lower-case, has no edge spaces, and whose tokens are neither junk nor rewritten normalises to itself |
| Normalizer.LeadingMarkNotIdempotent | src/Game.js:31-32 | a punctuation mark before a lower-case word normalises to a space before the word, which a second normalisation removes |
| Normalizer.AliasConsistent | src/Game.js:30-38 | a one-word alias normalises to its root, and the root normalises to itself, when the root is a lower-case word that is neither junk nor rewritten |
| Normalizer.JunkWordDropped | src/Game.js:33 | a junk word before a command word is dropped, so the input normalises to the command word alone |
| Normalizer.UnboundWordKept | src/Game.js:27 | two words that are neither junk nor bound to a non-empty root normalise to themselves |
| AliasTable.Prepared | src/Game.js:103-113 | the definition of `prepareAliases` on a table value; its properties are in `AliasTable.PreparedKeys`, `AliasTable.LastRootWins` and `AliasTable.UnmentionedKept` |
| AliasTable.BindAll | src/Game.js:109-111 | after binding a list of aliases to a root, every listed alias maps to that root, every other entry is unchanged, and the keys grow by exactly the listed aliases |
| AliasTable.PreparedKeys | src/Game.js:107-112 | after preparation, the table's keys are the old keys plus every alias the data mentions |
| AliasTable.LastRootWins | src/Game.js:107-112 | an alias is bound to the root of the last entry that lists it |
| AliasTable.UnmentionedKept | src/Game.js:103-113 | an alias the data does not mention keeps its previous binding, or stays unbound |
| AliasTable.WorldOverridesDefaults | src/Game.js:75-76 | in the game's table, an alias the world lists maps to the last world root that lists it, and every other alias keeps its default binding |
| World.RoomsByName | src/Game.js:62-65 | the room map's keys are exactly the names of the given rooms |
| World.NameOrder | src/Game.js:62-65 | the key order lists each room name exactly once |
| World.LastRoomWins | src/Game.js:63-64 | the room stored under a name is the last room with that name |
| World.FirstBadExit | src/Game.js:91-96 | the definition of the exit `validateDirections` throws for: a bad exit with every exit before it, in room-key order and then exit order, leading to a room of the map; its property is `World.FirstBadExitUnique`, and `GameModel.Game.ValidateDirections` and `GameModel.NewGame` use it |
| World.FirstBadExitUnique | src/Game.js:91-96 | there is only one first bad exit, so the thrown message is determined by the world |
| World.BadExitMessage | src/Game.js:96 | the definition of the message `validateDirections` throws; `GameModel.Game.ValidateDirections` and `GameModel.NewGame` state when it is thrown and which room and target it names |
| Engine.ActionReply | src/Game.js:40-58 | the definition of what `tryAction` does for one action; its properties are in `Engine.PhraseMatchesIff` and `Engine.ActionReplyCases` |
| Engine.NormalizedPhrases | src/Game.js:41-43 | the definition of the trigger phrases, each passed through `preprocessString` with the game's tables; its properties are in `Engine.PhraseMatchesIff` and `GameModel.FindPhrase` |
| Engine.PhraseMatches | src/Game.js:41-43 | the definition of the phrase comparison `input === preprocessString(phrase, …)`; its properties are in `Engine.PhraseMatchesIff`, `Engine.ActionReplyCases` and `GameModel.FindPhrase` |
| Engine.PhraseMatchesIff | src/Game.js:41-43 | an action matches exactly when one of its trigger phrases, normalised like the input, equals the command |
| Engine.ActionReplyCases | src/Game.js:40-58 | with no matching phrase, nothing happens; on a match, the reply is "You don't have that." exactly when a listed prerequisite is not held, and otherwise one invocation of the effect with the room |
| Engine.LacksThing | src/Game.js:44-51 | the definition of the prerequisite test; its properties are in `Engine.ActionReplyCases` and `GameModel.Perform` |
| Engine.FirstActionReply | src/Game.js:141-145 | the definition of the room-action loop's reply; its properties are in `Engine.RoomActionFirst`, `Engine.FirstMatching` and `GameModel.Game.RunActions` |
| Engine.FirstMatching | src/Game.js:141-145 | finds the first action, in order, whose phrase matches, with no match before it; `None` means no action matches |
| Engine.HasMatch | src/Game.js:148-149 | the definition of the inner action loop's test, that some action of the thing matches; its properties are in `Engine.FirstItemWithMatch`, `Engine.HeldThingFirst` and `GameModel.Game.RunItemActions` |
| Engine.FirstItemWithMatch | src/Game.js:147-153 | finds the first held thing, in inventory order, that has a matching action; `None` means no held thing has one |
| Engine.FirstItemReply | src/Game.js:147-153 | the definition of the held-thing loop's reply; its properties are in `Engine.HeldThingFirst`, `Engine.FirstItemWithMatch` and `GameModel.Game.RunItemActions` |
| Engine.ExitMatches | src/Game.js:129 | the definition of the exit test; its properties are in `Engine.FirstExit`, `Engine.MovesIff` and `Engine.MovePreemptsActions` |
| Engine.FirstExit | src/Game.js:128-129 | finds the first exit that is not blocked and whose direction, or that direction's full name, is the command; `None` means no exit qualifies |
| Engine.FirstNamed | src/Game.js:162-163 | finds the first thing whose name is the second word; `None` means none has it, and an absent second word never matches |
| Engine.Dispatch | src/Game.js:120-186 | the definition of `parseInput` after normalisation; its properties are in `Engine.MovesIff`, `Engine.MovePreemptsActions`, `Engine.RoomActionFirst`, `Engine.HeldThingFirst`, `Engine.BuiltinOnlyUnmatched`, `Engine.TakeCases` and `Engine.DropCases` |
| Engine.MoveHooks | src/Game.js:132-134 | the definition of the on-move loop, one invocation per callback in registration order with the new room; its properties are in `Engine.DispatchMove`, `Engine.MovePreemptsActions` and `GameModel.Game.TakeExit` |
| Engine.EnterHooks | src/Game.js:135-137 | the definition of the on-enter loop, one invocation per hook of the new room in order; its properties are in `Engine.DispatchMove`, `Engine.MovePreemptsActions`, `Engine.JunkPrefixedMove` and `GameModel.Game.TakeExit` |
| Engine.WordAfter | src/Game.js:163-177 | the definition of `words[1]`, `undefined` for a one-word command; its properties are in `Engine.FirstNamed`, `Engine.TakeCases` and `Engine.DropCases` |
| Engine.Shown | src/Game.js:182 | the definition of the `${words[1]}` interpolation, with `undefined` shown for a missing word; its properties are in `Engine.DropCases` |
| Engine.DispatchTrapped | src/Game.js:123-127 | in a room without exits every command only says "You are trapped!" and moves nowhere |
| Engine.DispatchMove | src/Game.js:128-139 | the first matching exit moves the player to its room and runs the on-move callbacks, then the new room's on-enter hooks, each with the new room |
| Engine.MovesIff | src/Game.js:128-140 | a command moves the player exactly when some exit is unblocked and its direction or full name is the command |
| Engine.MovePreemptsActions | src/Game.js:128-139 | when an exit matches, the only events are the on-move callbacks in registration order, then the on-enter hooks in order, all with the new room; no action or built-in runs; the new room is that of the first matching exit |
| Engine.RoomActionFirst | src/Game.js:141-145 | without a matching exit, the first matching room action decides the reply, whatever held things or built-ins would do |
| Engine.HeldThingFirst | src/Game.js:147-153 | without a matching exit or room action, the reply comes from the first matching action of the first held thing that has one |
| Engine.InPlace | src/Game.js:141-186 | the definition of a command that takes no exit; its properties are in `Engine.RoomActionFirst`, `Engine.HeldThingFirst`, `Engine.BuiltinOnlyUnmatched` and `GameModel.Game.StayInRoom` |
| Engine.HeldOrBuiltin | src/Game.js:147-186 | the definition of a command that no exit or room action matched; its properties are in `Engine.HeldThingFirst`, `Engine.BuiltinOnlyUnmatched` and `GameModel.Game.HeldOrBuiltinStep` |
| Engine.BuiltinOnlyUnmatched | src/Game.js:155-186 | a command reaches the built-ins when no exit, room action or held-thing action matches it |
| Engine.Builtin | src/Game.js:155-186 | the definition of the built-in commands and the fallback; its properties are in `Engine.BuiltinOnlyUnmatched`, `Engine.TakeCases` and `Engine.DropCases` |
| Engine.TakeReply | src/Game.js:160-174 | the definition of `take`; its properties are in `Engine.TakeCases` |
| Engine.DropReply | src/Game.js:175-184 | the definition of `drop`; its properties are in `Engine.DropCases` |
| Engine.TakeCases | src/Game.js:160-174 | `take w` takes the first room thing named `w` when it is gettable; it says "You can't take the w." when that thing is not gettable, and "You can't take that." when no thing has that name |
| Engine.DropCases | src/Game.js:175-184 | `drop w` drops the first held thing named `w`; otherwise it says "You have no w.", with `undefined` when there is no second word |
| Engine.JunkPrefixedMove | src/Game.js:120-139 | a junk word before a direction is dropped, so the command takes that direction's exit, and the new room's on-enter hook runs exactly once |
| Engine.EmptyRootPrefixStays | src/Game.js:120-186 | a leading word bound only to the empty root and not junk stays, so the two-word command takes no exit and falls through to "You can't do that." |
| Engine.GoNorth | src/Game.js:120-139 | "go north" moves to the room north and runs its on-enter hook once when "go" is junk; it is refused when "go" is only bound to the empty root |
| GameModel.Game.constructor | src/Game.js:61-76 | stores each room under its name, keeps the key order, sets the current room of the game and of the character to the starting room, starts with no callbacks, and writes the default alias data and then the world's |
| GameModel.IndexRooms | src/Game.js:62-65 | the room loop builds exactly the room map and key order of the room list |
| GameModel.Game.Norm | src/Game.js:43 | the definition of `preprocessString(·, this.aliases)` with the game's current table, used for phrases (line 43) and the command (line 121); its properties are in `GameModel.Game.ParseInput`, `GameModel.TryAction` and the `Normalizer` lemmas about `Normalizer.Preprocess` |
| GameModel.Game.OnMove | src/Game.js:86-88 | appends the callback to the on-move callbacks |
| GameModel.Game.ValidateDirections | src/Game.js:90-101 | passes exactly when every exit of every room leads to a room of the map; otherwise the error is the message for the first bad exit met, in room-key order and then exit order, naming its room and missing target |
| GameModel.Game.BindAliases | src/Game.js:109-111 | binds every alias of one entry to its root, in order, exactly as `AliasTable.BindAll` prescribes |
| GameModel.Game.PrepareAliases | src/Game.js:103-113 | absent data leaves the table unchanged; otherwise every entry is written in order, each alias bound to its root |
| GameModel.Game.GoToRoom | src/Game.js:115-118 | the game's and the character's current room become the room of that name, or none for an unknown name |
| GameModel.Game.ParseInput | src/Game.js:120-187 | appends exactly the events `Dispatch` gives for the normalised input, and updates the game's and the character's room exactly when that reply moves |
| GameModel.Game.Resolve | src/Game.js:123-186 | runs the resolvers on an already normalised command in the order trapped, exits, in-room steps, each only when the ones before did not match |
| GameModel.Game.TakeExit | src/Game.js:128-140 | reports whether an exit matches; when one does, moves to the first such exit's room and appends the on-move and on-enter invocations; otherwise changes nothing |
| GameModel.Game.StayInRoom | src/Game.js:141-186 | appends the events of room actions, then held-thing actions, then built-ins, as `Engine.InPlace` prescribes |
| GameModel.Game.HeldOrBuiltinStep | src/Game.js:147-186 | appends the events of the first held thing's matching action, or else those of the built-ins, as `Engine.HeldOrBuiltin` prescribes |
| GameModel.Game.RunActions | src/Game.js:141-145 | reports whether some action matches, and appends the first matching action's events |
| GameModel.Game.RunItemActions | src/Game.js:147-153 | reports whether some held thing has a matching action, and appends the events of the first one |
| GameModel.Game.RunBuiltin | src/Game.js:155-186 | appends the inventory report, the take or drop call or refusal, or "You can't do that.", as `Engine.Builtin` prescribes |
| GameModel.TryAction | src/Game.js:40-58 | returns true exactly when some phrase matches, and appends the refusal or the one effect invocation; with no match nothing is appended |
| GameModel.FindPhrase | src/Game.js:41-43 | reports true exactly when some phrase normalises to the input |
| GameModel.Perform | src/Game.js:44-54 | appends "You don't have that." when a listed prerequisite is not held, and one invocation of the effect otherwise |
| GameModel.NewGame | src/Game.js:61-79 | construction succeeds exactly when every exit leads to an existing room; a failure carries the message for the first bad exit in room-key order and then exit order, naming its room and missing target; a success is a new game with a new character, in everything the constructor sets up (rooms and key order, the starting room as the current room of both, no callbacks, empty trace, default and then world aliases), whose current room can be passed to `ParseInput` |

## Left out

- Rendering is not modelled: `start()` (src/Game.js:81-84), `output`, the body of `say`, and `chalk` colouring, including the colour of the thrown message. Each `say` is a `Said` event.
- The `Character`, `Room`, `directions`, `junkWords` and default `aliases` modules are not part of this model. `take`, `drop` and `reportInventory` are recorded as `Take`, `Drop` and `ReportInventory` events and are not carried out.
- The character's belongings (`self.inventory`, `self.owned`) and the rooms, with their things, are frozen across commands. `ParseInput` may change only the current room of the game and of the character and the trace, so in the model no command changes them. In the source, `self.take` and `self.drop` (src/Game.js:168, 179) and action effects (src/Game.js:53) can change them, so after a `Take` event the next command may see a different inventory and room.
- The bodies of action effects and hook callbacks are not modelled. The model records each invocation, its room and its order, and assumes a callback does not change the game's fields while the command is running. In the source, a move hook that changes `this.room` would change the room the later hooks receive and whose `onEnter` hooks run.
- Lower-casing covers the ASCII letters only. JavaScript's `toLowerCase` also maps other Unicode letters. The `\W` class is the ASCII one, as in a regular expression without the `u` flag.
- The JavaScript objects used as the alias table (src/Game.js:74), as the junk lookup (src/Game.js:19) and as the room map `this.rooms` (src/Game.js:62, 95) are plain maps and sets here. Inherited keys such as `constructor` are not modelled: in the source an exit to a room named `constructor` passes `validateDirections`, while the model rejects it.
- JavaScript lists integer-like keys first in `Object.keys` and `Object.values`. The model uses plain insertion order for room names, exits and alias entries.
- The empty `tryAction` at src/Game.js:14-16 is overridden by the later declaration and is not modelled.
- A missing `exits`, `actions` or `requiresThing` is an empty sequence or `None`. The `!exits` guard (src/Game.js:124) and the `room.exits` test (src/Game.js:92) therefore never see a missing value. `Object.values(undefined)` would throw anyway.
- GameModel.Game.ParseInput: requires every exit of the given room to lead to a room of the map. `NewGame` guarantees this for every room of the map and for the current room it sets. In the source, an unknown target would fail at `this.room.onEnter`.
- GameModel.Game.constructor: the throw of `validateDirections` at the end of the constructor (src/Game.js:78) is modelled by `NewGame`, which returns `Failure` with the message. The constructor assumes that a new `Character` holds nothing and has an empty inventory; `Character.js` is not part of this model.
