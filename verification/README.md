# shinqlx, verified

A Dafny model of the parts of shinqlx (a Rust extension of the Quake Live dedicated server) that carry state or
do arithmetic that is easy to get wrong, with proofs about every input and every run. `dafny verify dfyconfig.toml`
checks the whole project.

What the modules model:

* `Text`, `Color`, `Greedy`, `Chat` – the chat reply: clean the text, split lines longer than a limit behind a
  delimiter, pack the pieces into messages of 1000 bytes, and repeat the current colour tag in front of each message.
  `ChatProperties` and `ChatColors` hold the theorems: the text is kept, sizes are bounded, fewer pieces are
  impossible, and the reply looks like the text.
* `Rcon` – the remote console's colour segmenter, against an automaton over the characters.
* `VmHooks`, `VmProperties` – loading, hooking, calling, unhooking and shutting down the game module, as a class
  proved against a step function, with theorems over every run.
* `ServerTags` – the edit of the `sv_tags` console variable.
* `Bits`, `PlayerState` – weapon mask, power-up expiry times and kamikaze flag.
* `AllowMask` – the temporary permission bits around connect and disconnect handlers, nested to any depth.
* `HookFilters` – the hooks in front of four engine functions, with handlers that may cause further calls.
* `CodePatch` – finding and overwriting code by a masked byte pattern.
* `Machine`, `Handlers` – machine integers, optional values, and what a Python handler can answer.

Strings are sequences of Unicode scalar values, as in Rust; every length is a number of UTF-8 bytes. A class method is
proved against a function of the old state, and the promises of the source are lemmas about that function.

Findings, where the code does not do what its documentation says or what one would expect. The model follows the code;
each finding has an input and an exact condition.

* `docs/channels.rst` lines 29, 34 and 37 count the limit in characters; the code counts bytes
  (`ChatProperties.LimitCountsBytes`, `ChatProperties.LineKeptExactly`).
* The same lines promise chunks of at most `limit`. That holds exactly when no single item exceeds the limit
  (`ChatProperties.ChunkExceedsLimit`, `ChatProperties.ChunksFitExactly`).
* `docs/channels.rst` line 44 calls 1000 the maximum message length. The colour prefix may add two bytes, and a single
  split line of more than 1000 bytes is sent as it is (`ChatColors.ColorPrefixExceedsMaximum`,
  `ChatColors.SentFitsExactly`).
* Colours change when a line is cut inside a colour tag, and only then (`ChatColors.ReplyKeepsColors`). Delimiters that
  end in `^`, and the empty delimiter, allow this; all others are safe (`ChatColors.SafeDelimiterKeepsColors`,
  `ChatColors.UnsafeDelimiterBreaksColors`).
* The remote console loses text behind a stray caret (`Rcon.StrayCaretLosesText`, `Rcon.SegmentsKeepColors`).
* `set_tag` puts no comma in front of a tag string of one or two bytes, so the tag runs into it; the next call repairs the
  server's tag but not the old one (`ServerTags.ShortTagIsLost`, `ServerTags.TaggedOnce`).
* A power-up duration comes back short by the started second, and a duration whose expiry time happens to be 0 reads as
  "not running" (`PlayerState.DurationsThatChange`, `PlayerState.PowerupExact`).
* A dispatch nested in a dispatch for the same client removes the permission of the outer handler
  (`AllowMask.NestedInItself`, `AllowMask.WholeRun`).
* Loading a module whose table still holds hooks makes hooks call hooks (`VmProperties.StaleLoadRecurses`,
  `VmProperties.LoadReachesExactly`, `VmProperties.RecursesExactly`).

## Model

| member | source | states |
|---|---|---|
| `Machine.AsUsize` | src/ffi/python/channels.rs:112 | the cast of the limit: non-negative limits are kept, negative ones become larger than any length |
| `Text.EncodeDecode` | src/ffi/python/channels.rs:112 | the number of bytes of a character is that of its UTF-8 encoding, which decodes to the character |
| `Text.ByteLenIsEncodedLength` | src/ffi/python/channels.rs:112 | the length of a text is the number of bytes of its UTF-8 encoding |
| `Text.JoinSplit` | src/ffi/python/channels.rs:111 | splitting at a separator loses nothing and leaves no separator in a part |
| `Text.SplitJoin` | src/quake_live_engine.rs:1103 | the inverse: parts without the separator are what splitting their join yields |
| `Text.ItemsCut` | src/ffi/python/channels.rs:117 | inclusive splitting cuts a line behind every occurrence of the delimiter and nowhere else, losing nothing |
| `Text.ItemsUnique` | src/ffi/python/channels.rs:117 | the converse: any list of that shape is what inclusive splitting yields, for the empty delimiter too |
| `Color.LastTagIsEndColor` | src/ffi/python/channels.rs:640-645 | the last match of the tag expression is the colour in which the automaton ends |
| `Color.TagsAre` | src/ffi/python/channels.rs:564 | the tag expression matches exactly `^0` to `^7` |
| `Color.PlainText` | src/ffi/python/channels.rs:564 | a text without tags is shown character by character in the current colour, which stays |
| `Color.PaintConcat` | src/ffi/python/channels.rs:564 | showing two pieces one after the other shows the whole, if the boundary cuts no tag |
| `Color.CutTagShows` | src/ffi/python/channels.rs:564 | a boundary that cuts a tag makes exactly two more characters visible |
| `Greedy.GroupsAreGreedy` | src/ffi/python/channels.rs:116-129 | the reference division keeps all items in order, every group fits or is one item, and none has room for the next item |
| `Greedy.GreedyIsUnique` | src/ffi/python/channels.rs:116-129 | those three properties determine the division |
| `Greedy.GreedyIsOptimal` | src/ffi/python/channels.rs:116-129 | no division into fitting groups uses fewer groups |
| `Greedy.GroupsFitExactly` | src/ffi/python/channels.rs:116-129 | all groups fit if and only if every single item fits |
| `Chat.SplitLongLine` | src/ffi/python/channels.rs:115-131 | the loop over the items computes the greedy division of an over-long line |
| `Chat.SplitLongLines` | src/ffi/python/channels.rs:104-135 | the lines in order, long ones replaced by their chunks |
| `Chat.PackLines` | src/ffi/python/channels.rs:578-592 | the pop-and-push loop computes the greedy division into messages of at most 1000 bytes |
| `Chat.NextColor` | src/ffi/python/channels.rs:640-645 | searching the message with its colour prefix yields the colour the text ends in |
| `Chat.PaintPrefixed` | src/ffi/python/channels.rs:596 | a colour prefix does to a message what starting in that colour does |
| `Chat.Clean` | src/ffi/python/channels.rs:566 | no double quote is left and nothing else changes |
| `Chat.Enqueue` | src/ffi/python/channels.rs:617-638 | appends one task without a client for a reply to all, or one task per recipient id in order |
| `Chat.SendAll` | src/ffi/python/channels.rs:594-646 | the colour loop queues each packed message behind the carried colour |
| `Chat.Reply` | src/ffi/python/channels.rs:563-649 | a reply queues exactly the messages the theorems below are about |
| `ChatProperties.ChunksKeepLine` | src/ffi/python/channels.rs:110-134 | the chunks of a line concatenate to the line, for every limit and delimiter |
| `ChatProperties.PackKeepsText` | src/ffi/python/channels.rs:578-592 | joining the packed messages by newlines equals joining the split lines by newlines |
| `ChatProperties.ReplyKeepsText` | src/ffi/python/channels.rs:563-592 | end to end: the packed messages hold the cleaned text in order, up to line breaks |
| `ChatProperties.ChunksAreFull` | src/ffi/python/channels.rs:115-130 | each chunk is within the limit or exactly one item, and has no room for the first item of the next chunk |
| `ChatProperties.ChunksFitExactly` | docs/channels.rst:34 | all chunks are within the limit if and only if the line is, or every item of it is |
| `ChatProperties.ChunkExceedsLimit` | docs/channels.rst:34 | a word of three characters under a limit of two is one chunk |
| `ChatProperties.LineKeptExactly` | src/ffi/python/channels.rs:112-131 | a line stays in one piece if and only if it has at most `limit` bytes or is a single item |
| `ChatProperties.LimitCountsBytes` | docs/channels.rst:29-37 | a line of three characters under a limit of three is split, since it has five bytes |
| `ChatProperties.ChunksAreFewest` | src/ffi/python/channels.rs:111-131 | no cut of a line at item boundaries into pieces within the limit has fewer pieces |
| `ChatProperties.NegativeLimitKeepsLines` | src/ffi/python/channels.rs:112-113 | with a negative limit no line of a text that fits in memory is split |
| `ChatProperties.MessagesAreFull` | src/ffi/python/channels.rs:578-592 | each message has at most 1000 bytes or is exactly one line, and has no room for the next line |
| `ChatProperties.MessagesFitExactly` | docs/channels.rst:41-44 | all packed messages have at most 1000 bytes if and only if all split lines have |
| `ChatProperties.MessagesAreFewest` | src/ffi/python/channels.rs:578-592 | no other grouping of consecutive lines within 1000 bytes uses fewer messages |
| `ChatProperties.EveryReplyIsSent` | src/ffi/python/channels.rs:578-592 | every reply sends at least one message, and that to the empty text sends one empty message |
| `ChatProperties.RecipientsGetEverything` | src/ffi/python/channels.rs:617-638 | each recipient gets all messages in order, each as often as its id is addressed, so nobody else gets any |
| `ChatProperties.BroadcastReachesAll` | src/ffi/python/channels.rs:617-626 | without recipients each message is queued once, for all, and none for a single client |
| `ChatProperties.PrivateReplyStaysPrivate` | src/ffi/python/channels.rs:627-636 | with recipients nothing is queued for all; client c gets every message as often as c is listed; the queue is message by message, recipient by recipient |
| `ChatColors.CarriedColor` | src/ffi/python/channels.rs:594-646 | message k starts with the colour in which everything before it ends |
| `ChatColors.EmittedColors` | src/ffi/python/channels.rs:594-646 | messages shown separately from the default colour look like the packed messages shown in sequence |
| `ChatColors.MessagesShowLines` | src/ffi/python/channels.rs:578-646 | messages shown separately look like one pass over all split lines joined by newlines |
| `ChatColors.ReplyKeepsColors` | src/ffi/python/channels.rs:563-646 | the reply shows the characters of the cleaned text in their colours if and only if no line is cut inside a tag, and more characters otherwise |
| `ChatColors.RecipientsSeeText` | src/ffi/python/channels.rs:563-649 | for every recipient list: a reader sees the cleaned text if and only if no tag is cut and its id is listed once (or the reply goes to all), texts without visible characters aside |
| `ChatColors.SafeDelimiterKeepsColors` | src/ffi/python/channels.rs:563-646 | that is so for every text and limit unless the delimiter is empty or ends in a caret |
| `ChatColors.UnsafeDelimiterBreaksColors` | src/ffi/python/channels.rs:117 | for every other delimiter there is a text whose look changes |
| `ChatColors.ReplyIsBounded` | src/ffi/python/channels.rs:578-596 | the colour prefix adds at most two bytes to a packed message of at most 1000 bytes or a single line |
| `ChatColors.SentFitsExactly` | docs/channels.rst:41-44 | what is sent stays within 1000 bytes if and only if each packed message leaves two bytes once a tag has come before it, and fits itself otherwise |
| `ChatColors.ColorPrefixExceedsMaximum` | src/ffi/python/channels.rs:596 | messages of 1002 bytes do occur |
| `Rcon.FirstTag` | ql_rcon/src/linefeed_helper.rs:39-40 | the piece in front of the first match ends at the first tag |
| `Rcon.SplitQlColors` | ql_rcon/src/linefeed_helper.rs:38-63 | the loop over the matches computes the segments |
| `Rcon.SegmentsShown` | ql_rcon/src/linefeed_helper.rs:38-63 | for every text the segments carry exactly what the console automaton shows, in order, in its colours |
| `Rcon.SegmentsKeepColors` | ql_rcon/src/linefeed_helper.rs:38-63 | they carry all visible characters in their colours if and only if every caret behind the first tag starts a tag |
| `Rcon.StrayCaretLosesText` | ql_rcon/src/linefeed_helper.rs:43-48 | a tag, a text and a stray caret lose the caret and what follows |
| `Rcon.PrintThenSplit` | ql_rcon/src/linefeed_helper.rs:39-62 | printing a list of segments and splitting it gives the list back |
| `Rcon.SegmentsOfPrint` | ql_rcon/src/linefeed_helper.rs:39-62 | text in front of the first tag becomes a segment named `reset`, and none if it is empty |
| `Rcon.SplitIsStable` | ql_rcon/src/linefeed_helper.rs:39-62 | splitting always gives such a list, so printing and splitting again changes nothing |
| `VmHooks.QuakeLiveEngine.constructor` | src/quake_live_engine.rs:779-795 | nothing is loaded, saved or enabled at the start |
| `VmHooks.QuakeLiveEngine.TryInitializeFrom` | src/quake_live_engine.rs:160-265 | follows the rule whose meaning `VmProperties.SearchStores` states |
| `VmHooks.QuakeLiveEngine.SearchFunctions` | src/quake_live_engine.rs:193-231 | all addresses found are stored, others that were saved stay, and the first missing function is reported |
| `VmHooks.QuakeLiveEngine.SaveTable` | src/quake_live_engine.rs:238-262 | the table address and the words at its offsets 0x18, 0x8 and 0 are saved |
| `VmHooks.TableAddress` | src/quake_live_engine.rs:233-238 | displacement plus module offset plus seven, in 64 bits |
| `VmHooks.QuakeLiveEngine.ReplaceTable` | src/quake_live_engine.rs:282-301 | the words at offsets 0x18, 0x8 and 0 become our functions, and no other word of memory changes |
| `VmHooks.QuakeLiveEngine.InstallDetour` | src/quake_live_engine.rs:309-328 | create, enable, store, disable the predecessor, with both error returns |
| `VmHooks.QuakeLiveEngine.InstallDetours` | src/quake_live_engine.rs:303-417 | the four detours in order, up to the first failure |
| `VmHooks.QuakeLiveEngine.Hook` | src/quake_live_engine.rs:278-418 | the whole hook step |
| `VmHooks.QuakeLiveEngine.RemoveDetour` | src/quake_live_engine.rs:454-461 | the slot is emptied and its detour disabled |
| `VmHooks.QuakeLiveEngine.RemoveDetours` | src/quake_live_engine.rs:454-488 | the four slots in order |
| `VmHooks.QuakeLiveEngine.Unhook` | src/quake_live_engine.rs:431-489 | everything saved is cleared except the shutdown function |
| `VmHooks.QuakeLiveEngine.Initialize` | src/quake_live_engine.rs:1161-1170 | search, then hook, stopping at the first error |
| `VmHooks.QuakeLiveEngine.CallOriginal` | src/quake_live_engine.rs:1633-1690 | a saved address is called, zero is not |
| `VmHooks.QuakeLiveEngine.InitGameHook` | src/hooks.rs:61-72 | calls the saved original, if any, then sets the tag, reads the console variables and, on a restart, announces the game |
| `VmHooks.QuakeLiveEngine.RunFrameHook` | src/hooks.rs:407-412 | the Python frame event, then the saved original, if any |
| `VmHooks.QuakeLiveEngine.ShutdownGameHook` | src/hooks.rs:74-79 | unhooks first, then still calls the saved original, in this order |
| `VmProperties.HookExact` | src/quake_live_engine.rs:303-417 | at the end of every hook, error returns included: which error, what the slots hold, and that only detours that could not be disabled are lost |
| `VmProperties.HookWritesTable` | src/quake_live_engine.rs:278-301 | the three table words are replaced even when a detour then fails, and nothing else of memory or of the saved state changes |
| `VmProperties.HookSucceeds` | src/quake_live_engine.rs:303-417 | a successful hook leaves exactly four new enabled detours |
| `VmProperties.HookFillsSlots` | src/quake_live_engine.rs:303-417 | which of the four new detours is stored for which function |
| `VmProperties.UnhookExact` | src/quake_live_engine.rs:431-489 | after unhooking the slots are empty, and enabled are only detours that could not be disabled |
| `VmProperties.RunOwnership` | src/quake_live_engine.rs:303-489 | over every run, failed loads included, the enabled detours are exactly those stored, if disabling succeeds |
| `VmProperties.ShutdownReleases` | src/hooks.rs:74-79 | a shutdown call leaves no detour enabled and no slot occupied |
| `VmProperties.LoadSucceedsExactly` | src/quake_live_engine.rs:171-231 | the server survives a load if and only if its memory maps can be read, all ten functions are found and the four detours can be installed |
| `VmProperties.SearchStores` | src/quake_live_engine.rs:165-231 | each of the ten functions that is found is saved, even when the search fails; everything else saved stays; the errors, and which missing function is reported |
| `VmProperties.LoadStores` | src/quake_live_engine.rs:1161-1170 | the same for a whole load, whether or not hooking succeeds, and when the module offset is recorded |
| `VmProperties.RunSavesAddresses` | src/quake_live_engine.rs:431-452 | over every run whose loads succeed: the saved addresses are those of the module loaded last until its first shutdown call, and all cleared from then on |
| `VmProperties.FailedLoadEnds` | src/hooks.rs:52-58 | behind a load that fails nothing changes any more |
| `VmProperties.LoadTracks` | src/quake_live_engine.rs:233-301 | a load saves what the table holds and puts our functions there |
| `VmProperties.CallTracks` | src/hooks.rs:61-79 | init and frame reach their original once while the module is live and do nothing later; shutdown reaches it once although unhooking comes first |
| `VmProperties.LoadReachesExactly` | src/quake_live_engine.rs:242-261 | the first call after a load reaches what the table held for its entry, so it reaches a hook if and only if that was one |
| `VmProperties.RecursesExactly` | src/quake_live_engine.rs:233-301 | over every run at all: only game functions are called, never a hook, if and only if no call goes to an entry that was announced with a hook, told from the events alone |
| `VmProperties.NeverRecurses` | src/quake_live_engine.rs:233-301 | in particular, never while modules are mapped afresh, failed loads included |
| `VmProperties.StaleLoadRecurses` | src/quake_live_engine.rs:242-261 | a second load from the current table makes every hook its own original |
| `VmProperties.HooksAreTransparent` | src/hooks.rs:61-79 | a server with hooks makes the game calls of a server without, if and only if the engine is quiet between a shutdown and the next load |
| `ServerTags.CvarTable.SetTag` | src/quake_live_engine.rs:1098-1114 | nothing is written if the variable is missing or holds the tag; otherwise the tag, a comma if the old value has more than two bytes, and the old value are written |
| `ServerTags.PresentTagKept` | src/quake_live_engine.rs:1103 | the value stays as it is if and only if the tag is among its parts, and every new value ends with the old one |
| `ServerTags.TaggedOnce` | src/quake_live_engine.rs:1103-1110 | one call makes the tag present if and only if there is room in front, and then keeps all old tags in order, whether the tag was there or not |
| `ServerTags.ShortTagIsLost` | src/quake_live_engine.rs:1105-1108 | the tag `ca` and the server's tag run into each other; the second call repairs only the latter |
| `ServerTags.TaggedTwice` | src/quake_live_engine.rs:1103-1110 | a second call changes nothing if and only if there was room at the first |
| `ServerTags.TwoCallsSuffice` | src/quake_live_engine.rs:1103-1110 | for every string two calls reach a fixed point that holds the tag |
| `Bits.TestAfterSet` | src/ffi/c/game_client.rs:213 | setting a bit changes that bit and no other |
| `Bits.TestAfterClear` | src/ffi/c/game_client.rs:52 | clearing a bit changes that bit and no other |
| `Bits.AddPow2` | src/ffi/c/game_client.rs:142 | adding a power of two whose bit is clear sets that bit |
| `Bits.SubtractPow2` | src/ffi/c/game_client.rs:52 | clearing a set bit takes away its power of two |
| `Bits.TestBitIs` | src/ffi/c/game_client.rs:129 | bit k is the parity of the quotient by the k-th power of two, for negative numbers too |
| `PlayerState.WeaponSumBits` | src/ffi/c/game_client.rs:138-143 | after any number of weapons the sum has exactly the bits of the positive entries |
| `PlayerState.WeaponSumFits` | src/ffi/c/game_client.rs:138-143 | the sum never leaves i32 |
| `PlayerState.WeaponsRoundTrip` | src/ffi/c/game_client.rs:125-145 | reading back gives 1 exactly where the input was positive |
| `PlayerState.MaskRoundTrip` | src/ffi/c/game_client.rs:125-145 | writing back what was read keeps bits 1 to 15 and clears all others |
| `PlayerState.PowerupRoundTrip` | src/ffi/c/game_client.rs:163-201 | supporting: a duration read at once is short by the started second, and exact if and only if it is 0 or the second is whole |
| `PlayerState.PowerupExact` | src/ffi/c/game_client.rs:163-201 | when the duration comes back unchanged, for all level times and durations with wrap-around |
| `PlayerState.DurationsThatChange` | src/ffi/c/game_client.rs:168-201 | supporting: thirty seconds set in mid-second read short, and a duration that ends at time 0 reads as none |
| `PlayerState.RemainingFalls` | src/ffi/c/game_client.rs:168-175 | supporting: as time advances a reading falls by the time that passes |
| `PlayerState.PowerupsRoundTrip` | src/ffi/c/game_client.rs:163-201 | the same for all six power-ups of a player read later; every other slot, flight too, is untouched |
| `PlayerState.GameClient.GetWeapons` | src/ffi/c/game_client.rs:125-135 | one entry per weapon bit |
| `PlayerState.GameClient.SetWeapons` | src/ffi/c/game_client.rs:137-145 | the weapon entry has bit k exactly when weapon k is positive, and nothing else changes |
| `PlayerState.GameClient.SetArmor` | src/ffi/c/game_client.rs:92-97 | only the armor changes |
| `PlayerState.GameClient.GetAmmos` | src/ffi/c/game_client.rs:147-154 | entries 1 to 15 |
| `PlayerState.GameClient.SetAmmos` | src/ffi/c/game_client.rs:156-161 | entries 1 to 15 are replaced, entry 0 is kept |
| `PlayerState.GameClient.GetPowerups` | src/ffi/c/game_client.rs:163-178 | the remaining times of the six slots |
| `PlayerState.GameClient.SetPowerups` | src/ffi/c/game_client.rs:180-201 | the loop writes the expiry times into the six slots |
| `PlayerState.GameClient.RemoveKamikazeFlag` | src/ffi/c/game_client.rs:51-53 | only the flag changes |
| `PlayerState.GameClient.SetHoldable` | src/ffi/c/game_client.rs:207-218 | the held item and the flag change together |
| `PlayerState.GameClient.SetFlight` | src/ffi/c/game_client.rs:236-249 | the four flight entries change |
| `PlayerState.IndependentCommute` | src/ffi/c/game_client.rs:92-249 | supporting: operations of different kinds never disturb one another, although they share arrays |
| `PlayerState.StepSets` | src/ffi/c/game_client.rs:92-249 | after each operation the getter of its kind reads what was set, at the entries of the game, and everything else is as it was |
| `PlayerState.RunReadsLast` | src/ffi/c/game_client.rs:92-249 | over every run each getter reads what the last operation of its kind has set |
| `PlayerState.RunKeepsUnwritten` | src/ffi/c/game_client.rs:92-249 | over every run the entries no operation writes are as at the start |
| `PlayerState.FlagIs512` | src/ffi/c/quake_types.rs:164 | the flag is the number 512, added and taken away |
| `PlayerState.RunKeepsConsistent` | src/ffi/c/game_client.rs:207-218 | over every run the kamikaze flag implies the kamikaze is held |
| `PlayerState.RunFlags` | src/ffi/c/game_client.rs:51-53 | over every run the flag is what the last holdable or flag operation made of it, and no other flag bit changes |
| `AllowMask.AllowFreeClient.ClientConnect` | src/ffi/python/dispatchers.rs:65-99 | the bracket around the handler, and the answer to the engine |
| `AllowMask.AllowFreeClient.ClientDisconnect` | src/ffi/python/dispatchers.rs:101-124 | the bracket around the handler |
| `AllowMask.MaskAfterAll` | src/ffi/python/dispatchers.rs:90-96 | whatever nests, exactly the dispatched clients have lost their bit |
| `AllowMask.MaskIsStackAll` | src/ffi/python/dispatchers.rs:65-124 | handlers see exactly the clients being dispatched and the mask is restored, if and only if no client is dispatched twice at a time |
| `AllowMask.WholeRun` | src/ffi/python/dispatchers.rs:65-124 | from the empty mask: the mask always ends empty, and handlers see the right clients under the same condition |
| `AllowMask.NestedInItself` | src/ffi/python/dispatchers.rs:90-96 | a client dispatched by its own handler leaves that handler without its permission |
| `HookFilters.Hooks.OnClientCommand` | src/hooks.rs:90-128 | the branches of the hook produce the trace that `ClientCommandAnswered` describes, and nothing without an engine |
| `HookFilters.ClientCommandAnswered` | src/ffi/python/dispatchers.rs:19-27 | a command of a client in the game: False drops it, a non-empty text replaces it, an empty one drops it, else it passes; other commands are not asked about |
| `HookFilters.Hooks.OnServerCommand` | src/hooks.rs:206-243 | the same, see `ServerCommandAnswered` |
| `HookFilters.ServerCommandAnswered` | src/hooks.rs:216-241 | the same for a command to all or to a client in the game |
| `HookFilters.Hooks.OnConfigstring` | src/hooks.rs:280-301 | the same, see `ConfigstringAnswered` |
| `HookFilters.ConfigstringAnswered` | src/hooks.rs:284-299 | the same, empty texts included; indices 16 and 662 to 669 bypass the handler, those beyond the machine type are ignored |
| `HookFilters.Hooks.OnPrint` | src/hooks.rs:381-392 | the same, see `PrintAnswered` |
| `HookFilters.PrintAnswered` | src/hooks.rs:385-391 | a print is dropped by False and otherwise keeps its own text |
| `HookFilters.DeliversAll` | src/hooks.rs:90-392 | over every run: a call that happens reaches the engine if and only if it can be taken and is not answered False, with its own text or its handler's answer, in the order in which the calls end |
| `HookFilters.DeliveredCalls` | src/hooks.rs:90-392 | so a call is in the trace if and only if some occurrence that happens and arrives has it as its final form |
| `HookFilters.NothingUndeliverable` | src/hooks.rs:119-127 | supporting: whatever handlers answer and cause, no empty command reaches the engine |
| `HookFilters.UninitializedPasses` | src/ffi/python/dispatchers.rs:11-14 | without Python the engine gets the calls as they are, less empty commands |
| `HookFilters.WatchersPass` | src/ffi/python/dispatchers.rs:19-27 | handlers that only watch are invisible, the calls they cause included |
| `HookFilters.NothingInvented` | src/hooks.rs:90-392 | the engine's calls are those made, in order, with some left out and some texts changed, never of a print |
| `CodePatch.AllEqual` | src/quake_live_functions.rs:38-42 | the comparison loop decides whether all masked bytes agree |
| `CodePatch.PatternSearch` | src/quake_live_functions.rs:32-43 | the least matching start of the range, or none exactly when none matches |
| `CodePatch.ModuleSearchComplete` | src/quake_live_functions.rs:13-29 | none is found if and only if no readable address matches |
| `CodePatch.ModuleSearchSound` | src/quake_live_functions.rs:13-29 | what is found is readable and matches; over ascending regions it is the least |
| `CodePatch.ModuleSearchOrder` | src/quake_live_functions.rs:17-28 | it is the first match in the first readable region that has one, in whatever order the regions come |
| `CodePatch.AddressSpace.PatchByMask` | src/patches.rs:14-30 | the masked bytes are written and no others, and none if protection cannot be lifted |
| `CodePatch.PatchMatches` | src/patches.rs:22-24 | the pattern matches at the patched address and everything else is unchanged |
| `CodePatch.PatchFixpoint` | src/patches.rs:22-24 | a patch changes nothing exactly where the pattern matches already; patching twice is patching once |
| `CodePatch.SearchFindsPatch` | src/quake_live_functions.rs:38-42 | a later search over the address finds a match at or before it |

## Left out

- Reply: the Python exceptions of `recipients`, of `fmt.format` and of the task queue; messages are modelled up to the
  point where the format string is applied.
- SplitLongLines: the iterator is lazy in the source; the order of evaluation is not observable.
- SplitQlColors: the colours handed to the terminal library and the stripping of `broadcast:` and `print` prefixes are
  not part of this model.
- Hook: all fields of the engine and the library's list of detours are fields of one class; detours are numbers with an
  enabled flag. What the detour library does when a detour is dropped is not part of this model.
- Hook: the optional `patches` feature (saving and patching `Cmd_CallVote_f`) is covered by `CodePatch` only.
- InitGameHook: the tag, the console variables and the Python events are recorded in order, not carried out here; the tag
  itself is `ServerTags`.
- TableAddress: a sum beyond 64 bits wraps around, as in release builds; debug builds panic.
- StaleLoadRecurses: the endless recursion itself; the model records that a hook was called where the original should be.
- PowerupExact: i32 arithmetic wraps around, as in release builds; debug builds panic on overflow.
- HooksAreTransparent: stated for runs whose loads succeed; a load that fails ends the server
  (`VmProperties.LoadSucceedsExactly`), which a server without hooks would survive.
- SetFlight: the getters of single entries and the other plain getters and setters of the player.
- ClientConnect: ids outside 0 to 63, for which the shift overflows, and true multi-threaded interleavings of the separate
  load and store of the mask.
- OnServerCommand: text with an interior NUL, which the engine wrapper drops later, and the formatting of the C varargs.
- PatternSearch: memory is total; reading unmapped memory is not modelled, nor an overflow of addresses.
- PatchByMask: page boundaries; the protection of the whole patch is lifted or not.
- The ZeroMQ clients, the terminal, logging, the command line, the database, entities, items and votes.
