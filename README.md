# simple-chat server: membership store and command dispatch

This project models the core of `server.c`, a single-file, select-based chat
server in C, and proves properties of that model in Dafny. The core has two
parts.

- **Room membership store** (`server.dfy`, module `ChatServer`). A `User`
  (`user_t`) has a descriptor, a name and a back-pointer to its room. A
  `Room` (`room_t`) has a capacity `max`, a fill count `top` and a fixed
  array of user pointers. The ghost sequence `Members` is the array up to
  `top`. `AddUser` appends to a room that is not full. `RemoveUser`
  swap-removes the first member with a given descriptor. The `Server` class
  holds the source's globals:
  - the lobby `serv_room`, which every connection joins, the listener
    pseudo-user included;
  - the four named rooms `rooms[1..4]`, each of capacity 8;
  - the listener;
  - an outbox that stands in for the network. Every `send(fd, text)` becomes
    a `Packet(fd, text)` appended to it.

  `Close` is the membership part of `close_con`.
- **Command classification and dispatch** (`commands.dfy`, module `Commands`,
  and the dispatch methods of `Server`).
  - The `sscanf("%100s")` scanner is `ScanWord`: it skips white space, then
    reads at most 100 non-space characters.
  - The exact `strcmp` search of `commands[]` is `Lookup`, and `Classify` is
    the value `handle_message` returns.
  - The `!help` and `!welcome` replies are fixed strings.
  - `Route` and `Respond` state what a line does: what is sent and what the
    sender's name becomes. `Server.HandleMessage` is proved to do exactly
    that.

A C string is modelled as the sequence of its characters before the
terminating NUL. `realloc` failing in `command_nick` is modelled by the
parameter `allocFails`, the allocator's answer.

The model follows `server.c` as written, which differs from a typical chat
server in four ways:
- a broadcast line is sent raw, not prefixed with `"<name>: "`;
- a line from a user in the lobby is silently dropped, with no "join a room"
  reply;
- there is no room transfer and no `!list` reply: `!room` and `!list` are
  recognised but do nothing;
- the welcome text carries the literal `%d` instead of a room count.

## Model

| member | source | states |
|---|---|---|
| ChatServer.User.constructor | server.c:71-86 | `new_user`: the descriptor given, the name "anonymous", and no room |
| ChatServer.Room.constructor | server.c:421-426 | an empty room of the given capacity, with its own fresh array of that size |
| ChatServer.Room.AddUser | server.c:88-97 | a full room returns -1, and the count, members, array and the user's room are unchanged; otherwise the user goes into slot `top`, the count grows by exactly one, the user's room is this room, the new count is returned, and `top <= max` is kept |
| ChatServer.Room.RemoveUser | server.c:99-110 | the members become `RemoveFd(old members, fd)`; with `fd` absent it returns -1 and the count and array are unchanged; with `fd` present the count drops by one, the new count is returned, and the first matching member's room is null; every other member, a later one with the same descriptor included, keeps its room |
| ChatServer.RemoveFd | server.c:99-110 | the members after `remove_user`: unchanged exactly when no member has the descriptor, otherwise one member fewer |
| ChatServer.IndexOfMember | server.c:101-102 | with distinct descriptors, the search for a member's descriptor stops at that very member |
| ChatServer.IndexOfFd | server.c:101-102 | the search loop: the first position whose descriptor is `fd` (no earlier one matches), or -1 exactly when no member has it |
| ChatServer.SwapRemove | server.c:104 | overwriting a slot with the last member and shrinking the count leaves one member fewer |
| ChatServer.SwapRemoveSlots | server.c:104 | after swap-removal every slot but `k` is unchanged, and slot `k` holds the former last member |
| ChatServer.SwapRemovePermutes | server.c:103-106 | swap-removal takes away exactly the member at `k`: the remaining members are unchanged as a multiset |
| ChatServer.RemoveFdEffect | server.c:99-110 | removing an absent descriptor changes nothing; removing a present one leaves one member fewer, the others unchanged as a multiset |
| ChatServer.SwapRemoveKeepsUnique | server.c:103-106 | swap-removal keeps descriptors pairwise distinct |
| ChatServer.RemoveFdIsComplete | server.c:101-109 | with distinct descriptors, after a removal no member has that descriptor, the descriptors stay distinct, and a second removal of the same descriptor is a no-op |
| ChatServer.AppendKeepsUnique | server.c:93-94 | appending a user whose descriptor is absent keeps descriptors distinct |
| ChatServer.Server.constructor | server.c:409-426 | start-up: the lobby (capacity 41) holds only the listener, which is named "server" and whose room is the lobby; four empty named rooms of capacity 8, all distinct with distinct arrays; an empty outbox |
| ChatServer.NewRooms | server.c:421-426 | the start-up loop yields `n` fresh, empty named rooms of capacity 8, pairwise distinct and with pairwise distinct arrays |
| ChatServer.Server.Connect | server.c:372 | a new connection (whose descriptor, coming from `accept`, is not already open in the lobby) is a fresh "anonymous" user appended to the lobby with its room set to the lobby, or, when the lobby is full, -1 with the lobby unchanged and the user in no room; the lobby's descriptors stay distinct |
| ChatServer.Server.Close | server.c:153-156 | the lobby's members and, for a user in a named room, that room's members become `RemoveFd(old, fd)`; the descriptor is no longer in the lobby, nor in the named room when that room's descriptors were distinct; a user that was in the lobby is left with no room; every lobby member with another descriptor keeps its room, and so does every member of the named room that is not in the lobby and is not the one removed from it; every other named room is unchanged; the server invariant (distinct lobby descriptors included) holds |
| ChatServer.Server.LeaveNamedRoom | server.c:153-154 | the named room's members become `RemoveFd(old, fd)`, with the descriptor gone when they were distinct; every member but the first with that descriptor keeps its room; the lobby and every other named room are unchanged; the server invariant holds |
| ChatServer.Server.OthersUnaffected | server.c:153-154 | removal from one named room leaves the lobby and every other named room, and the server invariant, as they were |
| ChatServer.Server.Send | server.c:309 | `send` appends exactly one packet for that descriptor and text to the outbox |
| ChatServer.Server.CommandWelcome | server.c:215-228 | `!welcome` sends the fixed welcome text to the sender only |
| ChatServer.Server.CommandHelp | server.c:253-281 | `!help` sends the help text to the sender only |
| ChatServer.Server.CommandNick | server.c:230-246 | a longer name that cannot be allocated returns 1 and changes neither the name nor the outbox; otherwise the name becomes the new nick, the confirmation is sent to the sender, and 0 is returned |
| ChatServer.Server.SendToRoom | server.c:307-310 | the raw line is sent once to each member of the room, in array order, the sender included |
| ChatServer.Server.Dispatch | server.c:305-335 | the outbox and the sender's name change exactly as `Route` prescribes for the classification |
| ChatServer.Server.HandleMessage | server.c:283-338 | returns `Classify(msg)`; the outbox and the sender's name change exactly as `Respond` prescribes |
| ChatServer.MatchCommand | server.c:298-302 | the table loop returns the first index whose entry equals the token, else `NOTCMD` |
| ChatServer.Broadcast | server.c:307-310 | the packets of the broadcast loop: one per member of the room |
| ChatServer.Route | server.c:305-335 | the `switch` for a non-empty line: the name changes only through `!nick`, to its non-empty argument, and never in the lobby; a command, or any line in the lobby, sends at most one packet and only to the sender; an ordinary line in a named room sends one packet per member |
| ChatServer.Respond | server.c:283-338 | the whole effect of a line: the empty line does nothing; the name changes only through `!nick` from a named room, to its non-empty argument; anything but an ordinary line from a named room sends at most one packet, to the sender |
| ChatServer.BroadcastReachesEachMember | server.c:308-309 | the broadcast's i-th packet goes to the i-th member and carries the unmodified line |
| ChatServer.LobbyIsSilent | server.c:305 | a sender in the lobby causes no send and keeps its name, whatever the line |
| ChatServer.PlainLineIsBroadcast | server.c:305-312 | a plain line, or an unknown `!` token, from a named room goes once to each member in array order, the sender included, unprefixed; the name is kept |
| ChatServer.NickEffect | server.c:318-326 | `!nick` with no argument sends "Missed argument: 'newnick'.\n" and keeps the name; otherwise the name becomes the argument (1 to 100 characters, no white space) and the confirmation is sent, or nothing happens when a longer name cannot be allocated |
| ChatServer.NickLineRenames | server.c:318-326 | `!nick <word>\n` renames the sender to `<word>` with a confirmation, and repeating it yields the same name and reply |
| ChatServer.RoomAndListDoNothing | server.c:333 | `!room` and `!list` send nothing and change nothing, in the lobby or not |
| Commands.SkipSpace | server.c:295 | what is left after the leading white space: a suffix of the input, every skipped character is white space, and it starts with a non-space character or is empty |
| Commands.TakeWord | server.c:295 | a prefix of the input of at most `cap` characters with no white space, which stops only at the cap, at the end or before white space |
| Commands.ScanWord | server.c:295 | the `%100s` token has at most 100 characters and no white space, and it is empty exactly when the input is all white space |
| Commands.LookupFrom | server.c:298-302 | from position `i` on, the first table index whose entry equals the token, or `NOTCMD` exactly when there is none |
| Commands.Lookup | server.c:298-302 | `NOTCMD` exactly when the token is not in the table; otherwise an index in `0..4` whose entry equals the token |
| Commands.Classify | server.c:285-303 | an empty line gives -1 and only an empty line does; a line not starting with `!` gives `NOTCMD`; a `!` line gives the index of its first token in the table, or `NOTCMD` |
| Commands.Argument | server.c:294-319 | the second `%100s` token, read from just after the command token: at most 100 characters, no white space (its position is stated by `ArgumentFollowsCommand`) |
| Commands.CommandTokenIsPrefix | server.c:294-295 | a `!` line's token is its longest space-free prefix, capped at 100, and starts with `!` |
| Commands.ArgumentFollowsCommand | server.c:294-319 | a recognised command line begins with the command name followed by white space or its end, and the argument is the first token of what follows |
| Commands.TakeWordWhole | server.c:295 | a space-free string within the cap is read whole |
| Commands.TakeWordStopsAtSpace | server.c:295 | reading stops at the first white space after a space-free word within the cap |
| Commands.CommandLineClassifies | server.c:294-303 | a command name followed by white space or nothing classifies as that command, and its argument is the first token of the rest |
| Commands.ScanSpacedWord | server.c:319 | a space-free word after one blank is scanned whole |
| Commands.NickLineArgument | server.c:294-319 | `!nick <word>` classifies as `!nick` with argument `<word>` |
| Commands.NoNameExtendsAnother | server.c:58-64 | no command name is a proper prefix of another |
| Commands.ExactMatchOnly | server.c:299 | matching is exact: any command name with more non-blank characters glued on (`!nickname`, `!help2`), within 100 characters, is an ordinary line |
| Commands.CaseSensitiveMatch | server.c:299 | matching is case-sensitive: `!Help` is an ordinary line |
| Commands.LeadingSpaceIsNotCommand | server.c:285-294 | three sample lines: `" !help"` (a blank before the `!`) and `"hello\n"` are ordinary lines, and `""` is -1 (the general rule is `Classify`'s contract) |
| Commands.RepliesFitBuffer | server.c:217-271 | the help, welcome and `!nick` replies, with their NUL, fit the 2048-byte reply buffer |
| Commands.HelpLine | server.c:257-275 | a help line exists exactly for `!welcome`, `!nick` and `!help`; each opens with a quote and ends with a newline |
| Commands.HelpFrom | server.c:256-276 | the help lines from entry `i` on: empty exactly past `!help`, otherwise opening with a quote and ending with a newline |
| Commands.HelpText | server.c:256-278 | the `!help` reply: the header, then at least one help line, opening with a quote |
| Commands.HelpSkipsUndocumented | server.c:257-275 | `!room` and `!list` get no help line |
| Commands.HelpListsDocumentedCommands | server.c:256-276 | the help text is the header followed by the `!welcome`, `!nick` and `!help` lines, in table order |
| Commands.HelpLinesNameTheirCommand | server.c:259-272 | each help line opens with the quoted name of the command it documents |

## Left out

- Socket setup (`get_serv_socket`, `get_in_addr`, `accept_con`) and the `select` loop of `main` and `main_loop` are not modelled: they are transport I/O and readiness polling. `Connect` models only the lobby registration in the loop body.
- The swap-remove during `main_loop`'s iteration over the lobby, which can skip a member, is part of that loop and is not modelled.
- `close(fd)`, `free(user)` and `FD_CLR` in `close_con`, and `end_server`, are resource release. The source uses `user` after `free`.
- The logging in `close_con` (`printf`/`perror`) and in the broadcast's failing `send` is not modelled; a send is not modelled as able to fail.
- The `malloc`/`strdup` failure paths of `new_user` and of start-up are allocator behaviour: the model's allocations always succeed.
- `command_room` is an empty stub that nothing calls, and `!list` has no handler. Room transfer and its rollback do not exist in the source.
- Line 41 defines `MAXUSERS` in terms of itself. The model takes the evident `NROOMS * ROOMUSERS + 1` = 41, as its "+1 for listener" comment says.
- `serv_room` is an uninitialised pointer in the source. The model gives the lobby its own room object.
- `rooms[0]` is never initialised, and `room_t.name` is never set. Neither is modelled.
- The welcome text is sent as the constant the source copies, literal `%d` included. `command_help` `sprintf`s into its own buffer; the model treats that as string append.
- Integer widths do not matter: counts stay below 41 and descriptors are compared, never computed. Characters are Unicode code points rather than bytes, with no encoding.
- ChatServer.Server.Close: the descriptor is shown gone from a named room only when that room's descriptors were distinct, and the closed user is shown to have no room only when it was in the lobby. `add_user` never checks for duplicates, and nothing adds users to named rooms, so no invariant is kept for them; with a duplicate only the first copy is removed.
- Commands.Classify: a model string may hold the character NUL, which no C string does before its terminator; such strings stand for no line the server can receive, and the model does not rule them out.
