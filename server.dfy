/**
 * The room-membership store and the message dispatcher of the chat server
 * (server.c). Users and rooms are objects updated in place, as in the
 * source; `send` is an append of a packet to the server's outbox.
 */
module ChatServer {
  import opened Commands

  const NRooms := 5
  const RoomUsers := 8
  /** Capacity of the lobby: `NROOMS * ROOMUSERS + 1`, the "+1" being the listener. */
  const MaxUsers := NRooms * RoomUsers + 1

  /** One `send(fd, text, strlen(text), 0)` call. */
  datatype Packet = Packet(fd: int, text: string)

  /** A connection (`user_t`). */
  class User {
    const fd: int
    var name: string
    var room: Room?

    /** `new_user`: a user named "anonymous" that belongs to no room yet. */
    constructor (fd: int)
      ensures this.fd == fd && name == "anonymous" && room == null
    {
      this.fd := fd;
      name := "anonymous";
      room := null;
    }
  }

  /* ---------- specification of the membership array ---------- */

  /** Position of the first member whose descriptor is `fd`, or -1 when there is none. */
  function IndexOfFd(s: seq<User>, fd: int): (k: int)
    ensures -1 <= k < |s|
    ensures k >= 0 ==> s[k].fd == fd && forall j :: 0 <= j < k ==> s[j].fd != fd
    ensures k == -1 ==> forall j :: 0 <= j < |s| ==> s[j].fd != fd
  {
    if |s| == 0 then -1
    else if s[0].fd == fd then 0
    else
      var k := IndexOfFd(s[1..], fd);
      if k == -1 then -1 else k + 1
  }

  /** The members after slot `k` is overwritten with the last member and the count shrinks by one. */
  function SwapRemove(s: seq<User>, k: nat): (r: seq<User>)
    requires k < |s|
    ensures |r| == |s| - 1
  {
    s[k := s[|s| - 1]][..|s| - 1]
  }

  /** The members after `remove_user(room, fd)`. */
  function RemoveFd(s: seq<User>, fd: int): (r: seq<User>)
    ensures r == s <==> IndexOfFd(s, fd) == -1
    ensures IndexOfFd(s, fd) >= 0 ==> |r| == |s| - 1
  {
    var k := IndexOfFd(s, fd);
    if k == -1 then s else SwapRemove(s, k)
  }

  /** `u` is the member that `remove_user` takes out: the first one whose descriptor is `fd`. */
  predicate RemovedBy(s: seq<User>, fd: int, u: User) {
    var k := IndexOfFd(s, fd);
    k >= 0 && s[k] == u
  }

  /** No two members share a descriptor. */
  predicate UniqueFds(s: seq<User>) {
    forall i, j :: 0 <= i < j < |s| ==> s[i].fd != s[j].fd
  }

  /** Swap-removal keeps every slot but `k`, which receives the former last member. */
  lemma SwapRemoveSlots(s: seq<User>, k: nat)
    requires k < |s|
    ensures forall j :: 0 <= j < |s| - 1 && j != k ==> SwapRemove(s, k)[j] == s[j]
    ensures k < |s| - 1 ==> SwapRemove(s, k)[k] == s[|s| - 1]
  {
  }

  /** Swap-removal drops exactly the member at `k` and keeps every other member. */
  lemma SwapRemovePermutes(s: seq<User>, k: nat)
    requires k < |s|
    ensures multiset(SwapRemove(s, k)) == multiset(s) - multiset{s[k]}
  {
    var n := |s|;
    var r := SwapRemove(s, k);
    var last := s[n - 1];
    if k == n - 1 {
      assert r == s[..n - 1];
      assert s == s[..n - 1] + [last];
    } else {
      var front, mid := s[..k], s[k + 1..n - 1];
      assert s == front + [s[k]] + mid + [last];
      SwapRemoveSlots(s, k);
      assert r == front + [last] + mid;
      assert multiset(s) == multiset(front) + multiset{s[k]} + multiset(mid) + multiset{last};
      assert multiset(r) == multiset(front) + multiset{last} + multiset(mid);
    }
  }

  /** Removing a present descriptor shrinks the members by one; an absent one changes nothing. */
  lemma RemoveFdEffect(s: seq<User>, fd: int)
    ensures IndexOfFd(s, fd) == -1 ==> RemoveFd(s, fd) == s
    ensures IndexOfFd(s, fd) >= 0 ==>
              |RemoveFd(s, fd)| == |s| - 1 &&
              multiset(RemoveFd(s, fd)) == multiset(s) - multiset{s[IndexOfFd(s, fd)]}
  {
    if IndexOfFd(s, fd) >= 0 {
      SwapRemovePermutes(s, IndexOfFd(s, fd));
    }
  }

  /** Swap-removal keeps descriptors unique. */
  lemma SwapRemoveKeepsUnique(s: seq<User>, k: nat)
    requires k < |s| && UniqueFds(s)
    ensures UniqueFds(SwapRemove(s, k))
  {
    var r := SwapRemove(s, k);
    SwapRemoveSlots(s, k);
    forall i, j | 0 <= i < j < |r|
      ensures r[i].fd != r[j].fd
    {
      var i' := if i == k then |s| - 1 else i;
      var j' := if j == k then |s| - 1 else j;
      assert r[i] == s[i'] && r[j] == s[j'];
    }
  }

  /** When descriptors are unique, removing one leaves no member with it: a second removal is a no-op. */
  lemma RemoveFdIsComplete(s: seq<User>, fd: int)
    requires UniqueFds(s)
    ensures IndexOfFd(RemoveFd(s, fd), fd) == -1
    ensures UniqueFds(RemoveFd(s, fd))
    ensures RemoveFd(RemoveFd(s, fd), fd) == RemoveFd(s, fd)
  {
    var k := IndexOfFd(s, fd);
    if k >= 0 {
      var r := SwapRemove(s, k);
      SwapRemoveSlots(s, k);
      SwapRemoveKeepsUnique(s, k);
      forall j | 0 <= j < |r|
        ensures r[j].fd != fd
      {
        var j' := if j == k then |s| - 1 else j;
        assert r[j] == s[j'] && j' != k;
      }
    }
  }

  /** When descriptors are unique, the search for a member's descriptor finds that very member. */
  lemma IndexOfMember(s: seq<User>, u: User)
    requires UniqueFds(s) && u in s
    ensures 0 <= IndexOfFd(s, u.fd) && s[IndexOfFd(s, u.fd)] == u
  {
    var m :| 0 <= m < |s| && s[m] == u;
    var k := IndexOfFd(s, u.fd);
    assert k != -1 by {
      assert s[m].fd == u.fd;
    }
    assert !(k < m) by {
      assert UniqueFds(s);
    }
  }

  /** Appending a user whose descriptor is absent keeps descriptors unique. */
  lemma AppendKeepsUnique(s: seq<User>, u: User)
    requires UniqueFds(s) && IndexOfFd(s, u.fd) == -1
    ensures UniqueFds(s + [u])
  {
  }

  /** A room (`room_t`): a fill count over a fixed-size array of user pointers. */
  class Room {
    const max: nat
    const users: array<User?>
    var top: nat
    /** The members, in array order: `users[0 .. top - 1]`. */
    ghost var Members: seq<User>

    ghost predicate Valid()
      reads this, users
    {
      users.Length == max && top <= max && |Members| == top &&
      forall i :: 0 <= i < top ==> users[i] == Members[i]
    }

    /** An empty room of capacity `max` with its own freshly allocated array. */
    constructor (max: nat)
      ensures Valid() && fresh(users)
      ensures this.max == max && top == 0 && Members == []
    {
      this.max := max;
      users := new User?[max];
      top := 0;
      Members := [];
    }

    /**
     * `add_user`: on a full room, -1 and nothing changes; otherwise `user`
     * goes into slot `top`, the count grows by one, the user's back-pointer
     * is this room, and the new count is returned.
     */
    method AddUser(user: User) returns (r: int)
      requires Valid()
      modifies this, users, user`room
      ensures Valid()
      ensures old(top) >= max ==>
                r == -1 && top == old(top) && Members == old(Members) &&
                unchanged(users) && user.room == old(user.room)
      ensures old(top) < max ==>
                r == top == old(top) + 1 && Members == old(Members) + [user] &&
                users[..] == old(users[..])[old(top) := user] && user.room == this
    {
      if top >= max {
        return -1;
      }
      user.room := this;
      users[top] := user;
      top := top + 1;
      Members := Members + [user];
      r := top;
    }

    /**
     * `remove_user`: the first member whose descriptor is `fd` loses its
     * back-pointer and its slot is overwritten with the last member; the new
     * count is returned. With no such member, -1 and nothing changes.
     */
    method RemoveUser(fd: int) returns (r: int)
      requires Valid()
      modifies this, users, (set u | u in Members)`room
      ensures Valid()
      ensures Members == RemoveFd(old(Members), fd)
      ensures IndexOfFd(old(Members), fd) == -1 ==>
                r == -1 && top == old(top) && unchanged(users)
      ensures IndexOfFd(old(Members), fd) >= 0 ==>
                r == top == old(top) - 1 &&
                old(Members)[IndexOfFd(old(Members), fd)].room == null
      ensures forall u :: u in old(Members) && !RemovedBy(old(Members), fd, u) ==> u.room == old(u.room)
    {
      var i := 0;
      while i < top && users[i].fd != fd
        invariant 0 <= i <= top
        invariant forall j :: 0 <= j < i ==> Members[j].fd != fd
      {
        i := i + 1;
      }
      if i == top {
        return -1;
      }
      users[i].room := null;
      top := top - 1;
      users[i] := users[top];
      Members := SwapRemove(Members, i);
      r := top;
    }
  }

  /** The effect of one incoming line: what is sent, and the sender's name afterwards. */
  datatype Effect = Effect(sent: seq<Packet>, name: string)

  /** One packet carrying `text` to each member, in array order. */
  function Broadcast(members: seq<User>, text: string): (r: seq<Packet>)
    ensures |r| == |members|
  {
    if members == [] then []
    else Broadcast(members[..|members| - 1], text) + [Packet(members[|members| - 1].fd, text)]
  }

  /**
   * The routing `switch` of `handle_message` for a non-empty line classified
   * `cmd`, sent by the user with descriptor `fd` and name `name`, whose room
   * is the lobby when `inLobby` and otherwise has members `members`;
   * `allocFails` is the allocator's answer should `!nick` need a longer name
   * buffer.
   */
  function Route(cmd: int, msg: string, fd: int, name: string, inLobby: bool, members: seq<User>,
                 allocFails: bool): (r: Effect)
    ensures r.name == name || (cmd == CmdNick && !inLobby && r.name == Argument(msg) && r.name != [])
    ensures cmd != NotCmd || inLobby ==> |r.sent| <= 1 && forall p :: p in r.sent ==> p.fd == fd
    ensures cmd == NotCmd && !inLobby ==> |r.sent| == |members|
  {
    if inLobby then Effect([], name)
    else if cmd == NotCmd then Effect(Broadcast(members, msg), name)
    else if cmd == CmdWelcome then Effect([Packet(fd, WelcomeText)], name)
    else if cmd == CmdNick then
      var arg := Argument(msg);
      if arg == [] then Effect([Packet(fd, NickMissing)], name)
      else if |arg| > |name| && allocFails then Effect([], name)
      else Effect([Packet(fd, NickChanged)], arg)
    else if cmd == CmdHelp then Effect([Packet(fd, HelpText())], name)
    else Effect([], name)
  }

  /** What `handle_message` does for the line `msg`: nothing for the empty line, else the routing of its class. */
  function Respond(msg: string, fd: int, name: string, inLobby: bool, members: seq<User>,
                   allocFails: bool): (r: Effect)
    ensures msg == [] ==> r == Effect([], name)
    ensures r.name == name || (Classify(msg) == CmdNick && !inLobby && r.name == Argument(msg) && r.name != [])
    ensures Classify(msg) != NotCmd || inLobby ==> |r.sent| <= 1 && forall p :: p in r.sent ==> p.fd == fd
  {
    var cmd := Classify(msg);
    if cmd == Empty then Effect([], name)
    else Route(cmd, msg, fd, name, inLobby, members, allocFails)
  }

  /** The broadcast reaches every member once, in array order, with the line unmodified. */
  lemma {:induction false} BroadcastReachesEachMember(members: seq<User>, text: string)
    ensures forall i :: 0 <= i < |members| ==> Broadcast(members, text)[i] == Packet(members[i].fd, text)
  {
    if members != [] {
      var init := members[..|members| - 1];
      BroadcastReachesEachMember(init, text);
      assert forall i :: 0 <= i < |init| ==> init[i] == members[i];
    }
  }

  /** A sender in the lobby causes no send at all and keeps its name, whatever the line. */
  lemma LobbyIsSilent(msg: string, fd: int, name: string, members: seq<User>, allocFails: bool)
    ensures Respond(msg, fd, name, true, members, allocFails) == Effect([], name)
  {
  }

  /**
   * A plain line (or an unknown '!' command) from a sender in a named room
   * goes, unmodified and not prefixed, once to each member, the sender
   * included.
   */
  lemma PlainLineIsBroadcast(msg: string, sender: User, members: seq<User>, allocFails: bool)
    requires Classify(msg) == NotCmd
    requires sender in members
    ensures var e := Respond(msg, sender.fd, sender.name, false, members, allocFails);
            e.name == sender.name && |e.sent| == |members| &&
            (forall i :: 0 <= i < |members| ==> e.sent[i] == Packet(members[i].fd, msg)) &&
            Packet(sender.fd, msg) in e.sent
  {
    BroadcastReachesEachMember(members, msg);
    var i :| 0 <= i < |members| && members[i] == sender;
    assert Broadcast(members, msg)[i] == Packet(sender.fd, msg);
  }

  /**
   * `!nick` from a named room: without an argument, a usage error and the
   * name is kept; otherwise the name becomes the argument (at most 100
   * characters, no white space) and a confirmation is sent, unless a longer
   * name could not be allocated, in which case nothing happens.
   */
  lemma NickEffect(msg: string, fd: int, name: string, members: seq<User>, allocFails: bool)
    requires Classify(msg) == CmdNick
    ensures var e := Respond(msg, fd, name, false, members, allocFails);
            var arg := Argument(msg);
            (arg == [] ==> e == Effect([Packet(fd, NickMissing)], name)) &&
            (arg != [] && (|arg| <= |name| || !allocFails) ==>
               e == Effect([Packet(fd, NickChanged)], arg) &&
               0 < |e.name| <= TokenCap && NoSpace(e.name)) &&
            (arg != [] && |arg| > |name| && allocFails ==> e == Effect([], name))
  {
  }

  /**
   * `!nick <word>` from a named room renames the sender to `<word>` and
   * confirms it, unless `<word>` is longer than the current name and the
   * allocator refuses; a second `!nick` with the same word changes nothing
   * further.
   */
  lemma NickLineRenames(word: string, fd: int, name: string, members: seq<User>, allocFails: bool)
    requires word != [] && NoSpace(word) && |word| <= TokenCap
    requires |word| <= |name| || !allocFails
    ensures var e := Respond(Table[CmdNick] + " " + word + "\n", fd, name, false, members, allocFails);
            e == Effect([Packet(fd, NickChanged)], word) &&
            Respond(Table[CmdNick] + " " + word + "\n", fd, e.name, false, members, allocFails) == e
  {
    NickLineArgument(word, "\n");
  }

  /** `!room` and `!list` are recognised but do nothing. */
  lemma RoomAndListDoNothing(msg: string, fd: int, name: string, inLobby: bool, members: seq<User>,
                             allocFails: bool)
    requires Classify(msg) == CmdRoom || Classify(msg) == CmdList
    ensures Respond(msg, fd, name, inLobby, members, allocFails) == Effect([], name)
  {
  }

  /** The `strcmp` loop of `handle_message` over the command table: the first matching index, else `NotCmd`. */
  method MatchCommand(tok: string) returns (cmd: int)
    ensures cmd == Lookup(tok)
  {
    cmd := NotCmd;
    var i := 0;
    while i < NCmd
      invariant 0 <= i <= NCmd
      invariant LookupFrom(tok, 0) == LookupFrom(tok, i)
    {
      if tok == Table[i] {
        return i;
      }
      i := i + 1;
    }
  }

  /** The start-up loop over the named rooms: `n` empty rooms of capacity `RoomUsers`, each with its own array. */
  method NewRooms(n: nat) returns (rooms: seq<Room>)
    ensures |rooms| == n
    ensures forall i :: 0 <= i < n ==>
              fresh(rooms[i]) && fresh(rooms[i].users) && rooms[i].Valid() &&
              rooms[i].max == RoomUsers && rooms[i].Members == []
    ensures forall i, j :: 0 <= i < j < n ==> rooms[i] != rooms[j] && rooms[i].users != rooms[j].users
  {
    rooms := [];
    while |rooms| < n
      invariant |rooms| <= n
      invariant forall i :: 0 <= i < |rooms| ==>
                  fresh(rooms[i]) && fresh(rooms[i].users) && rooms[i].Valid() &&
                  rooms[i].max == RoomUsers && rooms[i].Members == []
      invariant forall i, j :: 0 <= i < j < |rooms| ==> rooms[i] != rooms[j] && rooms[i].users != rooms[j].users
    {
      var r := new Room(RoomUsers);
      rooms := rooms + [r];
    }
  }

  /** The global state: the lobby `serv_room`, the named rooms, the listener, and the outbox. */
  class Server {
    /** `serv_room`: every connection, the listener included. */
    const lobby: Room
    /** The named rooms `rooms[1]` .. `rooms[NROOMS - 1]`. */
    const rooms: seq<Room>
    /** The listening socket's pseudo-user. */
    const listener: User
    /** Every packet sent so far, in order. */
    var outbox: seq<Packet>

    ghost predicate Valid()
      reads this, lobby, lobby.users, set r | r in rooms, set r | r in rooms :: r.users
    {
      lobby.Valid() && lobby.max == MaxUsers && UniqueFds(lobby.Members) &&
      |rooms| == NRooms - 1 &&
      (forall i :: 0 <= i < |rooms| ==>
         rooms[i].Valid() && rooms[i].max == RoomUsers &&
         rooms[i] != lobby && rooms[i].users != lobby.users) &&
      (forall i, j :: 0 <= i < j < |rooms| ==> rooms[i] != rooms[j] && rooms[i].users != rooms[j].users)
    }

    /**
     * Start-up: an empty lobby of capacity `MaxUsers` holding only the
     * listener (named "server"), and `NRooms - 1` empty named rooms of
     * capacity `RoomUsers`.
     */
    constructor (listenFd: int)
      ensures Valid() && outbox == []
      ensures lobby.Members == [listener] && listener.fd == listenFd
      ensures listener.name == "server" && listener.room == lobby
      ensures forall i :: 0 <= i < |rooms| ==> rooms[i].Members == []
    {
      var l := new Room(MaxUsers);
      var u := new User(listenFd);
      u.name := "server";
      var _ := l.AddUser(u);
      var named := NewRooms(NRooms - 1);
      lobby := l;
      rooms := named;
      listener := u;
      outbox := [];
    }

    /**
     * A new connection `fd` (from `accept`) is registered in the lobby, if it
     * has room; `accept` never hands out a descriptor that is still open.
     */
    method Connect(fd: int) returns (user: User, r: int)
      requires Valid()
      requires IndexOfFd(lobby.Members, fd) == -1
      modifies lobby, lobby.users
      ensures Valid() && fresh(user) && user.fd == fd && user.name == "anonymous"
      ensures old(lobby.top) < lobby.max ==> r == lobby.top && lobby.Members == old(lobby.Members) + [user] && user.room == lobby
      ensures old(lobby.top) >= lobby.max ==> r == -1 && lobby.Members == old(lobby.Members) && user.room == null
    {
      user := new User(fd);
      AppendKeepsUnique(lobby.Members, user);
      r := lobby.AddUser(user);
    }

    /**
     * The membership part of `close_con`: the user leaves its named room
     * (unless its room is the lobby) and then the lobby.
     */
    method Close(user: User)
      requires Valid()
      requires user.room == lobby || user.room in rooms
      modifies lobby, lobby.users, (set u | u in lobby.Members)`room
      modifies user.room, user.room.users, (set u | u in user.room.Members)`room
      ensures Valid()
      ensures lobby.Members == RemoveFd(old(lobby.Members), user.fd)
      ensures old(user.room) != lobby ==>
                old(user.room).Members == RemoveFd(old(user.room.Members), user.fd)
      ensures IndexOfFd(lobby.Members, user.fd) == -1
      ensures old(user.room) != lobby && old(UniqueFds(user.room.Members)) ==>
                IndexOfFd(old(user.room).Members, user.fd) == -1
      ensures forall r :: r in rooms && r != old(user.room) ==> r.Members == old(r.Members)
      ensures user in old(lobby.Members) ==> user.room == null
      ensures forall u :: u in old(lobby.Members) && u.fd != user.fd ==> u.room == old(u.room)
      ensures old(user.room) != lobby ==>
                forall u :: u in old(user.room.Members) && u.fd != user.fd ==> u.room == old(u.room)
      ensures old(user.room) != lobby ==>
                forall u :: (u in old(user.room.Members) && u !in old(lobby.Members) &&
                             !RemovedBy(old(user.room.Members), user.fd, u)) ==> u.room == old(u.room)
    {
      ghost var inLobby := lobby.Members;
      RemoveFdIsComplete(inLobby, user.fd);
      if user in inLobby {
        IndexOfMember(inLobby, user);
      }
      var room := user.room;
      if room != lobby {
        LeaveNamedRoom(room, user.fd);
      }
      label leftRoom:
      var _ := lobby.RemoveUser(user.fd);
      assert forall r :: r in rooms ==> r.Members == old@leftRoom(r.Members) && r.Valid();
    }

    /**
     * The first step of `close_con` for a user in a named room: `fd` leaves
     * that room, and nothing else in the server changes.
     */
    method LeaveNamedRoom(room: Room, fd: int)
      requires Valid() && room in rooms
      modifies room, room.users, (set u | u in room.Members)`room
      ensures Valid()
      ensures room.Members == RemoveFd(old(room.Members), fd)
      ensures old(UniqueFds(room.Members)) ==> IndexOfFd(room.Members, fd) == -1
      ensures lobby.Members == old(lobby.Members)
      ensures forall r :: r in rooms && r != room ==> r.Members == old(r.Members)
      ensures forall u :: u in old(room.Members) && !RemovedBy(old(room.Members), fd, u) ==> u.room == old(u.room)
    {
      var _ := room.RemoveUser(fd);
      OthersUnaffected(room);
      if old(UniqueFds(room.Members)) {
        RemoveFdIsComplete(old(room.Members), fd);
      }
    }

    /** A removal from one named room leaves the lobby and every other named room as they were. */
    twostate lemma OthersUnaffected(room: Room)
      requires old(Valid()) && room in rooms && room.Valid()
      requires unchanged(lobby, lobby.users)
      requires forall r :: r in rooms && r != room ==> unchanged(r, r.users)
      ensures Valid()
      ensures lobby.Members == old(lobby.Members)
      ensures forall r :: r in rooms && r != room ==> r.Members == old(r.Members)
    {
    }

    /** `send` to one descriptor. */
    method Send(fd: int, text: string)
      modifies this`outbox
      ensures outbox == old(outbox) + [Packet(fd, text)]
    {
      outbox := outbox + [Packet(fd, text)];
    }

    /** `command_welcome`: the fixed welcome text to the user. */
    method CommandWelcome(user: User)
      modifies this`outbox
      ensures outbox == old(outbox) + [Packet(user.fd, WelcomeText)]
    {
      Send(user.fd, WelcomeText);
    }

    /** `command_help`: the help text to the user. */
    method CommandHelp(user: User)
      modifies this`outbox
      ensures outbox == old(outbox) + [Packet(user.fd, HelpText())]
    {
      Send(user.fd, HelpText());
    }

    /**
     * `command_nick`: when the new name is longer than the current one and
     * the allocator refuses a larger buffer, 1 and nothing changes; otherwise
     * the name is replaced, a confirmation is sent, and 0 is returned.
     */
    method CommandNick(user: User, newnick: string, allocFails: bool) returns (r: int)
      modifies this`outbox, user`name
      ensures |newnick| > old(|user.name|) && allocFails ==>
                r == 1 && user.name == old(user.name) && outbox == old(outbox)
      ensures !(|newnick| > old(|user.name|) && allocFails) ==>
                r == 0 && user.name == newnick && outbox == old(outbox) + [Packet(user.fd, NickChanged)]
    {
      if |newnick| > |user.name| && allocFails {
        return 1;
      }
      user.name := newnick;
      Send(user.fd, NickChanged);
      r := 0;
    }

    /** The `NOTCMD` branch of `handle_message`: the line to every member of `room`, in array order. */
    method SendToRoom(room: Room, text: string)
      requires room.Valid()
      modifies this`outbox
      ensures outbox == old(outbox) + Broadcast(room.Members, text)
    {
      var i := 0;
      while i < room.top
        invariant 0 <= i <= room.top
        invariant outbox == old(outbox) + Broadcast(room.Members[..i], text)
      {
        assert room.Members[..i + 1][..i] == room.Members[..i];
        Send(room.users[i].fd, text);
        i := i + 1;
      }
      assert room.Members[..room.top] == room.Members;
    }

    /** The routing `switch` of `handle_message`, run only when the sender is not in the lobby. */
    method Dispatch(user: User, msg: string, cmd: int, allocFails: bool)
      requires user.room != null && user.room.Valid()
      modifies this`outbox, user`name
      ensures var e := Route(cmd, msg, user.fd, old(user.name), user.room == lobby, user.room.Members, allocFails);
              outbox == old(outbox) + e.sent && user.name == e.name
    {
      if user.room == lobby {
        return;
      }
      ghost var name, members := user.name, user.room.Members;
      if cmd == NotCmd {
        assert Route(cmd, msg, user.fd, name, false, members, allocFails) == Effect(Broadcast(members, msg), name);
        SendToRoom(user.room, msg);
      } else if cmd == CmdWelcome {
        assert Route(cmd, msg, user.fd, name, false, members, allocFails) == Effect([Packet(user.fd, WelcomeText)], name);
        CommandWelcome(user);
      } else if cmd == CmdNick {
        var arg := Argument(msg);
        ghost var e := Route(cmd, msg, user.fd, name, false, members, allocFails);
        if |arg| == 0 {
          assert e == Effect([Packet(user.fd, NickMissing)], name);
          Send(user.fd, NickMissing);
        } else {
          assert e == if |arg| > |name| && allocFails then Effect([], name)
                      else Effect([Packet(user.fd, NickChanged)], arg);
          var _ := CommandNick(user, arg, allocFails);
        }
      } else if cmd == CmdHelp {
        assert Route(cmd, msg, user.fd, name, false, members, allocFails) == Effect([Packet(user.fd, HelpText())], name);
        CommandHelp(user);
      }
    }

    /**
     * `handle_message`: classifies the line and, when the sender is not in
     * the lobby, carries out the command or broadcasts the line; returns the
     * classification.
     */
    method HandleMessage(user: User, msg: string, allocFails: bool) returns (cmd: int)
      requires user.room != null && user.room.Valid()
      modifies this`outbox, user`name
      ensures cmd == Classify(msg)
      ensures var e := Respond(msg, user.fd, old(user.name), user.room == lobby, user.room.Members, allocFails);
              outbox == old(outbox) + e.sent && user.name == e.name
    {
      if |msg| == 0 {
        return Empty;
      }
      cmd := NotCmd;
      if msg[0] == '!' {
        cmd := MatchCommand(ScanWord(msg));
      }
      Dispatch(user, msg, cmd, allocFails);
    }
  }
}
