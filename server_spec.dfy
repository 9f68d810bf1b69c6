/** What friend_server.c does with the lines a client sends, as functions on
    values: the users (a FriendsSpec.Network) and the connected clients in
    list order. Each client is seen through its socket and its username; the
    text written to sockets is kept as abstract messages. The classes of
    module FriendServer are proved to follow these functions. */
module ServerSpec {
  import opened Common
  import opened Framing
  import opened FriendsSpec

  /** Size of a client's input buffer (one more byte holds a NUL). */
  const BUF_SIZE: nat := 128

  /** What the server writes to a socket, without the formatting bytes. */
  datatype Message =
    | NameTruncated                          // the "Username too long" notice
    | WelcomeBack                            // "Welcome back.\r\n"
    | Text(text: string)                     // list_users or print_user output
    | FriendedBy(name: string)               // "You have been friended by <name>"
    | NowFriends(name: string)               // "You are now friends with <name>"
    | PostFrom(name: string, contents: string)  // "From <name>: <contents>"
    | Failure(reason: string)                // error(): "Error: <reason>"

  /** One write(2): the socket and what is written to it. */
  datatype Output = Output(fd: int, msg: Message)

  /** A connected client: its socket and its username (None until the
      client has sent its first line). */
  datatype Peer = Peer(fd: int, username: Option<string>)

  /** The state process_args and parse_input work on. */
  datatype Server = Server(net: Network, peers: seq<Peer>)

  /** What handling a line (or several) yields: the return value (-1 once
      the client quits), the state afterwards and the writes, in order. */
  datatype Reply = Reply(ret: int, server: Server, out: seq<Output>)

  /** find_user as the C code uses it: the user's position, None for NULL. */
  function Lookup(net: Network, name: string): (u: Option<nat>)
    ensures u.Some? <==> name in Names(net)
    ensures u.Some? ==> u.value < |net| && net[u.value].name == name
  {
    var i := Find(net, name);
    if i < 0 then None else Some(i)
  }

  // ---------------------------------------------------------------------------
  // Choosing clients by username

  /** notify_client: one write of `msg` to every connected client (socket
      other than -1) logged in as `name`, in list order. Clients that have
      not sent their name yet are skipped (see NotifyAsWritten). */
  function Notify(peers: seq<Peer>, name: string, msg: Message): seq<Output>
  {
    if peers == [] then []
    else
      var last := peers[|peers| - 1];
      Notify(peers[..|peers| - 1], name, msg)
      + (if last.fd != -1 && last.username == Some(name) then [Output(last.fd, msg)] else [])
  }

  /** A peer that notify_client writes to. */
  predicate Addressee(p: Peer, name: string)
  {
    p.fd != -1 && p.username == Some(name)
  }

  /** Exactly the clients logged in as `name` receive `msg`, and nothing
      else is written. */
  lemma {:induction false} NotifyExact(peers: seq<Peer>, name: string, msg: Message)
    ensures |Notify(peers, name, msg)| <= |peers|
    ensures forall o :: o in Notify(peers, name, msg) <==>
              o.msg == msg && exists i :: 0 <= i < |peers| && peers[i].fd == o.fd && Addressee(peers[i], name)
  {
    if peers != [] {
      var init, last := peers[..|peers| - 1], peers[|peers| - 1];
      NotifyExact(init, name, msg);
      forall o ensures o in Notify(peers, name, msg) <==>
        o.msg == msg && exists i :: 0 <= i < |peers| && peers[i].fd == o.fd && Addressee(peers[i], name)
      {
        if o.msg == msg && (exists i :: 0 <= i < |peers| && peers[i].fd == o.fd && Addressee(peers[i], name)) {
          var i :| 0 <= i < |peers| && peers[i].fd == o.fd && Addressee(peers[i], name);
          if i < |init| {
            assert init[i] == peers[i];
          }
        }
        if o in Notify(init, name, msg) {
          var i :| 0 <= i < |init| && init[i].fd == o.fd && Addressee(init[i], name);
          assert peers[i] == init[i];
        }
      }
    }
  }

  /** One write per client logged in as `name`, in list order: the writes
      are those to an increasing sequence of positions `idx`, which holds
      every addressee. */
  lemma {:induction false} NotifyInOrder(peers: seq<Peer>, name: string, msg: Message) returns (idx: seq<nat>)
    ensures |idx| == |Notify(peers, name, msg)|
    ensures forall j :: 0 <= j < |idx| ==>
              idx[j] < |peers| && Addressee(peers[idx[j]], name)
              && Notify(peers, name, msg)[j] == Output(peers[idx[j]].fd, msg)
    ensures forall j, j' :: 0 <= j < j' < |idx| ==> idx[j] < idx[j']
    ensures forall i :: 0 <= i < |peers| && Addressee(peers[i], name) ==> i in idx
  {
    if peers == [] {
      return [];
    }
    var init, last := peers[..|peers| - 1], peers[|peers| - 1];
    var prev := NotifyInOrder(init, name, msg);
    assert forall i :: 0 <= i < |init| ==> init[i] == peers[i];
    if Addressee(last, name) {
      idx := prev + [|peers| - 1];
    } else {
      idx := prev;
      assert Notify(peers, name, msg) == Notify(init, name, msg) + [];
    }
  }

  /** notify_client as written: strcmp of a client's username with `name`
      for every client with a socket, which is undefined behaviour (None)
      when that client has not sent its name yet. */
  function NotifyAsWritten(peers: seq<Peer>, name: string, msg: Message): Option<seq<Output>>
  {
    if peers == [] then Some([])
    else
      var last := peers[|peers| - 1];
      match NotifyAsWritten(peers[..|peers| - 1], name, msg)
      case None => None
      case Some(out) =>
        if last.fd == -1 then Some(out)
        else if last.username.None? then None
        else if last.username.value == name then Some(out + [Output(last.fd, msg)])
        else Some(out)
  }

  /** While every connected client has a name, notify_client as written
      does what Notify does. */
  lemma {:induction false} NotifyAsWrittenAgrees(peers: seq<Peer>, name: string, msg: Message)
    requires forall i :: 0 <= i < |peers| && peers[i].fd != -1 ==> peers[i].username.Some?
    ensures NotifyAsWritten(peers, name, msg) == Some(Notify(peers, name, msg))
  {
    if peers != [] {
      var init := peers[..|peers| - 1];
      assert forall i :: 0 <= i < |init| ==> init[i] == peers[i];
      NotifyAsWrittenAgrees(init, name, msg);
      assert Notify(init, name, msg) + [] == Notify(init, name, msg);
    }
  }

  /** A client that has connected but not yet sent its name makes
      notify_client as written compare a NULL username. */
  lemma NotifyUnregisteredFails()
    ensures NotifyAsWritten([Peer(4, Some("ann")), Peer(5, None)], "ann", NowFriends("bob")) == None
    ensures Notify([Peer(4, Some("ann")), Peer(5, None)], "ann", NowFriends("bob"))
         == [Output(4, NowFriends("bob"))]
  {
    var peers := [Peer(4, Some("ann")), Peer(5, None)];
    assert peers[..1] == [Peer(4, Some("ann"))];
    assert peers[..1][..0] == [];
  }

  /** find_client: the position of the first client logged in as `name`, or
      -1; clients without a name are passed over (see FindClientAsWritten). */
  function FindClient(peers: seq<Peer>, name: string): (i: int)
    ensures -1 <= i < |peers|
    ensures i >= 0 ==> peers[i].username == Some(name)
    ensures i >= 0 ==> forall j :: 0 <= j < i ==> peers[j].username != Some(name)
    ensures i == -1 ==> forall j :: 0 <= j < |peers| ==> peers[j].username != Some(name)
  {
    if peers == [] then -1
    else if peers[0].username == Some(name) then 0
    else
      var k := FindClient(peers[1..], name);
      assert forall j :: 1 <= j < |peers| ==> peers[j] == peers[1..][j - 1];
      if k == -1 then -1 else k + 1
  }

  /** find_client as written: strcmp of `name` with each client's username
      in turn, undefined behaviour (None) on a client without a name. */
  function FindClientAsWritten(peers: seq<Peer>, name: string): Option<int>
  {
    if peers == [] then Some(-1)
    else if peers[0].username.None? then None
    else if peers[0].username.value == name then Some(0)
    else
      match FindClientAsWritten(peers[1..], name)
      case None => None
      case Some(k) => Some(if k == -1 then -1 else k + 1)
  }

  /** While every client has a name, find_client as written finds what
      FindClient finds. */
  lemma {:induction false} FindClientAsWrittenAgrees(peers: seq<Peer>, name: string)
    requires forall i :: 0 <= i < |peers| ==> peers[i].username.Some?
    ensures FindClientAsWritten(peers, name) == Some(FindClient(peers, name))
  {
    if peers != [] && peers[0].username.value != name {
      FindClientAsWrittenAgrees(peers[1..], name);
    }
  }

  /** A client without a name ahead of the one sought makes find_client as
      written compare a NULL username. */
  lemma FindClientUnregisteredFails()
    ensures FindClientAsWritten([Peer(5, None), Peer(4, Some("ann"))], "ann") == None
    ensures FindClient([Peer(5, None), Peer(4, Some("ann"))], "ann") == 1
  {
    var peers := [Peer(5, None), Peer(4, Some("ann"))];
    assert peers[1..] == [Peer(4, Some("ann"))];
  }

  /** find_client's result is the first client with the name. */
  lemma FindClientIsFirst(peers: seq<Peer>, name: string, k: nat)
    requires k <= |peers|
    requires forall j :: 0 <= j < k ==> peers[j].username != Some(name)
    requires k < |peers| ==> peers[k].username == Some(name)
    ensures FindClient(peers, name) == if k < |peers| then k else -1
  {
  }

  /** A client that has just connected has no name: it is never notified
      and never found. */
  lemma NewClientUnseen(peers: seq<Peer>, fd: int, name: string, msg: Message)
    ensures Notify(peers + [Peer(fd, None)], name, msg) == Notify(peers, name, msg)
    ensures FindClient(peers + [Peer(fd, None)], name) == FindClient(peers, name)
  {
    var ps := peers + [Peer(fd, None)];
    assert ps[..|ps| - 1] == peers;
    var i := FindClient(peers, name);
    FindClientIsFirst(ps, name, if i < 0 then |ps| else i);
  }

  /** The position of the first client on socket `fd`, or -1. */
  function FdIndex(peers: seq<Peer>, fd: int): (k: int)
    ensures -1 <= k < |peers|
    ensures k >= 0 ==> peers[k].fd == fd
    ensures k >= 0 ==> forall j :: 0 <= j < k ==> peers[j].fd != fd
    ensures k == -1 ==> forall j :: 0 <= j < |peers| ==> peers[j].fd != fd
  {
    if peers == [] then -1
    else if peers[0].fd == fd then 0
    else
      var k := FdIndex(peers[1..], fd);
      assert forall j :: 1 <= j < |peers| ==> peers[j] == peers[1..][j - 1];
      if k == -1 then -1 else k + 1
  }

  /** remove_client on the values: the first client on socket `fd` leaves
      the list. */
  function Unlink(peers: seq<Peer>, fd: int): seq<Peer>
  {
    if peers == [] then []
    else if peers[0].fd == fd then peers[1..]
    else [peers[0]] + Unlink(peers[1..], fd)
  }

  /** Unlink cuts the list at the first client on the socket. */
  lemma {:induction false} UnlinkAt(peers: seq<Peer>, fd: int, k: int)
    requires k == FdIndex(peers, fd) >= 0
    ensures Unlink(peers, fd) == peers[..k] + peers[k + 1..]
  {
    if peers[0].fd == fd {
      assert peers[..k] + peers[k + 1..] == peers[1..];
    } else {
      var tail, m := peers[1..], k - 1;
      assert FdIndex(tail, fd) == m;
      UnlinkAt(tail, fd, m);
      assert tail[..m] == peers[1..k] && tail[m + 1..] == peers[k + 1..];
      assert Unlink(peers, fd) == [peers[0]] + (peers[1..k] + peers[k + 1..]);
      assert [peers[0]] + peers[1..k] == peers[..k];
    }
  }

  /** Sockets are distinct among connected clients, so removing a client
      takes out exactly the client on that socket and keeps the others in
      their order. */
  lemma UnlinkExact(peers: seq<Peer>, fd: int)
    requires forall i, j :: 0 <= i < j < |peers| ==> peers[i].fd != peers[j].fd
    requires exists i :: 0 <= i < |peers| && peers[i].fd == fd
    ensures |Unlink(peers, fd)| == |peers| - 1
    ensures forall p :: p in Unlink(peers, fd) <==> p in peers && p.fd != fd
  {
    var k := FdIndex(peers, fd);
    UnlinkAt(peers, fd, k);
    var r := Unlink(peers, fd);
    forall p ensures p in r <==> p in peers && p.fd != fd {
      if p in peers && p.fd != fd {
        var i :| 0 <= i < |peers| && peers[i] == p;
        if i < k {
          assert r[i] == p;
        } else {
          assert r[i - 1] == p;
        }
      }
      if p in r {
        var i :| 0 <= i < |r| && r[i] == p;
        if i < k {
          assert peers[i] == p;
        } else {
          assert peers[i + 1] == p;
        }
      }
    }
  }

  // ---------------------------------------------------------------------------
  // process_args

  /** The reply to make_friends for each result code of make_friends; the
      switch has no default, so any other code writes nothing. */
  function FriendsReply(peers: seq<Peer>, me: int, name: string, friend: string, code: int): seq<Output>
  {
    if code == 0 then Notify(peers, friend, FriendedBy(name)) + [Output(me, NowFriends(friend))]
    else if code == 1 then [Output(me, Failure("users are already friends"))]
    else if code == 2 then [Output(me, Failure("at least one user you entered has the max number of friends"))]
    else if code == 3 then [Output(me, Failure("you must enter two different users"))]
    else if code == 4 then [Output(me, Failure("User you entered does not exist"))]
    else []
  }

  /** The reply to post for each result code of make_post. */
  function PostReply(peers: seq<Peer>, me: int, name: string, target: string, contents: string, code: int): seq<Output>
  {
    if code == 0 then Notify(peers, target, PostFrom(name, contents))
    else if code == 1 then [Output(me, Failure("the users are not friends"))]
    else if code == 2 then [Output(me, Failure("at least one user you entered does not exist"))]
    else []
  }

  /** process_args for the tokens `argv` of a line from client `c`, which is
      logged in: quit (exactly one token) returns -1; list_users and profile
      write a text; make_friends and post change the users and notify;
      anything else, including a known command with the wrong number of
      arguments, is "Incorrect syntax". The post's date is `stamp`. */
  function ProcessArgs(s: Server, c: nat, argv: seq<string>, stamp: string): Reply
    requires c < |s.peers| && s.peers[c].username.Some?
  {
    var net, me, name := s.net, s.peers[c].fd, s.peers[c].username.value;
    if |argv| == 0 then Reply(0, s, [])
    else if argv[0] == "quit" && |argv| == 1 then Reply(-1, s, [])
    else if argv[0] == "list_users" && |argv| == 1 then
      Reply(0, s, [Output(me, Text(UserListText(Names(net))))])
    else if argv[0] == "make_friends" && |argv| == 2 then
      var (code, net') := MakeFriendsSpec(net, argv[1], name);
      Reply(0, s.(net := net'), FriendsReply(s.peers, me, name, argv[1], code))
    else if argv[0] == "post" && |argv| >= 3 then
      var contents := Join(argv[2..]);
      var (code, net') := MakePostSpec(net, Lookup(net, name), Lookup(net, argv[1]), contents, stamp);
      Reply(0, s.(net := net'), PostReply(s.peers, me, name, argv[1], contents, code))
    else if argv[0] == "profile" && |argv| == 2 then
      var u := Lookup(net, argv[1]);
      Reply(0, s, [Output(me, if u.None? then Failure("user not found") else Text(ProfileText(net[u.value])))])
    else Reply(0, s, [Output(me, Failure("Incorrect syntax"))])
  }

  /** process_args returns -1 exactly for the single token "quit", and 0
      otherwise; it never changes the clients. */
  lemma ProcessArgsQuit(s: Server, c: nat, argv: seq<string>, stamp: string)
    requires c < |s.peers| && s.peers[c].username.Some?
    ensures var r := ProcessArgs(s, c, argv, stamp);
            && (r.ret == -1 <==> argv == ["quit"])
            && (r.ret == 0 || r.ret == -1)
            && r.server.peers == s.peers
  {
    if argv == ["quit"] {
      assert argv[0] == "quit";
    }
  }

  /** An empty line does nothing at all. */
  lemma ProcessArgsEmpty(s: Server, c: nat, stamp: string)
    requires c < |s.peers| && s.peers[c].username.Some?
    ensures ProcessArgs(s, c, [], stamp) == Reply(0, s, [])
  {
  }

  /** No command registers a user, and every command keeps the users
      well-formed. */
  lemma ProcessArgsPreserves(s: Server, c: nat, argv: seq<string>, stamp: string)
    requires c < |s.peers| && s.peers[c].username.Some?
    requires WellFormed(s.net)
    ensures var net' := ProcessArgs(s, c, argv, stamp).server.net;
            WellFormed(net') && Names(net') == Names(s.net)
  {
    var net, name := s.net, s.peers[c].username.value;
    if |argv| == 2 && argv[0] == "make_friends" {
      MakeFriendsPreserves(net, argv[1], name);
      var (code, net') := MakeFriendsSpec(net, argv[1], name);
      if code == 0 {
        var i, j := Find(net, argv[1]), Find(net, name);
        assert forall k :: 0 <= k < |net| ==> net'[k].name == net[k].name;
      }
    } else if |argv| >= 3 && argv[0] == "post" {
      var a, t := Lookup(net, name), Lookup(net, argv[1]);
      var contents := Join(argv[2..]);
      MakePostPreserves(net, a, t, contents, stamp);
      var net' := MakePostSpec(net, a, t, contents, stamp).1;
      assert forall k :: 0 <= k < |net| ==> net'[k].name == net[k].name;
    }
  }

  /** A command that fails leaves the users as they were: whenever an error
      is written, nothing changed; and only a successful make_friends or
      post changes anything. */
  lemma ProcessArgsFailures(s: Server, c: nat, argv: seq<string>, stamp: string)
    requires c < |s.peers| && s.peers[c].username.Some?
    ensures var r := ProcessArgs(s, c, argv, stamp);
            && ((exists o :: o in r.out && o.msg.Failure?) ==> r.server == s)
            && (r.server != s ==> |argv| >= 2 && argv[0] in {"make_friends", "post"})
  {
    var r := ProcessArgs(s, c, argv, stamp);
    var net, me, name := s.net, s.peers[c].fd, s.peers[c].username.value;
    if |argv| == 2 && argv[0] == "make_friends" {
      var code := MakeFriendsSpec(net, argv[1], name).0;
      if code == 0 {
        NotifyExact(s.peers, argv[1], FriendedBy(name));
      }
    } else if |argv| >= 3 && argv[0] == "post" {
      var contents := Join(argv[2..]);
      var code := MakePostSpec(net, Lookup(net, name), Lookup(net, argv[1]), contents, stamp).0;
      if code == 0 {
        NotifyExact(s.peers, argv[1], PostFrom(name, contents));
      }
    }
  }

  /** Every write goes either to the client that sent the command or, as a
      notification, to a client logged in as the command's first argument. */
  lemma ProcessArgsAddressees(s: Server, c: nat, argv: seq<string>, stamp: string)
    requires c < |s.peers| && s.peers[c].username.Some?
    ensures forall o :: o in ProcessArgs(s, c, argv, stamp).out ==>
              o.fd == s.peers[c].fd
              || (|argv| >= 2 && exists i :: 0 <= i < |s.peers| && s.peers[i].fd == o.fd && Addressee(s.peers[i], argv[1]))
  {
    var net, me, name := s.net, s.peers[c].fd, s.peers[c].username.value;
    if |argv| == 2 && argv[0] == "make_friends" {
      var code := MakeFriendsSpec(net, argv[1], name).0;
      assert ProcessArgs(s, c, argv, stamp).out == FriendsReply(s.peers, me, name, argv[1], code);
      FriendsReplyAddressees(s.peers, me, name, argv[1], code);
    } else if |argv| >= 3 && argv[0] == "post" {
      var contents := Join(argv[2..]);
      var code := MakePostSpec(net, Lookup(net, name), Lookup(net, argv[1]), contents, stamp).0;
      assert ProcessArgs(s, c, argv, stamp).out == PostReply(s.peers, me, name, argv[1], contents, code);
      PostReplyAddressees(s.peers, me, name, argv[1], contents, code);
    }
  }

  /** make_friends' replies go to the sender or, as notifications, to the
      clients logged in as the new friend. */
  lemma FriendsReplyAddressees(peers: seq<Peer>, me: int, name: string, friend: string, code: int)
    ensures forall o :: o in FriendsReply(peers, me, name, friend, code) ==>
              o.fd == me || exists i :: 0 <= i < |peers| && peers[i].fd == o.fd && Addressee(peers[i], friend)
  {
    if code == 0 {
      NotifyExact(peers, friend, FriendedBy(name));
    }
  }

  /** post's replies go to the sender or, as notifications, to the clients
      logged in as the target. */
  lemma PostReplyAddressees(peers: seq<Peer>, me: int, name: string, target: string, contents: string, code: int)
    ensures forall o :: o in PostReply(peers, me, name, target, contents, code) ==>
              o.fd == me || exists i :: 0 <= i < |peers| && peers[i].fd == o.fd && Addressee(peers[i], target)
  {
    if code == 0 {
      NotifyExact(peers, target, PostFrom(name, contents));
    }
  }

  /** The contents of a post are the words after the target, joined with
      single spaces: tokenising them again gives those words back. */
  lemma PostContents(line: string)
    requires |Tokens(line)| >= 3
    ensures Tokens(Join(Tokens(line)[2..])) == Tokens(line)[2..]
  {
    var ws := Tokens(line)[2..];
    assert forall k :: 0 <= k < |ws| ==> ws[k] == Tokens(line)[k + 2];
    TokensJoin(ws);
  }

  // ---------------------------------------------------------------------------
  // parse_input

  /** The name a first line registers: the line cut to MAX_NAME - 1
      characters. */
  function NameOf(line: string): (name: string)
    ensures name <= line && |name| < MAX_NAME
    ensures |line| < MAX_NAME ==> name == line
    ensures |name| == if |line| < MAX_NAME then |line| else MAX_NAME - 1
  {
    if |line| > MAX_NAME - 1 then line[..MAX_NAME - 1] else line
  }

  /** parse_input for the C string `line` from client `c`: a client without
      a name registers the line (cut to fit) as its username, creating the
      user unless it exists ("Welcome back."); a logged-in client's line is
      split into tokens and handed to process_args. */
  function ParseInput(s: Server, c: nat, line: string, stamp: string): (r: Reply)
    requires c < |s.peers|
    ensures |r.server.peers| == |s.peers|
  {
    var me := s.peers[c];
    if me.username.None? then
      var name := NameOf(line);
      var notice := if |line| > MAX_NAME - 1 then [Output(me.fd, NameTruncated)] else [];
      var (code, net') := CreateUserSpec(s.net, name);
      var welcome := if code == 1 then [Output(me.fd, WelcomeBack)] else [];
      Reply(0, Server(net', s.peers[c := me.(username := Some(name))]), notice + welcome)
    else
      var r := ProcessArgs(s, c, Tokens(line), stamp);
      Reply(if r.ret == -1 then -1 else 0, r.server, r.out)
  }

  /** Every logged-in client's name belongs to a user. */
  predicate Registered(s: Server)
  {
    forall i :: 0 <= i < |s.peers| && s.peers[i].username.Some? ==> s.peers[i].username.value in Names(s.net)
  }

  /** A first line logs the client in under the cut line, which is then a
      user's name; the user is created unless the name was taken, and
      "Welcome back." is written exactly when it was. */
  lemma ParseInputRegisters(s: Server, c: nat, line: string, stamp: string)
    requires c < |s.peers| && s.peers[c].username.None?
    ensures var r := ParseInput(s, c, line, stamp);
            var name := NameOf(line);
            && r.ret == 0
            && r.server.peers == s.peers[c := s.peers[c].(username := Some(name))]
            && name in Names(r.server.net)
            && (name in Names(s.net) ==> r.server.net == s.net)
            && (name !in Names(s.net) ==> r.server.net == s.net + [Profile(name, [], [])])
            && (Output(s.peers[c].fd, WelcomeBack) in r.out <==> name in Names(s.net))
  {
    var name := NameOf(line);
    CreateUserIdempotent(s.net, name);
    NamesAppend(s.net, Profile(name, [], []));
  }

  /** Logging in twice under the same name (a second connection, or the
      same user coming back) creates one user: the second time the users
      stay as they are and the client is welcomed back. */
  lemma ParseInputReturning(s: Server, c: nat, d: nat, line: string, stamp: string)
    requires c < |s.peers| && d < |s.peers| && c != d
    requires s.peers[c].username.None? && s.peers[d].username.None?
    ensures var r1 := ParseInput(s, c, line, stamp);
            var r2 := ParseInput(r1.server, d, line, stamp);
            && r2.server.net == r1.server.net
            && Output(s.peers[d].fd, WelcomeBack) in r2.out
  {
    var name := NameOf(line);
    CreateUserIdempotent(s.net, name);
  }

  /** parse_input keeps the users well-formed and every logged-in client
      registered, and changes no client except, on its first line, the
      sender's name. */
  lemma ParseInputPreserves(s: Server, c: nat, line: string, stamp: string)
    requires c < |s.peers|
    requires WellFormed(s.net) && Registered(s)
    ensures var r := ParseInput(s, c, line, stamp);
            && WellFormed(r.server.net) && Registered(r.server)
            && (forall i :: 0 <= i < |s.peers| && i != c ==> r.server.peers[i] == s.peers[i])
            && r.server.peers[c].fd == s.peers[c].fd
  {
    var r := ParseInput(s, c, line, stamp);
    if s.peers[c].username.None? {
      var name := NameOf(line);
      CreateUserPreserves(s.net, name);
      ParseInputRegisters(s, c, line, stamp);
      forall i | 0 <= i < |s.peers| && r.server.peers[i].username.Some?
        ensures r.server.peers[i].username.value in Names(r.server.net)
      {
        if i != c {
          assert s.peers[i].username.value in Names(s.net);
          NamesAppend(s.net, Profile(name, [], []));
        }
      }
    } else {
      ProcessArgsPreserves(s, c, Tokens(line), stamp);
      ProcessArgsQuit(s, c, Tokens(line), stamp);
    }
  }

  // ---------------------------------------------------------------------------
  // read_from

  /** The lines as parse_input receives them: each cut at its first NUL. */
  function CLines(lines: seq<seq<char>>): (cs: seq<string>)
    ensures |cs| == |lines|
    ensures forall k :: 0 <= k < |lines| ==> cs[k] == CStr(lines[k])
  {
    seq(|lines|, k requires 0 <= k < |lines| => CStr(lines[k]))
  }

  /** Handling `lines` from client `c` one after the other, the k-th post
      dated `clock(k)`, stopping after the first line that quits. */
  function Run(s: Server, c: nat, lines: seq<string>, clock: nat -> string): (r: Reply)
    requires c < |s.peers|
    ensures |r.server.peers| == |s.peers|
    decreases |lines|
  {
    if lines == [] then Reply(0, s, [])
    else
      var prev := Run(s, c, lines[..|lines| - 1], clock);
      if prev.ret == -1 then prev
      else
        var r := ParseInput(prev.server, c, lines[|lines| - 1], clock(|lines| - 1));
        Reply(r.ret, r.server, prev.out + r.out)
  }

  /** Handling lines keeps the users well-formed and every logged-in client
      registered, and changes no other client. */
  lemma {:induction false} RunPreserves(s: Server, c: nat, lines: seq<string>, clock: nat -> string)
    requires c < |s.peers|
    requires WellFormed(s.net) && Registered(s)
    ensures var r := Run(s, c, lines, clock);
            && WellFormed(r.server.net) && Registered(r.server)
            && (forall i :: 0 <= i < |s.peers| && i != c ==> r.server.peers[i] == s.peers[i])
            && r.server.peers[c].fd == s.peers[c].fd
            && (r.ret == 0 || r.ret == -1)
    decreases |lines|
  {
    if lines != [] {
      var init := lines[..|lines| - 1];
      RunPreserves(s, c, init, clock);
      var prev := Run(s, c, init, clock);
      if prev.ret != -1 {
        ParseInputPreserves(prev.server, c, lines[|lines| - 1], clock(|lines| - 1));
        var p := prev.server.peers[c];
        if p.username.Some? {
          ProcessArgsQuit(prev.server, c, Tokens(lines[|lines| - 1]), clock(|lines| - 1));
        }
      }
    }
  }

  /** Once a line has quit, the lines after it are ignored. */
  lemma {:induction false} RunStopsAtQuit(s: Server, c: nat, lines: seq<string>, more: seq<string>,
                                          clock: nat -> string)
    requires c < |s.peers|
    requires Run(s, c, lines, clock).ret == -1
    ensures Run(s, c, lines + more, clock) == Run(s, c, lines, clock)
    decreases |more|
  {
    if more != [] {
      var init := more[..|more| - 1];
      RunStopsAtQuit(s, c, lines, init, clock);
      assert (lines + more)[..|lines + more| - 1] == lines + init;
    } else {
      assert lines + more == lines;
    }
  }

  /** One more line after a run that has not quit is handled by
      parse_input, and the run then returns 0 or -1. */
  lemma RunStep(s: Server, c: nat, lines: seq<string>, k: nat, clock: nat -> string)
    requires c < |s.peers| && k < |lines|
    requires Run(s, c, lines[..k], clock).ret != -1
    ensures var prev := Run(s, c, lines[..k], clock);
            var r := ParseInput(prev.server, c, lines[k], clock(k));
            && Run(s, c, lines[..k + 1], clock) == Reply(r.ret, r.server, prev.out + r.out)
            && (r.ret == 0 || r.ret == -1)
  {
    assert lines[..k + 1][..k] == lines[..k];
  }

  /** A run that quits after line `k` is the run of all the lines. */
  lemma RunQuits(s: Server, c: nat, lines: seq<string>, k: nat, clock: nat -> string)
    requires c < |s.peers| && k < |lines|
    requires Run(s, c, lines[..k + 1], clock).ret == -1
    ensures Run(s, c, lines, clock) == Run(s, c, lines[..k + 1], clock)
  {
    RunStopsAtQuit(s, c, lines[..k + 1], lines[k + 1..], clock);
    assert lines[..k + 1] + lines[k + 1..] == lines;
  }

  /** The read ends the session: read(2) returned nothing (the peer closed)
      or one of the complete lines quits. */
  predicate Ends(s: Server, c: nat, pending: seq<char>, data: seq<char>, clock: nat -> string)
    requires c < |s.peers|
  {
    data == [] || Run(s, c, CLines(Lines(pending + data)), clock).ret == -1
  }

  /** read_from for `data`, what read(2) returned into a buffer already
      holding `pending`: no data means the peer closed; otherwise every
      complete line of the buffer is handled in turn. The socket is
      returned when the session ends, 0 when it goes on; what then stays
      in the buffer is Rest(pending + data). */
  function ReadFrom(s: Server, c: nat, pending: seq<char>, data: seq<char>, clock: nat -> string): (r: Reply)
    requires c < |s.peers|
    ensures r.ret == if Ends(s, c, pending, data, clock) then s.peers[c].fd else 0
  {
    if data == [] then Reply(s.peers[c].fd, s, [])
    else
      var rr := Run(s, c, CLines(Lines(pending + data)), clock);
      Reply(if rr.ret == -1 then s.peers[c].fd else 0, rr.server, rr.out)
  }

  /** When the session goes on, the buffer keeps only a partial line: no
      network newline, and no more bytes than were there plus those read. */
  lemma ReadFromLeftover(s: Server, c: nat, pending: seq<char>, data: seq<char>, clock: nat -> string)
    requires c < |s.peers|
    requires !Ends(s, c, pending, data, clock)
    ensures NoCrlf(Rest(pending + data))
    ensures |Rest(pending + data)| <= |pending| + |data|
  {
    RestHasNoCrlf(pending + data);
    FramingLossless(pending + data);
  }

  /** A buffer full of bytes with no network newline leaves no room to read
      into: the next read returns nothing and the client is taken for gone. */
  lemma FullBufferCloses(s: Server, c: nat, pending: seq<char>, clock: nat -> string)
    requires c < |s.peers|
    requires |pending| == BUF_SIZE
    ensures forall data: seq<char> :: |data| <= BUF_SIZE - |pending| ==>
              Ends(s, c, pending, data, clock) && ReadFrom(s, c, pending, data, clock).ret == s.peers[c].fd
  {
  }
}
