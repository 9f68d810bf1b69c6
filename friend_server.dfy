/** The server of friend_server.c on the heap: each connected client is a
    node of a singly linked list and owns a fixed input buffer; the users
    are a Friends.Graph. Each method is proved to do what the ServerSpec
    function its contract names says (Unlink, Notify, FindClient,
    ProcessArgs, ParseInput or ReadFrom), read on the list's and the
    graph's abstract values; AcceptConnection appends a fresh client with
    no name. Sockets are not modelled: the bytes read(2) returns are a
    parameter and the writes are returned as a sequence. */
module FriendServer {
  import opened Common
  import opened Framing
  import opened FriendsSpec
  import opened Friends
  import opened ServerSpec

  /** A connected client (struct client). `after` is the offset into `buf`
      that the C code keeps as a pointer. */
  class Client {
    const fd: int
    var username: Option<string>
    var user: User?
    var next: Client?
    const buf: array<char>
    var inbuf: int
    var room: int
    var after: int

    /** init_client: no name, no user, an empty zeroed buffer. */
    constructor (fd: int)
      ensures this.fd == fd && username == None && user == null && next == null
      ensures fresh(buf) && buf[..] == seq(BUF_SIZE + 1, _ => '\0')
      ensures inbuf == 0 && room == BUF_SIZE && after == 0
      ensures Ready()
    {
      this.fd := fd;
      username := None;
      next := null;
      user := null;
      buf := new char[BUF_SIZE + 1](_ => '\0');
      inbuf := 0;
      room := BUF_SIZE;
      after := 0;
    }

    /** read(2) of `data` into the free room, counted into `inbuf`. */
    method Append(data: seq<char>)
      requires Ready() && |data| <= room
      modifies this`inbuf, buf
      ensures buf.Length == BUF_SIZE + 1 && inbuf == old(inbuf) + |data| <= BUF_SIZE
      ensures buf[..inbuf] == old(buf[..inbuf]) + data
    {
      Receive(buf, after, data);
      inbuf := inbuf + |data|;
    }

    /** The free room and the write position recomputed from `inbuf`; the
        users `g` this client is bound to are not touched. */
    method ResetRoom(ghost g: Graph, ghost table: ClientTable)
      requires buf.Length == BUF_SIZE + 1 && 0 <= inbuf <= BUF_SIZE && NoCrlf(buf[..inbuf])
      requires g.Valid() && Bound(this, g) && table.Valid()
      modifies this`room, this`after
      ensures Ready() && g.Valid() && Bound(this, g)
      ensures table.Valid() && table.Peers() == old(table.Peers())
    {
      room := BUF_SIZE - inbuf;
      after := inbuf;
    }

    /** Between two reads: `inbuf` bytes are held, `room` bytes are free,
        `after` points just past the data, and no complete line is held. */
    ghost predicate Ready()
      reads this, buf
    {
      && buf.Length == BUF_SIZE + 1
      && 0 <= inbuf <= BUF_SIZE
      && room == BUF_SIZE - inbuf
      && after == inbuf
      && NoCrlf(buf[..inbuf])
    }
  }

  /** A logged-in client's `user` is a user of the list carrying its name;
      a client without a name has none. */
  ghost predicate Bound(c: Client, g: Graph)
    reads c`username, c`user, g
  {
    match c.username
    case None => c.user == null
    case Some(name) => c.user != null && c.user in g.users && c.user.name == name
  }

  /** Names being unique, the user of a logged-in client is the one
      find_user returns for its name. */
  lemma BoundFinds(c: Client, g: Graph)
    requires g.Valid() && Bound(c, g) && c.username.Some?
    ensures 0 <= Find(g.net, c.username.value) < |g.users|
    ensures c.user == g.users[Find(g.net, c.username.value)]
  {
    var i :| 0 <= i < |g.users| && g.users[i] == c.user;
    assert Represents(g.users[i], g.net[i]);
    FindUnique(g.net, i);
  }

  /** The clients `cs` as process_args sees them. */
  ghost function PeersOf(cs: seq<Client>): (ps: seq<Peer>)
    reads cs`username
    ensures |ps| == |cs|
    ensures forall i {:trigger ps[i]} :: 0 <= i < |cs| ==> ps[i] == Peer(cs[i].fd, cs[i].username)
  {
    PeerListAt(cs);
    PeerList(cs)
  }

  ghost function PeerList(cs: seq<Client>): seq<Peer>
    reads cs`username
  {
    if cs == [] then [] else PeerList(cs[..|cs| - 1]) + [Peer(cs[|cs| - 1].fd, cs[|cs| - 1].username)]
  }

  lemma {:induction false} PeerListAt(cs: seq<Client>)
    ensures |PeerList(cs)| == |cs|
    ensures forall i {:trigger PeerList(cs)[i]} :: 0 <= i < |cs| ==> PeerList(cs)[i] == Peer(cs[i].fd, cs[i].username)
  {
    if cs != [] {
      PeerListAt(cs[..|cs| - 1]);
    }
  }

  /** Taking the client at position `k` out of the list takes its view out
      of the views. */
  lemma PeersOfCut(cs: seq<Client>, k: nat)
    requires k < |cs|
    ensures PeersOf(cs[..k] + cs[k + 1..]) == PeersOf(cs)[..k] + PeersOf(cs)[k + 1..]
  {
    var rest := cs[..k] + cs[k + 1..];
    var ps, qs := PeersOf(cs), PeersOf(rest);
    forall i | 0 <= i < |rest| ensures qs[i] == (ps[..k] + ps[k + 1..])[i] {
      var l := if i < k then i else i + 1;
      assert rest[i] == cs[l];
      assert qs[i] == Peer(cs[l].fd, cs[l].username) == ps[l];
      assert (ps[..k] + ps[k + 1..])[i] == ps[l];
    }
    assert qs == ps[..k] + ps[k + 1..];
  }

  /** find_network_newline(buf, n): one past the LF of the first CR LF among
      the first `n` bytes, or -1. */
  method FindNetworkNewline(buf: array<char>, n: int) returns (where: int)
    requires 0 <= n <= buf.Length
    ensures where == LineEnd(buf[..n])
  {
    var index := 0;
    while index < n - 1
      invariant 0 <= index <= n
      invariant forall k :: 0 <= k < index ==> !CrlfAt(buf[..n], k)
    {
      if buf[index] == '\r' && buf[index + 1] == '\n' {
        assert CrlfAt(buf[..n], index);
        return index + 2;
      }
      index := index + 1;
    }
    return -1;
  }

  // ---------------------------------------------------------------------------
  // The list of clients

  class ClientTable {
    var head: Client?
    /** The clients in list order. */
    ghost var clients: seq<Client>

    /** `head` starts a null-terminated chain through `next` visiting each
        client once, in order, and every client has an input buffer of its
        own. */
    ghost predicate Valid()
      reads this, clients`next
    {
      && head == (if clients == [] then null else clients[0])
      && (forall i {:trigger clients[i].next} :: 0 <= i < |clients| ==>
            clients[i].next == if i + 1 < |clients| then clients[i + 1] else null)
    }

    /** Every client has an input buffer of its own. */
    ghost predicate OwnBuffers()
      reads this
    {
      forall i, j :: 0 <= i < j < |clients| ==> clients[i].buf != clients[j].buf
    }

    /** Following the chain from a client reaches null at the tail, so no
        client can come twice. */
    lemma ChainDistinct(i: nat, j: nat)
      requires Valid() && i < j < |clients|
      ensures clients[i] != clients[j]
      decreases |clients| - j
    {
      if j + 1 < |clients| {
        ChainDistinct(i + 1, j + 1);
        assert clients[i].next == clients[i + 1] && clients[j].next == clients[j + 1];
      } else {
        assert clients[i].next == clients[i + 1] && clients[j].next == null;
      }
    }

    lemma Distinct()
      requires Valid()
      ensures forall i, j :: 0 <= i < j < |clients| ==> clients[i] != clients[j]
    {
      forall i, j | 0 <= i < j < |clients| ensures clients[i] != clients[j] {
        ChainDistinct(i, j);
      }
    }

    /** The clients as process_args sees them. */
    ghost function Peers(): (ps: seq<Peer>)
      reads this, clients`username
      ensures |ps| == |clients|
      ensures forall i {:trigger ps[i]} :: 0 <= i < |clients| ==> ps[i] == Peer(clients[i].fd, clients[i].username)
    {
      PeersOf(clients)
    }

    /** No client is connected (`Client *first_client = NULL`). */
    constructor ()
      ensures Valid() && OwnBuffers() && clients == []
    {
      head := null;
      clients := [];
    }

    /** accept_connection for the socket `clientFd` that accept(2) returned:
        a new client with no name is put at the tail of the list. */
    method AcceptConnection(clientFd: int) returns (r: int, c: Client)
      requires Valid()
      modifies this, clients`next
      ensures Valid() && (old(OwnBuffers()) ==> OwnBuffers()) && r == clientFd
      ensures fresh(c) && fresh(c.buf) && clients == old(clients) + [c]
      ensures c.fd == clientFd && c.username == None && c.user == null && c.Ready()
      ensures Peers() == old(Peers()) + [Peer(clientFd, None)]
    {
      c := new Client(clientFd);
      if head == null {
        head := c;
      } else {
        var curr := head;
        ghost var k := 0;
        while curr.next != null
          invariant 0 <= k < |clients| && curr == clients[k]
          decreases |clients| - k
        {
          curr := curr.next;
          k := k + 1;
        }
        assert k == |clients| - 1;
        curr.next := c;
      }
      clients := clients + [c];
      r := clientFd;
    }

    /** remove_client: the first client whose socket is the given client's
        is unlinked (the head by replacing the head, any other by linking
        its predecessor past it). Closing the socket and freeing are not
        modelled. */
    method RemoveClient(client: Client)
      requires Valid() && client in clients
      modifies this, clients`next
      ensures Valid() && (old(OwnBuffers()) ==> OwnBuffers())
      ensures var k := FdIndex(old(Peers()), client.fd);
              0 <= k < |old(clients)| && clients == old(clients[..k] + clients[k + 1..])
      ensures Peers() == Unlink(old(Peers()), client.fd)
    {
      ghost var ps, cs := Peers(), clients;
      ghost var i :| 0 <= i < |cs| && cs[i] == client;
      assert ps[i].fd == client.fd;
      ghost var k := FdIndex(ps, client.fd);
      Unchain(client.fd, k);
      clients := cs[..k] + cs[k + 1..];
      UnchainedValid(cs, k);
      if old(OwnBuffers()) {
        OwnBuffersCut(cs, k);
      }
      assert PeersOf(cs) == ps;
      PeersOfCut(cs, k);
      UnlinkAt(ps, client.fd, k);
    }

    /** The pointer updates of remove_client for the client at position
        `k`, the first on socket `fd`. */
    method Unchain(fd: int, ghost k: nat)
      requires Valid() && k < |clients| && k == FdIndex(Peers(), fd)
      modifies this`head, clients`next
      ensures clients == old(clients)
      ensures head == if k == 0 then (if |clients| > 1 then clients[1] else null) else clients[0]
      ensures k > 0 ==> clients[k - 1].next == if k + 1 < |clients| then clients[k + 1] else null
      ensures forall i {:trigger clients[i].next} :: 0 <= i < |clients| && i + 1 != k ==>
                clients[i].next == if i + 1 < |clients| then clients[i + 1] else null
    {
      Distinct();
      if head.fd == fd {
        head := head.next;
      } else {
        var prev, curr := head, head;
        ghost var j := 0;
        while curr != null && curr.fd != fd
          invariant 0 <= j <= k && curr == clients[j]
          invariant j > 0 ==> prev == clients[j - 1]
          invariant forall l :: 0 <= l < j ==> clients[l].fd != fd
          decreases k - j
        {
          assert Peers()[j].fd == curr.fd;
          prev := curr;
          curr := curr.next;
          j := j + 1;
        }
        assert Peers()[j].fd == curr.fd;
        assert j == k > 0;
        prev.next := curr.next;
      }
    }

    /** The list is valid again once the client at position `k` of `cs` is
        taken out of the chain and of the ghost list. */
    lemma UnchainedValid(cs: seq<Client>, k: nat)
      requires k < |cs| && clients == cs[..k] + cs[k + 1..]
      requires head == if k == 0 then (if |cs| > 1 then cs[1] else null) else cs[0]
      requires forall i {:trigger cs[i].next} :: 0 <= i < |cs| && i + 1 != k ==>
                 cs[i].next == if i + 1 < |cs| then cs[i + 1] else null
      requires k > 0 ==> cs[k - 1].next == if k + 1 < |cs| then cs[k + 1] else null
      ensures Valid()
    {
      forall i | 0 <= i < |clients|
        ensures clients[i].next == if i + 1 < |clients| then clients[i + 1] else null
      {
        if i + 1 < k {
          assert clients[i] == cs[i] && clients[i + 1] == cs[i + 1];
          assert cs[i].next == cs[i + 1];
        } else if i + 1 == k {
          assert clients[i] == cs[k - 1];
          assert i + 1 < |clients| ==> clients[i + 1] == cs[k + 1];
        } else {
          assert clients[i] == cs[i + 1];
          assert i + 1 < |clients| ==> clients[i + 1] == cs[i + 2];
          assert cs[i + 1].next == if i + 2 < |cs| then cs[i + 2] else null;
        }
      }
    }

    /** Taking a client out keeps the other clients' buffers distinct. */
    static lemma OwnBuffersCut(cs: seq<Client>, k: nat)
      requires k < |cs|
      requires forall i, j :: 0 <= i < j < |cs| ==> cs[i].buf != cs[j].buf
      ensures var rest := cs[..k] + cs[k + 1..];
              forall i, j :: 0 <= i < j < |rest| ==> rest[i].buf != rest[j].buf
    {
      var rest := cs[..k] + cs[k + 1..];
      forall i, j | 0 <= i < j < |rest| ensures rest[i].buf != rest[j].buf {
        var i', j' := if i < k then i else i + 1, if j < k then j else j + 1;
        assert rest[i] == cs[i'] && rest[j] == cs[j'];
      }
    }

    /** notify_client, on the clients logged in as `name` only: the writes
        of `msg` it makes, in list order. */
    method NotifyClient(name: string, msg: Message) returns (out: seq<Output>)
      requires Valid()
      ensures out == Notify(Peers(), name, msg)
    {
      out := [];
      var curr := head;
      ghost var k := 0;
      while curr != null
        invariant 0 <= k <= |clients|
        invariant curr == if k < |clients| then clients[k] else null
        invariant out == Notify(Peers()[..k], name, msg)
        decreases |clients| - k
      {
        assert Peers()[..k + 1][..k] == Peers()[..k];
        if curr.fd != -1 && curr.username == Some(name) {
          out := out + [Output(curr.fd, msg)];
        }
        curr := curr.next;
        k := k + 1;
      }
      assert Peers()[..k] == Peers();
    }

    /** find_client, passing over clients with no name: the first client
        logged in as `name`, or null. */
    method FindClient(name: string) returns (c: Client?)
      requires Valid()
      ensures var i := ServerSpec.FindClient(Peers(), name);
              c == if i < 0 then null else clients[i]
    {
      c := head;
      ghost var k := 0;
      while c != null && c.username != Some(name)
        invariant 0 <= k <= |clients|
        invariant c == if k < |clients| then clients[k] else null
        invariant forall j :: 0 <= j < k ==> Peers()[j].username != Some(name)
        decreases |clients| - k
      {
        c := c.next;
        k := k + 1;
      }
      FindClientIsFirst(Peers(), name, k);
    }
  }

  // ---------------------------------------------------------------------------
  // Tokenising

  /** strtok(_, " ") resumed at offset `at` of `s`: skip spaces, then take
      the run of non-spaces that follows. strtok ends the token by
      overwriting the space behind it, so the next call resumes past that
      space. None when only spaces remain. */
  method StrTok(s: string, at: nat) returns (tok: Option<string>, next: nat)
    requires at <= |s|
    ensures at <= next <= |s|
    ensures tok.Some? ==> at < next
    ensures Tokens(s[at..]) == if tok.None? then [] else [tok.value] + Tokens(s[next..])
  {
    var i := SkipSpaces(s, at);
    if i == |s| {
      return None, i;
    }
    var j := WordEnd(s, i);
    TokensAt(s, i, j);
    tok := Some(s[i..j]);
    next := if j < |s| then j + 1 else j;
  }

  /** The first non-space at or after `at`, or the end of `s`. */
  method SkipSpaces(s: string, at: nat) returns (i: nat)
    requires at <= |s|
    ensures at <= i <= |s| && (i < |s| ==> s[i] != ' ')
    ensures Tokens(s[at..]) == Tokens(s[i..])
  {
    i := at;
    while i < |s| && s[i] == ' '
      invariant at <= i <= |s|
      invariant Tokens(s[at..]) == Tokens(s[i..])
    {
      assert s[i..][1..] == s[i + 1..];
      i := i + 1;
    }
  }

  /** The end of the run of non-spaces starting at `i`. */
  method WordEnd(s: string, i: nat) returns (j: nat)
    requires i < |s| && s[i] != ' '
    ensures i < j <= |s| && ' ' !in s[i..j]
    ensures j < |s| ==> s[j] == ' '
  {
    j := i;
    while j < |s| && s[j] != ' '
      invariant i <= j <= |s|
      invariant ' ' !in s[i..j]
    {
      assert s[i..j + 1] == s[i..j] + [s[j]];
      j := j + 1;
    }
  }

  /** find_num_args: the number of tokens strtok finds in `line`. */
  method CountArgs(line: string) returns (count: nat)
    ensures count == |Tokens(line)|
  {
    count := 0;
    var tok, at := StrTok(line, 0);
    assert line[0..] == line;
    while tok.Some?
      invariant at <= |line|
      invariant count + |if tok.None? then [] else [tok.value] + Tokens(line[at..])| == |Tokens(line)|
      decreases |line| - at + if tok.Some? then 1 else 0
    {
      count := count + 1;
      tok, at := StrTok(line, at);
    }
  }

  /** create_args_array: the tokens of `line`, in order, in an array of the
      size find_num_args counted, which they fill exactly. */
  method CreateArgs(line: string, num: nat) returns (argv: array<string>)
    requires num == |Tokens(line)|
    ensures fresh(argv) && argv[..] == Tokens(line)
  {
    argv := new string[num];
    var tok, at := StrTok(line, 0);
    assert line[0..] == line;
    var i := 0;
    while tok.Some?
      invariant at <= |line| && 0 <= i <= num
      invariant argv[..i] + (if tok.None? then [] else [tok.value] + Tokens(line[at..])) == Tokens(line)
      decreases |line| - at + if tok.Some? then 1 else 0
    {
      ghost var done := argv[..i];
      assert |done + [tok.value] + Tokens(line[at..])| == |Tokens(line)|;
      argv[i] := tok.value;
      assert argv[..i + 1] == done + [tok.value];
      i := i + 1;
      tok, at := StrTok(line, at);
    }
    assert argv[..] == argv[..i];
  }

  /** The tokens of `line` as parse_input hands them to process_args: their
      number counted by find_num_args, then the array filled by
      create_args_array. */
  method Tokenise(line: string) returns (argv: seq<string>)
    ensures argv == Tokens(line)
  {
    var num := CountArgs(line);
    var args := CreateArgs(line, num);
    argv := args[..];
  }

  // ---------------------------------------------------------------------------
  // Commands

  /** The bytes process_args allocates for a post's contents: each word
      after the target plus one, for the space behind it or the final NUL. */
  method ContentsSpace(argv: seq<string>) returns (space: int)
    requires |argv| >= 3
    ensures space == |Join(argv[2..])| + 1
  {
    space := 0;
    var i := 2;
    while i < |argv|
      invariant 2 <= i <= |argv|
      invariant space == if i == 2 then 0 else |Join(argv[2..i])| + 1
    {
      if i == 2 {
        assert argv[2..3] == [argv[2]];
      } else {
        JoinSnoc(argv[2..i], argv[i]);
        assert argv[2..i + 1] == argv[2..i] + [argv[i]];
      }
      space := space + |argv[i]| + 1;
      i := i + 1;
    }
    assert argv[2..i] == argv[2..];
  }

  /** The contents of a post: strcpy of the first word after the target,
      then strcat of a space and each further word. */
  method JoinContents(argv: seq<string>) returns (contents: string)
    requires |argv| >= 3
    ensures contents == Join(argv[2..])
  {
    contents := argv[2];
    assert argv[2..3] == [argv[2]];
    var i := 3;
    while i < |argv|
      invariant 3 <= i <= |argv|
      invariant contents == Join(argv[2..i])
    {
      JoinSnoc(argv[2..i], argv[i]);
      assert argv[2..i + 1] == argv[2..i] + [argv[i]];
      contents := contents + " " + argv[i];
      i := i + 1;
    }
    assert argv[2..i] == argv[2..];
  }

  /** make_friends between user `friend` and the user of `client`. */
  method BefriendClient(friend: string, client: Client, g: Graph) returns (code: int)
    requires g.Valid() && client.username.Some? && Bound(client, g)
    modifies g, g.arrays
    ensures g.Valid() && g.users == old(g.users) && g.arrays == old(g.arrays) && Bound(client, g)
    ensures (code, g.net) == MakeFriendsSpec(old(g.net), friend, client.username.value)
  {
    code := g.MakeFriends(friend, client.username.value);
  }

  /** What process_args writes for result `code` of make_friends: on
      success a notice to the new friend and one to the client, otherwise
      the error for the code. */
  method FriendsAnswer(code: int, friend: string, table: ClientTable, client: Client, g: Graph)
    returns (out: seq<Output>)
    requires table.Valid() && client.username.Some?
    requires g.Valid() && Bound(client, g)
    ensures g.Valid() && Bound(client, g)
    ensures out == FriendsReply(table.Peers(), client.fd, client.username.value, friend, code)
  {
    if code == 0 {
      var notified := table.NotifyClient(friend, FriendedBy(client.username.value));
      out := notified + [Output(client.fd, NowFriends(friend))];
    } else if code == 1 {
      out := [Output(client.fd, Failure("users are already friends"))];
    } else if code == 2 {
      out := [Output(client.fd, Failure("at least one user you entered has the max number of friends"))];
    } else if code == 3 {
      out := [Output(client.fd, Failure("you must enter two different users"))];
    } else if code == 4 {
      out := [Output(client.fd, Failure("User you entered does not exist"))];
    } else {
      out := [];
    }
  }

  /** What process_args writes for result `code` of make_post: on success
      a notice to the target, otherwise the error for the code. */
  method PostAnswer(code: int, target: User?, targetName: string, contents: string, table: ClientTable, client: Client, g: Graph)
    returns (out: seq<Output>)
    requires table.Valid() && client.username.Some?
    requires g.Valid() && Bound(client, g)
    ensures g.Valid() && Bound(client, g)
    requires code == 0 ==> target != null && target.name == targetName
    ensures out == PostReply(table.Peers(), client.fd, client.username.value, targetName, contents, code)
  {
    if code == 0 {
      out := table.NotifyClient(target.name, PostFrom(client.username.value, contents));
    } else if code == 1 {
      out := [Output(client.fd, Failure("the users are not friends"))];
    } else if code == 2 {
      out := [Output(client.fd, Failure("at least one user you entered does not exist"))];
    } else {
      out := [];
    }
  }

  /** make_post from the user of `client` to the user found by name
      `target`, which is returned. */
  method PostToUser(targetName: string, contents: string, client: Client, g: Graph, stamp: string)
    returns (code: int, target: User?)
    requires g.Valid() && client.username.Some? && Bound(client, g)
    modifies g, g.users
    ensures g.Valid() && g.users == old(g.users) && g.arrays == old(g.arrays) && Bound(client, g)
    ensures (code, g.net) == MakePostSpec(old(g.net), Lookup(old(g.net), client.username.value),
                                          Lookup(old(g.net), targetName), contents, stamp)
    ensures code == 0 ==> target != null && target.name == targetName
  {
    BoundFinds(client, g);
    var author := client.user;
    ghost var a, t := Find(g.net, client.username.value), Find(g.net, targetName);
    target := g.FindUser(targetName);
    if target != null {
      assert Represents(g.users[t], g.net[t]);
    }
    ghost var net0 := g.net;
    code := g.MakePost(author, target, contents, stamp);
    g.IndexOfAt(a);
    if target != null {
      g.IndexOfAt(t);
    }
  }

  /** The profile command of `client`: the profile text of user `name`, or
      "user not found". */
  method ProfileCommand(name: string, client: Client, g: Graph) returns (out: seq<Output>)
    requires g.Valid()
    ensures var u := Lookup(g.net, name);
            out == [Output(client.fd, if u.None? then Failure("user not found") else Text(ProfileText(g.net[u.value])))]
  {
    var user := g.FindUser(name);
    if user != null {
      ghost var u := Find(g.net, name);
      assert Represents(g.users[u], g.net[u]);
      RepresentsProfile(user, g.net[u]);
    }
    var text, _ := PrintUser(user);
    if text.None? {
      out := [Output(client.fd, Failure("user not found"))];
    } else {
      out := [Output(client.fd, Text(text.value))];
    }
  }

  /** The make_friends branch of process_args: befriend the named user and
      the client's user, then answer. */
  method FriendsCommand(argv: seq<string>, table: ClientTable, client: Client, ghost c: nat, g: Graph, stamp: string)
    returns (out: seq<Output>)
    requires |argv| == 2 && argv[0] == "make_friends"
    requires table.Valid() && c < |table.clients| && table.clients[c] == client
    requires g.Valid() && client.username.Some? && Bound(client, g)
    modifies g, g.arrays
    ensures g.Valid() && g.users == old(g.users) && g.arrays == old(g.arrays) && Bound(client, g)
    ensures Reply(0, Server(g.net, table.Peers()), out)
         == ServerSpec.ProcessArgs(Server(old(g.net), table.Peers()), c, argv, stamp)
  {
    var code := BefriendClient(argv[1], client, g);
    out := FriendsAnswer(code, argv[1], table, client, g);
  }

  /** The post branch of process_args: join the contents, post them from
      the client's user to the named user, then answer. */
  method PostCommand(argv: seq<string>, table: ClientTable, client: Client, ghost c: nat, g: Graph, stamp: string)
    returns (out: seq<Output>)
    requires |argv| >= 3 && argv[0] == "post"
    requires table.Valid() && c < |table.clients| && table.clients[c] == client
    requires g.Valid() && client.username.Some? && Bound(client, g)
    modifies g, g.users
    ensures g.Valid() && g.users == old(g.users) && g.arrays == old(g.arrays) && Bound(client, g)
    ensures Reply(0, Server(g.net, table.Peers()), out)
         == ServerSpec.ProcessArgs(Server(old(g.net), table.Peers()), c, argv, stamp)
  {
    var space := ContentsSpace(argv);
    var contents := JoinContents(argv);
    assert |contents| < space;
    var code, target := PostToUser(argv[1], contents, client, g, stamp);
    out := PostAnswer(code, target, argv[1], contents, table, client, g);
  }

  /** process_args for the tokens `argv` of a line from `client`, the
      logged-in client at position `c` of the list, on the users `g`. */
  method ProcessArgs(argv: seq<string>, table: ClientTable, client: Client, ghost c: nat, g: Graph, stamp: string)
    returns (ret: int, out: seq<Output>)
    requires table.Valid() && c < |table.clients| && table.clients[c] == client
    requires g.Valid() && client.username.Some? && Bound(client, g)
    modifies g, g.users, g.arrays
    ensures g.Valid() && g.users == old(g.users) && g.arrays == old(g.arrays) && Bound(client, g)
    ensures Reply(ret, Server(g.net, table.Peers()), out)
         == ServerSpec.ProcessArgs(Server(old(g.net), table.Peers()), c, argv, stamp)
  {
    ret, out := 0, [];
    if |argv| <= 0 {
    } else if argv[0] == "quit" && |argv| == 1 {
      ret := -1;
    } else if argv[0] == "list_users" && |argv| == 1 {
      var text, _ := g.ListUsers();
      out := [Output(client.fd, Text(text))];
    } else if argv[0] == "make_friends" && |argv| == 2 {
      out := FriendsCommand(argv, table, client, c, g, stamp);
    } else if argv[0] == "post" && |argv| >= 3 {
      out := PostCommand(argv, table, client, c, g, stamp);
    } else if argv[0] == "profile" && |argv| == 2 {
      out := ProfileCommand(argv[1], client, g);
    } else {
      out := [Output(client.fd, Failure("Incorrect syntax"))];
    }
  }

  /** The first line of a client without a name: its username, cut to fit
      (with a notice), registered as a user unless it exists ("Welcome
      back."), then the client's name and user are set. */
  method Register(line: string, table: ClientTable, client: Client, ghost c: nat, g: Graph)
    returns (out: seq<Output>)
    requires table.Valid() && c < |table.clients| && table.clients[c] == client
    requires g.Valid() && client.username.None?
    modifies g, g.users, client`username, client`user
    ensures g.Valid() && Bound(client, g)
    ensures forall i :: 0 <= i < |g.users| ==> g.users[i] in old(g.users) || fresh(g.users[i])
    ensures old(g.users) <= g.users
    ensures fresh(g.arrays - old(g.arrays))
    ensures var name := NameOf(line);
            var (code, net') := CreateUserSpec(old(g.net), name);
            && g.net == net'
            && table.Peers() == old(table.Peers())[c := Peer(client.fd, Some(name))]
            && out == (if |line| > MAX_NAME - 1 then [Output(client.fd, NameTruncated)] else [])
                      + (if code == 1 then [Output(client.fd, WelcomeBack)] else [])
  {
    var len := |line|;
    out := [];
    if len > MAX_NAME - 1 {
      len := MAX_NAME - 1;
      out := [Output(client.fd, NameTruncated)];
    }
    var name := line[..len];
    assert name == NameOf(line);
    CreateUserIdempotent(g.net, name);
    var code := AddUser(name, g);
    if code == 1 {
      out := out + [Output(client.fd, WelcomeBack)];
    }
    LogIn(name, table, client, c, g);
  }

  /** create_user on `g`: besides what it does to the users, every user and
      friend array is one that was there or a new one. */
  method AddUser(name: string, g: Graph) returns (code: int)
    requires g.Valid()
    modifies g, g.users
    ensures g.Valid() && (code, g.net) == CreateUserSpec(old(g.net), name)
    ensures forall i :: 0 <= i < |g.users| ==> g.users[i] in old(g.users) || fresh(g.users[i])
    ensures old(g.users) <= g.users
    ensures fresh(g.arrays - old(g.arrays))
  {
    code := g.CreateUser(name);
  }

  /** Setting the username of `client`, and its user by find_user. */
  method LogIn(name: string, table: ClientTable, client: Client, ghost c: nat, g: Graph)
    requires table.Valid() && c < |table.clients| && table.clients[c] == client
    requires g.Valid() && 0 <= Find(g.net, name)
    modifies client`username, client`user
    ensures g.Valid() && Bound(client, g) && client.username == Some(name)
    ensures g.users == old(g.users) && g.net == old(g.net)
    ensures table.Peers() == old(table.Peers())[c := Peer(client.fd, Some(name))]
  {
    ghost var peers := table.Peers();
    table.Distinct();
    var user := g.FindUser(name);
    assert Represents(g.users[Find(g.net, name)], g.net[Find(g.net, name)]);
    client.username := Some(name);
    client.user := user;
    assert table.Peers() == peers[c := Peer(client.fd, Some(name))];
  }

  /** parse_input for the C string `line` from `client`, the client at
      position `c` of the list: a client without a name registers; a
      logged-in client's line is split into tokens for process_args. */
  method ParseInput(line: string, table: ClientTable, client: Client, ghost c: nat, g: Graph, stamp: string)
    returns (ret: int, out: seq<Output>)
    requires table.Valid() && c < |table.clients| && table.clients[c] == client
    requires g.Valid() && Bound(client, g)
    modifies g, g.users, g.arrays, client`username, client`user
    ensures g.Valid() && Bound(client, g)
    ensures forall i :: 0 <= i < |g.users| ==> g.users[i] in old(g.users) || fresh(g.users[i])
    ensures old(g.users) <= g.users
    ensures fresh(g.arrays - old(g.arrays))
    ensures Reply(ret, Server(g.net, table.Peers()), out)
         == ServerSpec.ParseInput(Server(old(g.net), old(table.Peers())), c, line, stamp)
  {
    if client.username.None? {
      out := Register(line, table, client, c, g);
      ret := 0;
    } else {
      var argv := Tokenise(line);
      ret, out := ProcessArgs(argv, table, client, c, g, stamp);
      ret := if ret == -1 then -1 else 0;
    }
  }

  // ---------------------------------------------------------------------------
  // Reading lines

  /** read_from for `data`, what read(2) returned into the free room of the
      buffer of `client`, the client at position `c` of the list: no data
      means the peer closed; otherwise the data is appended to the buffer
      and the complete lines in it are handled. The k-th line handled is
      dated clock(k). */
  method ReadFrom(client: Client, table: ClientTable, ghost c: nat, g: Graph, data: seq<char>, clock: nat -> string)
    returns (ret: int, out: seq<Output>)
    requires table.Valid() && c < |table.clients| && table.clients[c] == client
    requires g.Valid() && Bound(client, g) && client.Ready()
    requires |data| <= client.room
    modifies client`inbuf, client`room, client`after, client`username, client`user, client.buf
    modifies g, g.users, g.arrays
    ensures g.Valid() && Bound(client, g) && old(g.users) <= g.users
    ensures var s, pending := Server(old(g.net), old(table.Peers())), old(client.buf[..client.inbuf]);
            && Reply(ret, Server(g.net, table.Peers()), out) == ServerSpec.ReadFrom(s, c, pending, data, clock)
            && (!Ends(s, c, pending, data, clock) ==> client.Ready() && client.buf[..client.inbuf] == Rest(pending + data))
    ensures |data| == 0 ==>
              && client.buf[..] == old(client.buf[..]) && client.inbuf == old(client.inbuf)
              && client.room == old(client.room) && client.after == old(client.after)
  {
    ghost var all := client.buf[..client.inbuf] + data;
    if |data| == 0 {
      return client.fd, [];
    }
    client.Append(data);
    var quit;
    quit, out := ReadLines(client, table, c, g, all, clock);
    if quit {
      return client.fd, out;
    }
    RestHasNoCrlf(all);
    client.ResetRoom(g, table);
    ret := 0;
  }

  /** The loop of read_from over the buffer holding `all`: while it holds a
      network newline, handle the line before it; stop at a line that
      quits. */
  method ReadLines(client: Client, table: ClientTable, ghost c: nat, g: Graph, ghost all: seq<char>,
                   clock: nat -> string)
    returns (quit: bool, out: seq<Output>)
    requires table.Valid() && c < |table.clients| && table.clients[c] == client
    requires g.Valid() && Bound(client, g)
    requires client.buf.Length == BUF_SIZE + 1 && 0 <= client.inbuf <= BUF_SIZE
    requires client.buf[..client.inbuf] == all
    modifies client`inbuf, client`username, client`user, client.buf, g, g.users, g.arrays
    ensures g.Valid() && Bound(client, g) && old(g.users) <= g.users
    ensures var r := Run(Server(old(g.net), old(table.Peers())), c, CLines(Lines(all)), clock);
            && Reply(if quit then -1 else 0, Server(g.net, table.Peers()), out) == r
            && (!quit ==> 0 <= client.inbuf <= BUF_SIZE && client.buf[..client.inbuf] == Rest(all))
  {
    ghost var s0 := Server(g.net, table.Peers());
    ghost var lines := CLines(Lines(all));
    ghost var rs := seq(|lines| + 1, k requires 0 <= k <= |lines| => Run(s0, c, lines[..k], clock));
    assert lines[..0] == [];
    var k;
    quit, out, k := ScanLines(client, table, c, g, all, clock, s0, rs);
    if quit {
      RunQuits(s0, c, CLines(Lines(all)), k, clock);
    } else {
      ScanEnds(s0, c, all, k, clock);
    }
  }

  /** The while loop of read_from itself: after it, either line `k` quit,
      or `k` lines were handled and no network newline is left. */
  method ScanLines(client: Client, table: ClientTable, ghost c: nat, g: Graph, ghost all: seq<char>,
                   clock: nat -> string, ghost s0: Server, ghost rs: seq<Reply>)
    returns (quit: bool, out: seq<Output>, k: nat)
    requires c < |s0.peers| && Traced(rs, s0, c, CLines(Lines(all)), clock)
    requires Scanning(client, table, c, g, all, 0, rs, [])
    modifies client`inbuf, client`username, client`user, client.buf, g, g.users, g.arrays
    ensures Extended(g)
    ensures quit ==> Quitted(client, table, g, k, rs, out)
    ensures !quit ==> Scanning(client, table, c, g, all, k, rs, out) && LineEnd(Drop(all, k)) == -1
  {
    k := 0;
    out := [];
    var where := FindNetworkNewline(client.buf, client.inbuf);
    while where > 0
      invariant Scanning(client, table, c, g, all, k, rs, out)
      invariant Extended(g)
      invariant where == LineEnd(Drop(all, k))
      decreases client.inbuf
    {
      var r;
      r, out, where := Pass(where, all, k, client, table, c, g, clock, s0, rs, out);
      if r == -1 {
        return true, out, k;
      }
      k := k + 1;
    }
    quit := false;
  }

  /** When no network newline is left after `k` lines, those were all the
      lines, and the bytes left are the rest. */
  lemma ScanEnds(s0: Server, c: nat, all: seq<char>, k: nat, clock: nat -> string)
    requires c < |s0.peers| && k <= |Lines(all)| && LineEnd(Drop(all, k)) == -1
    ensures Run(s0, c, CLines(Lines(all))[..k], clock) == Run(s0, c, CLines(Lines(all)), clock)
    ensures Drop(all, k) == Rest(all)
  {
    DropAll(all, k);
    assert CLines(Lines(all))[..k] == CLines(Lines(all));
  }

  /** From the old state to the current one, the users of `g` kept their
      places and only new users and new friend arrays were added. */
  twostate predicate Extended(g: Graph)
    reads g
  {
    && old(g.users) <= g.users
    && (forall i :: 0 <= i < |g.users| ==> g.users[i] in old(g.users) || fresh(g.users[i]))
    && fresh(g.arrays - old(g.arrays))
  }

  /** `rs[k]` is the reply of the run from `s0` of the first `k` of `lines`,
      for each `k` up to all of them. */
  ghost predicate Traced(rs: seq<Reply>, s0: Server, c: nat, lines: seq<string>, clock: nat -> string)
    requires c < |s0.peers|
  {
    && |rs| == |lines| + 1
    && forall k {:trigger Run(s0, c, lines[..k], clock)} :: 0 <= k <= |lines| ==> rs[k] == Run(s0, c, lines[..k], clock)
  }

  /** The state of the read loop before line `k` of `all`: the lines before
      it were handled, the run so far, `rs[k]`, writing `out`, and the rest
      of `all` is in the buffer. */
  ghost predicate Scanning(client: Client, table: ClientTable, c: nat, g: Graph, all: seq<char>, k: nat,
                           rs: seq<Reply>, out: seq<Output>)
    reads client, client.buf, table, table.clients, g, g.users, g.arrays
  {
    && table.Valid() && c < |table.clients| && table.clients[c] == client
    && g.Valid() && Bound(client, g)
    && client.buf.Length == BUF_SIZE + 1 && 0 <= client.inbuf <= BUF_SIZE
    && k <= |Lines(all)| && client.buf[..client.inbuf] == Drop(all, k)
    && k < |rs| && rs[k] == Reply(0, Server(g.net, table.Peers()), out)
  }

  /** Line `k` quit: the run of the first k + 1 lines, `rs[k + 1]`, returns
      -1 with the current users and clients and the writes `out`. */
  ghost predicate Quitted(client: Client, table: ClientTable, g: Graph, k: nat, rs: seq<Reply>, out: seq<Output>)
    reads client, table, table.clients, g, g.users, g.arrays
  {
    && g.Valid() && Bound(client, g) && k + 1 < |rs|
    && rs[k + 1] == Reply(-1, Server(g.net, table.Peers()), out)
  }

  /** One pass of the read loop: line `k` is handled and, unless it quits,
      shifted out of the buffer and the next network newline is looked
      for; the run of the lines so far, which wrote `done`, grows by that
      line. */
  method Pass(where: int, ghost all: seq<char>, k: nat, client: Client, table: ClientTable,
              ghost c: nat, g: Graph, clock: nat -> string, ghost s0: Server, ghost rs: seq<Reply>,
              done: seq<Output>)
    returns (r: int, out: seq<Output>, next: int)
    requires c < |s0.peers| && Traced(rs, s0, c, CLines(Lines(all)), clock)
    requires Scanning(client, table, c, g, all, k, rs, done)
    requires where == LineEnd(Drop(all, k)) && where > 0
    modifies client`inbuf, client`username, client`user, client.buf, g, g.users, g.arrays
    ensures Extended(g)
    ensures k < |Lines(all)| && (r == 0 || r == -1)
    ensures r == -1 ==> Quitted(client, table, g, k, rs, out)
    ensures r != -1 ==> && Scanning(client, table, c, g, all, k + 1, rs, out)
                        && client.inbuf < old(client.inbuf) && next == LineEnd(Drop(all, k + 1))
  {
    var o;
    r, o := HandleLine(where, all, k, client, table, c, g, clock(k));
    RunStep(s0, c, CLines(Lines(all)), k, clock);
    out := done + o;
    next := 0;
    if r != -1 {
      next := Advance(where, all, k, client, g, table);
    }
  }

  /** The bytes after the line just handled moved to the front, and the
      next network newline looked for; the graph and the list are not
      touched. */
  method Advance(where: int, ghost all: seq<char>, ghost k: nat, client: Client, ghost g: Graph,
                 ghost table: ClientTable)
    returns (next: int)
    requires client.buf.Length == BUF_SIZE + 1 && 2 <= where <= client.inbuf <= BUF_SIZE
    requires client.buf[where..client.inbuf] == Drop(all, k + 1)
    requires g.Valid() && Bound(client, g) && table.Valid()
    modifies client`inbuf, client.buf
    ensures 0 <= client.inbuf == old(client.inbuf) - where
    ensures client.buf[..client.inbuf] == Drop(all, k + 1) && next == LineEnd(Drop(all, k + 1))
    ensures g.Valid() && Bound(client, g)
    ensures table.Valid() && table.Peers() == old(table.Peers())
  {
    ShiftLine(where, all, k, client);
    next := FindNetworkNewline(client.buf, client.inbuf);
  }

  /** The line `k` of `all` held at the front of the buffer, ending at
      `where`, has its network newline overwritten by a NUL and is handled
      by parse_input. */
  method HandleLine(where: int, ghost all: seq<char>, ghost k: nat, client: Client, table: ClientTable,
                    ghost c: nat, g: Graph, stamp: string)
    returns (r: int, out: seq<Output>)
    requires table.Valid() && c < |table.clients| && table.clients[c] == client
    requires g.Valid() && Bound(client, g)
    requires client.buf.Length == BUF_SIZE + 1 && 0 <= client.inbuf <= BUF_SIZE
    requires client.buf[..client.inbuf] == Drop(all, k) && where == LineEnd(Drop(all, k)) && where > 0
    modifies client`username, client`user, client.buf, g, g.users, g.arrays
    ensures g.Valid() && Bound(client, g)
    ensures forall i :: 0 <= i < |g.users| ==> g.users[i] in old(g.users) || fresh(g.users[i])
    ensures old(g.users) <= g.users
    ensures fresh(g.arrays - old(g.arrays))
    ensures k < |Lines(all)|
    ensures Reply(r, Server(g.net, table.Peers()), out)
         == ServerSpec.ParseInput(Server(old(g.net), old(table.Peers())), c, CStr(Lines(all)[k]), stamp)
    ensures 2 <= where <= client.inbuf == old(client.inbuf) && client.buf[where..client.inbuf] == Drop(all, k + 1)
  {
    var line := CutLine(where, all, k, client, g, table);
    r, out := ParseInput(line, table, client, c, g, stamp);
  }

  /** The line `k` of `all` at the front of the buffer, up to the NUL that
      replaces its network newline at `where` - 2, as parse_input reads it. */
  method CutLine(where: int, ghost all: seq<char>, ghost k: nat, client: Client, ghost g: Graph,
                 ghost table: ClientTable)
    returns (line: string)
    requires client.buf.Length == BUF_SIZE + 1 && 0 <= client.inbuf <= BUF_SIZE
    requires client.buf[..client.inbuf] == Drop(all, k) && where == LineEnd(Drop(all, k)) && where > 0
    requires g.Valid() && Bound(client, g) && table.Valid()
    modifies client.buf
    ensures k < |Lines(all)| && line == CStr(Lines(all)[k])
    ensures 2 <= where <= client.inbuf && client.buf[where..client.inbuf] == Drop(all, k + 1)
    ensures g.Valid() && Bound(client, g)
    ensures table.Valid() && table.Peers() == old(table.Peers())
  {
    DropStep(all, k);
    client.buf[where - 2] := '\0';
    CStrCut(client.buf[..], where - 2);
    assert client.buf[..where - 2] == Lines(all)[k];
    line := CStr(client.buf[..]);
  }

  /** The bytes after the line just handled moved to the front. */
  method ShiftLine(where: int, ghost all: seq<char>, ghost k: nat, client: Client)
    requires client.buf.Length == BUF_SIZE + 1 && 2 <= where <= client.inbuf <= BUF_SIZE
    requires client.buf[where..client.inbuf] == Drop(all, k + 1)
    modifies client`inbuf, client.buf
    ensures 0 <= client.inbuf == old(client.inbuf) - where
    ensures client.buf[..client.inbuf] == Drop(all, k + 1)
  {
    client.inbuf := client.inbuf - where;
    MoveDown(client.buf, where, client.inbuf);
  }

  /** read(2) of `data` into `buf` at offset `at`. */
  method Receive(buf: array<char>, at: nat, data: seq<char>)
    requires at + |data| <= buf.Length
    modifies buf
    ensures buf[..at + |data|] == old(buf[..at]) + data
    ensures buf[at + |data|..] == old(buf[at + |data|..])
  {
    forall i | 0 <= i < |data| {
      buf[at + i] := data[i];
    }
    assert buf[..at + |data|] == old(buf[..at]) + data;
  }

  /** memmove(buf, buf + from, n). */
  method MoveDown(buf: array<char>, from: nat, n: nat)
    requires from + n <= buf.Length
    modifies buf
    ensures buf[..n] == old(buf[from..from + n])
    ensures buf[n..] == old(buf[n..])
  {
    forall i | 0 <= i < n {
      buf[i] := buf[from + i];
    }
  }
}
