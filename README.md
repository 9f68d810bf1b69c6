# A verified model of the friends chat server

The system is a small social-network server for line-based clients.
A client connects and sends its username as its first line, which registers
the user unless the name is already taken. After that, each line is a
command:

- `list_users` lists the users.
- `make_friends <name>` befriends that user.
- `post <name> <words…>` posts to a friend's feed.
- `profile <name>` shows a user's profile.
- `quit` ends the session.

The users live in `friends.c`. They form a singly linked list, in
registration order. Each user has a fixed array of `MAX_FRIENDS` friend
pointers, filled from the front, and a feed of posts, newest first. The
server, `friend_server.c`, does the following:

- It keeps the connected clients in a second linked list.
- It reads each client's bytes into a `BUF_SIZE` buffer.
- It cuts the buffer at network newlines (CR LF).
- It splits each line into tokens with `strtok`.
- It dispatches the command, writing replies and notifications to sockets.

The project has six modules:

| file | module | contents |
|---|---|---|
| `common.dfy` | `Common` | C strings cut at the first NUL, `strtok`'s tokens, and the joining of a post's words |
| `framing.dfy` | `Framing` | how a byte stream splits into CR LF-terminated lines and a leftover (`find_network_newline` and the read loop, as functions) |
| `friends_spec.dfy` | `FriendsSpec` | the users as a value (`Network`, a sequence of `Profile`s); `create_user`, `make_friends`, `make_post`, `list_users`, `print_post` and `print_user` as functions on it; the invariant they keep (`WellFormed`) and their buffer sizes |
| `friends.dfy` | `Friends` | the users on the heap: `User` objects with `next` pointers and friend arrays, and a `Graph` that owns the list. Every operation of `friends.c` is a method proved to change the graph's abstract value exactly as the matching `FriendsSpec` function says |
| `server_spec.dfy` | `ServerSpec` | the server as a value (`Server`: the users and the connected clients, each client being a socket and an optional username); `notify_client`, `find_client`, `remove_client`, `process_args`, `parse_input` and `read_from` as functions, with the lemmas that state what they promise |
| `friend_server.dfy` | `FriendServer` | the server on the heap: `Client` objects with fixed input buffers, the `ClientTable` linked list, and the functions of `friend_server.c` as methods. Each method is proved to do what the `ServerSpec` function its contract names says (Unlink, Notify, FindClient, ProcessArgs, ParseInput, ReadFrom, or CreateUserSpec and the other `FriendsSpec` functions), read on the abstract values of the list and the graph; `accept_connection` is proved to append a fresh nameless client to the abstract list |

Two kinds of outside effect are handled as follows:

- **Sockets.** The bytes that `read(2)` returns are a parameter, and the
  socket number that `accept(2)` returns is a parameter. Each `write(2)` is
  returned as an `Output`: a socket paired with an abstract `Message`.
- **Time.** The date of a post is a string parameter (`stamp`). In
  `read_from`, the k-th line handled in one call is dated `clock(k)`.

`find_client` has no call site in `friend_server.c`. It is modelled all the same (ServerSpec.FindClient and FriendServer.ClientTable.FindClient), since it is one of the file's functions and its bug is latent.

## Model

| member | source | states |
|---|---|---|
| Common.CStr | friend_server.c:348-349 | the string `parse_input` reads from the buffer is the prefix before the first NUL: it holds no NUL and is followed by one unless it is the whole buffer |
| Common.CStrCut | friend_server.c:348 | writing a NUL at index n ends the C string at or before n |
| Common.Tokens | friend_server.c:128-140 | the tokens `strtok(_, " ")` yields are non-empty and contain no space |
| Common.TokensAt | friend_server.c:134-137 | one `strtok` step: from a non-space, the run up to the next space (or the end) is the next token, and the space behind it yields nothing |
| Common.Join | friend_server.c:259-263 | the post's contents built by `strcpy` and the `strcat` loop: the words joined by single spaces; stated by JoinSnoc and TokensJoin |
| Common.JoinSnoc | friend_server.c:260-263 | one `strcat` of a space and a word onto the joined contents is the join of one more word |
| Common.TokensJoin | friend_server.c:259-263 | joining tokens with single spaces and tokenising again gives the tokens back |
| Framing.LineEnd | friend_server.c:52-61 | the result is -1 exactly when the bytes hold no CR LF; otherwise it is two past the CR of the first CR LF |
| Framing.Lines | friend_server.c:345-356 | the lines the read loop hands on, each the bytes before a CR LF; stated by FramingLossless, LinesHaveNoCrlf and FeedAnySplit |
| Framing.Rest | friend_server.c:345-356 | the bytes the read loop leaves in the buffer; stated by FramingLossless, RestHasNoCrlf and FeedAnySplit |
| Framing.FramingLossless | friend_server.c:347-354 | the lines, each with its CR LF put back, followed by the leftover, are the bytes received: no byte lost or duplicated |
| Framing.RestHasNoCrlf | friend_server.c:347-354 | what the read loop leaves in the buffer holds no network newline |
| Framing.LinesHaveNoCrlf | friend_server.c:347-348 | no line handed to `parse_input` contains a network newline |
| Framing.LineEndOfPrefix | friend_server.c:344-347 | bytes appended behind a complete line do not move where that line ends |
| Framing.FramingSplit | friend_server.c:339-354 | framing a concatenation is framing the first part, then framing its leftover followed by the second part |
| Framing.FeedAnySplit | friend_server.c:339-357 | bytes read in any number of pieces into a buffer holding a partial line yield the same lines and leftover as when read at once |
| Framing.OneLineAnySplit | friend_server.c:339-354 | a command and its CR LF, however split across reads, yield exactly that one line and leave nothing |
| Framing.NoCrlfNoLines | friend_server.c:347 | bytes without CR LF give no line and stay in the buffer |
| Framing.DropStep | friend_server.c:347-353 | one turn of the read loop takes out the next line, which is the text before the CR LF that `find_network_newline` finds |
| Framing.DropAll | friend_server.c:347-357 | once no CR LF is left after k lines, those were all the lines and the buffer holds the leftover |
| FriendsSpec.Find | friends.c:78-84 | `find_user` gives the first user with the name, or -1 exactly when no user has it |
| FriendsSpec.FindIsFirst | friends.c:78-84 | any position with no earlier match that carries the name (or the end) is Find's result |
| FriendsSpec.FindSameNames | friends.c:78-84 | Find depends on the users' names only |
| FriendsSpec.FindUnique | friends.c:53-56 | with unique names, looking up a user's name finds that user |
| FriendsSpec.CreateUserSpec | friends.c:28-68 | `create_user`'s code and users: 2 exactly when the name is MAX_NAME bytes or longer, 0 exactly when it fits and is not taken, and then one user is appended behind the others; on 1 or 2 nothing changes |
| FriendsSpec.CreateUserPreserves | friends.c:28-68 | `create_user` keeps names unique, friend lists bounded, duplicate-free and symmetric, and feeds written by friends |
| FriendsSpec.CreateUserIdempotent | friends.c:53-63 | after `create_user` of a name that fits, the name is registered, and registering it again returns 1 and changes nothing |
| FriendsSpec.MakeFriendsSucceeds | friends.c:135-167 | two different users with room who are not yet friends are linked with code 0, and the result is well formed |
| FriendsSpec.MakeFriendsSpec | friends.c:135-167 | `make_friends`' code and users: 4 exactly when either name is unregistered; nothing changes unless the code is 0; the users keep their number, names and feeds |
| FriendsSpec.Link | friends.c:164-165 | the two stores into the friend arrays: only the two users' friend lists change, every other user stays |
| FriendsSpec.MakeFriendsEffect | friends.c:164-165 | on success, each name is appended to the other's friend list; names and feeds stay, and every other user is unchanged |
| FriendsSpec.MakeFriendsProfiles | friends.c:135-167 | on success, every profile stays bounded, duplicate-free, without self-friendship and names only users |
| FriendsSpec.MakeFriendsSymmetricPair | friends.c:164-165 | on success, friendship stays symmetric for every pair of users |
| FriendsSpec.MakeFriendsPreserves | friends.c:135-167 | `make_friends` keeps the network well formed whatever its result |
| FriendsSpec.MakeFriendsSymmetric | friends.c:146-165 | after success, each user lists the other, and asking again in either order returns 1 and changes nothing |
| FriendsSpec.MakeFriendsSelf | friends.c:141-142 | befriending oneself returns 3 and changes nothing |
| FriendsSpec.MakeFriendsCapacity | friends.c:160-161 | a request where either user is at MAX_FRIENDS, the two being distinct, existing and not yet friends, returns 2 and changes nothing |
| FriendsSpec.MakePostGate | friends.c:329-364 | a post succeeds exactly when author and target are friends, whichever side's list is read; it then puts the post at the front of the target's feed, and on failure nothing changes |
| FriendsSpec.MakePostSpec | friends.c:329-364 | `make_post`'s code and users: 2 exactly for a NULL author or target; nothing changes unless the code is 0; names and friend lists never change |
| FriendsSpec.MakePostPreserves | friends.c:329-364 | `make_post` keeps the network well formed |
| FriendsSpec.ListAfterCreate | friends.c:91-115 | a newly registered user appears as one more line at the end of the user list |
| FriendsSpec.UserListText | friends.c:91-115 | the text `list_users` builds: "User List", CR LF, then a tab, the name and CR LF per user in list order (its size is stated by ListSizeExact, its growth by ListAfterCreate) |
| FriendsSpec.FeedShowsNewestFirst | friends.c:268-280 | a new post is shown at the top of the profile's posts, followed by the earlier feed unchanged |
| FriendsSpec.PostText | friends.c:175-197 | the text `print_post` builds: "From: ", the author, CR LF, "Date: ", the stamp, CR LF, the contents, CR LF (its size is stated by PostSizeExact) |
| FriendsSpec.PostsText | friends.c:268-280 | the feed as `print_user` shows it: each post's text, with the separator between consecutive posts (its size is stated by PostsSizeExact, its order by FeedShowsNewestFirst) |
| FriendsSpec.ProfileText | friends.c:220-283 | the text `print_user` builds: the name, the friend lines, the posts heading, the feed and the closing separator (its size is stated by ProfileSizeExact and PrintUserOverflow) |
| FriendsSpec.ListSizeExact | friends.c:91-115 | the user list fills `list_users`' count exactly, leaving the extra byte for the NUL |
| FriendsSpec.PostSizeExact | friends.c:175-197 | `print_post`'s buffer holds its text and the NUL exactly |
| FriendsSpec.PostsSizeExact | friends.c:236-247 | the count of the posts' bytes is the length of the posts' text with its separators |
| FriendsSpec.PrintUserOverflow | friends.c:227-249 | the buffer `print_user` allocates is always 2 + (number of friends) bytes short of its text and NUL |
| FriendsSpec.ProfileSizeExact | friends.c:220-283 | the corrected count (the space after "Name:", two bytes per friend line, the NUL) is exactly the text and its NUL |
| Friends.User.constructor | friends.c:33-48 | a new user has the name, all MAX_FRIENDS friend slots NULL, no post and no successor |
| Friends.FirstNull | friends.c:335 | the number of occupied slots before the first NULL slot, or the whole array |
| Friends.FriendNames | friends.c:259-264 | the names in the friend slots up to the first NULL, in slot order |
| Friends.RepresentsProfile | friends.c:220-283 | what `print_user` reads from a user of the list is that user's profile in the abstract network |
| Friends.UnboundedScanAgrees | friends.c:231-234 | where a friend array has a NULL slot, the unbounded loop stops at the first one |
| Friends.UnboundedScanFull | friends.c:231-234 | with every slot occupied, the unbounded loop reads past the end of the array |
| Friends.PrintPost | friends.c:175-197 | the count `print_post` allocates is the length of the post's text ("From:", "Date:", contents, each line ended by CR LF) plus one byte for the NUL |
| Friends.FriendsSize | friends.c:229-234 | the bytes counted for the friend lines are the friends' names, two bytes each |
| Friends.PostsSizeOf | friends.c:236-247 | the bytes counted for the feed are its text with the separators |
| Friends.AppendFriendLines | friends.c:259-264 | the text grows by each friend's name and a line end, in slot order |
| Friends.AppendPosts | friends.c:268-280 | the text grows by the feed, newest first, with a separator between posts |
| Friends.PrintUser | friends.c:220-283 | NULL for no user; otherwise the user's profile text, and a capacity of exactly one more byte |
| Friends.Graph.SameName | friends.c:53-56 | two users of the list with the same name are the same object |
| Friends.Graph.FindUser | friends.c:78-84 | the list walk returns the user at Find's position, or null |
| Friends.Graph.ListUsers | friends.c:91-115 | "User List" followed by a tab, the name and a newline per user in registration order; the capacity is one more byte |
| Friends.Graph.CreateUser | friends.c:28-68 | the result code and new network are those of CreateUserSpec; on success one fresh user is appended and nothing else in the list changes |
| Friends.Graph.Append | friends.c:58-66 | the new user is linked at the tail (or as head), and the network gains its empty profile |
| Friends.Graph.ScanSlots | friends.c:146-158 | the scan stops at the other user (found) or at the first empty slot, which is the number of friends |
| Friends.Graph.MakeFriends | friends.c:135-167 | the result code and new network are those of MakeFriendsSpec, and the list of users is unchanged |
| Friends.Graph.LinkUsers | friends.c:141-167 | for two distinct users: "already friends", "no room", or the link, as MakeFriendsSpec says |
| Friends.Graph.NotListed | friends.c:146-152 | no slot before the first empty one holds the user, so its name is not in the friend list |
| Friends.Graph.AddFriend | friends.c:164-165 | a user stored in the first empty slot extends the friend list by its name |
| Friends.Graph.Befriend | friends.c:164-165 | the two stores make the network MakeFriendsSpec's success result |
| Friends.Graph.ListsName | friends.c:335-340 | the bounded slot scan finds the name exactly when it is among the friends |
| Friends.Graph.MakePost | friends.c:329-364 | the result code and new network are those of MakePostSpec |
| ServerSpec.Lookup | friend_server.c:266 | `find_user` as used by `process_args`: a position exactly when the name is registered, and that user has the name |
| ServerSpec.NotifyExact | friend_server.c:165-175 | every client with a socket who is logged in under the name receives the message, only such clients do, and there are no more writes than clients |
| ServerSpec.Notify | friend_server.c:165-175 | the writes of `notify_client` with nameless clients skipped; what they are is stated by NotifyExact and NotifyInOrder |
| ServerSpec.NotifyInOrder | friend_server.c:165-175 | one write per client logged in under the name, in list order: the writes are those to an increasing sequence of list positions holding every such client and only such clients |
| ServerSpec.NotifyAsWritten | friend_server.c:165-175 | `notify_client` as written, undefined (None) once the loop reaches a connected client without a name; related to Notify by NotifyAsWrittenAgrees and NotifyUnregisteredFails |
| ServerSpec.NotifyAsWrittenAgrees | friend_server.c:165-175 | while every connected client has a name, the loop as written notifies as Notify does |
| ServerSpec.NotifyUnregisteredFails | friend_server.c:170 | a connected client that has sent no name makes the loop as written compare a NULL username |
| ServerSpec.FindClient | friend_server.c:79-91 | the first client logged in under the name, or -1 exactly when there is none |
| ServerSpec.FindClientAsWrittenAgrees | friend_server.c:79-91 | while every client has a name, `find_client` as written finds what FindClient finds |
| ServerSpec.FindClientAsWritten | friend_server.c:79-91 | `find_client` as written, undefined (None) once the loop reaches a client without a name; related to FindClient by FindClientAsWrittenAgrees and FindClientUnregisteredFails |
| ServerSpec.FindClientUnregisteredFails | friend_server.c:85 | a nameless client ahead of the one sought makes `find_client` as written compare a NULL username |
| ServerSpec.FindClientIsFirst | friend_server.c:79-91 | the first position with the name (or the end) is find_client's result |
| ServerSpec.NewClientUnseen | friend_server.c:64-76 | a newly accepted client has no name: it is neither notified nor found |
| ServerSpec.FdIndex | friend_server.c:181-190 | the first client on the socket, or -1 when none is on it |
| ServerSpec.UnlinkAt | friend_server.c:178-201 | removing a client cuts the list at the first client on its socket |
| ServerSpec.UnlinkExact | friend_server.c:178-201 | with distinct sockets, removal takes out exactly that client and keeps the others |
| ServerSpec.Unlink | friend_server.c:178-201 | `remove_client` on the list as a value: the first client on the socket leaves; stated by UnlinkAt and UnlinkExact |
| ServerSpec.ProcessArgsQuit | friend_server.c:209-212 | -1 is returned exactly for the single token "quit"; otherwise 0; the clients never change |
| ServerSpec.ProcessArgsEmpty | friend_server.c:209-210 | an empty line does nothing and writes nothing |
| ServerSpec.ProcessArgs | friend_server.c:206-295 | `process_args`' return value, new state and writes for each command; what it promises is stated by the ProcessArgs lemmas below and PostContents |
| ServerSpec.ProcessArgsPreserves | friend_server.c:206-295 | no command registers or renames a user, and every command keeps the network well formed |
| ServerSpec.ProcessArgsFailures | friend_server.c:218-293 | whenever an error is written nothing changed, and only make_friends or post change anything |
| ServerSpec.ProcessArgsAddressees | friend_server.c:206-295 | every write goes to the sender or, as a notification, to a client logged in under the command's first argument |
| ServerSpec.FriendsReplyAddressees | friend_server.c:224-243 | every reply to make_friends goes to the sender or, as a notification, to a client logged in as the new friend |
| ServerSpec.PostReplyAddressees | friend_server.c:270-281 | every reply to post goes to the sender or, as a notification, to a client logged in as the target |
| ServerSpec.PostContents | friend_server.c:246-263 | a post's contents are its words after the target, joined so that tokenising gives them back |
| ServerSpec.NameOf | friend_server.c:302-311 | the registered name is a prefix of the line: the whole line when it is shorter than MAX_NAME, and otherwise exactly its first MAX_NAME - 1 bytes |
| ServerSpec.ParseInput | friend_server.c:298-330 | handling a line never connects or disconnects a client |
| ServerSpec.ParseInputRegisters | friend_server.c:300-321 | a first line logs the client in under the cut line, which is then a registered name; the user is created unless taken; "Welcome back." is written exactly when taken |
| ServerSpec.ParseInputReturning | friend_server.c:313-316 | logging in twice under the same name creates one user, and the second client is welcomed back |
| ServerSpec.ParseInputPreserves | friend_server.c:298-330 | handling a line keeps the network well formed and every logged-in client registered, and changes only the sender |
| ServerSpec.CLines | friend_server.c:348-349 | each line as `parse_input` reads it is the line cut at its first NUL |
| ServerSpec.Run | friend_server.c:347-354 | handling lines never connects or disconnects a client |
| ServerSpec.RunPreserves | friend_server.c:347-354 | handling lines keeps the network well formed and every logged-in client registered, returns 0 or -1, and changes only the sender |
| ServerSpec.RunStopsAtQuit | friend_server.c:349-351 | lines after one that quits are ignored |
| ServerSpec.RunStep | friend_server.c:347-351 | each further line of a run that has not quit is handled by `parse_input` |
| ServerSpec.RunQuits | friend_server.c:349-351 | a run that quits at line k is the run of all the lines |
| ServerSpec.ReadFrom | friend_server.c:337-359 | the client's socket is returned exactly when the peer closed or a complete line quits; otherwise 0 |
| ServerSpec.ReadFromLeftover | friend_server.c:352-357 | while the session goes on, the buffer keeps only a partial line, no longer than the bytes held and read |
| ServerSpec.FullBufferCloses | friend_server.c:339-343 | a full buffer without CR LF leaves no room, so the next read returns nothing and the client is treated as gone |
| FriendServer.Client.constructor | friend_server.c:64-76 | a new client has no name and no user, a zeroed buffer of BUF_SIZE + 1 bytes, nothing held and BUF_SIZE bytes of room |
| FriendServer.Client.Append | friend_server.c:339-344 | the bytes read land behind those held, and `inbuf` counts them |
| FriendServer.Client.ResetRoom | friend_server.c:356-357 | the room is what is left of BUF_SIZE, and the write position is just past the data |
| FriendServer.BoundFinds | friend_server.c:317-318 | a logged-in client's user is the one `find_user` returns for its name |
| FriendServer.FindNetworkNewline | friend_server.c:52-61 | the scan of the first n bytes agrees with LineEnd |
| FriendServer.ClientTable.AcceptConnection | friend_server.c:99-123 | the socket is returned, and a fresh client with a fresh input buffer and no name is the new tail; the other clients are unchanged, and if every client had a buffer of its own, every client still does |
| FriendServer.ClientTable.RemoveClient | friend_server.c:178-201 | the first client on the socket leaves the list, the others keep their order, and the abstract clients are Unlink's; if every client had a buffer of its own, every client still does |
| FriendServer.ClientTable.OwnBuffersCut | friend_server.c:178-201 | taking one client out of a list whose buffers are all distinct leaves the other buffers distinct |
| FriendServer.ClientTable.Unchain | friend_server.c:181-195 | the head, or the predecessor's `next`, skips the client; no other pointer changes |
| FriendServer.ClientTable.NotifyClient | friend_server.c:165-175 | the writes are Notify's on the current clients |
| FriendServer.ClientTable.FindClient | friend_server.c:79-91 | the client at FindClient's position, or null |
| FriendServer.StrTok | friend_server.c:134-137 | the next token and the resume offset, so that the tokens from here are this token followed by the tokens after it |
| FriendServer.CountArgs | friend_server.c:128-140 | the number of tokens |
| FriendServer.CreateArgs | friend_server.c:144-162 | a fresh array holding exactly the tokens, in order |
| FriendServer.Tokenise | friend_server.c:324-325 | the argument vector handed to `process_args` is the line's tokens |
| FriendServer.ContentsSpace | friend_server.c:246-249 | the bytes allocated for a post's contents are the joined words plus one for the NUL |
| FriendServer.JoinContents | friend_server.c:259-263 | the contents are the words after the target joined with single spaces |
| FriendServer.BefriendClient | friend_server.c:224 | the sender befriends the named user as MakeFriendsSpec says, the named user first |
| FriendServer.FriendsAnswer | friend_server.c:224-243 | the writes for each make_friends code are FriendsReply's |
| FriendServer.PostAnswer | friend_server.c:270-281 | the writes for each make_post code are PostReply's |
| FriendServer.PostToUser | friend_server.c:265-270 | a post from the sender's user to the user found by name, as MakePostSpec says |
| FriendServer.ProfileCommand | friend_server.c:282-290 | the profile text of the named user, or "user not found" |
| FriendServer.FriendsCommand | friend_server.c:218-243 | the make_friends branch is ServerSpec.ProcessArgs on the abstract state |
| FriendServer.PostCommand | friend_server.c:244-281 | the post branch is ServerSpec.ProcessArgs on the abstract state |
| FriendServer.ProcessArgs | friend_server.c:206-295 | return value, new users and writes are ServerSpec.ProcessArgs' on the abstract state |
| FriendServer.Register | friend_server.c:300-321 | the first line registers the cut name and logs the client in, with the notices ParseInput prescribes; the old users stay at the front of the user list, in order, and any other user is new |
| FriendServer.AddUser | friend_server.c:313 | `create_user` on the graph, as CreateUserSpec says; the old users stay at the front of the user list, in order, and any other user is new |
| FriendServer.LogIn | friend_server.c:317-318 | the client's name and user are set, and only its abstract client changes |
| FriendServer.ParseInput | friend_server.c:298-330 | return value, new state and writes are ServerSpec.ParseInput's on the abstract state; the old users stay at the front of the user list, in order, and any other user is new |
| FriendServer.ReadFrom | friend_server.c:337-359 | return value, new state and writes are ServerSpec.ReadFrom's; a zero-byte read changes none of the buffer, `inbuf`, `room` and `after`; when the session goes on the buffer holds the leftover and the client is ready to read again; the old users stay at the front of the user list, in order |
| FriendServer.ReadLines | friend_server.c:346-354 | the loop's outcome is the run of the buffer's complete lines, and it leaves the leftover when no line quits; the old users stay at the front of the user list |
| FriendServer.ScanLines | friend_server.c:347-354 | the loop either stops at a line that quits with the run's reply so far, or handles every complete line; the old users stay at the front of the user list, and only new users and friend arrays are added |
| FriendServer.ScanEnds | friend_server.c:347-356 | when no CR LF is left, every line was handled and the buffer holds the leftover |
| FriendServer.Pass | friend_server.c:348-353 | one turn: the run grows by line k, and unless it quits the buffer advances to the next line; the old users stay at the front of the user list, and only new users and friend arrays are added |
| FriendServer.Advance | friend_server.c:352-353 | the bytes after the line move to the front, and the next line end is found |
| FriendServer.HandleLine | friend_server.c:348-349 | line k, cut at its CR, is handled as ServerSpec.ParseInput says; the old users stay at the front of the user list, and any other user is new |
| FriendServer.CutLine | friend_server.c:348 | the NUL over the CR makes the buffer's C string line k of the input |
| FriendServer.ShiftLine | friend_server.c:352-353 | `inbuf` shrinks by the line's length and the buffer starts with the bytes after it |
| FriendServer.Receive | friend_server.c:339 | `read(2)` puts the bytes behind those held, and the bytes after them keep their values |
| FriendServer.MoveDown | friend_server.c:353 | `memmove` brings the n bytes from the offset to the front, and the bytes after the first n keep their values |

## Left out

- `main` is not part of this model: socket setup, `select`, and the loop that calls `accept_connection`, `read_from` and `remove_client`. So are `close(2)`, `free` and the exit on a `malloc` or `accept` failure (the `Malloc` wrapper). The server's lists start from the `Graph` and `ClientTable` constructors.
- `read(2)` is a parameter. Its error return (-1) is not modelled: a read returns between 0 and `room` bytes.
- Written messages are abstract `Message` values. The exact bytes are not modelled: the `snprintf` formats, the `write` lengths (including the 31 bytes of the "Username too long" notice) and the truncation that `snprintf` sizes cause in the notification texts.
- The date of a post is `asctime(localtime(...))`, taken here as an opaque string parameter. `time(2)` and the clock are not modelled.
- The feed of a user is a sequence of `Post` values, not the linked `Post` nodes with `next` pointers: posts are never shared or updated in place, so aliasing of post nodes is not modelled; `make_post`'s insertion at the head is `[post] + posts`.
- `profile_pic` is never read by the core and is not modelled.
- `strtok` is modelled by its effect: the maximal runs of non-spaces, resumed after the space that ended the previous token. The copies it works on are not modelled.
- friends.h is not part of this model. MAX_NAME = 32 and MAX_FRIENDS = 10 are assumed; every proof holds for any positive values.
- FriendServer.ClientTable.RemoveClient: requires the client to be in the list. The NULL arguments, the empty list, and a client absent from the list (where the C code dereferences a NULL `curr_client`) are not modelled.
- FriendServer.ReadFrom: when a line quits, what stays in the client's buffer is not stated, since the client is then removed.
- FriendServer.PostToUser: the author is the sender's `client->user`, which the model proves to be the user `find_user` returns for its name. The model does not cover a client whose user pointer differs.
- Friends.PrintPost: the NULL post case is not modelled; `print_user`, its only caller, never passes NULL.
- Friends.PrintUser, Friends.FriendsSize and Friends.AppendFriendLines: they model the corrected `print_user`, with bounded friend loops and an exact size. The code as written is stated by FriendsSpec.PrintUserOverflow and Friends.UnboundedScanFull (see Findings).
- FriendServer.ClientTable.NotifyClient and FriendServer.ClientTable.FindClient: they model the corrected loops, which pass over clients with no name. The code as written is stated by ServerSpec.NotifyAsWritten and ServerSpec.FindClientAsWritten (see Findings).

## Findings

| source | as written | input that shows it | evidently intended | confidence | as-written member | corrected member |
|---|---|---|---|---|---|---|
| friends.c:227-249 | `print_user` counts "Name:" without its space, one byte per friend line where the text writes two (CR LF), and no byte for the NUL | any user: its profile text and NUL need 2 + (number of friends) bytes more than are allocated, so the `strncat` calls write past the buffer | a buffer holding the text and its NUL exactly | not executed | FriendsSpec.PrintUserOverflow | FriendsSpec.ProfileSizeExact, Friends.PrintUser |
| friends.c:231, friends.c:260 | `print_user`'s friend loops test `friends[i] != NULL` without `i < MAX_FRIENDS` | a user with MAX_FRIENDS friends: no slot is NULL, and the loop reads `friends[MAX_FRIENDS]` | the bound `i < MAX_FRIENDS`, as `make_post`'s loop at friends.c:335 has | not executed | Friends.UnboundedScanFull | Friends.UnboundedScanAgrees, Friends.FriendsSize, Friends.AppendFriendLines |
| friend_server.c:170 | `notify_client` calls `strcmp` on the username of every client with a socket, including a client that has connected but not yet sent its name (username NULL) | clients [ann on socket 4, a nameless client on socket 5]; a notification to "ann" reaches the strcmp on NULL | skip clients without a name | not executed | ServerSpec.NotifyUnregisteredFails | ServerSpec.NotifyExact, ServerSpec.NotifyInOrder, FriendServer.ClientTable.NotifyClient |
| friend_server.c:85 | `find_client` calls `strcmp` on each client's username, which is NULL for a client that has not sent its name | clients [a nameless client on socket 5, ann on socket 4]; looking up "ann" reaches the strcmp on NULL | skip clients without a name | not executed | ServerSpec.FindClientUnregisteredFails | ServerSpec.FindClientIsFirst, FriendServer.ClientTable.FindClient |
