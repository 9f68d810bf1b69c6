/** friends.c: users in a singly linked list in registration order, each with
    a fixed friend array filled from the front and a feed of posts, newest
    first. The graph keeps a ghost copy of its value (`net`) and every
    operation is proved to change or read it as the FriendsSpec function
    its contract names says (CreateUserSpec, MakeFriendsSpec, MakePostSpec,
    UserListText, ProfileText or Find). */
module Friends {
  import opened Common
  import opened FriendsSpec

  class User {
    const name: string
    const friends: array<User?>
    /** The feed reached through first_post, newest first. */
    var posts: seq<Post>
    var next: User?

    /** The user create_user allocates: the name, every friend slot NULL, no
        post, no successor. */
    constructor (name: string)
      ensures this.name == name && posts == [] && next == null
      ensures fresh(friends) && friends.Length == MAX_FRIENDS
      ensures forall k :: 0 <= k < friends.Length ==> friends[k] == null
    {
      this.name := name;
      friends := new User?[MAX_FRIENDS](_ => null);
      posts := [];
      next := null;
    }
  }

  /** `u` stands for the profile `p`: same name and feed, and its friend
      slots hold, from the front, users named as `p`'s friends, then NULL. */
  ghost predicate Represents(u: User, p: Profile)
    reads u`posts, u.friends
  {
    && u.name == p.name
    && u.posts == p.posts
    && u.friends.Length == MAX_FRIENDS
    && |p.friends| <= MAX_FRIENDS
    && forall k :: 0 <= k < MAX_FRIENDS ==>
         && (u.friends[k] != null <==> k < |p.friends|)
         && (k < |p.friends| ==> u.friends[k] != null && u.friends[k].name == p.friends[k])
  }

  /** Every friend pointer of `u` points to one of `us`. */
  ghost predicate SlotsIn(u: User, us: seq<User>)
    reads u.friends
  {
    forall k :: 0 <= k < u.friends.Length && u.friends[k] != null ==> u.friends[k] in us
  }

  // ---------------------------------------------------------------------------
  // Friend slots read up to the first NULL

  /** The number of occupied slots before the first empty one. */
  function FirstNull(s: seq<User?>): (n: nat)
    ensures n <= |s|
    ensures forall k :: 0 <= k < n ==> s[k] != null
    ensures n < |s| ==> s[n] == null
  {
    if s == [] || s[0] == null then 0 else 1 + FirstNull(s[1..])
  }

  /** The names of the friends in the occupied prefix of a friend array. */
  function FriendNames(s: seq<User?>): (ns: seq<string>)
    ensures |ns| == FirstNull(s)
    ensures forall k :: 0 <= k < |ns| ==> s[k] != null && ns[k] == s[k].name
  {
    if s == [] || s[0] == null then [] else [s[0].name] + FriendNames(s[1..])
  }

  /** The profile print_user shows for a user: its friends are read up to the
      first NULL slot or the end of the array. */
  ghost function ProfileOf(u: User): Profile
    reads u`posts, u.friends
  {
    Profile(u.name, FriendNames(u.friends[..]), u.posts)
  }

  /** What print_user shows for a user of the list is that user's profile. */
  lemma RepresentsProfile(u: User, p: Profile)
    requires Represents(u, p)
    ensures ProfileOf(u) == p
  {
    var s := u.friends[..];
    assert FirstNull(s) == |p.friends| by {
      if FirstNull(s) < |s| {
        assert s[FirstNull(s)] == null;
      }
      if |p.friends| < |s| {
        assert s[|p.friends|] == null;
      }
    }
  }

  /** The friend loop of print_user as written, `while (friends[i] != NULL)`:
      it stops at the first NULL, and reads past the last slot (None) when
      there is none. */
  function UnboundedScan(s: seq<User?>, i: nat): Option<nat>
    requires i <= |s|
    decreases |s| - i
  {
    if i == |s| then None
    else if s[i] == null then Some(i)
    else UnboundedScan(s, i + 1)
  }

  /** Where the friend array has an empty slot, the unbounded loop stops at
      the bounded scan's position. */
  lemma {:induction false} UnboundedScanAgrees(s: seq<User?>, i: nat)
    requires i <= FirstNull(s) < |s|
    ensures UnboundedScan(s, i) == Some(FirstNull(s))
    decreases |s| - i
  {
    if i < FirstNull(s) {
      UnboundedScanAgrees(s, i + 1);
    }
  }

  /** A user with MAX_FRIENDS friends has no NULL slot: print_user's loop reads
      the slot after the array. */
  lemma {:induction false} UnboundedScanFull(s: seq<User?>, i: nat)
    requires i <= |s|
    requires forall k :: i <= k < |s| ==> s[k] != null
    ensures UnboundedScan(s, i) == None
    decreases |s| - i
  {
    if i < |s| {
      UnboundedScanFull(s, i + 1);
    }
  }

  // ---------------------------------------------------------------------------
  // print_user and print_post

  /** print_post: the post's text and the size of its buffer. The text is
      PostText, the definition the lemmas about feeds share; what is proved
      here is that the count print_post allocates leaves exactly one byte
      for the NUL behind it. */
  method PrintPost(p: Post) returns (text: string, capacity: nat)
    ensures text == PostText(p)
    ensures capacity == |text| + 1
  {
    capacity := |"From: "| + |p.author| + |NEWLINE| + |"Date: "| + |p.stamp| + |NEWLINE|
                + |p.contents| + |NEWLINE| + 1;
    text := "From: " + p.author + NEWLINE + "Date: " + p.stamp + NEWLINE + p.contents + NEWLINE;
    PostSizeExact(p);
  }

  /** print_user's first loop over the friend slots: a friend's name and a
      line end for each friend before the first NULL slot. */
  method FriendsSize(u: User) returns (size: nat)
    requires u.friends.Length == MAX_FRIENDS
    ensures size == NamesSize(FriendNames(u.friends[..]), |NEWLINE|)
  {
    ghost var fs := FriendNames(u.friends[..]);
    size := 0;
    var i := 0;
    while i < MAX_FRIENDS && u.friends[i] != null
      invariant 0 <= i <= |fs|
      invariant size == NamesSize(fs[..i], |NEWLINE|)
    {
      assert fs[..i + 1][..i] == fs[..i];
      size := size + |u.friends[i].name| + |NEWLINE|;
      i := i + 1;
    }
    assert fs[..i] == fs;
  }

  /** print_user's first loop over the feed: each post's text, and the
      separator before every later post. */
  method PostsSizeOf(posts: seq<Post>) returns (size: nat)
    ensures size == PostsSize(posts, |posts|)
  {
    size := 0;
    var k := 0;
    while k < |posts|
      invariant 0 <= k <= |posts|
      invariant size == PostsSize(posts, k)
    {
      var postText, _ := PrintPost(posts[k]);
      size := size + |postText|;
      if k + 1 < |posts| {
        size := size + |POST_SEPR|;
      }
      k := k + 1;
    }
  }

  /** print_user's second loop over the friend slots: each friend's name and
      a line end appended to `text`. */
  method AppendFriendLines(text: string, u: User) returns (r: string)
    requires u.friends.Length == MAX_FRIENDS
    ensures r == text + FriendLines(FriendNames(u.friends[..]))
  {
    ghost var fs := FriendNames(u.friends[..]);
    r := text;
    var i := 0;
    while i < MAX_FRIENDS && u.friends[i] != null
      invariant 0 <= i <= |fs|
      invariant r == text + FriendLines(fs[..i])
    {
      assert fs[..i + 1][..i] == fs[..i];
      Assoc(text, FriendLines(fs[..i]), u.friends[i].name + NEWLINE);
      r := r + (u.friends[i].name + NEWLINE);
      i := i + 1;
    }
    assert fs[..i] == fs;
  }

  /** print_user's second loop over the feed: each post's text, and the
      separator before every later post, appended to `text`. */
  method AppendPosts(text: string, posts: seq<Post>) returns (r: string)
    ensures r == text + PostsText(posts, |posts|)
  {
    r := text;
    var k := 0;
    while k < |posts|
      invariant 0 <= k <= |posts|
      invariant r == text + PostsText(posts, k)
    {
      var postText, _ := PrintPost(posts[k]);
      var block := postText;
      if k + 1 < |posts| {
        block := block + POST_SEPR;
      }
      assert block == PostBlock(posts, k);
      assert PostsText(posts, k + 1) == PostsText(posts, k) + block;
      Assoc(text, PostsText(posts, k), block);
      r := r + block;
      k := k + 1;
    }
  }

  /** print_user: NULL for no user; otherwise the size it allocates, counted
      by a first pass over the friends and the posts, and the profile text
      written by a second pass. The friend loops are bounded by MAX_FRIENDS
      and count two bytes per friend line and the NUL (see PrintUserOverflow
      and UnboundedScanFull for the loops as written). */
  method PrintUser(u: User?) returns (r: Option<string>, capacity: nat)
    requires u != null ==> u.friends.Length == MAX_FRIENDS
    ensures u == null ==> r == None && capacity == 0
    ensures u != null ==> r == Some(ProfileText(ProfileOf(u))) && capacity == |r.value| + 1
  {
    if u == null {
      return None, 0;
    }
    var size := |"Name: "| + |"Friends:"| + |"Posts:"| + 3 * |TEXT_SEPR| + 4 * |NEWLINE| + |u.name|;
    var friendsSize := FriendsSize(u);
    var postsSize := PostsSizeOf(u.posts);
    capacity := size + friendsSize + postsSize + 1;
    var text := "Name: " + u.name + NEWLINE + NEWLINE + TEXT_SEPR + "Friends:" + NEWLINE;
    assert text == ProfileHead(u.name);
    text := AppendFriendLines(text, u);
    text := text + POSTS_HEAD;
    text := AppendPosts(text, u.posts);
    text := text + TEXT_SEPR;
    ProfileSizeExact(ProfileOf(u));
    r := Some(text);
  }

  // ---------------------------------------------------------------------------
  // The list of users

  /** The list of users (*user_ptr_add) and the objects reachable from it. */
  class Graph {
    var head: User?
    /** The users in list order: head, head.next, ... */
    ghost var users: seq<User>
    /** The value of the graph: the profile of each user, in list order. */
    ghost var net: Network

    /** The friend arrays of the users (and no other objects). */
    ghost var arrays: set<array<User?>>

    /** The list is a null-terminated chain through `next` visiting each user
        of `users` once, in order. */
    ghost predicate Linked()
      reads this, users
    {
      && head == (if users == [] then null else users[0])
      && (forall i {:trigger users[i].next} :: 0 <= i < |users| ==>
            users[i].next == if i + 1 < |users| then users[i + 1] else null)
    }

    /** Every user stands for its profile in `net`, no two users share a
        friend array, and every friend pointer points into the list. */
    ghost predicate Abstracts()
      reads this, users, arrays
    {
      && |net| == |users|
      && (forall i :: 0 <= i < |users| ==> users[i].friends in arrays)
      && (forall i {:trigger Represents(users[i], net[i])} :: 0 <= i < |users| ==> Represents(users[i], net[i]))
      && (forall i, j {:trigger users[i].friends, users[j].friends} :: 0 <= i < j < |users| ==> users[i].friends != users[j].friends)
      && (forall i {:trigger SlotsIn(users[i], users)} :: 0 <= i < |users| ==> SlotsIn(users[i], users))
    }

    ghost predicate Valid()
      reads this, users, arrays
    {
      Linked() && Abstracts() && WellFormed(net)
    }

    /** The position of a user of the list, None for NULL. */
    ghost function IndexOf(u: User?): (r: Option<nat>)
      reads this
      requires u != null ==> u in users
      ensures r.Some? <==> u != null
      ensures r.Some? ==> r.value < |users| && users[r.value] == u
    {
      if u == null then None
      else
        var i :| 0 <= i < |users| && users[i] == u;
        Some(i)
    }

    /** A user's position in the list is unique. */
    lemma IndexOfAt(i: nat)
      requires Valid() && i < |users|
      ensures IndexOf(users[i]) == Some(i)
    {
      forall l | 0 <= l < |users| && l != i ensures users[l] != users[i] {
        if l < i {
          assert users[l].friends != users[i].friends;
        } else {
          assert users[i].friends != users[l].friends;
        }
      }
    }

    /** An empty list (the server's `User *user_list = NULL`). */
    constructor ()
      ensures Valid() && users == [] && net == []
    {
      head := null;
      users := [];
      arrays := {};
      net := [];
    }

    /** Two users of the list with the same name are the same user. */
    lemma SameName(x: User, y: User)
      requires Valid() && x in users && y in users && x.name == y.name
      ensures x == y
    {
      var i :| 0 <= i < |users| && users[i] == x;
      var j :| 0 <= j < |users| && users[j] == y;
      assert Represents(users[i], net[i]) && Represents(users[j], net[j]);
    }

    /** find_user: walk the list to the first user with the name. */
    method FindUser(name: string) returns (u: User?)
      requires Valid()
      ensures var i := Find(net, name);
              u == if i < 0 then null else users[i]
    {
      u := head;
      ghost var k := 0;
      while u != null && u.name != name
        invariant 0 <= k <= |users|
        invariant u == if k < |users| then users[k] else null
        invariant forall j :: 0 <= j < k ==> net[j].name != name
        decreases |users| - k
      {
        assert Represents(users[k], net[k]);
        u := u.next;
        k := k + 1;
      }
      if u != null {
        assert Represents(users[k], net[k]);
      }
      FindIsFirst(net, name, k);
    }

    /** list_users: the header, then a tab, the name and a newline per user,
        and the size of the buffer it allocates (counted by a first walk,
        plus one byte for the NUL). */
    method ListUsers() returns (text: string, capacity: nat)
      requires Valid()
      ensures text == UserListText(Names(net))
      ensures capacity == |text| + 1
    {
      ghost var names := Names(net);
      var size := |"User List"| + |NEWLINE|;
      var curr := head;
      ghost var k := 0;
      while curr != null
        invariant 0 <= k <= |users|
        invariant curr == if k < |users| then users[k] else null
        invariant size == |"User List"| + |NEWLINE| + NamesSize(names[..k], |NEWLINE| + 1)
        decreases |users| - k
      {
        assert Represents(users[k], net[k]);
        assert names[..k + 1][..k] == names[..k];
        size := size + |curr.name| + |NEWLINE| + 1;
        curr := curr.next;
        k := k + 1;
      }
      assert names[..k] == names;
      capacity := size + 1;
      text := "User List" + NEWLINE;
      curr := head;
      k := 0;
      while curr != null
        invariant 0 <= k <= |users|
        invariant curr == if k < |users| then users[k] else null
        invariant text == "User List" + NEWLINE + UserEntries(names[..k])
        decreases |users| - k
      {
        assert Represents(users[k], net[k]);
        assert names[..k + 1][..k] == names[..k];
        text := text + "\t" + curr.name + NEWLINE;
        curr := curr.next;
        k := k + 1;
      }
      assert names[..k] == names;
      ListSizeExact(names);
    }

    /** create_user: 2 if the name does not fit, 1 if it is taken, otherwise
        a new user with no friends and no posts appended at the tail. */
    method CreateUser(name: string) returns (code: int)
      requires Valid()
      modifies this, users
      ensures Valid()
      ensures (code, net) == CreateUserSpec(old(net), name)
      ensures code != 0 ==> users == old(users)
      ensures code == 0 ==> |users| == |old(users)| + 1 && users[..|old(users)|] == old(users)
      ensures code == 0 ==> fresh(users[|old(users)|]) && fresh(users[|old(users)|].friends)
      ensures fresh(arrays - old(arrays))
    {
      if |name| >= MAX_NAME {
        return 2;
      }
      var prev: User? := null;
      var curr := head;
      ghost var k := 0;
      while curr != null && curr.name != name
        invariant 0 <= k <= |users|
        invariant curr == if k < |users| then users[k] else null
        invariant prev == if k == 0 then null else users[k - 1]
        invariant forall j :: 0 <= j < k ==> net[j].name != name
        decreases |users| - k
      {
        assert Represents(users[k], net[k]);
        prev := curr;
        curr := curr.next;
        k := k + 1;
      }
      if curr != null {
        assert Represents(users[k], net[k]);
      }
      FindIsFirst(net, name, k);
      if curr != null {
        return 1;
      }
      Append(prev, name);
      code := 0;
    }

    /** The success path of create_user: a user with no friends and no posts
        linked in after `prev`, the last user (or as the head of an empty
        list). */
    method Append(prev: User?, name: string)
      requires Valid()
      requires prev == if users == [] then null else users[|users| - 1]
      requires |name| < MAX_NAME && name !in Names(net)
      modifies this, prev
      ensures Valid()
      ensures net == old(net) + [Profile(name, [], [])]
      ensures |users| == |old(users)| + 1 && users[..|old(users)|] == old(users)
      ensures fresh(users[|old(users)|]) && fresh(users[|old(users)|].friends)
      ensures arrays == old(arrays) + {users[|old(users)|].friends}
    {
      CreateUserPreserves(net, name);
      ghost var users0 := users;
      forall i | 0 <= i < |users| - 1 ensures users[i] != prev {
        assert users[i].friends != users[|users| - 1].friends;
      }
      var nu := new User(name);
      if head == null {
        head := nu;
      } else {
        prev.next := nu;
      }
      users := users + [nu];
      arrays := arrays + {nu.friends};
      net := net + [Profile(name, [], [])];
      assert Linked();
      forall i | 0 <= i < |users| ensures Represents(users[i], net[i]) {
        if i < |users0| {
          assert Represents(users0[i], old(net)[i]);
        }
      }
      forall i | 0 <= i < |users| ensures SlotsIn(users[i], users) {
        if i < |users0| {
          assert SlotsIn(users0[i], users0);
        }
      }
      assert users[..|users0|] == users0;
    }

    /** A loop of make_friends over the slots of `u`: it stops at the first
        empty slot, or at `other` (found) if that comes first; with `other`
        NULL it only looks for the empty slot. `i` is MAX_FRIENDS when the
        array is full. */
    static method ScanSlots(u: User, other: User?, ghost p: Profile) returns (i: nat, found: bool)
      requires Represents(u, p)
      ensures i <= |p.friends|
      ensures found ==> other != null && i < |p.friends| && u.friends[i] == other
      ensures !found ==> i == |p.friends| && forall l :: 0 <= l < i ==> u.friends[l] != other
    {
      i := 0;
      while i < MAX_FRIENDS
        invariant 0 <= i <= |p.friends|
        invariant forall l :: 0 <= l < i ==> u.friends[l] != other
      {
        if u.friends[i] == null {
          break;
        } else if u.friends[i] == other {
          return i, true;
        }
        i := i + 1;
      }
      found := false;
    }

    /** make_friends(name1, name2): look both users up (4 if either is
        missing, 3 if they are the same user), then link them. */
    method MakeFriends(name1: string, name2: string) returns (code: int)
      requires Valid()
      modifies this, arrays
      ensures Valid() && users == old(users) && arrays == old(arrays)
      ensures (code, net) == MakeFriendsSpec(old(net), name1, name2)
    {
      var user1 := FindUser(name1);
      var user2 := FindUser(name2);
      if user1 == null || user2 == null {
        return 4;
      }
      ghost var a, b := Find(net, name1), Find(net, name2);
      if a != b {
        assert users[a].friends != users[b].friends;
      }
      if user1 == user2 {
        return 3;
      }
      assert Represents(user1, net[a]) && Represents(user2, net[b]);
      code := LinkUsers(user1, user2, a, b);
    }

    /** make_friends for two different users: scan the first user's slots
        for the second (1, already friends) or an empty slot, then the second
        user's slots for an empty one (2 if either has none); otherwise each
        is stored in the other's first empty slot. */
    method LinkUsers(user1: User, user2: User, ghost a: nat, ghost b: nat) returns (code: int)
      requires Valid() && a < |users| && b < |users| && a != b
      requires users[a] == user1 && users[b] == user2
      modifies this, user1.friends, user2.friends
      ensures Valid() && users == old(users) && arrays == old(arrays)
      ensures (code, net) == MakeFriendsSpec(old(net), user1.name, user2.name)
    {
      assert Represents(user1, net[a]) && Represents(user2, net[b]);
      FindUnique(net, a);
      FindUnique(net, b);
      var i, already := ScanSlots(user1, user2, net[a]);
      if already {
        assert net[a].friends[i] == user2.name;
        return 1;
      }
      var j, _ := ScanSlots(user2, null, net[b]);
      NotListed(user1, user2, a, b, i);
      if i == MAX_FRIENDS || j == MAX_FRIENDS {
        return 2;
      }
      Befriend(user1, i, user2, j, a, b);
      code := 0;
    }

    /** A user whose slots before the first empty one do not point to
        `users[b]` does not list `users[b]`'s name. */
    lemma NotListed(u: User, v: User, a: nat, b: nat, i: nat)
      requires Valid() && a < |users| && b < |users| && users[a] == u && users[b] == v
      requires i == |net[a].friends| <= u.friends.Length
      requires forall l :: 0 <= l < i ==> u.friends[l] != v
      ensures net[b].name !in net[a].friends
    {
      assert Represents(u, net[a]);
      forall l | 0 <= l < i ensures net[a].friends[l] != net[b].name {
        assert SlotsIn(u, users);
        var y :| 0 <= y < |users| && users[y] == u.friends[l];
        assert Represents(users[y], net[y]);
        assert Represents(v, net[b]);
      }
    }

    /** One store of make_friends: `v` put in the first empty slot `i` of
        `u`, which then stands for its profile with `v`'s name appended. */
    static method AddFriend(u: User, i: nat, v: User, ghost p: Profile, ghost us: seq<User>)
      requires Represents(u, p) && i == |p.friends| < MAX_FRIENDS
      requires SlotsIn(u, us) && v in us
      modifies u.friends
      ensures Represents(u, p.(friends := p.friends + [v.name]))
      ensures SlotsIn(u, us)
    {
      u.friends[i] := v;
    }

    /** The success path of make_friends: each user stored in the other's
        first empty slot. */
    method Befriend(user1: User, i: nat, user2: User, j: nat, ghost a: nat, ghost b: nat)
      requires Valid() && a < |users| && b < |users| && a != b
      requires users[a] == user1 && users[b] == user2
      requires i == |net[a].friends| < MAX_FRIENDS && j == |net[b].friends| < MAX_FRIENDS
      requires net[b].name !in net[a].friends
      modifies this, user1.friends, user2.friends
      ensures Valid() && users == old(users) && arrays == old(arrays)
      ensures MakeFriendsSpec(old(net), user1.name, user2.name) == (0, net)
    {
      ghost var net0 := net;
      assert Represents(user1, net[a]) && Represents(user2, net[b]);
      MakeFriendsSucceeds(net, a, b);
      assert user1.friends != user2.friends;
      assert SlotsIn(user1, users) && SlotsIn(user2, users);
      AddFriend(user1, i, user2, net[a], users);
      AddFriend(user2, j, user1, net[b], users);
      net := Link(net, a, b);
      assert Linked();
      forall k | 0 <= k < |users| && k != a && k != b
        ensures Represents(users[k], net[k]) && SlotsIn(users[k], users)
      {
        assert users[k].friends != user1.friends && users[k].friends != user2.friends;
        assert old(Represents(users[k], net0[k]) && SlotsIn(users[k], users));
      }
      assert Represents(users[a], net[a]) && Represents(users[b], net[b]);
    }

    /** The loop of make_post: whether a slot of `u` before MAX_FRIENDS and
        before the first NULL holds a user named `name`. */
    static method ListsName(u: User, name: string, ghost p: Profile) returns (found: bool)
      requires Represents(u, p)
      ensures found <==> name in p.friends
    {
      found := false;
      var i := 0;
      while i < MAX_FRIENDS && u.friends[i] != null
        invariant 0 <= i <= |p.friends|
        invariant forall l :: 0 <= l < i ==> p.friends[l] != name
      {
        if u.friends[i].name == name {
          found := true;
          break;
        }
        i := i + 1;
      }
    }

    /** make_post(author, target, contents): 2 if either user is NULL, 1 if
        the author's name is not among the target's friends (scanned up to
        MAX_FRIENDS or the first NULL), otherwise the post, dated `stamp`, is
        put at the front of the target's feed. */
    method MakePost(author: User?, target: User?, contents: string, stamp: string)
      returns (code: int)
      requires Valid()
      requires author != null ==> author in users
      requires target != null ==> target in users
      modifies this, target
      ensures Valid() && users == old(users) && arrays == old(arrays)
      ensures (code, net) == MakePostSpec(old(net), IndexOf(author), IndexOf(target), contents, stamp)
    {
      if target == null || author == null {
        return 2;
      }
      ghost var a, t := IndexOf(author).value, IndexOf(target).value;
      assert Represents(author, net[a]) && Represents(target, net[t]);
      var friends := ListsName(target, author.name, net[t]);
      if !friends {
        return 1;
      }
      var post := Post(author.name, contents, stamp);
      MakePostPreserves(net, Some(a), Some(t), contents, stamp);
      ghost var net0 := net;
      target.posts := [post] + target.posts;
      net := net[t := net[t].(posts := [post] + net[t].posts)];
      assert Abstracts() by {
        forall k | 0 <= k < |users| ensures Represents(users[k], net[k]) {
          if k != t {
            assert old(Represents(users[k], net0[k]));
          }
        }
      }
      code := 0;
    }
  }
}
