/** The command handlers of handler.py as pure functions from table to table.
    Each handler writes the actor's row first and then the target rows; the
    model composes those writes in the same order. An `Err` result means the
    handler raised; writes it made before raising are not part of the result. */
module Handler {
  import opened Seqs
  import opened SetOrder
  import opened Store
  import Parse

  /** What the handler sends back to the actor on the chat. */
  datatype Reply = NoReply | EmptyAddCommand | EmptyRemoveCommand

  datatype Handled = Handled(table: Table, reply: Reply)

  /** A message pushed to one follower's chat. */
  datatype Delivery = Delivery(chatId: int, text: string)

  const AddPrefix: string := "/add"
  const RemovePrefix: string := "/remove"
  const SendPrefix: string := "/send"

  /** The argument list of an `/add` or `/remove` message. */
  function AddArgs(text: string): seq<string> {
    Parse.CommandArgs(text, |AddPrefix|)
  }

  function RemoveArgs(text: string): seq<string> {
    Parse.CommandArgs(text, |RemovePrefix|)
  }

  // ---------------------------------------------------------------------
  // update_user_real_follow_count
  // ---------------------------------------------------------------------

  /** Recounts the actor's `real_follow_count` with a scan over `follow`.
      The source re-reads `follow` from the actor's row when the argument is
      falsy; `None` and an empty set are both falsy, so the model's empty set
      stands for both. */
  function UpdateUserRealFollowCount(t: Table, actor: string, follow: set<string>): (r: Result<Table>)
    ensures r.Ok? <==> actor in t
    ensures r.Ok? ==> r.value.Keys == t.Keys
    ensures r.Ok? ==> forall k :: k in t && k != actor ==> r.value[k] == t[k]
    ensures r.Ok? ==> r.value[actor] == t[actor].(realFollowCount := r.value[actor].realFollowCount)
    ensures r.Ok? ==>
      var counted := if follow == {} then Elems(t[actor].follow) else follow;
      r.value[actor].realFollowCount == Some(|Registered(t, counted)|)
  {
    if actor !in t then Err(MissingRow(actor))
    else
      var counted := if follow == {} then Elems(t[actor].follow) else follow;
      Ok(t[actor := t[actor].(realFollowCount := Some(|Registered(t, counted)|))])
  }

  /** With no explicit set, the recount is the number of positions of a
      duplicate-free `follow` list that name a registered handle. */
  lemma RealFollowCountIsPositional(t: Table, actor: string)
    requires actor in t && NoDup(t[actor].follow)
    ensures UpdateUserRealFollowCount(t, actor, {}).Ok?
    ensures UpdateUserRealFollowCount(t, actor, {}).value[actor].realFollowCount
            == Some(CountRegistered(t, t[actor].follow))
  {
    RegisteredCount(t, t[actor].follow);
  }

  // ---------------------------------------------------------------------
  // increase_users_real_follow_count
  // ---------------------------------------------------------------------

  function Bumped(a: Account): Account
    requires a.realFollowCount.Some?
  {
    a.(realFollowCount := Some(a.realFollowCount.value + 1))
  }

  /** Every row whose `follow` names `h` gains one `real_follow_count`.
      `SET real_follow_count = real_follow_count + 1` fails on a row that has
      no such attribute (rows written by `create_user` do not). */
  function IncreaseUsersRealFollowCount(t: Table, h: string): (r: Result<Table>)
    ensures r.Ok? <==> forall k :: k in t && h in t[k].follow ==> t[k].realFollowCount.Some?
    ensures r.Ok? ==> r.value.Keys == t.Keys
    ensures r.Ok? ==> forall k :: k in t && h !in t[k].follow ==> r.value[k] == t[k]
    ensures r.Ok? ==> forall k :: k in t && h in t[k].follow ==>
      && r.value[k].realFollowCount.Some? && t[k].realFollowCount.Some?
      && r.value[k].realFollowCount.value == t[k].realFollowCount.value + 1
      && r.value[k] == t[k].(realFollowCount := r.value[k].realFollowCount)
  {
    var users := FollowersOf(t, h);
    if exists k :: k in users && t[k].realFollowCount.None? then
      Err(MissingAttribute("real_follow_count"))
    else
      Ok(map k | k in t :: if k in users then Bumped(t[k]) else t[k])
  }

  /** The source's loop: one conditional update per scanned row, in scan
      order. Whatever the order, it ends where the functional model does. */
  method IncreaseUsersRealFollowCountLoop(t: Table, h: string) returns (r: Result<Table>)
    ensures r == IncreaseUsersRealFollowCount(t, h)
  {
    var users := FollowersOf(t, h);
    var pending := users;
    var cur := t;
    while pending != {}
      invariant pending <= users
      invariant cur.Keys == t.Keys
      invariant forall k :: k in users - pending ==> t[k].realFollowCount.Some?
      invariant forall k :: k in t ==> cur[k] == if k in users - pending then Bumped(t[k]) else t[k]
      decreases pending
    {
      var u :| u in pending;
      if cur[u].realFollowCount.None? {
        return Err(MissingAttribute("real_follow_count"));
      }
      cur := cur[u := Bumped(cur[u])];
      pending := pending - {u};
    }
    assert cur == map k | k in t :: if k in users then Bumped(t[k]) else t[k];
    return Ok(cur);
  }

  // ---------------------------------------------------------------------
  // update_users_followers
  // ---------------------------------------------------------------------

  /** The edit one target row receives: append the actor, or remove its
      first occurrence; `ValueError` (actor absent) skips the write. */
  function EditFollowers(row: Account, actor: string, remove: bool): (r: Account)
    ensures r == row.(followers := r.followers)
    ensures !remove ==> r.followers == row.followers + [actor]
    ensures remove ==> multiset(r.followers) == multiset(row.followers) - multiset{actor}
    ensures remove && actor !in row.followers ==> r == row
  {
    if !remove then row.(followers := row.followers + [actor])
    else if actor in row.followers then
      RemoveFirstMultiset(row.followers, actor);
      row.(followers := RemoveFirst(row.followers, actor))
    else
      assert multiset(row.followers)[actor] == 0;
      row
  }

  /** Each handle of `following` that has a row gets its `followers` edited;
      handles without a row are skipped. Only `followers` changes. */
  function UpdateUsersFollowers(t: Table, actor: string, following: set<string>, remove: bool): (r: Table)
    ensures r.Keys == t.Keys
    ensures forall k :: k in t ==> r[k] == t[k].(followers := r[k].followers)
    ensures forall k :: k in t && k !in following ==> r[k] == t[k]
    ensures forall k :: k in t && k in following ==> r[k] == EditFollowers(t[k], actor, remove)
  {
    map k | k in t :: if k in following then EditFollowers(t[k], actor, remove) else t[k]
  }

  /** The source's loop over `following`, one row at a time. */
  method UpdateUsersFollowersLoop(t: Table, actor: string, following: set<string>, remove: bool)
    returns (r: Table)
    ensures r == UpdateUsersFollowers(t, actor, following, remove)
  {
    var pending := following;
    r := t;
    while pending != {}
      invariant pending <= following
      invariant r.Keys == t.Keys
      invariant forall k :: k in t ==>
        r[k] == if k in following - pending then EditFollowers(t[k], actor, remove) else t[k]
      decreases pending
    {
      var user :| user in pending;
      if user in r {
        r := r[user := EditFollowers(r[user], actor, remove)];
      }
      pending := pending - {user};
    }
  }

  // ---------------------------------------------------------------------
  // start_command_handler
  // ---------------------------------------------------------------------

  /** What registering `h` promises when `h` had no row. */
  ghost predicate RegisterSpec(t: Table, h: string, chatId: int, t': Table) {
    && h !in t && t'.Keys == t.Keys + {h}
    && t'[h].userId == Some(chatId)
    && t'[h].follow == []
    && t'[h].realFollowCount == Some(0)
    && NoDup(t'[h].followers)
    && (forall x :: x in t'[h].followers <==> x in t && h in t[x].follow)
    && t'[h].followersCount == Some(|t'[h].followers|)
    && t'[h].followCount.None? && t'[h].firstName.None? && t'[h].lastName.None? && t'[h].photoId.None?
    && (forall k :: k in t && h !in t[k].follow ==> t'[k] == t[k])
    && (forall k :: k in t && h in t[k].follow ==>
          && t[k].realFollowCount.Some?
          && t'[k] == t[k].(realFollowCount := Some(t[k].realFollowCount.value + 1)))
  }

  /** The row `/start` writes for a new handle `h`, with the followers
      back-filled from the scan. */
  function NewRow(t: Table, h: string, chatId: int): Account {
    var followers := FollowersOf(t, h);
    Account(Some(chatId), None, None, [], ListOf(followers), None, Some(0), Some(|followers|), None)
  }

  /** The creation path of `/start`: put the new row, then bump the rows
      that already follow `h`. */
  function Register(t: Table, h: string, chatId: int): Result<Table> {
    IncreaseUsersRealFollowCount(t[h := NewRow(t, h, chatId)], h)
  }

  lemma RegisterMeetsSpec(t: Table, h: string, chatId: int)
    requires h !in t
    ensures Register(t, h, chatId).Ok? <==> forall k :: k in t && h in t[k].follow ==> t[k].realFollowCount.Some?
    ensures Register(t, h, chatId).Ok? ==> RegisterSpec(t, h, chatId, Register(t, h, chatId).value)
  {
    var row := NewRow(t, h, chatId);
    var t1 := t[h := row];
    assert forall k :: k in t1 && h in t1[k].follow <==> k in t && h in t[k].follow;
    var r := IncreaseUsersRealFollowCount(t1, h);
    if r.Ok? {
      var t' := r.value;
      assert t'[h] == row;
      assert Elems(row.followers) == FollowersOf(t, h);
      forall x
        ensures x in row.followers <==> x in t && h in t[x].follow
      {
        assert x in row.followers <==> x in Elems(row.followers);
      }
      assert forall k :: k in t ==> t1[k] == t[k];
    }
  }

  /** `/start`: a no-op for a known handle; otherwise a new row whose
      followers are back-filled from the scan, and every row already
      following the handle gains one real follow. */
  function StartCommand(t: Table, h: string, chatId: int): (r: Result<Table>)
    ensures h in t ==> r == Ok(t)
    ensures h !in t ==> (r.Ok? <==> forall k :: k in t && h in t[k].follow ==> t[k].realFollowCount.Some?)
    ensures h !in t && r.Ok? ==> RegisterSpec(t, h, chatId, r.value)
  {
    if h in t then Ok(t)
    else
      RegisterMeetsSpec(t, h, chatId);
      Register(t, h, chatId)
  }

  // ---------------------------------------------------------------------
  // add_command_handler
  // ---------------------------------------------------------------------

  /** What `/add` promises for a registered actor: `follow` grows by some
      duplicate-free list of exactly the new handles, each new target with a
      row gets the actor appended to `followers`, and the actor's
      `real_follow_count` is recounted. Nothing else changes. */
  ghost predicate AddSpec(t: Table, actor: string, targets: set<string>, t': Table) {
    && actor in t && t'.Keys == t.Keys
    && var before := t[actor].follow;
       var after := t'[actor].follow;
       var added := targets - Elems(before) - {actor};
       && |before| <= |after| && after[..|before|] == before
       && NoDup(after[|before|..]) && Elems(after[|before|..]) == added
       && t'[actor] == t[actor].(follow := after, realFollowCount := Some(|Registered(t, Elems(after))|))
       && (forall k :: k in t && k != actor && k !in added ==> t'[k] == t[k])
       && (forall k :: k in t && k != actor && k in added ==>
             t'[k] == t[k].(followers := t[k].followers + [actor]))
  }

  function AddCommand(t: Table, actor: string, users: seq<string>): (r: Result<Handled>)
    ensures |users| == 0 ==> r == Ok(Handled(t, EmptyAddCommand))
    ensures |users| > 0 ==> (r.Ok? <==> actor in t)
    ensures |users| > 0 && r.Ok? ==> r.value.reply == NoReply && AddSpec(t, actor, Elems(users), r.value.table)
  {
    if |users| == 0 then Ok(Handled(t, EmptyAddCommand))
    else if actor !in t then Err(MissingRow(actor))
    else
      var row := t[actor];
      var newFollow := Elems(users) - Elems(row.follow) - {actor};
      var after := row.follow + ListOf(newFollow);
      assert after[..|row.follow|] == row.follow;
      assert after[|row.follow|..] == ListOf(newFollow);
      var t1 := t[actor := row.(follow := after)];
      var t2 := UpdateUsersFollowers(t1, actor, newFollow, false);
      var t3 := UpdateUserRealFollowCount(t2, actor, {}).value;
      Ok(Handled(t3, NoReply))
  }

  // ---------------------------------------------------------------------
  // remove_command_handler
  // ---------------------------------------------------------------------

  /** The target-side edit of `/remove`: drop the actor's first entry from
      `followers`, or leave the row alone when it is not there. */
  function Unfollowed(row: Account, actor: string): Account {
    EditFollowers(row, actor, true)
  }

  /** What `/remove` promises for a registered actor: `follow` becomes a
      duplicate-free list of exactly the old handles minus the targets, every
      target with a row loses the actor from `followers`, and the actor's
      `real_follow_count` is recounted. Nothing else changes. */
  ghost predicate RemoveSpec(t: Table, actor: string, targets: set<string>, t': Table) {
    && actor in t && t'.Keys == t.Keys
    && var after := t'[actor].follow;
       && NoDup(after) && Elems(after) == Elems(t[actor].follow) - targets
       && t'[actor] == (if actor in targets then Unfollowed(t[actor], actor) else t[actor])
                         .(follow := after, realFollowCount := Some(|Registered(t, Elems(after))|))
       && (forall k :: k in t && k != actor && k !in targets ==> t'[k] == t[k])
       && (forall k :: k in t && k != actor && k in targets ==> t'[k] == Unfollowed(t[k], actor))
  }

  function RemoveCommand(t: Table, actor: string, users: seq<string>): (r: Result<Handled>)
    ensures |users| == 0 ==> r == Ok(Handled(t, EmptyRemoveCommand))
    ensures |users| > 0 ==> (r.Ok? <==> actor in t)
    ensures |users| > 0 && r.Ok? ==> r.value.reply == NoReply && RemoveSpec(t, actor, Elems(users), r.value.table)
    ensures |users| > 0 && r.Ok? ==> r.value.table[actor].follow == ListOf(Elems(t[actor].follow) - Elems(users))
  {
    if |users| == 0 then Ok(Handled(t, EmptyRemoveCommand))
    else if actor !in t then Err(MissingRow(actor))
    else
      var row := t[actor];
      var newFollow := Elems(row.follow) - Elems(users);
      var t1 := t[actor := row.(follow := ListOf(newFollow))];
      var t2 := UpdateUsersFollowers(t1, actor, Elems(users), true);
      var t3 := UpdateUserRealFollowCount(t2, actor, newFollow).value;
      Ok(Handled(t3, NoReply))
  }

  // ---------------------------------------------------------------------
  // send_command_handler
  // ---------------------------------------------------------------------

  /** The audience of `/send`: the scan for rows whose `follow` names the sender. */
  function SendAudience(t: Table, sender: string): set<string> {
    FollowersOf(t, sender)
  }

  /** One message per audience row, to its `user_id`. `int(user['user_id'])`
      raises on a row without `user_id` (rows written by `create_user`). */
  function SendCommand(t: Table, sender: string, text: string): (r: Result<map<string, Delivery>>)
    ensures r.Ok? <==> forall k :: k in t && sender in t[k].follow ==> t[k].userId.Some?
    ensures r.Ok? ==> forall k :: k in r.value <==> k in t && sender in t[k].follow
    ensures r.Ok? ==> forall k :: k in r.value ==>
      && t[k].userId.Some?
      && r.value[k] == Delivery(t[k].userId.value, "Somebody told me, that \"" + Parse.Tail(text, |SendPrefix|) + "\"")
  {
    var audience := SendAudience(t, sender);
    if exists k :: k in audience && t[k].userId.None? then Err(MissingAttribute("user_id"))
    else
      var message := Parse.Tail(text, |SendPrefix|);
      Ok(map k | k in audience :: Delivery(t[k].userId.value, "Somebody told me, that \"" + message + "\""))
  }

  /** Under the invariant, the send audience is exactly the sender's own
      `followers` list. */
  lemma SendAudienceIsFollowersList(t: Table, sender: string)
    requires Consistent(t) && sender in t
    ensures SendAudience(t, sender) == Elems(t[sender].followers)
  {
    FollowersScanMatchesList(t, sender);
  }
}
