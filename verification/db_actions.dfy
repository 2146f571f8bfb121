/** The table helpers of db_actions.py: the second, per-handle variant of
    following, unfollowing and registration, plus the profile and photo
    updates. Each raise of the source is an `Err`; writes made before the
    raise are not carried in the result. */
module DbActions {
  import opened Seqs
  import opened SetOrder
  import opened Store

  /** The two Telegram profile fields the source copies into a row. The
      empty string stands for an absent (falsy) `last_name`. */
  datatype Profile = Profile(firstName: string, lastName: string)

  /** A Telegram `PhotoSize`; only its `file_id` is read. */
  datatype PhotoSize = PhotoSize(fileId: string)

  // ---------------------------------------------------------------------
  // update_users_followers
  // ---------------------------------------------------------------------

  /** Appends `follower` to, or removes its first occurrence from, the
      `followers` of the one row `target`. A missing row and a removal of
      an absent follower both raise. */
  function UpdateUsersFollowers(t: Table, target: string, follower: string, remove: bool): (r: Result<Table>)
    ensures target !in t ==> r == Err(MissingRow(target))
    ensures target in t && remove && follower !in t[target].followers ==> r == Err(NotInList(follower))
    ensures r.Ok? <==> target in t && (remove ==> follower in t[target].followers)
    ensures r.Ok? ==> r.value.Keys == t.Keys
    ensures r.Ok? ==> forall k :: k in t && k != target ==> r.value[k] == t[k]
    ensures r.Ok? ==> r.value[target] == t[target].(followers := r.value[target].followers)
    ensures r.Ok? && !remove ==> r.value[target].followers == t[target].followers + [follower]
    ensures r.Ok? && remove ==>
      multiset(r.value[target].followers) == multiset(t[target].followers) - multiset{follower}
  {
    if target !in t then Err(MissingRow(target))
    else
      var row := t[target];
      if remove && follower !in row.followers then Err(NotInList(follower))
      else
        if remove then
          RemoveFirstMultiset(row.followers, follower);
          Ok(t[target := row.(followers := RemoveFirst(row.followers, follower))])
        else
          Ok(t[target := row.(followers := row.followers + [follower])])
  }

  // ---------------------------------------------------------------------
  // follow_user
  // ---------------------------------------------------------------------

  /** The first write of `follow_user`: `list_append` on `follow` and an
      increment of `follow_count`, which raises on a row without the counter. */
  function AppendFollow(t: Table, actor: string, added: seq<string>): (r: Result<Table>)
    requires actor in t
    ensures r.Ok? <==> t[actor].followCount.Some?
    ensures r.Ok? ==> r.value.Keys == t.Keys
    ensures r.Ok? ==> forall k :: k in t && k != actor ==> r.value[k] == t[k]
    ensures r.Ok? ==> r.value[actor] == t[actor].(follow := t[actor].follow + added,
                                                  followCount := Some(t[actor].followCount.value + |added|))
  {
    match t[actor].followCount
    case None => Err(MissingAttribute("follow_count"))
    case Some(c) => Ok(t[actor := t[actor].(follow := t[actor].follow + added, followCount := Some(c + |added|))])
  }

  /** What a successful new follow of `target` by `actor` leaves behind:
      both sides of the edge written, the counter bumped, nothing else touched. */
  ghost predicate FollowSpec(t: Table, actor: string, target: string, t': Table) {
    && actor in t && target in t && actor != target && target !in t[actor].follow
    && t[actor].followCount.Some?
    && t'.Keys == t.Keys
    && t'[actor] == t[actor].(follow := t[actor].follow + [target],
                              followCount := Some(t[actor].followCount.value + 1))
    && t'[target] == t[target].(followers := t[target].followers + [actor])
    && (forall k :: k in t && k != actor && k != target ==> t'[k] == t[k])
  }

  /** `follow_user`: returns the new table and whether anything was followed.
      Following oneself or someone already followed changes nothing. */
  function FollowUser(t: Table, actor: string, target: string): (r: Result<(Table, bool)>)
    ensures actor !in t ==> r == Err(MissingRow(actor))
    ensures actor in t && (target == actor || target in t[actor].follow) ==> r == Ok((t, false))
    ensures actor in t && target != actor && target !in t[actor].follow ==>
      && (t[actor].followCount.None? ==> r == Err(MissingAttribute("follow_count")))
      && (t[actor].followCount.Some? && target !in t ==> r == Err(MissingRow(target)))
      && (t[actor].followCount.Some? && target in t ==> r.Ok? && r.value.1 && FollowSpec(t, actor, target, r.value.0))
  {
    if actor !in t then Err(MissingRow(actor))
    else
      var newFollow := {target} - Elems(t[actor].follow) - {actor};
      if newFollow == {} then
        assert target !in newFollow;
        Ok((t, false))
      else
        assert newFollow == {target};
        ListOfSingleton(target);
        match AppendFollow(t, actor, ListOf(newFollow))
        case Err(e) => Err(e)
        case Ok(t1) =>
          match UpdateUsersFollowers(t1, target, actor, false)
          case Err(e) => Err(e)
          case Ok(t2) => Ok((t2, true))
  }

  // ---------------------------------------------------------------------
  // get_followers_list
  // ---------------------------------------------------------------------

  /** The rows of the handles `h` follows, found by a scan; handles without
      a row are silently skipped. */
  function GetFollowersList(t: Table, h: string): (r: Result<map<string, Account>>)
    ensures r.Ok? <==> h in t
    ensures !r.Ok? ==> r == Err(MissingRow(h))
    ensures r.Ok? ==> forall k :: k in r.value <==> k in t && k in t[h].follow
    ensures r.Ok? ==> forall k :: k in r.value ==> r.value[k] == t[k]
  {
    if h !in t then Err(MissingRow(h))
    else
      var follow := t[h].follow;
      Ok(map k | k in t && k in follow :: t[k])
  }

  // ---------------------------------------------------------------------
  // unfollow_user
  // ---------------------------------------------------------------------

  /** What a successful unfollow leaves behind: one occurrence of each side
      of the edge removed, and nothing else changed, the counter included. */
  ghost predicate UnfollowSpec(t: Table, actor: string, target: string, t': Table) {
    && actor in t && target in t
    && target in t[actor].follow && actor in t[target].followers
    && t'.Keys == t.Keys
    && (forall k :: k in t ==> t'[k] == t[k].(follow := t'[k].follow, followers := t'[k].followers))
    && t'[actor].follow == RemoveFirst(t[actor].follow, target)
    && t'[target].followers == RemoveFirst(t[target].followers, actor)
    && (forall k :: k in t && k != actor ==> t'[k].follow == t[k].follow)
    && (forall k :: k in t && k != target ==> t'[k].followers == t[k].followers)
  }

  /** `unfollow_user`: `list.remove` on the actor's `follow`, a write, then
      the same on the target's `followers`. `follow_count` is not touched. */
  function UnfollowUser(t: Table, actor: string, target: string): (r: Result<Table>)
    ensures actor !in t ==> r == Err(MissingRow(actor))
    ensures actor in t && target !in t[actor].follow ==> r == Err(NotInList(target))
    ensures actor in t && target in t[actor].follow && target !in t ==> r == Err(MissingRow(target))
    ensures actor in t && target in t[actor].follow && target in t && actor !in t[target].followers ==>
      r == Err(NotInList(actor))
    ensures r.Ok? <==> actor in t && target in t && target in t[actor].follow && actor in t[target].followers
    ensures r.Ok? ==> UnfollowSpec(t, actor, target, r.value)
  {
    if actor !in t then Err(MissingRow(actor))
    else if target !in t[actor].follow then Err(NotInList(target))
    else
      var t1 := t[actor := t[actor].(follow := RemoveFirst(t[actor].follow, target))];
      UpdateUsersFollowers(t1, target, actor, true)
  }

  // ---------------------------------------------------------------------
  // create_user / update_user
  // ---------------------------------------------------------------------

  /** `last_name` as stored: the given name, or `None` when it is falsy. */
  function LastNameOf(p: Profile): Option<string> {
    if p.lastName != "" then Some(p.lastName) else None
  }

  /** `create_user`: puts a fresh row for `h`, overwriting any row already
      there, with the followers back-filled from the scan. */
  function CreateUser(t: Table, h: string, p: Profile): (r: Table)
    ensures r.Keys == t.Keys + {h}
    ensures forall k :: k in t && k != h ==> r[k] == t[k]
    ensures r[h].follow == [] && r[h].followCount == Some(0) && r[h].photoId == Some(NoPhoto)
    ensures r[h].firstName == Some(p.firstName) && r[h].lastName == LastNameOf(p)
    ensures NoDup(r[h].followers)
    ensures forall x :: x in r[h].followers <==> x in t && h in t[x].follow
    ensures r[h].userId.None? && r[h].realFollowCount.None? && r[h].followersCount.None?
  {
    var followers := ListOf(FollowersOf(t, h));
    assert forall x :: x in followers <==> x in Elems(followers);
    t[h := Account(None, Some(p.firstName), LastNameOf(p), [], followers, Some(0), None, None, Some(NoPhoto))]
  }

  /** `update_user`: rewrites the profile of an existing row and repairs its
      derived attributes: `follow_count` from `follow`, `followers` from the
      scan, and a missing `photo_id` defaulted. `follow` itself is kept. */
  function UpdateUser(t: Table, h: string, p: Profile): (r: Result<Table>)
    ensures r.Ok? <==> h in t
    ensures !r.Ok? ==> r == Err(MissingRow(h))
    ensures r.Ok? ==> r.value.Keys == t.Keys
    ensures r.Ok? ==> forall k :: k in t && k != h ==> r.value[k] == t[k]
    ensures r.Ok? ==>
      var row := t[h];
      var row' := r.value[h];
      && row'.follow == row.follow
      && row'.followCount == Some(|row.follow|)
      && NoDup(row'.followers)
      && (forall x :: x in row'.followers <==> x in t && h in t[x].follow)
      && row'.firstName == Some(p.firstName)
      && row'.lastName == (if p.lastName != "" then Some(p.lastName) else row.lastName)
      && row'.photoId == (if row.photoId.Some? then row.photoId else Some(NoPhoto))
      && row'.userId == row.userId && row'.realFollowCount == row.realFollowCount
      && row'.followersCount == row.followersCount
  {
    if h !in t then Err(MissingRow(h))
    else
      var followers := ListOf(FollowersOf(t, h));
      assert forall x :: x in followers <==> x in Elems(followers);
      var row := t[h];
      var row' := row.(
        firstName := Some(p.firstName),
        lastName := if p.lastName != "" then Some(p.lastName) else row.lastName,
        followCount := Some(|row.follow|),
        followers := followers,
        photoId := if row.photoId.Some? then row.photoId else Some(NoPhoto));
      Ok(t[h := row'])
  }

  // ---------------------------------------------------------------------
  // update_user_photo
  // ---------------------------------------------------------------------

  /** `update_user_photo`: stores the `file_id` of the last (largest) size. */
  function UpdateUserPhoto(t: Table, h: string, photos: seq<PhotoSize>): (r: Result<Table>)
    ensures |photos| == 0 ==> r == Err(EmptyPhotoList)
    ensures |photos| > 0 && h !in t ==> r == Err(MissingRow(h))
    ensures r.Ok? <==> |photos| > 0 && h in t
    ensures r.Ok? ==> r.value.Keys == t.Keys
    ensures r.Ok? ==> forall k :: k in t && k != h ==> r.value[k] == t[k]
    ensures r.Ok? ==> r.value[h] == t[h].(photoId := Some(FileId(photos[|photos| - 1].fileId)))
  {
    if |photos| == 0 then Err(EmptyPhotoList)
    else if h !in t then Err(MissingRow(h))
    else Ok(t[h := t[h].(photoId := Some(FileId(photos[|photos| - 1].fileId)))])
  }
}
