/** Properties of the db_actions.py variant: which invariants each helper
    keeps or breaks, the follow/unfollow round trip, and how its results
    relate to the command handlers. */
module DbProps {
  import opened Seqs
  import opened SetOrder
  import opened Store
  import Handler
  import opened DbActions

  // ---------------------------------------------------------------------
  // follow_user
  // ---------------------------------------------------------------------

  /** A successful new follow is one follow step that gains `target`. */
  lemma FollowSpecIsStep(t: Table, actor: string, target: string, t': Table)
    requires FollowSpec(t, actor, target, t')
    ensures FollowStep(t, t', actor, {target}, {})
  {
    ElemsConcat(t[actor].follow, [target]);
    ElemsConcat(t[target].followers, [actor]);
    GainStepIntro(t, t', actor, {target});
  }

  /** A new follow keeps the follow graph consistent and `follow_count` exact. */
  lemma FollowSpecKeepsInvariants(t: Table, actor: string, target: string, t': Table)
    requires FollowSpec(t, actor, target, t')
    ensures Consistent(t) ==> Consistent(t')
    ensures FollowCountsExact(t) ==> FollowCountsExact(t')
  {
    if Consistent(t) {
      FollowSpecIsStep(t, actor, target, t');
      MirrorStep(t, t', actor, {target}, {});
      RegisteredStep(t, t', actor, {target}, {});
      NoSelfFollowStep(t, t', actor, {target}, {});
      NoDupAppend(t[actor].follow, target);
      assert actor !in t[target].followers;
      NoDupAppend(t[target].followers, actor);
    }
  }

  /** `follow_user` keeps the follow graph consistent and `follow_count` exact. */
  lemma FollowUserPreservesInvariants(t: Table, actor: string, target: string)
    requires FollowUser(t, actor, target).Ok?
    ensures Consistent(t) ==> Consistent(FollowUser(t, actor, target).value.0)
    ensures FollowCountsExact(t) ==> FollowCountsExact(FollowUser(t, actor, target).value.0)
  {
    var r := FollowUser(t, actor, target).value;
    if r.1 {
      FollowSpecKeepsInvariants(t, actor, target, r.0);
    }
  }

  /** After a new follow of a registered handle, the scan counts one more
      followed row than before. */
  lemma FollowSpecAddsRegistered(t: Table, actor: string, target: string, t': Table)
    requires FollowSpec(t, actor, target, t')
    ensures |Registered(t', Elems(t'[actor].follow))| == |Registered(t, Elems(t[actor].follow))| + 1
  {
    ElemsConcat(t[actor].follow, [target]);
    assert target !in Elems(t[actor].follow);
    assert Registered(t', Elems(t'[actor].follow)) == Registered(t, Elems(t[actor].follow)) + {target};
  }

  /** `follow_user` never recounts `real_follow_count` (the recount call is
      commented out), so after a new follow of a registered handle the
      stored count is one short of the scan. */
  lemma FollowUserLeavesRealCountStale(t: Table, actor: string, target: string)
    requires RealCountsExact(t)
    requires actor in t && target in t && actor != target && target !in t[actor].follow
    requires t[actor].followCount.Some?
    ensures FollowUser(t, actor, target).Ok? && FollowUser(t, actor, target).value.1
    ensures var t' := FollowUser(t, actor, target).value.0;
      t'[actor].realFollowCount.Some?
      && t'[actor].realFollowCount.value + 1 == |Registered(t', Elems(t'[actor].follow))|
  {
    var t' := FollowUser(t, actor, target).value.0;
    FollowSpecAddsRegistered(t, actor, target, t');
  }

  /** A row made by `/start` has no `follow_count`, so `follow_user` on it
      raises as soon as there is something new to follow. */
  lemma StartedRowCannotFollow(t: Table, h: string, chatId: int, target: string)
    requires h !in t && target != h
    requires Handler.StartCommand(t, h, chatId).Ok?
    ensures FollowUser(Handler.StartCommand(t, h, chatId).value, h, target) == Err(MissingAttribute("follow_count"))
  {
    var t' := Handler.StartCommand(t, h, chatId).value;
    assert t'[h].follow == [];
  }

  // ---------------------------------------------------------------------
  // unfollow_user
  // ---------------------------------------------------------------------

  /** A successful unfollow is one follow step that loses `target`. */
  lemma UnfollowSpecIsStep(t: Table, actor: string, target: string, t': Table)
    requires Consistent(t) && UnfollowSpec(t, actor, target, t')
    ensures FollowStep(t, t', actor, {}, {target})
    ensures ListsDistinct(t')
  {
    RemoveFirstNoDup(t[actor].follow, target);
    RemoveFirstNoDup(t[target].followers, actor);
    LoseStepIntro(t, t', actor, {target});
  }

  /** `unfollow_user` keeps the follow graph consistent but leaves
      `follow_count` one too high, since it never decrements it. */
  lemma UnfollowUserInvariants(t: Table, actor: string, target: string)
    requires UnfollowUser(t, actor, target).Ok?
    ensures Consistent(t) ==> Consistent(UnfollowUser(t, actor, target).value)
    ensures FollowCountsExact(t) ==>
      var t' := UnfollowUser(t, actor, target).value;
      t'[actor].followCount == Some(|t'[actor].follow| + 1)
  {
    var t' := UnfollowUser(t, actor, target).value;
    if Consistent(t) {
      UnfollowSpecIsStep(t, actor, target, t');
      MirrorStep(t, t', actor, {}, {target});
      RegisteredStep(t, t', actor, {}, {target});
      NoSelfFollowStep(t, t', actor, {}, {target});
    }
  }

  /** Unfollowing right after a new follow restores every list; only the
      actor's `follow_count` keeps the increment. */
  lemma FollowSpecThenUnfollow(t: Table, actor: string, target: string, t': Table)
    requires Consistent(t) && FollowSpec(t, actor, target, t')
    ensures UnfollowUser(t', actor, target)
         == Ok(t[actor := t[actor].(followCount := Some(t[actor].followCount.value + 1))])
  {
    assert actor !in t[target].followers;
    RemoveFirstAppended(t[actor].follow, target);
    RemoveFirstAppended(t[target].followers, actor);
    assert target in t'[actor].follow && actor in t'[target].followers;
    var t'' := UnfollowUser(t', actor, target).value;
    var expected := t[actor := t[actor].(followCount := Some(t[actor].followCount.value + 1))];
    assert t''[actor] == expected[actor];
    assert t''[target] == expected[target];
    assert t''.Keys == expected.Keys;
    assert forall k :: k in t'' ==> t''[k] == expected[k];
    assert t'' == expected;
  }

  lemma FollowThenUnfollow(t: Table, actor: string, target: string)
    requires Consistent(t)
    requires actor in t && target in t && actor != target && target !in t[actor].follow
    requires t[actor].followCount.Some?
    ensures FollowUser(t, actor, target).Ok? && FollowUser(t, actor, target).value.1
    ensures UnfollowUser(FollowUser(t, actor, target).value.0, actor, target)
         == Ok(t[actor := t[actor].(followCount := Some(t[actor].followCount.value + 1))])
  {
    FollowSpecThenUnfollow(t, actor, target, FollowUser(t, actor, target).value.0);
  }

  // ---------------------------------------------------------------------
  // get_followers_list
  // ---------------------------------------------------------------------

  /** The scan returns exactly as many rows as the handler's recount of
      `real_follow_count` counts, and under the counting invariant exactly
      the stored count. */
  lemma GetFollowersListMatchesRecount(t: Table, h: string)
    requires h in t
    ensures Handler.UpdateUserRealFollowCount(t, h, {}).Ok?
    ensures Handler.UpdateUserRealFollowCount(t, h, {}).value[h].realFollowCount
         == Some(|GetFollowersList(t, h).value|)
    ensures RealCountsExact(t) ==> t[h].realFollowCount == Some(|GetFollowersList(t, h).value|)
  {
    var m := GetFollowersList(t, h).value;
    assert m.Keys == Registered(t, Elems(t[h].follow));
  }

  // ---------------------------------------------------------------------
  // create_user / update_user / update_user_photo
  // ---------------------------------------------------------------------

  /** Creating a row for a new handle keeps the graph consistent and the
      follow counters exact. */
  lemma CreateUserPreservesInvariants(t: Table, h: string, p: Profile)
    requires h !in t
    ensures Consistent(t) ==> Consistent(CreateUser(t, h, p))
    ensures FollowCountsExact(t) ==> FollowCountsExact(CreateUser(t, h, p))
  {
    var r := CreateUser(t, h, p);
    if Consistent(t) {
      forall a, b | a in r && b in r
        ensures b in r[a].follow <==> a in r[b].followers
      {
        if a == h && b != h {
          assert h !in t[b].followers;
        }
      }
    }
  }

  /** `update_user` leaves the graph and both counters as consistent as
      they were, and the handle's own followers list always mirrors the
      `follow` lists of the other rows afterwards. */
  lemma UpdateUserPreservesInvariants(t: Table, h: string, p: Profile)
    requires UpdateUser(t, h, p).Ok?
    ensures var t' := UpdateUser(t, h, p).value;
      forall a :: a in t' && a != h ==> (h in t'[a].follow <==> a in t'[h].followers)
    ensures Consistent(t) ==> Consistent(UpdateUser(t, h, p).value)
    ensures FollowCountsExact(t) ==> FollowCountsExact(UpdateUser(t, h, p).value)
    ensures RealCountsExact(t) ==> RealCountsExact(UpdateUser(t, h, p).value)
  {
    var t' := UpdateUser(t, h, p).value;
    if Consistent(t) {
      FollowersScanMatchesList(t, h);
      assert Elems(t'[h].followers) == FollowersOf(t, h);
      GainStepIntro(t, t', h, {});
      MirrorStep(t, t', h, {}, {});
      RegisteredStep(t, t', h, {}, {});
      NoSelfFollowStep(t, t', h, {}, {});
    }
  }

  /** Running `update_user` twice with the same profile is the same as once. */
  lemma UpdateUserIdempotent(t: Table, h: string, p: Profile)
    requires UpdateUser(t, h, p).Ok?
    ensures UpdateUser(UpdateUser(t, h, p).value, h, p) == UpdateUser(t, h, p)
  {
    var t' := UpdateUser(t, h, p).value;
    assert FollowersOf(t', h) == FollowersOf(t, h);
    assert UpdateUser(t', h, p).value[h] == t'[h];
    assert UpdateUser(t', h, p).value == t';
  }

  /** Storing a photo touches no list or counter, so every invariant is kept. */
  lemma UpdateUserPhotoPreservesInvariants(t: Table, h: string, photos: seq<PhotoSize>)
    requires UpdateUserPhoto(t, h, photos).Ok?
    ensures Consistent(t) ==> Consistent(UpdateUserPhoto(t, h, photos).value)
    ensures FollowCountsExact(t) ==> FollowCountsExact(UpdateUserPhoto(t, h, photos).value)
    ensures RealCountsExact(t) ==> RealCountsExact(UpdateUserPhoto(t, h, photos).value)
  {
    var t' := UpdateUserPhoto(t, h, photos).value;
    assert forall k :: k in t ==> t'[k].follow == t[k].follow && t'[k].followers == t[k].followers;
  }
}
