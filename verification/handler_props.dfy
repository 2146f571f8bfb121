/** Properties of the handler.py commands: each complete `/start`, `/add`
    and `/remove` keeps the follow graph consistent and the real-follow
    counters exact, `/remove` is idempotent, and an `/add` naming nothing new
    changes nothing. */
module HandlerProps {
  import opened Seqs
  import opened SetOrder
  import opened Store
  import opened Handler
  import Parse

  // ---------------------------------------------------------------------
  // From message text to handler
  // ---------------------------------------------------------------------

  /** `/add` answers with the empty-command reply, and writes nothing,
      exactly when only whitespace follows the command. */
  lemma AddEmptyIffBlank(t: Table, actor: string, text: string)
    ensures AddCommand(t, actor, AddArgs(text)) == Ok(Handled(t, EmptyAddCommand))
            <==> Parse.Blank(Parse.Tail(text, |AddPrefix|))
  {
    Parse.CommandArgsEmptyIffBlank(text, |AddPrefix|);
  }

  /** `/remove` answers with the empty-command reply, and writes nothing,
      exactly when only whitespace follows the command. */
  lemma RemoveEmptyIffBlank(t: Table, actor: string, text: string)
    ensures RemoveCommand(t, actor, RemoveArgs(text)) == Ok(Handled(t, EmptyRemoveCommand))
            <==> Parse.Blank(Parse.Tail(text, |RemovePrefix|))
  {
    Parse.CommandArgsEmptyIffBlank(text, |RemovePrefix|);
  }

  // ---------------------------------------------------------------------
  // /add
  // ---------------------------------------------------------------------

  /** The actor's new `follow` list: the old handles plus every argument
      except the actor itself, without duplicates. */
  lemma {:induction false} AddFollowList(t: Table, actor: string, users: seq<string>)
    requires |users| > 0 && actor in t
    ensures AddCommand(t, actor, users).Ok?
    ensures var after := AddCommand(t, actor, users).value.table[actor].follow;
      && Elems(after) == Elems(t[actor].follow) + (Elems(users) - {actor})
      && (actor in after <==> actor in t[actor].follow)
      && (NoDup(t[actor].follow) ==> NoDup(after))
  {
    var t' := AddCommand(t, actor, users).value.table;
    var before := t[actor].follow;
    var after := t'[actor].follow;
    var suffix := after[|before|..];
    assert after == before + suffix;
    ElemsConcat(before, suffix);
    if NoDup(before) {
      NoDupConcat(before, suffix);
    }
  }

  /** Every new target that has a row lists the actor among its followers. */
  lemma AddMirrorsTargets(t: Table, actor: string, users: seq<string>, b: string)
    requires |users| > 0 && actor in t
    requires b in t && b in users && b != actor && b !in t[actor].follow
    ensures AddCommand(t, actor, users).Ok?
    ensures b in AddCommand(t, actor, users).value.table[actor].follow
    ensures actor in AddCommand(t, actor, users).value.table[b].followers
  {
    var t' := AddCommand(t, actor, users).value.table;
    assert b in Elems(users);
    AddSpecFollowSet(t, actor, Elems(users), t');
    assert b in Elems(t'[actor].follow);
    assert t'[b] == t[b].(followers := t[b].followers + [actor]);
  }

  /** The actor's `follow` set after `/add`: the old set plus the new handles. */
  lemma AddSpecFollowSet(t: Table, actor: string, targets: set<string>, t': Table)
    requires AddSpec(t, actor, targets, t')
    ensures Elems(t'[actor].follow) == Elems(t[actor].follow) + (targets - Elems(t[actor].follow) - {actor})
  {
    var before := t[actor].follow;
    var after := t'[actor].follow;
    var suffix := after[|before|..];
    assert after == before + suffix;
    ElemsConcat(before, suffix);
  }

  lemma AddSpecFollowers(t: Table, actor: string, targets: set<string>, t': Table)
    requires AddSpec(t, actor, targets, t')
    ensures forall a :: a in t && a != actor ==> t'[a].follow == t[a].follow
    ensures forall b :: b in t && b in targets - Elems(t[actor].follow) - {actor} ==>
      Elems(t'[b].followers) == Elems(t[b].followers) + {actor}
    ensures forall b :: b in t && b !in targets - Elems(t[actor].follow) - {actor} ==>
      Elems(t'[b].followers) == Elems(t[b].followers)
  {
    var added := targets - Elems(t[actor].follow) - {actor};
    forall b | b in t && b in added
      ensures Elems(t'[b].followers) == Elems(t[b].followers) + {actor}
    {
      ElemsConcat(t[b].followers, [actor]);
    }
  }

  /** `/add` is a follow step gaining the new handles. */
  lemma AddSpecIsStep(t: Table, actor: string, targets: set<string>, t': Table)
    requires AddSpec(t, actor, targets, t')
    ensures FollowStep(t, t', actor, targets - Elems(t[actor].follow) - {actor}, {})
  {
    AddSpecFollowSet(t, actor, targets, t');
    AddSpecFollowers(t, actor, targets, t');
    GainStepIntro(t, t', actor, targets - Elems(t[actor].follow) - {actor});
  }

  lemma AddSpecKeepsDistinct(t: Table, actor: string, targets: set<string>, t': Table)
    requires Consistent(t) && AddSpec(t, actor, targets, t')
    ensures ListsDistinct(t')
  {
    var before := t[actor].follow;
    var after := t'[actor].follow;
    var suffix := after[|before|..];
    assert after == before + suffix;
    var added := targets - Elems(before) - {actor};
    forall a | a in t'
      ensures NoDup(t'[a].follow) && NoDup(t'[a].followers)
    {
      if a == actor {
        NoDupConcat(before, suffix);
      } else if a in added {
        assert a !in before;
        assert actor !in t[a].followers;
        NoDupAppend(t[a].followers, actor);
      }
    }
  }

  lemma AddSpecKeepsConsistency(t: Table, actor: string, targets: set<string>, t': Table)
    requires Consistent(t) && AddSpec(t, actor, targets, t')
    ensures Consistent(t')
  {
    var added := targets - Elems(t[actor].follow) - {actor};
    AddSpecIsStep(t, actor, targets, t');
    MirrorStep(t, t', actor, added, {});
    RegisteredStep(t, t', actor, added, {});
    NoSelfFollowStep(t, t', actor, added, {});
    AddSpecKeepsDistinct(t, actor, targets, t');
  }

  lemma AddPreservesConsistency(t: Table, actor: string, users: seq<string>)
    requires Consistent(t)
    requires AddCommand(t, actor, users).Ok?
    ensures Consistent(AddCommand(t, actor, users).value.table)
  {
    if |users| > 0 {
      AddSpecKeepsConsistency(t, actor, Elems(users), AddCommand(t, actor, users).value.table);
    }
  }

  lemma AddPreservesRealCounts(t: Table, actor: string, users: seq<string>)
    requires RealCountsExact(t)
    requires AddCommand(t, actor, users).Ok?
    ensures RealCountsExact(AddCommand(t, actor, users).value.table)
  {
  }

  /** An `/add` whose arguments are all already followed (or are the actor)
      writes nothing that changes the table, as long as the actor's counter
      was exact. */
  lemma AddNothingNewIsNoOp(t: Table, actor: string, users: seq<string>)
    requires |users| > 0 && actor in t
    requires Elems(users) <= Elems(t[actor].follow) + {actor}
    requires t[actor].realFollowCount == Some(|Registered(t, Elems(t[actor].follow))|)
    ensures AddCommand(t, actor, users) == Ok(Handled(t, NoReply))
  {
    AddSpecNothingNew(t, actor, Elems(users), AddCommand(t, actor, users).value.table);
  }

  lemma AddSpecNothingNew(t: Table, actor: string, targets: set<string>, t': Table)
    requires AddSpec(t, actor, targets, t')
    requires targets <= Elems(t[actor].follow) + {actor}
    requires t[actor].realFollowCount == Some(|Registered(t, Elems(t[actor].follow))|)
    ensures t' == t
  {
    var before := t[actor].follow;
    var suffix := t'[actor].follow[|before|..];
    assert Elems(suffix) == {};
    ElemsEmpty(suffix);
    assert t'[actor].follow == before + suffix;
    assert t'[actor] == t[actor];
    assert forall k :: k in t ==> t'[k] == t[k];
  }

  // ---------------------------------------------------------------------
  // /remove
  // ---------------------------------------------------------------------

  /** The target-side edit keeps `follow` and, on a duplicate-free list,
      takes exactly the actor out of `followers`. */
  lemma UnfollowedFacts(row: Account, actor: string)
    ensures Unfollowed(row, actor).follow == row.follow
    ensures NoDup(row.followers) ==>
      NoDup(Unfollowed(row, actor).followers) && Elems(Unfollowed(row, actor).followers) == Elems(row.followers) - {actor}
    ensures multiset(row.followers)[actor] <= 1 ==> actor !in Unfollowed(row, actor).followers
    ensures actor in Unfollowed(row, actor).followers <==> multiset(row.followers)[actor] > 1
  {
    if actor in row.followers {
      RemoveFirstStillHas(row.followers, actor);
    }
    if actor in row.followers && NoDup(row.followers) {
      RemoveFirstNoDup(row.followers, actor);
    }
    assert multiset(Unfollowed(row, actor).followers)[actor] == if multiset(row.followers)[actor] > 0 then multiset(row.followers)[actor] - 1 else 0;
  }

  /** After a complete `/remove`, no target is followed by the actor and no
      target row with at most one entry for the actor still lists it. */
  lemma RemoveUnlinksTargets(t: Table, actor: string, users: seq<string>, b: string)
    requires |users| > 0 && actor in t && b in users
    requires b in t ==> multiset(t[b].followers)[actor] <= 1
    ensures RemoveCommand(t, actor, users).Ok?
    ensures b !in RemoveCommand(t, actor, users).value.table[actor].follow
    ensures b in t ==> actor !in RemoveCommand(t, actor, users).value.table[b].followers
  {
    var t' := RemoveCommand(t, actor, users).value.table;
    assert b !in Elems(t'[actor].follow);
    if b in t {
      UnfollowedFacts(t[b], actor);
    }
  }

  /** Every row's `followers` after `/remove`, as one target-side edit or none. */
  lemma RemoveSpecFollowers(t: Table, actor: string, targets: set<string>, t': Table)
    requires Consistent(t) && RemoveSpec(t, actor, targets, t')
    ensures forall a :: a in t && a in targets ==> t'[a].followers == Unfollowed(t[a], actor).followers
    ensures forall a :: a in t && a !in targets ==> t'[a].followers == t[a].followers
  {
    assert actor !in t[actor].followers;
    assert Unfollowed(t[actor], actor) == t[actor];
  }

  /** Each target row loses the actor from a duplicate-free `followers`. */
  lemma RemoveSpecTargets(t: Table, actor: string, targets: set<string>, t': Table)
    requires Consistent(t) && RemoveSpec(t, actor, targets, t')
    ensures forall b :: b in t && b in targets ==>
      NoDup(t'[b].followers) && Elems(t'[b].followers) == Elems(t[b].followers) - {actor}
  {
    RemoveSpecFollowers(t, actor, targets, t');
    forall b | b in t && b in targets
      ensures NoDup(t'[b].followers) && Elems(t'[b].followers) == Elems(t[b].followers) - {actor}
    {
      UnfollowedFacts(t[b], actor);
    }
  }

  /** Row by row, `/remove` on a consistent table keeps the lists
      duplicate-free and takes the actor out of every target's followers. */
  lemma RemoveSpecRows(t: Table, actor: string, targets: set<string>, t': Table)
    requires Consistent(t) && RemoveSpec(t, actor, targets, t')
    ensures forall a :: a in t && a != actor ==> t'[a].follow == t[a].follow
    ensures forall a :: a in t ==> NoDup(t'[a].follow) && NoDup(t'[a].followers)
    ensures forall b :: b in t && b in targets ==> Elems(t'[b].followers) == Elems(t[b].followers) - {actor}
    ensures forall b :: b in t && b !in targets ==> Elems(t'[b].followers) == Elems(t[b].followers)
  {
    RemoveSpecFollowers(t, actor, targets, t');
    RemoveSpecTargets(t, actor, targets, t');
    forall a | a in t
      ensures NoDup(t'[a].follow) && NoDup(t'[a].followers)
    {
      if a != actor {
        assert t'[a].follow == t[a].follow;
      }
      if a !in targets {
        assert t'[a].followers == t[a].followers;
      }
    }
  }

  /** On a consistent table `/remove` is a follow step losing the targets. */
  lemma RemoveSpecIsStep(t: Table, actor: string, targets: set<string>, t': Table)
    requires Consistent(t) && RemoveSpec(t, actor, targets, t')
    ensures FollowStep(t, t', actor, {}, targets)
    ensures ListsDistinct(t')
  {
    RemoveSpecRows(t, actor, targets, t');
    LoseStepIntro(t, t', actor, targets);
  }

  lemma RemoveSpecKeepsConsistency(t: Table, actor: string, targets: set<string>, t': Table)
    requires Consistent(t) && RemoveSpec(t, actor, targets, t')
    ensures Consistent(t')
  {
    RemoveSpecIsStep(t, actor, targets, t');
    MirrorStep(t, t', actor, {}, targets);
    RegisteredStep(t, t', actor, {}, targets);
    NoSelfFollowStep(t, t', actor, {}, targets);
  }

  lemma RemovePreservesConsistency(t: Table, actor: string, users: seq<string>)
    requires Consistent(t)
    requires RemoveCommand(t, actor, users).Ok?
    ensures Consistent(RemoveCommand(t, actor, users).value.table)
  {
    if |users| > 0 {
      RemoveSpecKeepsConsistency(t, actor, Elems(users), RemoveCommand(t, actor, users).value.table);
    }
  }

  /** `/remove` changes only the actor's `follow`, and recounts it. */
  lemma RemoveSpecKeepsRealCounts(t: Table, actor: string, targets: set<string>, t': Table)
    requires RealCountsExact(t) && RemoveSpec(t, actor, targets, t')
    ensures RealCountsExact(t')
  {
    forall a | a in t'
      ensures t'[a].realFollowCount == Some(|Registered(t', Elems(t'[a].follow))|)
    {
      assert Registered(t', Elems(t'[a].follow)) == Registered(t, Elems(t'[a].follow));
      if a != actor {
        assert t'[a].follow == t[a].follow && t'[a].realFollowCount == t[a].realFollowCount;
      }
    }
  }

  lemma RemovePreservesRealCounts(t: Table, actor: string, users: seq<string>)
    requires RealCountsExact(t)
    requires RemoveCommand(t, actor, users).Ok?
    ensures RealCountsExact(RemoveCommand(t, actor, users).value.table)
  {
    if |users| > 0 {
      RemoveSpecKeepsRealCounts(t, actor, Elems(users), RemoveCommand(t, actor, users).value.table);
    }
  }

  /** A second target-side removal finds nothing left to remove. */
  lemma UnfollowedTwice(row: Account, actor: string)
    requires multiset(row.followers)[actor] <= 1
    ensures Unfollowed(Unfollowed(row, actor), actor) == Unfollowed(row, actor)
  {
    UnfollowedFacts(row, actor);
  }

  /** Two remove steps that agree on the actor's `follow` list end in the
      same table as the first, when no row lists the actor twice. */
  lemma RemoveSpecTwice(t: Table, actor: string, targets: set<string>, t1: Table, t2: Table)
    requires RemoveSpec(t, actor, targets, t1) && RemoveSpec(t1, actor, targets, t2)
    requires t2[actor].follow == t1[actor].follow
    requires forall k :: k in t ==> multiset(t[k].followers)[actor] <= 1
    ensures t2 == t1
  {
    forall k | k in t1
      ensures t2[k] == t1[k]
    {
      if k in targets {
        UnfollowedTwice(t[k], actor);
      }
      if k == actor {
        assert Registered(t1, Elems(t2[actor].follow)) == Registered(t, Elems(t1[actor].follow));
      }
    }
  }

  /** Removing the same handles twice ends where removing them once does,
      provided no row lists the actor twice in `followers`. */
  lemma RemoveIdempotent(t: Table, actor: string, users: seq<string>)
    requires RemoveCommand(t, actor, users).Ok?
    requires forall k :: k in t ==> multiset(t[k].followers)[actor] <= 1
    ensures RemoveCommand(RemoveCommand(t, actor, users).value.table, actor, users)
            == RemoveCommand(t, actor, users)
  {
    if |users| > 0 {
      var targets := Elems(users);
      var t1 := RemoveCommand(t, actor, users).value.table;
      var t2 := RemoveCommand(t1, actor, users).value.table;
      var after1 := t1[actor].follow;
      assert Elems(after1) - targets == Elems(after1);
      assert Elems(after1) == Elems(t[actor].follow) - targets;
      assert t2[actor].follow == t1[actor].follow;
      RemoveSpecTwice(t, actor, targets, t1, t2);
    }
  }

  // ---------------------------------------------------------------------
  // /start
  // ---------------------------------------------------------------------

  lemma RegisterPreservesConsistency(t: Table, h: string, chatId: int)
    requires Consistent(t)
    requires StartCommand(t, h, chatId).Ok?
    ensures Consistent(StartCommand(t, h, chatId).value)
  {
    if h in t {
      return;
    }
    var t' := StartCommand(t, h, chatId).value;
    forall k | k in t
      ensures t'[k].follow == t[k].follow && t'[k].followers == t[k].followers
    {
    }
    forall a, b | a in t' && b in t'
      ensures b in t'[a].follow <==> a in t'[b].followers
    {
      if a in t && b in t {
        assert b in t[a].follow <==> a in t[b].followers;
      } else if b in t {
        assert h !in t[b].followers;
      }
    }
  }

  /** A new key `h` raises by one the real count of exactly the rows that
      follow `h`. */
  lemma RegisteredGrows(t: Table, t': Table, h: string, f: set<string>)
    requires h !in t && t'.Keys == t.Keys + {h}
    ensures h in f ==> |Registered(t', f)| == |Registered(t, f)| + 1
    ensures h !in f ==> Registered(t', f) == Registered(t, f)
  {
    if h in f {
      assert Registered(t', f) == Registered(t, f) + {h};
    }
  }

  /** One old row keeps an exact real count through registration of `h`. */
  lemma RegisterRowCount(t: Table, t': Table, h: string, k: string)
    requires h !in t && t'.Keys == t.Keys + {h} && k in t
    requires t'[k].follow == t[k].follow
    requires t[k].realFollowCount == Some(|Registered(t, Elems(t[k].follow))|)
    requires h in t[k].follow ==> t'[k].realFollowCount == Some(t[k].realFollowCount.value + 1)
    requires h !in t[k].follow ==> t'[k].realFollowCount == t[k].realFollowCount
    ensures t'[k].realFollowCount == Some(|Registered(t', Elems(t'[k].follow))|)
  {
    assert h in t[k].follow <==> h in Elems(t[k].follow);
    RegisteredGrows(t, t', h, Elems(t[k].follow));
  }

  lemma RegisterSpecKeepsRealCounts(t: Table, h: string, chatId: int, t': Table)
    requires RealCountsExact(t) && RegisterSpec(t, h, chatId, t')
    ensures RealCountsExact(t')
  {
    forall k | k in t'
      ensures t'[k].realFollowCount == Some(|Registered(t', Elems(t'[k].follow))|)
    {
      if k == h {
        assert Registered(t', Elems(t'[k].follow)) == {};
      } else {
        RegisterRowCount(t, t', h, k);
      }
    }
  }

  lemma RegisterPreservesRealCounts(t: Table, h: string, chatId: int)
    requires RealCountsExact(t)
    requires StartCommand(t, h, chatId).Ok?
    ensures RealCountsExact(StartCommand(t, h, chatId).value)
  {
    if h !in t {
      RegisterSpecKeepsRealCounts(t, h, chatId, StartCommand(t, h, chatId).value);
    }
  }
}
