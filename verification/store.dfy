/** The DynamoDB `users` table as an immutable map from handle to row, the
    two scans every handler uses, and the consistency invariants of the
    follow graph. */
module Store {
  import opened Seqs

  datatype Option<+T> = None | Some(value: T)

  /** `photo_id`: the integer 0 stands for "no photo"; otherwise a Telegram `file_id`. */
  datatype PhotoId = NoPhoto | FileId(id: string)

  /** One row, keyed by its handle (the `username` attribute). Rows are
      schemaless: `start_command_handler` and `create_user` store different
      attribute sets, so every attribute beyond the two handle lists may be
      absent (`None`). */
  datatype Account = Account(
    userId: Option<int>,
    firstName: Option<string>,
    lastName: Option<string>,
    follow: seq<string>,
    followers: seq<string>,
    followCount: Option<int>,
    realFollowCount: Option<int>,
    followersCount: Option<int>,
    photoId: Option<PhotoId>)

  type Table = map<string, Account>

  /** What the source raises. */
  datatype Error =
    | MissingRow(handle: string)        // `['Item']` / `item[...]` on a handle with no row
    | MissingAttribute(attribute: string) // `SET a = a + :v` on a row without `a`
    | NotInList(handle: string)         // `list.remove` of an absent element
    | EmptyPhotoList                    // `photo[-1]` on an empty list

  datatype Result<+T> = Ok(value: T) | Err(error: Error)

  /** The scan `Attr('follow').contains(h)`: handles whose row follows `h`. */
  function FollowersOf(t: Table, h: string): set<string> {
    set k | k in t && h in t[k].follow
  }

  /** The scan `Attr('username').is_in(s)`: the members of `s` that have a row. */
  function Registered(t: Table, s: set<string>): set<string> {
    t.Keys * s
  }

  /** `a` lists `b` in `follow` exactly when `b` lists `a` in `followers`. */
  predicate Mirrored(t: Table) {
    forall a, b :: a in t && b in t ==> (b in t[a].follow <==> a in t[b].followers)
  }

  /** Every follower entry names a registered handle. */
  predicate FollowersRegistered(t: Table) {
    forall b, x :: b in t && x in t[b].followers ==> x in t
  }

  /** Nobody follows themself. */
  predicate NoSelfFollow(t: Table) {
    forall a :: a in t ==> a !in t[a].follow
  }

  /** Neither handle list of a row holds a duplicate. */
  predicate ListsDistinct(t: Table) {
    forall a :: a in t ==> NoDup(t[a].follow) && NoDup(t[a].followers)
  }

  /** The structural invariant of the follow graph. */
  predicate Consistent(t: Table) {
    Mirrored(t) && FollowersRegistered(t) && NoSelfFollow(t) && ListsDistinct(t)
  }

  /** `follow_count` equals the length of `follow`. */
  predicate FollowCountsExact(t: Table) {
    forall a :: a in t ==> t[a].followCount == Some(|t[a].follow|)
  }

  /** `real_follow_count` counts the followed handles that have a row. */
  predicate RealCountsExact(t: Table) {
    forall a :: a in t ==> t[a].realFollowCount == Some(|Registered(t, Elems(t[a].follow))|)
  }

  /** Number of positions of `follow` naming a registered handle. */
  function CountRegistered(t: Table, follow: seq<string>): nat {
    if |follow| == 0 then 0
    else (if follow[0] in t then 1 else 0) + CountRegistered(t, follow[1..])
  }

  /** Putting a new handle in front raises the scan count by one exactly
      when the handle has a row. */
  lemma RegisteredCons(t: Table, h: string, rest: seq<string>)
    requires h !in rest
    ensures |Registered(t, Elems([h] + rest))| == (if h in t then 1 else 0) + |Registered(t, Elems(rest))|
  {
    ElemsConcat([h], rest);
    assert Elems([h]) == {h};
    var r := Registered(t, Elems(rest));
    assert h !in r;
    if h in t {
      assert Registered(t, Elems([h] + rest)) == r + {h};
    } else {
      assert Registered(t, Elems([h] + rest)) == r;
    }
  }

  /** For a duplicate-free list the scan count equals the positional count. */
  lemma {:induction false} RegisteredCount(t: Table, follow: seq<string>)
    requires NoDup(follow)
    ensures |Registered(t, Elems(follow))| == CountRegistered(t, follow)
  {
    if |follow| > 0 {
      RegisteredCount(t, follow[1..]);
      assert follow == [follow[0]] + follow[1..];
      RegisteredCons(t, follow[0], follow[1..]);
    }
  }

  /** Under the invariant, the scan for rows following `h` recovers exactly
      the followers list stored on `h`'s own row. */
  lemma FollowersScanMatchesList(t: Table, h: string)
    requires Consistent(t) && h in t
    ensures FollowersOf(t, h) == Elems(t[h].followers)
  {
    forall x | x in Elems(t[h].followers)
      ensures x in FollowersOf(t, h)
    {
      assert x in t;
    }
  }

  // ---------------------------------------------------------------------
  // One follow step, at the level of element sets
  // ---------------------------------------------------------------------

  /** `t'` differs from `t` only in the actor's `follow` set, which loses
      `lost` and gains `gained`, and in the actor entering the `followers`
      of the `gained` rows and leaving those of the `lost` rows. */
  ghost predicate FollowStep(t: Table, t': Table, actor: string, gained: set<string>, lost: set<string>) {
    && actor in t && t'.Keys == t.Keys && gained !! lost
    && Elems(t'[actor].follow) == (Elems(t[actor].follow) - lost) + gained
    && (forall a :: a in t && a != actor ==> t'[a].follow == t[a].follow)
    && (forall b :: b in t && b in gained ==> Elems(t'[b].followers) == Elems(t[b].followers) + {actor})
    && (forall b :: b in t && b in lost ==> Elems(t'[b].followers) == Elems(t[b].followers) - {actor})
    && (forall b :: b in t && b !in gained && b !in lost ==> Elems(t'[b].followers) == Elems(t[b].followers))
  }

  /** A step that only adds follows, stated without the empty `lost` set. */
  lemma GainStepIntro(t: Table, t': Table, actor: string, gained: set<string>)
    requires actor in t && t'.Keys == t.Keys
    requires Elems(t'[actor].follow) == Elems(t[actor].follow) + gained
    requires forall a :: a in t && a != actor ==> t'[a].follow == t[a].follow
    requires forall b :: b in t && b in gained ==> Elems(t'[b].followers) == Elems(t[b].followers) + {actor}
    requires forall b :: b in t && b !in gained ==> Elems(t'[b].followers) == Elems(t[b].followers)
    ensures FollowStep(t, t', actor, gained, {})
  {
    assert Elems(t[actor].follow) - {} == Elems(t[actor].follow);
  }

  /** A step that only drops follows, stated without the empty `gained` set. */
  lemma LoseStepIntro(t: Table, t': Table, actor: string, lost: set<string>)
    requires actor in t && t'.Keys == t.Keys
    requires Elems(t'[actor].follow) == Elems(t[actor].follow) - lost
    requires forall a :: a in t && a != actor ==> t'[a].follow == t[a].follow
    requires forall b :: b in t && b in lost ==> Elems(t'[b].followers) == Elems(t[b].followers) - {actor}
    requires forall b :: b in t && b !in lost ==> Elems(t'[b].followers) == Elems(t[b].followers)
    ensures FollowStep(t, t', actor, {}, lost)
  {
    assert (Elems(t[actor].follow) - lost) + {} == Elems(t[actor].follow) - lost;
  }

  /** A follow step that moves both sides of each edge together keeps the
      two lists mirrored. */
  lemma MirrorStep(t: Table, t': Table, actor: string, gained: set<string>, lost: set<string>)
    requires Mirrored(t) && FollowStep(t, t', actor, gained, lost)
    ensures Mirrored(t')
  {
    forall a, b | a in t' && b in t'
      ensures b in t'[a].follow <==> a in t'[b].followers
    {
      assert b in t[a].follow <==> a in t[b].followers;
      assert b in t'[a].follow <==> b in Elems(t'[a].follow);
      assert b in t[a].follow <==> b in Elems(t[a].follow);
      assert a in t'[b].followers <==> a in Elems(t'[b].followers);
      assert a in t[b].followers <==> a in Elems(t[b].followers);
    }
  }

  lemma RegisteredStep(t: Table, t': Table, actor: string, gained: set<string>, lost: set<string>)
    requires FollowersRegistered(t) && FollowStep(t, t', actor, gained, lost)
    ensures FollowersRegistered(t')
  {
    forall b, x | b in t' && x in t'[b].followers
      ensures x in t'
    {
      assert x in Elems(t'[b].followers);
      if x != actor {
        assert x in Elems(t[b].followers);
      }
    }
  }

  lemma NoSelfFollowStep(t: Table, t': Table, actor: string, gained: set<string>, lost: set<string>)
    requires NoSelfFollow(t) && FollowStep(t, t', actor, gained, lost) && actor !in gained
    ensures NoSelfFollow(t')
  {
    assert actor !in Elems(t[actor].follow);
    assert actor !in Elems(t'[actor].follow);
  }
}
