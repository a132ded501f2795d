/** The `Friendships` service: the checked operations on the friendship
    table. Every operation rejects a null identifier with a
    NullPointerException before touching the table, and `AreFriends` also
    rejects asking about a player and itself. */
module Friendships {
  import opened JavaLang
  import opened Uuids
  import opened FriendTable

  /** Creates the friendship between two players, whatever their order. */
  function AddFriendship(t: Table, some: Nullable<Uuid>, other: Nullable<Uuid>): (r: Result<Table>)
    ensures r.Throw? <==> some.Null? || other.Null?
    ensures r.Throw? ==> r.exception == NullPointerException
    ensures r.Ok? ==> (some.deref, other.deref) in r.value && (other.deref, some.deref) in r.value
    ensures r.Ok? ==> t <= r.value && r.value - t <= {(some.deref, other.deref), (other.deref, some.deref)}
  {
    if some.Null? || other.Null? then Throw(NullPointerException)
    else Ok(Link(t, some.deref, other.deref))
  }

  /** Removes the friendship between two players, if there is one. */
  function RemoveFriendship(t: Table, some: Nullable<Uuid>, other: Nullable<Uuid>): (r: Result<Table>)
    ensures r.Throw? <==> some.Null? || other.Null?
    ensures r.Throw? ==> r.exception == NullPointerException
    ensures r.Ok? ==> (some.deref, other.deref) !in r.value && (other.deref, some.deref) !in r.value
    ensures r.Ok? ==> r.value <= t && t - r.value <= {(some.deref, other.deref), (other.deref, some.deref)}
  {
    if some.Null? || other.Null? then Throw(NullPointerException)
    else Ok(Unlink(t, some.deref, other.deref))
  }

  /** Whether the cell (some, other) is present; null arguments and a player
      asked about itself are rejected. */
  function AreFriends(t: Table, some: Nullable<Uuid>, other: Nullable<Uuid>): (r: Result<bool>)
    ensures r == Ok(true) <==> some.Ref? && other.Ref? && some.deref != other.deref && (some.deref, other.deref) in t
    ensures r == Throw(NullPointerException) <==> some.Null? || other.Null?
    ensures r == Throw(IllegalArgumentException) <==> some.Ref? && other.Ref? && some.deref == other.deref
    ensures r.Ok? <==> some.Ref? && other.Ref? && some.deref != other.deref
  {
    if some.Null? || other.Null? then Throw(NullPointerException)
    else if some.deref == other.deref then Throw(IllegalArgumentException)
    else Ok((some.deref, other.deref) in t)
  }

  /** The friends of a player: the rows of its column. */
  function GetFriends(t: Table, player: Uuid): (r: set<Uuid>)
    ensures forall x :: x in r <==> (x, player) in t
  {
    Column(t, player)
  }

  /** After adding a friendship between distinct players, each is the other's friend. */
  lemma AddThenAreFriends(t: Table, a: Uuid, b: Uuid)
    requires a != b
    ensures AddFriendship(t, Ref(a), Ref(b)).Ok?
    ensures AreFriends(AddFriendship(t, Ref(a), Ref(b)).value, Ref(a), Ref(b)) == Ok(true)
    ensures AreFriends(AddFriendship(t, Ref(a), Ref(b)).value, Ref(b), Ref(a)) == Ok(true)
  {
  }

  /** Adding keeps the table symmetric. */
  lemma AddKeepsSymmetric(t: Table, a: Uuid, b: Uuid)
    requires Symmetric(t)
    ensures Symmetric(AddFriendship(t, Ref(a), Ref(b)).value)
  {
    LinkKeepsSymmetric(t, a, b);
  }

  /** Adding the same friendship a second time, in either order, changes nothing. */
  lemma AddIdempotent(t: Table, a: Uuid, b: Uuid)
    ensures var t1 := AddFriendship(t, Ref(a), Ref(b)).value;
      AddFriendship(t1, Ref(a), Ref(b)) == Ok(t1) && AddFriendship(t1, Ref(b), Ref(a)) == Ok(t1)
  {
    LinkIdempotent(t, a, b);
  }

  /** Adding a player as its own friend is not rejected: it stores the single
      cell (a, a), after which asking whether a is its own friend still throws. */
  lemma AddSelf(t: Table, a: Uuid)
    ensures AddFriendship(t, Ref(a), Ref(a)) == Ok(t + {(a, a)})
    ensures AreFriends(t + {(a, a)}, Ref(a), Ref(a)) == Throw(IllegalArgumentException)
  {
    SelfLink(t, a);
  }

  /** Removing deletes exactly the two directed cells of the pair: it is a
      no-op when they are absent, leaves every other cell alone and keeps the
      table symmetric. */
  lemma RemoveExactly(t: Table, a: Uuid, b: Uuid)
    ensures var r := RemoveFriendship(t, Ref(a), Ref(b)).value;
      forall c :: c in r <==> c in t && c != (a, b) && c != (b, a)
    ensures (a, b) !in t && (b, a) !in t ==> RemoveFriendship(t, Ref(a), Ref(b)) == Ok(t)
    ensures Symmetric(t) ==> Symmetric(RemoveFriendship(t, Ref(a), Ref(b)).value)
  {
    UnlinkAbsent(t, a, b);
    if Symmetric(t) {
      UnlinkKeepsSymmetric(t, a, b);
    }
  }

  /** Removing a friendship that was just added restores the table when the
      pair was not friends before. */
  lemma RemoveUndoesAdd(t: Table, a: Uuid, b: Uuid)
    requires (a, b) !in t && (b, a) !in t
    ensures RemoveFriendship(AddFriendship(t, Ref(a), Ref(b)).value, Ref(a), Ref(b)) == Ok(t)
  {
    LinkUnlinkInverse(t, a, b);
  }

  /** On a symmetric table the question has the same answer both ways round. */
  lemma AreFriendsSymmetric(t: Table, a: Nullable<Uuid>, b: Nullable<Uuid>)
    requires Symmetric(t)
    ensures AreFriends(t, a, b) == AreFriends(t, b, a)
  {
    if a.Ref? && b.Ref? && a.deref != b.deref {
      assert ((a.deref, b.deref).1, (a.deref, b.deref).0) == (b.deref, a.deref);
      assert ((b.deref, a.deref).1, (b.deref, a.deref).0) == (a.deref, b.deref);
    }
  }

  /** On a symmetric table the friends of p are exactly the other players x
      for which `AreFriends(p, x)` holds. */
  lemma GetFriendsMatchesAreFriends(t: Table, p: Uuid, x: Uuid)
    requires Symmetric(t) && x != p
    ensures x in GetFriends(t, p) <==> AreFriends(t, Ref(p), Ref(x)) == Ok(true)
  {
    ColumnIsRowWhenSymmetric(t, p);
  }

  /** Two players made friends and then separated: each sees exactly the
      other as its friend in between, and nobody afterwards. */
  lemma FriendAndUnfriend(a: Uuid, b: Uuid)
    requires a != b
    ensures var t1 := AddFriendship({}, Ref(a), Ref(b)).value;
      && GetFriends(t1, a) == {b}
      && GetFriends(t1, b) == {a}
      && GetFriends(RemoveFriendship(t1, Ref(a), Ref(b)).value, a) == {}
      && GetFriends(RemoveFriendship(t1, Ref(a), Ref(b)).value, b) == {}
  {
    var t1 := AddFriendship({}, Ref(a), Ref(b)).value;
    assert t1 == {(a, b), (b, a)};
    var t2 := RemoveFriendship(t1, Ref(a), Ref(b)).value;
    assert t2 == {};
  }
}
