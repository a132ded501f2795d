/** The friend-offer gate: `FriendOffersManager` and `FriendOffer`. The
    generic offer workflow they plug into (queuing, expiry, the accept, deny
    and take-back commands) is outside this model; what is kept is the state
    the gate reads and writes: the friendship table, the offers handed on to
    the generic `post`, and the notices sent. Both the already-friends check
    and the acceptance callback act on the same friendship table. */
module FriendOffers {
  import opened JavaLang
  import opened Uuids
  import opened FriendTable
  import Friendships
  import Philios

  /** An offer of friendship from `sender` to `recipient`. */
  datatype FriendOffer = FriendOffer(sender: Uuid, recipient: Uuid)

  /** `createDefaultOffer(sender, recipient)`: the offer the generic
      manager posts when `sender` proposes to `recipient`. */
  function CreateDefaultOffer(sender: Uuid, recipient: Uuid): (r: FriendOffer)
    ensures r.sender == sender && r.recipient == recipient
  {
    FriendOffer(sender, recipient)
  }

  /** What the gate sees and changes: the friendship table, the offers
      passed on to the generic `post` (in order), and the notices sent. */
  datatype Gate = Gate(friends: Table, posted: seq<FriendOffer>, notices: seq<Philios.Notice>)

  /** `post(offer)`: an offer between players who are already friends is
      dropped and its sender told so; any other offer goes on to the generic
      `post`. An offer to oneself makes `areFriends` throw. Posting never
      changes the friendships. */
  function Post(g: Gate, o: FriendOffer): (r: Result<Gate>)
    ensures r.Throw? <==> o.sender == o.recipient
    ensures r.Throw? ==> r.exception == IllegalArgumentException
    ensures r.Ok? ==> r.value.friends == g.friends
    ensures r.Ok? ==> (r.value.posted == g.posted + [o] <==> (o.sender, o.recipient) !in g.friends)
    ensures r.Ok? ==> (r.value.posted == g.posted <==> (o.sender, o.recipient) in g.friends)
    ensures r.Ok? && (o.sender, o.recipient) in g.friends ==>
      r.value.notices == g.notices + [Philios.YouAreAlreadyFriendWithOther(o.sender, o.recipient)]
    ensures r.Ok? && (o.sender, o.recipient) !in g.friends ==> r.value.notices == g.notices
  {
    var asked := Friendships.AreFriends(g.friends, Ref(o.sender), Ref(o.recipient));
    if asked.Throw? then Throw(asked.exception)
    else if asked.value then
      Ok(g.(notices := g.notices + [Philios.YouAreAlreadyFriendWithOther(o.sender, o.recipient)]))
    else
      Ok(g.(posted := g.posted + [o]))
  }

  /** `accepted()`: the recipient accepted, so the two become friends. */
  function Accepted(g: Gate, o: FriendOffer): (r: Gate)
    ensures (o.sender, o.recipient) in r.friends && (o.recipient, o.sender) in r.friends
    ensures g.friends <= r.friends
    ensures r.friends - g.friends <= {(o.sender, o.recipient), (o.recipient, o.sender)}
    ensures r.posted == g.posted && r.notices == g.notices
  {
    g.(friends := Philios.AddFriendship(g.friends, o.sender, o.recipient))
  }

  /** Accepting an offer between two players makes each the friend of the
      other, as the service sees it. */
  lemma AcceptedThenFriends(g: Gate, o: FriendOffer)
    requires o.sender != o.recipient
    ensures Friendships.AreFriends(Accepted(g, o).friends, Ref(o.sender), Ref(o.recipient)) == Ok(true)
    ensures Friendships.AreFriends(Accepted(g, o).friends, Ref(o.recipient), Ref(o.sender)) == Ok(true)
    ensures o.recipient in Friendships.GetFriends(Accepted(g, o).friends, o.sender)
    ensures o.sender in Friendships.GetFriends(Accepted(g, o).friends, o.recipient)
  {
  }

  /** Accepting keeps the friendship relation symmetric. */
  lemma AcceptKeepsSymmetric(g: Gate, o: FriendOffer)
    requires Symmetric(g.friends)
    ensures Symmetric(Accepted(g, o).friends)
  {
    LinkKeepsSymmetric(g.friends, o.sender, o.recipient);
  }

  /** Accepting an offer between players who are already friends (both
      ways) changes nothing, nor does accepting the same offer twice. */
  lemma AcceptIdempotent(g: Gate, o: FriendOffer)
    ensures (o.sender, o.recipient) in g.friends && (o.recipient, o.sender) in g.friends ==> Accepted(g, o) == g
    ensures Accepted(Accepted(g, o), o) == Accepted(g, o)
  {
    LinkIdempotent(g.friends, o.sender, o.recipient);
  }

  /** Once an offer has been accepted, a new offer between the same two
      players, in either direction, is dropped with a notice to its sender. */
  lemma PostAfterAcceptRejected(g: Gate, o: FriendOffer)
    requires o.sender != o.recipient
    ensures var a := Accepted(g, o);
      && Post(a, o) == Ok(a.(notices := a.notices + [Philios.YouAreAlreadyFriendWithOther(o.sender, o.recipient)]))
      && Post(a, FriendOffer(o.recipient, o.sender)) ==
           Ok(a.(notices := a.notices + [Philios.YouAreAlreadyFriendWithOther(o.recipient, o.sender)]))
  {
  }

  /** On a symmetric table the gate decides the same way whichever of the
      two players proposes. */
  lemma PostDecisionSymmetric(g: Gate, a: Uuid, b: Uuid)
    requires Symmetric(g.friends) && a != b
    ensures Post(g, FriendOffer(a, b)).value.posted == g.posted + [FriendOffer(a, b)]
       <==> Post(g, FriendOffer(b, a)).value.posted == g.posted + [FriendOffer(b, a)]
  {
    Friendships.AreFriendsSymmetric(g.friends, Ref(a), Ref(b));
  }

  /** The whole story on a symmetric table: a proposal between strangers is
      passed on, accepted, and then a second proposal is dropped; after the
      remove command the two may propose again. */
  lemma ProposeAcceptRemovePropose(g: Gate, a: Uuid, b: Uuid, online: set<Uuid>)
    requires Symmetric(g.friends) && a != b && (a, b) !in g.friends
    ensures var o := CreateDefaultOffer(a, b);
      var g1 := Post(g, o).value;
      var g2 := Accepted(g1, o);
      var g3 := Post(g2, o).value;
      var g4 := g3.(friends := Philios.RemoveCommand(g3.friends, a, b, online).value.table);
      && g1.posted == g.posted + [o]
      && g3.posted == g1.posted
      && Post(g4, o).value.posted == g4.posted + [o]
  {
    var o := CreateDefaultOffer(a, b);
    var g1 := Post(g, o).value;
    var g2 := Accepted(g1, o);
    assert g2.friends == Link(g.friends, a, b);
  }
}
