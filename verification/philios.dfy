/** The `Philios` plugin's own copy of the friendship store and the two
    friend commands built on it: `/friend remove <uuid>` and `/friend list`.
    Players are seen through their identifiers only; whether a player is
    online is a parameter (the set of online identifiers), and a player's
    rendering in chat is a parameter too. The messages sent are recorded as
    notices naming their recipient. */
module Philios {
  import opened JavaLang
  import opened Uuids
  import opened FriendTable
  import opened ChatComponents
  import Friendships

  /** `addFriendship(some, other)`: the two puts, with no null check of its
      own; it behaves as the checked service does on non-null arguments. */
  function AddFriendship(t: Table, some: Uuid, other: Uuid): (r: Table)
    ensures Friendships.AddFriendship(t, Ref(some), Ref(other)) == Ok(r)
    ensures (some, other) in r && (other, some) in r
  {
    Put(Put(t, some, other), other, some)
  }

  /** `removeFriendship(some, other)`: the two removes, again equal to the
      checked service on non-null arguments. */
  function RemoveFriendship(t: Table, some: Uuid, other: Uuid): (r: Table)
    ensures Friendships.RemoveFriendship(t, Ref(some), Ref(other)) == Ok(r)
    ensures (some, other) !in r && (other, some) !in r
  {
    Delete(Delete(t, some, other), other, some)
  }

  /** `areFriends(some, other)`: the same checks, in the same order, as the
      service's. */
  function AreFriends(t: Table, some: Nullable<Uuid>, other: Nullable<Uuid>): (r: Result<bool>)
    ensures r == Friendships.AreFriends(t, some, other)
  {
    if some.Null? || other.Null? then Throw(NullPointerException)
    else if some.deref == other.deref then Throw(IllegalArgumentException)
    else Ok((some.deref, other.deref) in t)
  }

  /** `getFriends(player)`: the rows of the player's column. */
  function GetFriends(t: Table, player: Uuid): (r: set<Uuid>)
    ensures r == Friendships.GetFriends(t, player)
  {
    set c | c in t && c.1 == player :: c.0
  }

  /** The chat messages the commands send, each with its recipient. */
  datatype Notice =
    | YouAreAlreadyFriendWithOther(to: Uuid, player: Uuid)
    | YouAreNotFriendWithOtherAnymore(to: Uuid, player: Uuid)
    | OtherIsNoLongerFriendWithYou(to: Uuid, player: Uuid)
    | YouAreNotFriendWithThatPlayer(to: Uuid)

  /** What the remove command leaves: the table and the messages sent. */
  datatype Removal = Removal(table: Table, notices: seq<Notice>)

  /** `/friend remove <uuid>` run by `source`: when `source` has `target`
      as friend the friendship is removed, `source` is told so, and `target`
      is told too if online; otherwise `source` is told they are not friends.
      Naming oneself makes `areFriends` throw an IllegalArgumentException. */
  function RemoveCommand(t: Table, source: Uuid, target: Uuid, online: set<Uuid>): (r: Result<Removal>)
    ensures r.Throw? <==> source == target
    ensures r.Throw? ==> r.exception == IllegalArgumentException
    ensures r.Ok? ==> (source, target) !in r.value.table
    ensures r.Ok? ==> r.value.table <= t && t - r.value.table <= {(source, target), (target, source)}
    ensures r.Ok? ==> |r.value.notices| > 0 && r.value.notices[0].to == source
    ensures r.Ok? ==> (r.value.notices[0].YouAreNotFriendWithOtherAnymore? <==> AreFriends(t, Ref(source), Ref(target)) == Ok(true))
    ensures r.Ok? ==> ((exists i :: 0 <= i < |r.value.notices| && r.value.notices[i].to == target)
                        <==> (source, target) in t && target in online)
    ensures r.Ok? && (source, target) !in t ==> r.value.table == t
    ensures r.Ok? && (source, target) in t ==> (target, source) !in r.value.table
    ensures r.Ok? && (source, target) !in t ==> r.value.notices == [YouAreNotFriendWithThatPlayer(source)]
    ensures r.Ok? && (source, target) in t ==>
      && r.value.notices[0] == YouAreNotFriendWithOtherAnymore(source, target)
      && |r.value.notices| == (if target in online then 2 else 1)
      && (target in online ==> r.value.notices[1] == OtherIsNoLongerFriendWithYou(target, source))
  {
    var asked := AreFriends(t, Ref(source), Ref(target));
    if asked.Throw? then Throw(asked.exception)
    else if asked.value then
      var toTarget := if target in online then [OtherIsNoLongerFriendWithYou(target, source)] else [];
      var notices := [YouAreNotFriendWithOtherAnymore(source, target)] + toTarget;
      assert target in online ==> notices[1].to == target;
      Ok(Removal(RemoveFriendship(t, source, target), notices))
    else
      Ok(Removal(t, [YouAreNotFriendWithThatPlayer(source)]))
  }

  /** On a symmetric table the remove command ends the friendship for both
      players and keeps the table symmetric; running it a second time finds
      them no longer friends and changes nothing. */
  lemma RemoveCommandEndsFriendship(t: Table, source: Uuid, target: Uuid, online: set<Uuid>)
    requires Symmetric(t) && source != target
    ensures var r := RemoveCommand(t, source, target, online).value;
      && Symmetric(r.table)
      && AreFriends(r.table, Ref(source), Ref(target)) == Ok(false)
      && AreFriends(r.table, Ref(target), Ref(source)) == Ok(false)
      && RemoveCommand(r.table, source, target, online) == Ok(Removal(r.table, [YouAreNotFriendWithThatPlayer(source)]))
  {
    UnlinkKeepsSymmetric(t, source, target);
  }

  /** The remove command deletes exactly the friendship `addFriendship` creates. */
  lemma RemoveCommandUndoesAdd(t: Table, source: Uuid, target: Uuid, online: set<Uuid>)
    requires source != target && (source, target) !in t && (target, source) !in t
    ensures RemoveCommand(AddFriendship(t, source, target), source, target, online).value.table == t
  {
    LinkUnlinkInverse(t, source, target);
  }

  /** `r` is `s` with some entries left out: the entries of `r` occur in
      `s` in the same order. */
  predicate InOrder(r: seq<Uuid>, s: seq<Uuid>)
    decreases |s|
  {
    r == [] || (s != [] && ((r[0] == s[0] && InOrder(r[1..], s[1..])) || InOrder(r, s[1..])))
  }

  /** Two entries of an ordered selection come from positions of `s` in the
      same order. */
  lemma {:induction false} InOrderIndices(r: seq<Uuid>, s: seq<Uuid>, i: nat, j: nat)
    requires InOrder(r, s) && i < j < |r|
    ensures exists a, b :: 0 <= a < b < |s| && s[a] == r[i] && s[b] == r[j]
    decreases |s|
  {
    if r[0] == s[0] && InOrder(r[1..], s[1..]) {
      if i == 0 {
        assert r[j] == r[1..][j - 1];
        assert r[j] in s[1..] by {
          InOrderMember(r[1..], s[1..], j - 1);
        }
        var b :| 0 <= b < |s[1..]| && s[1..][b] == r[j];
        assert s[0] == r[i] && s[b + 1] == r[j];
      } else {
        InOrderIndices(r[1..], s[1..], i - 1, j - 1);
        var a, b :| 0 <= a < b < |s[1..]| && s[1..][a] == r[1..][i - 1] && s[1..][b] == r[1..][j - 1];
        assert s[a + 1] == r[i] && s[b + 1] == r[j];
      }
    } else {
      InOrderIndices(r, s[1..], i, j);
      var a, b :| 0 <= a < b < |s[1..]| && s[1..][a] == r[i] && s[1..][b] == r[j];
      assert s[a + 1] == r[i] && s[b + 1] == r[j];
    }
  }

  /** Every entry of an ordered selection is an entry of `s`. */
  lemma {:induction false} InOrderMember(r: seq<Uuid>, s: seq<Uuid>, i: nat)
    requires InOrder(r, s) && i < |r|
    ensures r[i] in s
    decreases |s|
  {
    if r[0] == s[0] && InOrder(r[1..], s[1..]) {
      if i > 0 {
        InOrderMember(r[1..], s[1..], i - 1);
        assert r[i] == r[1..][i - 1];
      }
    } else {
      InOrderMember(r, s[1..], i);
    }
  }

  /** The friends among `order` whose online status is `wantOnline`, in the
      order they come: the `filter(isOnline)` and `filter(!isOnline)` steps
      of the list command. */
  function WithStatus(order: seq<Uuid>, online: set<Uuid>, wantOnline: bool): (r: seq<Uuid>)
    ensures forall x :: x in r <==> x in order && (x in online <==> wantOnline)
    ensures |r| <= |order|
    ensures InOrder(r, order)
  {
    if order == [] then []
    else
      var rest := WithStatus(order[1..], online, wantOnline);
      assert forall x :: x in order <==> x == order[0] || x in order[1..];
      if (order[0] in online) == wantOnline then [order[0]] + rest else rest
  }

  /** Every friend is listed as online or as offline, never both: the two
      lists have as many entries together as `order`. */
  lemma {:induction false} WithStatusCounts(order: seq<Uuid>, online: set<Uuid>)
    ensures |WithStatus(order, online, true)| + |WithStatus(order, online, false)| == |order|
  {
    if order != [] {
      WithStatusCounts(order[1..], online);
    }
  }

  /** No identifier occurs twice. */
  predicate Distinct(s: seq<Uuid>)
  {
    forall i, j :: 0 <= i < j < |s| ==> s[i] != s[j]
  }

  /** Filtering keeps a list free of duplicates. */
  lemma {:induction false} WithStatusDistinct(order: seq<Uuid>, online: set<Uuid>, wantOnline: bool)
    requires Distinct(order)
    ensures Distinct(WithStatus(order, online, wantOnline))
  {
    if order != [] {
      var tail := order[1..];
      assert Distinct(tail) by {
        forall i, j | 0 <= i < j < |tail| ensures tail[i] != tail[j] {
          assert tail[i] == order[i + 1] && tail[j] == order[j + 1];
        }
      }
      WithStatusDistinct(tail, online, wantOnline);
      assert order[0] !in tail by {
        forall i | 0 <= i < |tail| ensures tail[i] != order[0] {
          assert tail[i] == order[i + 1];
        }
      }
      var rest := WithStatus(tail, online, wantOnline);
      assert Distinct(rest);
      if (order[0] in online) == wantOnline {
        var r := [order[0]] + rest;
        forall i, j | 0 <= i < j < |r| ensures r[i] != r[j] {
          assert r[j] == rest[j - 1];
          if i > 0 {
            assert r[i] == rest[i - 1];
            assert rest[i - 1] != rest[j - 1];
          } else {
            assert rest[j - 1] in rest;
            assert rest[j - 1] in tail;
            assert r[i] == order[0];
          }
        }
        assert WithStatus(order, online, wantOnline) == r;
      } else {
        assert WithStatus(order, online, wantOnline) == rest;
      }
    }
  }

  /** `order` lists every friend of `player` exactly once: an iteration
      order of the friends' key set. */
  predicate Lists(order: seq<Uuid>, friends: set<Uuid>)
  {
    && (forall x :: x in friends ==> x in order)
    && (forall i :: 0 <= i < |order| ==> order[i] in friends)
    && Distinct(order)
  }

  /** The two lists `/friend list` shows: offline friends first, then online. */
  datatype FriendLists = FriendLists(offline: seq<Uuid>, online: seq<Uuid>)

  /** `/friend list`: the player's friends, in one iteration order, split
      by online status. */
  function ListFriends(t: Table, player: Uuid, order: seq<Uuid>, online: set<Uuid>): (r: FriendLists)
    requires Lists(order, GetFriends(t, player))
    ensures forall x :: x in r.online <==> (x, player) in t && x in online
    ensures forall x :: x in r.offline <==> (x, player) in t && x !in online
    ensures Distinct(r.online) && Distinct(r.offline)
    ensures |r.online| + |r.offline| == |GetFriends(t, player)|
    ensures InOrder(r.online, order) && InOrder(r.offline, order)
  {
    WithStatusCounts(order, online);
    WithStatusDistinct(order, online, true);
    WithStatusDistinct(order, online, false);
    DistinctCard(order, GetFriends(t, player));
    FriendLists(WithStatus(order, online, false), WithStatus(order, online, true))
  }

  /** A duplicate-free listing of a set is as long as the set is large. */
  lemma {:induction false} DistinctCard(order: seq<Uuid>, s: set<Uuid>)
    requires Lists(order, s)
    ensures |order| == |s|
  {
    if order != [] {
      var tail := order[1..];
      assert Lists(tail, s - {order[0]}) by {
        forall x ensures x in s - {order[0]} <==> x in tail {
          if x in tail {
            var k :| 0 <= k < |tail| && tail[k] == x;
            assert order[k + 1] == x;
          }
          if x in s - {order[0]} {
            var k :| 0 <= k < |order| && order[k] == x;
            assert k != 0 && tail[k - 1] == x;
          }
        }
        forall i, j | 0 <= i < j < |tail| ensures tail[i] != tail[j] {
          assert tail[i] == order[i + 1] && tail[j] == order[j + 1];
        }
      }
      DistinctCard(tail, s - {order[0]});
    } else {
      assert forall x :: x !in s;
      assert s == {};
    }
  }

  /** The line sent for one of the two lists: the rendered friends joined
      with `", "` by `ChatComponents.joining`, then a final `"."`. Colours
      and the click-to-remove events are not modelled. */
  function FriendsMessage(friends: seq<Uuid>, render: Uuid -> Component): (r: Component)
    ensures r.text == "" && |r.extras| == 2 * |friends| + 1
    ensures forall i :: 0 <= i < |friends| ==> r.extras[2 * i + 1] == render(friends[i])
    ensures forall k :: 0 <= k < 2 * |friends| && k % 2 == 0 ==> r.extras[k] == Text(", ")
    ensures r.extras[2 * |friends|] == Text(".")
  {
    var joined := JoiningText(", ", Rendered(friends, render));
    assert forall k :: 0 <= k < |joined.extras| ==> AddExtra(joined, Text(".")).extras[k] == joined.extras[k];
    AddExtra(joined, Text("."))
  }

  /** The `map(friend -> buildFriend(...))` step: each friend rendered. */
  function Rendered(friends: seq<Uuid>, render: Uuid -> Component): (r: seq<Component>)
    ensures |r| == |friends|
    ensures forall i :: 0 <= i < |friends| ==> r[i] == render(friends[i])
  {
    seq(|friends|, i requires 0 <= i < |friends| => render(friends[i]))
  }

  /** A player with no friend in a list still gets a line: just the ".";
      there is no separate "no friends" message. With friends, the line
      starts with the delimiter: the rendered friends, interleaved with
      `", "`, come after a leading `", "`. */
  lemma {:induction false} FriendsMessageShape(friends: seq<Uuid>, render: Uuid -> Component)
    ensures FriendsMessage([], render) == Component("", [Text(".")])
    ensures friends != [] ==>
      FriendsMessage(friends, render).extras == [Text(", ")] + Interleave(Rendered(friends, render), Text(", ")) + [Text(".")]
  {
    var m := FriendsMessage([], render);
    assert m.extras == [Text(".")];
    if friends != [] {
      JoiningLeadsWithDelimiter(Text(", "), Rendered(friends, render));
    }
  }
}
