/** The friendship store both `Friendships` and `Philios` keep: a Guava
    `Table<UUID, UUID, Boolean>` whose every value is TRUE, so that only the
    set of present (row, column) cells matters. A friendship between a and b
    is the two cells (a, b) and (b, a). */
module FriendTable {
  import opened Uuids

  /** A present cell: (row key, column key). */
  type Cell = (Uuid, Uuid)

  type Table = set<Cell>

  /** `table.put(row, col, TRUE)`. */
  function Put(t: Table, row: Uuid, col: Uuid): Table
  {
    t + {(row, col)}
  }

  /** `table.remove(row, col)`; removing an absent cell changes nothing. */
  function Delete(t: Table, row: Uuid, col: Uuid): Table
  {
    t - {(row, col)}
  }

  /** Every cell has its mirror image: the relation is symmetric. */
  predicate Symmetric(t: Table)
  {
    forall c :: c in t ==> (c.1, c.0) in t
  }

  /** No cell pairs a player with itself. */
  predicate Irreflexive(t: Table)
  {
    forall c :: c in t ==> c.0 != c.1
  }

  /** The table with rows and columns exchanged. */
  function Transpose(t: Table): (r: Table)
    ensures forall a: Uuid, b: Uuid :: (a, b) in r <==> (b, a) in t
  {
    set c | c in t :: (c.1, c.0)
  }

  /** `table.column(col).keySet()`: the rows holding a cell in column `col`. */
  function Column(t: Table, col: Uuid): (r: set<Uuid>)
    ensures forall row :: row in r <==> (row, col) in t
  {
    set c | c in t && c.1 == col :: c.0
  }

  /** The two puts of `addFriendship`: (a, b) then (b, a). */
  function Link(t: Table, a: Uuid, b: Uuid): (r: Table)
    ensures (a, b) in r && (b, a) in r
    ensures t <= r && r - t <= {(a, b), (b, a)}
  {
    Put(Put(t, a, b), b, a)
  }

  /** The two removes of `removeFriendship`: (a, b) then (b, a). */
  function Unlink(t: Table, a: Uuid, b: Uuid): (r: Table)
    ensures (a, b) !in r && (b, a) !in r
    ensures r <= t && t - r <= {(a, b), (b, a)}
  {
    Delete(Delete(t, a, b), b, a)
  }

  /** A table is symmetric exactly when transposing it changes nothing. */
  lemma SymmetricIffTransposeFixed(t: Table)
    ensures Symmetric(t) <==> Transpose(t) == t
  {
    if Symmetric(t) {
      forall c | c in Transpose(t) ensures c in t {
        assert (c.1, c.0) in t;
      }
    }
    if Transpose(t) == t {
      forall c | c in t ensures (c.1, c.0) in t {
        assert (c.1, c.0) in Transpose(t);
      }
    }
  }

  lemma LinkKeepsSymmetric(t: Table, a: Uuid, b: Uuid)
    requires Symmetric(t)
    ensures Symmetric(Link(t, a, b))
  {
  }

  /** Linking a pair again, in either order, changes nothing. */
  lemma LinkIdempotent(t: Table, a: Uuid, b: Uuid)
    ensures Link(Link(t, a, b), a, b) == Link(t, a, b)
    ensures Link(Link(t, a, b), b, a) == Link(t, a, b)
  {
  }

  lemma LinkOrderFree(t: Table, a: Uuid, b: Uuid)
    ensures Link(t, a, b) == Link(t, b, a)
  {
  }

  lemma UnlinkKeepsSymmetric(t: Table, a: Uuid, b: Uuid)
    requires Symmetric(t)
    ensures Symmetric(Unlink(t, a, b))
  {
  }

  /** Unlinking is a no-op when neither cell is present, and idempotent. */
  lemma UnlinkAbsent(t: Table, a: Uuid, b: Uuid)
    ensures (a, b) !in t && (b, a) !in t ==> Unlink(t, a, b) == t
    ensures Unlink(Unlink(t, a, b), a, b) == Unlink(t, a, b)
  {
  }

  /** Unlinking a pair that was not linked undoes linking it, and linking a
      pair that was linked undoes unlinking it. */
  lemma LinkUnlinkInverse(t: Table, a: Uuid, b: Uuid)
    ensures (a, b) !in t && (b, a) !in t ==> Unlink(Link(t, a, b), a, b) == t
    ensures (a, b) in t && (b, a) in t ==> Link(Unlink(t, a, b), a, b) == t
  {
  }

  /** Linking a player with itself stores the single cell (a, a), so
      irreflexivity is not kept. */
  lemma SelfLink(t: Table, a: Uuid)
    ensures Link(t, a, a) == t + {(a, a)}
    ensures !Irreflexive(Link(t, a, a))
  {
    assert (a, a) in Link(t, a, a);
  }

  /** In a symmetric table the column of a player is also its row. */
  lemma ColumnIsRowWhenSymmetric(t: Table, p: Uuid)
    requires Symmetric(t)
    ensures forall x :: x in Column(t, p) <==> (p, x) in t
  {
    forall x
      ensures x in Column(t, p) <==> (p, x) in t
    {
      if (p, x) in t {
        assert ((p, x).1, (p, x).0) in t;
      }
    }
  }
}
