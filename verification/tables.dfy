/** Id-keyed tables: the in-memory stand-in for a database table whose primary
    key is a generated identity. */
module Tables {

  /** `sub` holds some of the rows of `table`, unchanged. */
  predicate SubTable<V(==)>(sub: map<nat, V>, table: map<nat, V>) {
    forall id :: id in sub ==> id in table && sub[id] == table[id]
  }

  /** A set of ids holding `x` has a least element; by descent on `x`. */
  lemma {:induction false} LeastExists(s: set<nat>, x: nat)
    requires x in s
    ensures exists k :: k in s && forall k' :: k' in s ==> k <= k'
    decreases x
  {
    if y :| y in s && y < x {
      LeastExists(s, y);
    } else {
      assert forall k' :: k' in s ==> x <= k';
    }
  }

  /** The least id of a non-empty set. */
  function Least(s: set<nat>): (k: nat)
    requires s != {}
    ensures k in s
    ensures forall k' :: k' in s ==> k <= k'
  {
    var x :| x in s;
    LeastExists(s, x);
    var k :| k in s && forall k' :: k' in s ==> k <= k'; k
  }

  /** The ids under which `table` holds the value `v`. */
  function IdsOf<V(==)>(table: map<nat, V>, v: V): set<nat> {
    set id | id in table && table[id] == v
  }

  /** The rows of a table in ascending id order, as a query without ORDER BY
      may list them: each value as many times as there are rows holding it. */
  function Rows<V(==,!new)>(table: map<nat, V>): (rows: seq<V>)
    ensures |rows| == |table|
    ensures forall v :: v in rows <==> exists id :: id in table && table[id] == v
    ensures forall v :: multiset(rows)[v] == |IdsOf(table, v)|
    decreases |table|
  {
    if table == map[] then
      assert forall v :: IdsOf(table, v) == {};
      []
    else
      var k := Least(table.Keys);
      var rest := table - {k};
      assert rest.Keys == table.Keys - {k};
      var rows := [table[k]] + Rows(rest);
      assert forall v :: v in rows <==> exists id :: id in table && table[id] == v by {
        forall v | v in rows ensures exists id :: id in table && table[id] == v {
          if v != table[k] {
            var id :| id in rest && rest[id] == v;
            assert table[id] == v;
          }
        }
        forall v | exists id :: id in table && table[id] == v ensures v in rows {
          var id :| id in table && table[id] == v;
          if id != k {
            assert id in rest && rest[id] == v;
          }
        }
      }
      forall v ensures multiset(rows)[v] == |IdsOf(table, v)| {
        IdsOfRemoved(table, k, v);
      }
      rows
  }

  /** Removing the row under `k` removes `k` from the ids of its value and
      leaves the ids of every other value alone. */
  lemma IdsOfRemoved<V>(table: map<nat, V>, k: nat, v: V)
    requires k in table
    ensures |IdsOf(table, v)| == |IdsOf(table - {k}, v)| + (if table[k] == v then 1 else 0)
  {
    var rest := table - {k};
    if table[k] == v {
      assert IdsOf(table, v) == IdsOf(rest, v) + {k};
      assert k !in IdsOf(rest, v);
    } else {
      assert IdsOf(table, v) == IdsOf(rest, v);
    }
  }
}
