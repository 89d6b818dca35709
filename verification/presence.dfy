/** The server's `onlineUsers` object: connection id to the username the
    connection announced. A JavaScript object keeps its keys in insertion
    order, overwriting a key keeps its position and deleting it drops it, so
    the object is modelled as a list of entries with distinct keys, and
    `Object.values` as the names in list order. */
module Presence {
  import opened Outcomes

  /** A socket.io connection id. */
  type ConnId = string

  datatype Entry = Entry(conn: ConnId, name: string)

  /** No connection id appears twice. */
  predicate KeysDistinct(es: seq<Entry>) {
    forall i, j :: 0 <= i < j < |es| ==> es[i].conn != es[j].conn
  }

  /** `onlineUsers[conn]`: the name stored for `conn`, if any. */
  function Find(es: seq<Entry>, conn: ConnId): Option<string> {
    if |es| == 0 then None
    else if es[0].conn == conn then Some(es[0].name)
    else Find(es[1..], conn)
  }

  /** `Find` answers nothing exactly when no entry has the key, and an
      answer is the name of an entry with that key. */
  lemma {:induction false} FindSpec(es: seq<Entry>, conn: ConnId)
    ensures Find(es, conn).None? <==> forall i :: 0 <= i < |es| ==> es[i].conn != conn
    ensures Find(es, conn).Some? ==> exists i :: 0 <= i < |es| && es[i] == Entry(conn, Find(es, conn).value)
  {
    if |es| > 0 && es[0].conn != conn {
      FindSpec(es[1..], conn);
      if Find(es, conn).Some? {
        var i :| 0 <= i < |es| - 1 && es[1..][i] == Entry(conn, Find(es, conn).value);
        assert es[i + 1] == Entry(conn, Find(es, conn).value);
      }
    }
  }

  /** With distinct keys, the entry at any position is what `Find` returns. */
  lemma {:induction false} FindAt(es: seq<Entry>, i: int)
    requires KeysDistinct(es) && 0 <= i < |es|
    ensures Find(es, es[i].conn) == Some(es[i].name)
  {
    if i > 0 {
      FindAt(es[1..], i - 1);
    }
  }

  /** `onlineUsers[conn] = name`: an existing entry is overwritten where it
      stands, a new one goes at the end, and no other entry changes. */
  function Put(es: seq<Entry>, conn: ConnId, name: string): (r: seq<Entry>)
    ensures Find(r, conn) == Some(name)
    ensures forall d :: d != conn ==> Find(r, d) == Find(es, d)
    ensures Find(es, conn).None? ==> r == es + [Entry(conn, name)]
    ensures Find(es, conn).Some? ==> |r| == |es|
    ensures Find(es, conn).Some? ==> forall i :: 0 <= i < |es| ==> r[i].conn == es[i].conn
  {
    if |es| == 0 then [Entry(conn, name)]
    else if es[0].conn == conn then [Entry(conn, name)] + es[1..]
    else [es[0]] + Put(es[1..], conn, name)
  }

  /** Setting a key keeps the keys distinct: a new key is one no entry had,
      and an overwrite keeps every key where it stood. */
  lemma PutKeepsDistinct(es: seq<Entry>, conn: ConnId, name: string)
    requires KeysDistinct(es)
    ensures KeysDistinct(Put(es, conn, name))
  {
    FindSpec(es, conn);
  }

  /** `delete onlineUsers[conn]`: the entry for `conn` goes, every other
      entry stays in order, and an absent key changes nothing. */
  function Remove(es: seq<Entry>, conn: ConnId): (r: seq<Entry>)
    ensures Find(r, conn).None?
    ensures forall d :: d != conn ==> Find(r, d) == Find(es, d)
    ensures Find(es, conn).None? ==> r == es
    ensures KeysDistinct(es) ==> KeysDistinct(r)
    ensures forall e :: e in r ==> e in es
  {
    if |es| == 0 then []
    else if es[0].conn == conn then Remove(es[1..], conn)
    else
      var rest := Remove(es[1..], conn);
      assert KeysDistinct(es) ==> forall e :: e in rest ==> e.conn != es[0].conn;
      [es[0]] + rest
  }

  /** Deleting a key cuts its entry out where it stands: the entries before
      and after it keep their order, so `Object.values` lists the remaining
      names in their original order. */
  lemma {:induction false} RemoveKeepsOrder(es: seq<Entry>, conn: ConnId, i: int)
    requires KeysDistinct(es) && 0 <= i < |es| && es[i].conn == conn
    ensures Remove(es, conn) == es[..i] + es[i + 1..]
  {
    if i == 0 {
      RemoveHead(es, conn);
      assert es[1..] == es[..0] + es[1..];
    } else {
      assert KeysDistinct(es[1..]);
      RemoveKeepsOrder(es[1..], conn, i - 1);
      RemoveKeepsHead(es, conn);
      ConsAround(es, i);
    }
  }

  /** Deleting a key other than the first entry's keeps that entry in front. */
  lemma RemoveKeepsHead(es: seq<Entry>, conn: ConnId)
    requires |es| > 0 && es[0].conn != conn
    ensures Remove(es, conn) == [es[0]] + Remove(es[1..], conn)
  {
  }

  /** Cutting position `i` out of a sequence is cutting `i - 1` out of its tail,
      with the head put back in front. */
  lemma ConsAround<T>(es: seq<T>, i: int)
    requires 0 < i < |es|
    ensures [es[0]] + (es[1..][..i - 1] + es[1..][i..]) == es[..i] + es[i + 1..]
  {
    assert es[1..][..i - 1] == es[1..i];
    assert es[1..][i..] == es[i + 1..];
    assert [es[0]] + es[1..i] == es[..i];
  }

  /** With distinct keys, deleting the first entry's key drops just that entry. */
  lemma RemoveHead(es: seq<Entry>, conn: ConnId)
    requires KeysDistinct(es) && |es| > 0 && es[0].conn == conn
    ensures Remove(es, conn) == es[1..]
  {
    FindSpec(es[1..], conn);
  }

  /** Deleting the key just added at the end gives back the object as it was. */
  lemma {:induction false} RemoveAppended(es: seq<Entry>, conn: ConnId, name: string)
    requires forall i :: 0 <= i < |es| ==> es[i].conn != conn
    ensures Remove(es + [Entry(conn, name)], conn) == es
  {
    if |es| == 0 {
      assert ([] + [Entry(conn, name)])[1..] == [];
    } else {
      assert (es + [Entry(conn, name)])[1..] == es[1..] + [Entry(conn, name)];
      RemoveAppended(es[1..], conn, name);
      assert [es[0]] + es[1..] == es;
    }
  }

  /** Announcing a fresh connection and then deleting it leaves the object
      as it was, order included. */
  lemma RemovePutFresh(es: seq<Entry>, conn: ConnId, name: string)
    requires Find(es, conn).None?
    ensures Remove(Put(es, conn, name), conn) == es
  {
    FindSpec(es, conn);
    RemoveAppended(es, conn, name);
  }

  /** `Object.values(onlineUsers)`: one name per connection, in key order,
      with no removal of repeated names. */
  function Online(es: seq<Entry>): (names: seq<string>)
    ensures |names| == |es|
    ensures forall i :: 0 <= i < |es| ==> names[i] == es[i].name
  {
    seq(|es|, i requires 0 <= i < |es| => es[i].name)
  }

  /** Announcing a fresh connection adds its name at the end of the online
      list and moves no other name. */
  lemma OnlinePutFresh(es: seq<Entry>, conn: ConnId, name: string)
    requires Find(es, conn).None?
    ensures Online(Put(es, conn, name)) == Online(es) + [name]
  {
  }

  /** A disconnect takes exactly that connection's name out of the online
      list; the names before and after it keep their order. */
  lemma OnlineRemove(es: seq<Entry>, conn: ConnId, i: int)
    requires KeysDistinct(es) && 0 <= i < |es| && es[i].conn == conn
    ensures Online(Remove(es, conn)) == Online(es[..i]) + Online(es[i + 1..])
  {
    RemoveKeepsOrder(es, conn, i);
  }

  /** The position in the list at which a connection's name stands. */
  lemma {:induction false} ListedAt(es: seq<Entry>, conn: ConnId, name: string) returns (i: nat)
    requires Find(es, conn) == Some(name)
    ensures i < |es| && es[i] == Entry(conn, name)
  {
    FindSpec(es, conn);
    i :| 0 <= i < |es| && es[i] == Entry(conn, name);
  }

  /** Two connections that announce the same name are both listed: the
      online list shows that name at two positions. */
  lemma SameNameListedTwice(es: seq<Entry>, c1: ConnId, c2: ConnId, name: string)
    requires c1 != c2
    ensures var names := Online(Put(Put(es, c1, name), c2, name));
      exists i, j :: 0 <= i < j < |names| && names[i] == name && names[j] == name
  {
    assert Find(Put(Put(es, c1, name), c2, name), c2) == Some(name);
    assert Find(Put(Put(es, c1, name), c2, name), c1) == Some(name);
    TwoConnectionsListed(Put(Put(es, c1, name), c2, name), c1, c2, name);
  }

  lemma TwoConnectionsListed(r: seq<Entry>, c1: ConnId, c2: ConnId, name: string)
    requires c1 != c2 && Find(r, c1) == Some(name) && Find(r, c2) == Some(name)
    ensures var names := Online(r);
      exists i, j :: 0 <= i < j < |names| && names[i] == name && names[j] == name
  {
    var i := ListedAt(r, c1, name);
    var j := ListedAt(r, c2, name);
    assert i != j;
    var names := Online(r);
    if i < j {
      assert 0 <= i < j < |names| && names[i] == name && names[j] == name;
    } else {
      assert 0 <= j < i < |names| && names[j] == name && names[i] == name;
    }
  }
}
