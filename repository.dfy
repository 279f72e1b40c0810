/**
 * The in-memory stand-in for a TypeORM repository over one table: rows keyed
 * by their id, plus the storage order in which `find` visits them. The
 * services reach it through `withRepository`; here they hold it directly.
 *
 * The storage order is insertion order: a new row goes last, an updated row
 * keeps its place, a removed row leaves the others in their order.
 */
module Repositories {
  import opened Results

  /** An entity id, the opaque string `generateEntityId` assigns. */
  type Id = string

  /** The `take`/`skip` part of a `FindConfig`; a missing field means no limit or no offset. */
  datatype FindConfig = FindConfig(skip: Option<nat>, take: Option<nat>)

  /** The default config of every service's `listAndCount`. */
  const ListAndCountDefaults: FindConfig := FindConfig(Some(0), Some(10))

  /** The default config of every service's `list`. */
  const ListDefaults: FindConfig := FindConfig(Some(0), Some(20))

  /** The config a call runs with: the caller's, or the parameter's default value when omitted. */
  function Settle(config: Option<FindConfig>, default: FindConfig): FindConfig {
    config.GetOr(default)
  }

  /** No id occurs twice in `s`. */
  predicate Distinct(s: seq<Id>) {
    forall i, j :: 0 <= i < j < |s| ==> s[i] != s[j]
  }

  /** `order` lists exactly the stored ids, each once. */
  ghost predicate Indexed<R>(rows: map<Id, R>, order: seq<Id>) {
    Distinct(order) && (forall k :: k in rows <==> k in order)
  }

  lemma DistinctTail(s: seq<Id>)
    requires s != []
    ensures Distinct(s) ==> Distinct(s[1..]) && s[0] !in s[1..]
  {
  }

  /** The ids of `order` that are in `keys`, in the same order. */
  function Keep(order: seq<Id>, keys: set<Id>): (r: seq<Id>)
    ensures forall k :: k in r <==> k in order && k in keys
    ensures Distinct(order) ==> Distinct(r)
    ensures |r| <= |order|
  {
    if order == [] then []
    else
      var rest := Keep(order[1..], keys);
      DistinctTail(order);
      if order[0] in keys then [order[0]] + rest else rest
  }

  /** Kept ids `i` before `j` stand at positions `a` before `b` of `order`. */
  ghost predicate InOrder(order: seq<Id>, r: seq<Id>, i: int, j: int)
    requires 0 <= i < j < |r|
  {
    exists a, b :: 0 <= a < b < |order| && order[a] == r[i] && order[b] == r[j]
  }

  /** `Keep` drops ids but never reorders them: any two kept ids stand in `order` in the same order. */
  lemma {:induction false} KeepInOrder(order: seq<Id>, keys: set<Id>)
    ensures forall i, j :: 0 <= i < j < |Keep(order, keys)| ==> InOrder(order, Keep(order, keys), i, j)
  {
    if order != [] {
      var r, t := Keep(order, keys), order[1..];
      var rest := Keep(t, keys);
      KeepInOrder(t, keys);
      forall i, j | 0 <= i < j < |r|
        ensures InOrder(order, r, i, j)
      {
        if order[0] in keys {
          assert r == [order[0]] + rest;
          if i == 0 {
            assert rest[j - 1] in t;
            var b' :| 0 <= b' < |t| && t[b'] == rest[j - 1];
            assert order[0] == r[i] && order[b' + 1] == r[j];
          } else {
            assert InOrder(t, rest, i - 1, j - 1);
            var a', b' :| 0 <= a' < b' < |t| && t[a'] == rest[i - 1] && t[b'] == rest[j - 1];
            assert order[a' + 1] == r[i] && order[b' + 1] == r[j];
          }
        } else {
          assert r == rest;
          assert InOrder(t, rest, i, j);
          var a', b' :| 0 <= a' < b' < |t| && t[a'] == rest[i] && t[b'] == rest[j];
          assert order[a' + 1] == r[i] && order[b' + 1] == r[j];
        }
      }
    }
  }

  /** The first id in storage order whose row satisfies `p`: what `findOne` with a where-clause returns. */
  function Find<R>(rows: map<Id, R>, order: seq<Id>, p: R -> bool): (r: Option<Id>)
    requires forall k :: k in order ==> k in rows
    ensures r.Some? ==> r.value in order && p(rows[r.value])
    ensures r.None? <==> forall k :: k in order ==> !p(rows[k])
  {
    if order == [] then None
    else if p(rows[order[0]]) then Some(order[0])
    else Find(rows, order[1..], p)
  }

  /**
   * The rows, in storage order, that satisfy `p`: row `i` is the row stored
   * under the `i`th id of `order` whose row satisfies `p`.
   */
  function Matching<R(==)>(rows: map<Id, R>, order: seq<Id>, p: R -> bool): (r: seq<R>)
    requires forall k :: k in order ==> k in rows
    ensures |r| <= |order|
    ensures forall x :: x in r ==> p(x) && x in rows.Values
    ensures forall k :: k in order && p(rows[k]) ==> rows[k] in r
    ensures var ks := Keep(order, Where(rows, p));
      |r| == |ks| && forall i :: 0 <= i < |r| ==> ks[i] in rows && r[i] == rows[ks[i]]
  {
    if order == [] then []
    else
      var rest := Matching(rows, order[1..], p);
      if p(rows[order[0]]) then [rows[order[0]]] + rest else rest
  }

  /** The ids of the stored rows that satisfy `p`. */
  ghost function Where<R>(rows: map<Id, R>, p: R -> bool): set<Id> {
    set k | k in rows && p(rows[k])
  }

  /** The number of rows a page of `take` rows from offset `skip` holds, out of `total` matches. */
  function PageSize(total: nat, skip: nat, take: Option<nat>): nat {
    var rest := if skip < total then total - skip else 0;
    if take.Some? && take.value < rest then take.value else rest
  }

  /** The page `skip`/`take` selects from `s`. */
  function Window<R>(s: seq<R>, skip: nat, take: Option<nat>): (r: seq<R>)
    ensures |r| == PageSize(|s|, skip, take)
    ensures forall i :: 0 <= i < |r| ==> r[i] == s[skip + i]
  {
    if skip >= |s| then []
    else if take.Some? && skip + take.value < |s| then s[skip..skip + take.value]
    else s[skip..]
  }

  /** Over a duplicate-free order, `Keep` keeps one id for each listed id in the key set. */
  lemma {:induction false} KeepCount(order: seq<Id>, keys: set<Id>)
    requires Distinct(order)
    ensures |Keep(order, keys)| == |set k | k in order && k in keys|
  {
    if order != [] {
      var h, t := order[0], order[1..];
      DistinctTail(order);
      KeepCount(t, keys);
      var all := set k | k in order && k in keys;
      var later := set k | k in t && k in keys;
      assert h !in later;
      if h in keys {
        assert all == later + {h};
      } else {
        assert all == later;
      }
    }
  }

  /**
   * The count `findAndCount` returns is the number of stored rows that match,
   * whatever the page.
   */
  lemma MatchingCount<R>(rows: map<Id, R>, order: seq<Id>, p: R -> bool)
    requires Distinct(order)
    requires forall k :: k in order ==> k in rows
    ensures |Matching(rows, order, p)| == |set k | k in order && p(rows[k])|
  {
    KeepCount(order, Where(rows, p));
    assert (set k | k in order && k in Where(rows, p)) == set k | k in order && p(rows[k]);
  }

  /**
   * When every row is stored under its own key, the matching rows of a
   * duplicate-free order, and so every page of them, list each row once.
   */
  lemma PageIsDistinct<R>(rows: map<Id, R>, order: seq<Id>, p: R -> bool, key: R -> Id, skip: nat, take: Option<nat>)
    requires Indexed(rows, order)
    requires forall k :: k in rows ==> key(rows[k]) == k
    ensures var page := Window(Matching(rows, order, p), skip, take);
      forall i, j :: 0 <= i < j < |page| ==> key(page[i]) != key(page[j])
  {
    var matches := Matching(rows, order, p);
    var ids := Keep(order, Where(rows, p));
    assert forall i :: 0 <= i < |matches| ==> key(matches[i]) == ids[i];
  }

  /** Two consecutive pages, the first of `n` rows, read the same rows as one page reaching over both. */
  lemma WindowsAdjoin<R>(s: seq<R>, skip: nat, n: nat, take: Option<nat>)
    ensures Window(s, skip, Some(n)) + Window(s, skip + n, take)
         == Window(s, skip, if take.Some? then Some(n + take.value) else None)
  {
  }

  /** The table one repository holds. */
  class Repository<R(==)> {
    var rows: map<Id, R>
    var order: seq<Id>

    ghost predicate Valid()
      reads this
    {
      Indexed(rows, order)
    }

    constructor ()
      ensures Valid() && rows == map[] && order == []
    {
      rows := map[];
      order := [];
    }

    /** `findOne`: the first row, in storage order, that satisfies `p`. */
    function FindOne(p: R -> bool): (r: Option<R>)
      reads this
      requires Valid()
      ensures r.Some? ==> r.value in rows.Values && p(r.value)
      ensures r.None? <==> forall k :: k in rows ==> !p(rows[k])
    {
      match Find(rows, order, p)
      case Some(k) => Some(rows[k])
      case None => None
    }

    /**
     * `findAndCount`: the page `skip`/`take` selects from the matching rows in
     * storage order, and the number of all matching rows.
     */
    function FindAndCount(p: R -> bool, skip: nat, take: Option<nat>): (r: (seq<R>, nat))
      reads this
      requires Valid()
      ensures r.0 == Window(Matching(rows, order, p), skip, take)
      ensures r.1 == |Where(rows, p)|
      ensures |r.0| == PageSize(r.1, skip, take)
      ensures forall x :: x in r.0 ==> p(x) && x in rows.Values
    {
      var matches := Matching(rows, order, p);
      MatchingCount(rows, order, p);
      assert (set k | k in order && p(rows[k])) == Where(rows, p);
      (Window(matches, skip, take), |matches|)
    }

    /**
     * `save`: inserts `r` under a new id at the end of the storage order, or
     * overwrites the row stored under an existing id where it stands.
     */
    method Save(id: Id, r: R)
      requires Valid()
      modifies this
      ensures Valid()
      ensures rows == old(rows)[id := r]
      ensures order == if id in old(rows) then old(order) else old(order) + [id]
    {
      if id !in rows {
        order := order + [id];
      }
      rows := rows[id := r];
    }

    /** `remove`: deletes the row stored under `id`; the others keep their order. */
    method Remove(id: Id)
      requires Valid()
      modifies this
      ensures Valid()
      ensures rows == old(rows) - {id}
      ensures order == Keep(old(order), rows.Keys)
    {
      rows := rows - {id};
      order := Keep(order, rows.Keys);
    }

    /** An ON DELETE CASCADE reaching this table: deletes every row that satisfies `p`. */
    method RemoveWhere(p: R -> bool)
      requires Valid()
      modifies this
      ensures Valid()
      ensures forall k :: k in rows <==> k in old(rows) && !p(old(rows)[k])
      ensures forall k :: k in rows ==> rows[k] == old(rows)[k]
      ensures order == Keep(old(order), rows.Keys)
    {
      rows := map k | k in rows && !p(rows[k]) :: rows[k];
      order := Keep(order, rows.Keys);
    }
  }
}
