/**
 * The algebra of the statements the scripts send to Postgres, on tables as finite maps.
 *
 * A table whose unique column is its natural key (a tweet id, a source report id) is a
 * `map<K, V>`; `INSERT ... ON CONFLICT (key) DO NOTHING` is `Put`. A table with a SERIAL
 * primary key and a separate UNIQUE source column is a `Serial<R>`: the rows by id and the
 * next value of the sequence. Postgres draws the sequence value before it detects the
 * conflict, so every attempted insert advances `next`, whether or not a row is added.
 */
module Tables {

  /** The elements of a sequence. */
  function Elems<T>(s: seq<T>): set<T> {
    set x | x in s
  }

  predicate Distinct<T(==)>(s: seq<T>) {
    forall i, j :: 0 <= i < j < |s| ==> s[i] != s[j]
  }

  /** `s` lists every member of `S` exactly once, in some order (a query without ORDER BY). */
  predicate Enumerates<T(==)>(s: seq<T>, S: set<T>) {
    Distinct(s) && Elems(s) == S
  }

  lemma ElemsSnoc<T>(s: seq<T>, x: T)
    ensures Elems(s + [x]) == Elems(s) + {x}
  {
    assert forall y :: y in s + [x] <==> y in s || y == x;
  }

  lemma ElemsPrefix<T>(s: seq<T>, i: nat)
    requires i < |s|
    ensures Elems(s[..i + 1]) == Elems(s[..i]) + {s[i]}
  {
    assert s[..i + 1] == s[..i] + [s[i]];
    ElemsSnoc(s[..i], s[i]);
  }

  lemma DistinctSnoc<T>(s: seq<T>, x: T)
    requires Distinct(s) && x !in Elems(s)
    ensures Distinct(s + [x])
  {
    assert forall i :: 0 <= i < |s| ==> (s + [x])[i] == s[i];
  }

  lemma DistinctPrefix<T>(s: seq<T>, i: nat)
    requires Distinct(s) && i < |s|
    ensures s[i] !in Elems(s[..i])
  {
  }

  /** Dropping the last element of a list without repeats leaves a list without repeats. */
  lemma DistinctInit<T>(s: seq<T>)
    requires Distinct(s) && s != []
    ensures Distinct(s[..|s| - 1]) && s[|s| - 1] !in Elems(s[..|s| - 1])
  {
    DistinctPrefix(s, |s| - 1);
  }

  // ---------------------------------------------------------------------------------------
  // Tables keyed by their unique column

  /** `INSERT ... ON CONFLICT (k) DO NOTHING`. */
  function Put<K, V>(m: map<K, V>, k: K, v: V): map<K, V> {
    if k in m then m else m[k := v]
  }

  /** The keys an entry list tries to insert. */
  function KeysOf<K, V(==)>(es: seq<(K, V)>): set<K> {
    set e | e in es :: e.0
  }

  /** The inserts of `es`, one after another, each with `DO NOTHING` on conflict. */
  function PutAll<K, V>(m: map<K, V>, es: seq<(K, V)>): map<K, V>
    decreases |es|
  {
    if es == [] then m
    else Put(PutAll(m, es[..|es| - 1]), es[|es| - 1].0, es[|es| - 1].1)
  }

  /** One insert more at the end of a batch. */
  lemma PutAllSnoc<K, V>(m: map<K, V>, es: seq<(K, V)>, e: (K, V))
    ensures PutAll(m, es + [e]) == Put(PutAll(m, es), e.0, e.1)
  {
    assert (es + [e])[..|es|] == es;
  }

  /** The keys of an entry list, read by position. */
  lemma KeysOfIndexed<K, V>(es: seq<(K, V)>)
    ensures KeysOf(es) == set i | 0 <= i < |es| :: es[i].0
  {
    forall x | x in KeysOf(es) ensures x in set i | 0 <= i < |es| :: es[i].0 {
      var e :| e in es && e.0 == x;
      var j :| 0 <= j < |es| && es[j] == e;
    }
  }

  lemma KeysOfSnoc<K, V>(es: seq<(K, V)>, e: (K, V))
    ensures KeysOf(es + [e]) == KeysOf(es) + {e.0}
  {
    assert forall x :: x in es + [e] <==> x in es || x == e;
  }

  /** A batch adds exactly the keys it names. */
  lemma {:induction false} PutAllKeys<K, V>(m: map<K, V>, es: seq<(K, V)>)
    ensures PutAll(m, es).Keys == m.Keys + KeysOf(es)
    decreases |es|
  {
    if es != [] {
      var init := es[..|es| - 1];
      PutAllKeys(m, init);
      assert es == init + [es[|es| - 1]];
      KeysOfSnoc(init, es[|es| - 1]);
    }
  }

  /** A batch never overwrites a row that was there before it. */
  lemma {:induction false} PutAllKeeps<K, V>(m: map<K, V>, es: seq<(K, V)>, k: K)
    requires k in m
    ensures k in PutAll(m, es) && PutAll(m, es)[k] == m[k]
    decreases |es|
  {
    if es != [] {
      PutAllKeeps(m, es[..|es| - 1], k);
    }
  }

  /** Within one batch the first entry for a new key is the one stored. */
  lemma {:induction false} PutAllFirstWins<K, V>(m: map<K, V>, es: seq<(K, V)>, i: nat)
    requires i < |es| && es[i].0 !in m
    requires forall j :: 0 <= j < i ==> es[j].0 != es[i].0
    ensures es[i].0 in PutAll(m, es) && PutAll(m, es)[es[i].0] == es[i].1
    decreases |es|
  {
    var init := es[..|es| - 1];
    if i < |es| - 1 {
      PutAllFirstWins(m, init, i);
    } else {
      PutAllKeys(m, init);
      assert es[i].0 !in KeysOf(init);
    }
  }

  /** A key a batch added holds the value of one of the batch's entries for it. */
  lemma {:induction false} PutAllFrom<K, V>(m: map<K, V>, es: seq<(K, V)>, k: K)
    requires k in PutAll(m, es) && k !in m
    ensures (k, PutAll(m, es)[k]) in es
    decreases |es|
  {
    var init := es[..|es| - 1];
    if k in PutAll(m, init) {
      PutAllFrom(m, init, k);
      assert (k, PutAll(m, init)[k]) in init;
    }
  }

  /** A batch whose every key is already present changes nothing. */
  lemma {:induction false} PutAllPresent<K, V>(m: map<K, V>, es: seq<(K, V)>)
    requires forall j :: 0 <= j < |es| ==> es[j].0 in m
    ensures PutAll(m, es) == m
    decreases |es|
  {
    if es != [] {
      PutAllPresent(m, es[..|es| - 1]);
    }
  }

  /** Running the same batch twice adds nothing the first run did not. */
  lemma PutAllIdempotent<K, V>(m: map<K, V>, es: seq<(K, V)>)
    ensures PutAll(PutAll(m, es), es) == PutAll(m, es)
  {
    PutAllKeys(m, es);
    PutAllPresent(PutAll(m, es), es);
  }

  // ---------------------------------------------------------------------------------------
  // Tables with a SERIAL id and a UNIQUE source column

  datatype Serial<R> = Serial(rows: map<int, R>, next: int)

  /** Every id in use was drawn from the sequence before `next`. */
  ghost predicate Fresh<R>(t: Serial<R>) {
    forall i :: i in t.rows ==> i < t.next
  }

  /** The UNIQUE constraint on the source column `key`. */
  ghost predicate UniqueBy<R, K>(t: Serial<R>, key: R -> K) {
    forall i, j :: i in t.rows && j in t.rows && key(t.rows[i]) == key(t.rows[j]) ==> i == j
  }

  /** The values the source column holds (what a left anti-join tests against). */
  function KeysBy<R(==), K(==)>(t: Serial<R>, key: R -> K): set<K> {
    set i | i in t.rows :: key(t.rows[i])
  }

  /** INSERT with the default `id` and `ON CONFLICT (key) DO NOTHING`. */
  function SerialPut<R(==), K(==)>(t: Serial<R>, key: R -> K, r: R): Serial<R> {
    Serial(if key(r) in KeysBy(t, key) then t.rows else t.rows[t.next := r], t.next + 1)
  }

  /** Plain INSERT with the default `id` (a table without a UNIQUE source column). */
  function Append<R>(t: Serial<R>, r: R): (u: Serial<R>)
    ensures u.next == t.next + 1 && t.next in u.rows && u.rows[t.next] == r
  {
    Serial(t.rows[t.next := r], t.next + 1)
  }

  /** A batch of plain INSERTs in order. */
  function AppendAll<R>(t: Serial<R>, rs: seq<R>): Serial<R>
    decreases |rs|
  {
    if rs == [] then t else Append(AppendAll(t, rs[..|rs| - 1]), rs[|rs| - 1])
  }

  lemma AppendAllSnoc<R>(t: Serial<R>, rs: seq<R>, r: R)
    ensures AppendAll(t, rs + [r]) == Append(AppendAll(t, rs), r)
  {
    assert (rs + [r])[..|rs|] == rs;
  }

  /** Row `k` of a batch of plain INSERTs gets the id `k` places after the sequence's value. */
  lemma {:induction false} AppendAllAt<R>(t: Serial<R>, rs: seq<R>, k: nat)
    requires k < |rs|
    ensures AppendAll(t, rs).next == t.next + |rs|
    ensures t.next + k in AppendAll(t, rs).rows && AppendAll(t, rs).rows[t.next + k] == rs[k]
    decreases |rs|
  {
    var init := rs[..|rs| - 1];
    AppendAllNext(t, init);
    if k < |init| {
      AppendAllAt(t, init, k);
    }
  }

  lemma {:induction false} AppendAllNext<R>(t: Serial<R>, rs: seq<R>)
    ensures AppendAll(t, rs).next == t.next + |rs|
    decreases |rs|
  {
    if rs != [] {
      AppendAllNext(t, rs[..|rs| - 1]);
    }
  }

  /** Every row of a batch of plain INSERTs is stored under its own id. */
  lemma AppendAllEach<R>(t: Serial<R>, rs: seq<R>)
    ensures forall i :: t.next <= i < t.next + |rs| ==> i in AppendAll(t, rs).rows && AppendAll(t, rs).rows[i] == rs[i - t.next]
  {
    forall i | t.next <= i < t.next + |rs| ensures i in AppendAll(t, rs).rows && AppendAll(t, rs).rows[i] == rs[i - t.next] {
      AppendAllAt(t, rs, i - t.next);
    }
  }

  /** A batch of plain INSERTs keeps every row that was there and adds ids only from the sequence. */
  lemma {:induction false} AppendAllKeeps<R>(t: Serial<R>, rs: seq<R>)
    requires Fresh(t)
    ensures Fresh(AppendAll(t, rs))
    ensures forall i :: i in t.rows ==> i in AppendAll(t, rs).rows && AppendAll(t, rs).rows[i] == t.rows[i]
    ensures forall i :: i in AppendAll(t, rs).rows ==> i in t.rows || t.next <= i < t.next + |rs|
    decreases |rs|
  {
    if rs != [] {
      var init := rs[..|rs| - 1];
      AppendAllKeeps(t, init);
      AppendAllNext(t, init);
    }
  }

  /**
   * A batch of plain INSERTs gives the rows the next `|rs|` ids in order, keeps every row
   * that was there, and keeps the sequence ahead of the ids.
   */
  lemma AppendAllSpec<R>(t: Serial<R>, rs: seq<R>)
    requires Fresh(t)
    ensures Fresh(AppendAll(t, rs)) && AppendAll(t, rs).next == t.next + |rs|
    ensures forall i :: t.next <= i < t.next + |rs| ==> i in AppendAll(t, rs).rows && AppendAll(t, rs).rows[i] == rs[i - t.next]
    ensures forall i :: i in t.rows ==> i in AppendAll(t, rs).rows && AppendAll(t, rs).rows[i] == t.rows[i]
    ensures forall i :: i in AppendAll(t, rs).rows ==> i in t.rows || t.next <= i < t.next + |rs|
  {
    AppendAllNext(t, rs);
    AppendAllKeeps(t, rs);
    AppendAllEach(t, rs);
  }

  /** A batch of `SerialPut`s in order. */
  function SerialPutAll<R(==), K(==)>(t: Serial<R>, key: R -> K, rs: seq<R>): Serial<R>
    decreases |rs|
  {
    if rs == [] then t else SerialPut(SerialPutAll(t, key, rs[..|rs| - 1]), key, rs[|rs| - 1])
  }

  /** The source keys a batch of rows names. */
  function KeysIn<R(==), K(==)>(rs: seq<R>, key: R -> K): set<K> {
    set r | r in rs :: key(r)
  }

  lemma KeysInSnoc<R, K>(rs: seq<R>, key: R -> K, r: R)
    ensures KeysIn(rs + [r], key) == KeysIn(rs, key) + {key(r)}
  {
    assert forall x :: x in rs + [r] <==> x in rs || x == r;
  }

  /** One insert more at the end of a batch. */
  lemma SerialPutAllSnoc<R, K>(t: Serial<R>, key: R -> K, rs: seq<R>, r: R)
    ensures SerialPutAll(t, key, rs + [r]) == SerialPut(SerialPutAll(t, key, rs), key, r)
  {
    assert (rs + [r])[..|rs|] == rs;
  }

  /** One insert keeps the sequence ahead of the ids and the source column unique. */
  lemma SerialPutValid<R, K>(t: Serial<R>, key: R -> K, r: R)
    requires Fresh(t) && UniqueBy(t, key)
    ensures Fresh(SerialPut(t, key, r)) && UniqueBy(SerialPut(t, key, r), key)
    ensures KeysBy(SerialPut(t, key, r), key) == KeysBy(t, key) + {key(r)}
    ensures forall i :: i in t.rows ==> i in SerialPut(t, key, r).rows && SerialPut(t, key, r).rows[i] == t.rows[i]
  {
    var u := SerialPut(t, key, r);
    if key(r) !in KeysBy(t, key) {
      assert t.next !in t.rows;
      assert forall j :: j in t.rows ==> key(t.rows[j]) in KeysBy(t, key);
      forall x | x in KeysBy(u, key) ensures x in KeysBy(t, key) + {key(r)} {
        var i :| i in u.rows && key(u.rows[i]) == x;
        if i != t.next {
          assert i in t.rows && key(t.rows[i]) == x;
        }
      }
      forall x | x in KeysBy(t, key) + {key(r)} ensures x in KeysBy(u, key) {
        if x == key(r) {
          assert t.next in u.rows && key(u.rows[t.next]) == x;
        } else {
          var i :| i in t.rows && key(t.rows[i]) == x;
          assert i in u.rows && key(u.rows[i]) == x;
        }
      }
      assert KeysBy(u, key) == KeysBy(t, key) + {key(r)};
    }
  }

  /**
   * A batch keeps `Fresh` and the UNIQUE constraint, never changes a row that was there,
   * advances the sequence once per attempted row, and adds exactly the source keys it names.
   */
  lemma {:induction false} SerialPutAllValid<R, K>(t: Serial<R>, key: R -> K, rs: seq<R>)
    requires Fresh(t) && UniqueBy(t, key)
    ensures Fresh(SerialPutAll(t, key, rs)) && UniqueBy(SerialPutAll(t, key, rs), key)
    ensures SerialPutAll(t, key, rs).next == t.next + |rs|
    ensures KeysBy(SerialPutAll(t, key, rs), key) == KeysBy(t, key) + KeysIn(rs, key)
    ensures forall i :: i in t.rows ==> i in SerialPutAll(t, key, rs).rows && SerialPutAll(t, key, rs).rows[i] == t.rows[i]
    decreases |rs|
  {
    if rs != [] {
      var init := rs[..|rs| - 1];
      var last := rs[|rs| - 1];
      SerialPutAllValid(t, key, init);
      SerialPutValid(SerialPutAll(t, key, init), key, last);
      assert rs == init + [last];
      KeysInSnoc(init, key, last);
    }
  }

  /**
   * Within one batch the first row for a new source key is the one stored: the rows the
   * batch holds for that key are exactly that row.
   */
  lemma {:induction false} SerialPutAllFirstWins<R, K>(t: Serial<R>, key: R -> K, rs: seq<R>, p: nat, i: int)
    requires Fresh(t) && UniqueBy(t, key)
    requires p < |rs| && key(rs[p]) !in KeysBy(t, key)
    requires forall j :: 0 <= j < p ==> key(rs[j]) != key(rs[p])
    requires i in SerialPutAll(t, key, rs).rows && key(SerialPutAll(t, key, rs).rows[i]) == key(rs[p])
    ensures SerialPutAll(t, key, rs).rows[i] == rs[p]
    decreases |rs|
  {
    var init := rs[..|rs| - 1];
    var last := rs[|rs| - 1];
    var u := SerialPutAll(t, key, init);
    SerialPutAllValid(t, key, init);
    assert forall j :: j in u.rows ==> key(u.rows[j]) in KeysBy(u, key);
    if p < |rs| - 1 {
      // the key is present once `init` is done, so the last insert cannot be the row found
      assert rs[p] in init;
      assert key(rs[p]) in KeysBy(u, key);
      assert i in u.rows;
      SerialPutAllFirstWins(t, key, init, p, i);
    } else {
      assert key(last) !in KeysBy(u, key) by {
        forall r | r in init ensures key(r) != key(last) {
          var j :| 0 <= j < |init| && init[j] == r;
        }
      }
      assert i == u.next;
    }
  }

  /** A batch whose every source key is already present adds no row. */
  lemma {:induction false} SerialPutAllPresent<R, K>(t: Serial<R>, key: R -> K, rs: seq<R>)
    requires forall j :: 0 <= j < |rs| ==> key(rs[j]) in KeysBy(t, key)
    ensures SerialPutAll(t, key, rs).rows == t.rows
    decreases |rs|
  {
    if rs != [] {
      var init := rs[..|rs| - 1];
      SerialPutAllPresent(t, key, init);
      assert KeysBy(SerialPutAll(t, key, init), key) == KeysBy(t, key);
    }
  }

  /**
   * Running the same batch again adds no row (only the sequence moves on): the source
   * column's uniqueness is the idempotence mechanism.
   */
  lemma SerialPutAllIdempotent<R, K>(t: Serial<R>, key: R -> K, rs: seq<R>)
    requires Fresh(t) && UniqueBy(t, key)
    ensures SerialPutAll(SerialPutAll(t, key, rs), key, rs).rows == SerialPutAll(t, key, rs).rows
  {
    SerialPutAllValid(t, key, rs);
    SerialPutAllPresent(SerialPutAll(t, key, rs), key, rs);
  }
}
