/** collections.OrderedDict as a sequence of entries with distinct keys:
    assigning a key already present replaces its value in place, a new key
    goes to the end, and update assigns the entries of another dictionary
    in its order. */
module ODicts {
  import opened Results
  import Seqs

  type ODict<K, V> = seq<(K, V)>

  predicate Distinct<K(==), V>(od: ODict<K, V>) {
    forall i, j :: 0 <= i < j < |od| ==> od[i].0 != od[j].0
  }

  /** The position of key k. */
  function Find<K(==), V>(od: ODict<K, V>, k: K): (r: Option<nat>)
    ensures r.Some? ==> r.value < |od| && od[r.value].0 == k && forall i :: 0 <= i < r.value ==> od[i].0 != k
    ensures r.None? ==> forall i :: 0 <= i < |od| ==> od[i].0 != k
  {
    if |od| == 0 then None
    else if od[0].0 == k then Some(0)
    else
      var r := Find(od[1..], k);
      if r.None? then None else Some(r.value + 1)
  }

  function Get<K(==), V>(od: ODict<K, V>, k: K): Option<V> {
    var i := Find(od, k);
    if i.None? then None else Some(od[i.value].1)
  }

  /** od[k] = v. */
  function Set<K(==), V>(od: ODict<K, V>, k: K, v: V): (r: ODict<K, V>)
    ensures Find(od, k).Some? ==> r == od[Find(od, k).value := (k, v)]
    ensures Find(od, k).None? ==> r == od + [(k, v)]
  {
    var i := Find(od, k);
    if i.Some? then od[i.value := (k, v)] else od + [(k, v)]
  }

  /** del od[k], for a key that is present. */
  function Delete<K(==), V>(od: ODict<K, V>, k: K): (r: ODict<K, V>)
    ensures Find(od, k).Some? ==> r == od[..Find(od, k).value] + od[Find(od, k).value + 1..]
    ensures Find(od, k).None? ==> r == od
  {
    var i := Find(od, k);
    if i.Some? then od[..i.value] + od[i.value + 1..] else od
  }

  /** od.update(other). */
  function Update<K(==), V>(od: ODict<K, V>, other: ODict<K, V>): ODict<K, V>
    decreases |other|
  {
    if |other| == 0 then od
    else Update(Set(od, other[0].0, other[0].1), other[1..])
  }

  /** Assignment gives k the new value and leaves every other key alone;
      a key already present keeps its position. */
  lemma SetEffect<K, V>(od: ODict<K, V>, k: K, v: V)
    requires Distinct(od)
    ensures Distinct(Set(od, k, v))
    ensures Get(Set(od, k, v), k) == Some(v)
    ensures forall k' :: k' != k ==> Get(Set(od, k, v), k') == Get(od, k')
    ensures Find(od, k).Some? ==> Find(Set(od, k, v), k) == Find(od, k)
  {
    var r := Set(od, k, v);
    var i0 := Find(od, k);
    if i0.None? {
      assert r[|od|].0 == k;
    } else {
      assert r[i0.value].0 == k;
    }
    forall k' | k' != k
      ensures Get(r, k') == Get(od, k')
    {
      var i := Find(od, k');
      var j := Find(r, k');
      if i.Some? {
        assert r[i.value].0 == k';
        assert j.Some? && j.value <= i.value;
        assert r[j.value] == od[j.value];
      } else {
        assert j.None?;
      }
    }
  }

  /** Deletion removes k and leaves every other key alone. */
  lemma DeleteEffect<K, V>(od: ODict<K, V>, k: K)
    requires Distinct(od)
    ensures Distinct(Delete(od, k))
    ensures Get(Delete(od, k), k) == None
    ensures forall k' :: k' != k ==> Get(Delete(od, k), k') == Get(od, k')
  {
    var r := Delete(od, k);
    var i := Find(od, k);
    if i.Some? {
      var n := i.value;
      assert forall x :: 0 <= x < |r| ==> r[x] == (if x < n then od[x] else od[x + 1]);
      forall k' | k' != k
        ensures Get(r, k') == Get(od, k')
      {
        var a := Find(od, k');
        var b := Find(r, k');
        if a.Some? {
          var m := if a.value < n then a.value else a.value - 1;
          assert r[m].0 == k';
          assert b.Some? && b.value <= m;
          assert r[b.value] == od[if b.value < n then b.value else b.value + 1];
        } else {
          assert b.None?;
        }
      }
    }
  }

  /** After an update, a key of the other dictionary has its value there,
      and any other key keeps its value. */
  lemma {:induction false} UpdateEffect<K, V>(od: ODict<K, V>, other: ODict<K, V>)
    requires Distinct(od) && Distinct(other)
    ensures Distinct(Update(od, other))
    ensures forall k :: Get(Update(od, other), k) == (if Get(other, k).Some? then Get(other, k) else Get(od, k))
    decreases |other|
  {
    if |other| > 0 {
      var (k0, v0) := other[0];
      var s := Set(od, k0, v0);
      SetEffect(od, k0, v0);
      var tail := other[1..];
      assert Distinct(tail);
      UpdateEffect(s, tail);
      forall k
        ensures Get(Update(od, other), k) == (if Get(other, k).Some? then Get(other, k) else Get(od, k))
      {
        if k == k0 {
          assert Find(tail, k).None?;
        } else {
          var a := Find(other, k);
          if a.Some? {
            assert Find(tail, k) == Some(a.value - 1);
          } else {
            assert Find(tail, k).None?;
          }
        }
      }
    }
  }

  /** A key that is not there yet goes to the end. */
  lemma SetNew<K, V>(od: ODict<K, V>, k: K, v: V)
    requires Get(od, k).None?
    ensures Set(od, k, v) == od + [(k, v)]
  {
  }

  /** Updating with entries under keys not there yet appends them in order. */
  lemma {:induction false} UpdateFresh<K, V>(od: ODict<K, V>, other: ODict<K, V>)
    requires Distinct(other)
    requires forall i :: 0 <= i < |other| ==> Get(od, other[i].0).None?
    ensures Update(od, other) == od + other
    decreases |other|
  {
    if |other| > 0 {
      var (k, v) := other[0];
      var tail := other[1..];
      SetNew(od, k, v);
      var od1 := od + [(k, v)];
      forall i | 0 <= i < |tail|
        ensures Get(od1, tail[i].0).None?
      {
        assert tail[i] == other[i + 1];
        assert tail[i].0 != k;
        assert Find(od1, tail[i].0).None? by {
          assert Find(od, tail[i].0).None?;
        }
      }
      forall i, j | 0 <= i < j < |tail|
        ensures tail[i].0 != tail[j].0
      {
        assert tail[i] == other[i + 1] && tail[j] == other[j + 1];
      }
      UpdateFresh(od1, tail);
      assert [(k, v)] + tail == other;
      Seqs.Assoc(od, [(k, v)], tail);
    }
  }
}
