/**
 TW_KHash_32: the thread-safe map over khash, and its iterator. Each method here is the body of one
 locked section.
 */
module TwKHash {
  import opened Options
  import opened Probing
  import opened KHashTheory
  import opened KHash

  function Lookup(m: map<Key, Val>, key: Key): Option<Val> {
    if key in m then Some(m[key]) else None
  }

  class TwKHash {
    const table: KHash

    ghost predicate Valid()
      reads table, table.flags, table.keys, table.vals
    {
      table.Valid()
    }

    ghost function Contents(): map<Key, Val>
      reads table
    {
      table.contents
    }

    constructor (hash: Key -> Word, items: Word)
      ensures Valid() && Contents() == map[] && fresh(table)
      ensures fresh(table.flags) && fresh(table.keys) && fresh(table.vals)
      ensures table.nBuckets == if items > 0 && RoomIn(0, Capacity(items)) then Capacity(items) else 0
    {
      var t := new KHash(hash);
      if items > 0 {
        t.Resize(items);
      }
      table := t;
    }

    // A key that is there, or for which there is a place (see KHash.Put).
    ghost predicate Accepts(key: Key)
      reads table
    {
      key in Contents() || table.HasPlace()
    }

    // addReplace: what was there before, if anything. The value goes to the key, unless the table is full of
    // other keys; then it overwrites the value of one of them, `stored`.
    method AddReplace(key: Key, dat: Val) returns (previous: Option<Val>, ghost stored: Key)
      requires Valid()
      modifies table, table.flags, table.keys, table.vals
      ensures Valid() && Contents() == old(Contents())[stored := dat]
      ensures (stored == key <==> old(Accepts(key))) && (stored != key ==> stored in old(Contents()))
      ensures previous == Lookup(old(Contents()), key)
    {
      hide Sound, StandsFor;
      table.Seen();
      var k := table.Get(key);
      if k != table.nBuckets {
        previous, stored := Some(table.vals[k]), key;
        table.SetValue(k, dat);
      } else {
        previous := None;
        stored := AddNew(key, dat);
      }
    }

    // The insertion every add operation ends in.
    method AddNew(key: Key, dat: Val) returns (ghost stored: Key)
      requires Valid() && key !in Contents()
      modifies table, table.flags, table.keys, table.vals
      ensures Valid() && Contents() == old(Contents())[stored := dat]
      ensures (stored == key <==> old(Accepts(key))) && (stored != key ==> stored in old(Contents()))
    {
      hide Sound, StandsFor;
      ghost var m := Contents();
      var k, r := table.Put(key);
      table.Seen();
      stored := table.keys[k];
      table.SetValue(k, dat);
      assert stored == key ==> m[key := table.vals[k]][key := dat] == m[key := dat];
    }

    // addNoreplace: true exactly when the key was new, even where it has found no place.
    method AddNoreplace(key: Key, dat: Val) returns (ret: bool, ghost stored: Key)
      requires Valid()
      modifies table, table.flags, table.keys, table.vals
      ensures Valid() && ret == (key !in old(Contents()))
      ensures Contents() == if ret then old(Contents())[stored := dat] else old(Contents())
      ensures (stored == key <==> old(Accepts(key))) && (stored != key ==> stored in old(Contents()))
    {
      hide Sound, StandsFor;
      table.Seen();
      var k := table.Get(key);
      ret, stored := false, key;
      if k == table.nBuckets {
        stored := AddNew(key, dat);
        ret := true;
      }
    }

    // findOrNew: the stored value, or a default one that is stored first.
    method FindOrNew(key: Key, default: Val) returns (ret: Val, ghost stored: Key)
      requires Valid()
      modifies table, table.flags, table.keys, table.vals
      ensures Valid() && stored in Contents() && ret == Contents()[stored]
      ensures Contents() == if key in old(Contents()) then old(Contents()) else old(Contents())[stored := default]
      ensures (stored == key <==> old(Accepts(key))) && (stored != key ==> stored in old(Contents()))
    {
      hide Sound, StandsFor;
      table.Seen();
      var k := table.Get(key);
      if k != table.nBuckets {
        ret, stored := table.vals[k], key;
      } else {
        stored := AddNew(key, default);
        ret := default;
      }
    }

    // remove
    method Remove(key: Key) returns (removed: Option<Val>)
      requires Valid()
      modifies table, table.flags
      ensures Valid() && Contents() == old(Contents()) - {key}
      ensures removed == Lookup(old(Contents()), key)
    {
      hide Sound, StandsFor;
      table.Seen();
      var k := table.Get(key);
      if k != table.nBuckets {
        removed := Some(table.vals[k]);
        table.Del(k);
      } else {
        removed := None;
        assert Contents() == Contents() - {key};
      }
    }

    // find
    method Find(key: Key) returns (found: Option<Val>)
      requires Valid()
      ensures found == Lookup(Contents(), key)
    {
      hide Sound, StandsFor;
      table.Seen();
      var k := table.Get(key);
      if k != table.nBuckets {
        return Some(table.vals[k]);
      }
      return None;
    }

    // removeAll
    method RemoveAll()
      requires Valid()
      modifies table, table.flags
      ensures Valid() && Contents() == map[]
    {
      hide Sound, StandsFor;
      table.Clear();
    }

    // size
    method Size() returns (n: nat)
      requires Valid()
      ensures n == |Contents()|
    {
      hide Sound, StandsFor;
      table.Seen();
      n := table.size;
    }
  }

  // ---------- HashIterator ----------

  // The first live bucket from i on, or the end.
  function NextLive(flags: seq<Flag>, i: nat): (j: nat)
    requires i <= |flags|
    ensures i <= j <= |flags| && (j < |flags| ==> flags[j] == Live)
    ensures forall l :: i <= l < j ==> flags[l] != Live
    decreases |flags| - i
  {
    if i == |flags| || flags[i] == Live then i else NextLive(flags, i + 1)
  }

  class HashIterator {
    const map_: TwKHash
    var iter: nat

    // The constructor with gotoStart.
    constructor (m: TwKHash)
      requires m.Valid()
      ensures map_ == m && m.Valid() && iter == NextLive(m.table.flags[..], 0)
    {
      hide Sound, StandsFor;
      map_ := m;
      iter := 0;
      new;
      var h := m.table;
      while iter != h.nBuckets && h.flags[iter] != Live
        invariant m.Valid() && iter <= h.nBuckets && NextLive(h.flags[..], iter) == NextLive(h.flags[..], 0)
        decreases h.nBuckets - iter
      {
        iter := iter + 1;
      }
    }

    // getNext
    method GetNext() returns (more: bool)
      requires map_.Valid() && iter <= map_.table.nBuckets
      modifies this
      ensures map_.Valid()
      ensures iter ==
        if old(iter) == map_.table.nBuckets then old(iter) else NextLive(map_.table.flags[..], old(iter) + 1)
      ensures more <==> iter != map_.table.nBuckets
    {
      hide Sound, StandsFor;
      var h := map_.table;
      if iter == h.nBuckets {
        return false;
      }
      ghost var start := iter + 1;
      iter := iter + 1;
      while iter != h.nBuckets && h.flags[iter] != Live
        invariant map_.Valid() && start <= iter <= h.nBuckets
        invariant NextLive(h.flags[..], iter) == NextLive(h.flags[..], start)
        decreases h.nBuckets - iter
      {
        iter := iter + 1;
      }
      more := iter != h.nBuckets;
    }
  }

  // The entries of the buckets below x have been visited, each once.
  ghost predicate VisitedBelow(pos: map<Key, nat>, m: map<Key, Val>, keys: seq<Key>, vals: seq<Val>, x: nat) {
    && |keys| == |vals|
    && (forall i :: 0 <= i < |keys| ==> keys[i] in pos && pos[keys[i]] < x && keys[i] in m && vals[i] == m[keys[i]])
    && (forall i, j :: 0 <= i < j < |keys| ==> keys[i] != keys[j])
    && (forall k :: k in pos && pos[k] < x ==> k in keys)
  }

  // Visiting live bucket x and moving on to the next one, y.
  lemma VisitMore(flags: seq<Flag>, bucketKeys: seq<Key>, pos: map<Key, nat>, m: map<Key, Val>,
                  keys: seq<Key>, vals: seq<Val>, x: nat)
    requires VisitedBelow(pos, m, keys, vals, x) && x < |flags| <= |bucketKeys| && bucketKeys[x] in m
    requires bucketKeys[x] in pos && pos[bucketKeys[x]] == x
    requires forall k :: k in pos ==> pos[k] < |flags| && flags[pos[k]] == Live && bucketKeys[pos[k]] == k
    ensures var key := bucketKeys[x]; VisitedBelow(pos, m, keys + [key], vals + [m[key]], NextLive(flags, x + 1))
  {
    var keys', y := keys + [bucketKeys[x]], NextLive(flags, x + 1);
    forall k | k in pos && pos[k] < y ensures k in keys' {
      if pos[k] >= x {
        assert pos[k] == x;
        assert k == keys'[|keys|];
      }
    }
  }

  lemma VisitNone(pos: map<Key, nat>, m: map<Key, Val>, x: nat)
    requires forall k :: k in pos ==> pos[k] >= x
    ensures VisitedBelow(pos, m, [], [], x)
  {
  }

  lemma VisitDone(pos: map<Key, nat>, m: map<Key, Val>, keys: seq<Key>, vals: seq<Val>, n: nat)
    requires VisitedBelow(pos, m, keys, vals, n)
    requires (forall k :: k in pos ==> pos[k] < n) && forall k :: k in pos <==> k in m
    ensures |keys| == |vals| == |m| && forall k :: k in m <==> k in keys
    ensures forall i :: 0 <= i < |keys| ==> keys[i] in m && vals[i] == m[keys[i]]
    ensures forall i, j :: 0 <= i < j < |keys| ==> keys[i] != keys[j]
  {
    Distinct(keys);
    forall k: Key ensures k in SetOf(keys) <==> k in m.Keys {}
    assert SetOf(keys) == m.Keys;
  }

  ghost function SetOf(s: seq<Key>): (d: set<Key>)
    ensures forall k: Key :: k in d <==> k in s
  {
    if s == [] then {} else SetOf(s[1..]) + {s[0]}
  }

  lemma {:induction false} Distinct(s: seq<Key>)
    requires forall i, j :: 0 <= i < j < |s| ==> s[i] != s[j]
    ensures |SetOf(s)| == |s|
  {
    if s != [] {
      Distinct(s[1..]);
    }
  }

  // Iterating over a map nobody changes: every key once, with its value.
  method VisitAll(m: TwKHash) returns (keys: seq<Key>, vals: seq<Val>)
    requires m.Valid()
    ensures |keys| == |vals| == |m.Contents()|
    ensures forall i :: 0 <= i < |keys| ==> keys[i] in m.Contents() && vals[i] == m.Contents()[keys[i]]
    ensures forall i, j :: 0 <= i < j < |keys| ==> keys[i] != keys[j]
    ensures forall k :: k in m.Contents() <==> k in keys
  {
    hide Sound, StandsFor, VisitedBelow, Rounds77;
    var h := m.table;
    h.Seen();
    ghost var F, Q, P, M := h.flags[..], h.keys[..], h.pos, h.contents;
    var it := new HashIterator(m);
    keys, vals := [], [];
    VisitNone(P, M, it.iter);
    while it.iter != h.nBuckets
      invariant m.Valid() && it.map_ == m && fresh(it) && it.iter <= h.nBuckets
      invariant it.iter < h.nBuckets ==> F[it.iter] == Live
      invariant VisitedBelow(P, M, keys, vals, it.iter)
      decreases h.nBuckets - it.iter
    {
      var x := it.iter;
      ghost var key := Q[x];
      assert key in P && P[key] == x && key in M && h.vals[x] == M[key];
      VisitMore(F, Q, P, M, keys, vals, x);
      keys, vals := keys + [h.keys[x]], vals + [h.vals[x]];
      var more := it.GetNext();
    }
    VisitDone(P, M, keys, vals, h.nBuckets);
  }
}
