/**
 khash2: the open-addressing table whose number of buckets is a prime out of a table of primes.
 */
module KHash2 {
  import opened Primes
  import opened Probing
  import opened KHashTheory
  import opened KHashRehash
  import KHash

  // What the table of primes is: 0, then primes in increasing order.
  ghost predicate PrimeTable(ps: seq<nat>) {
    && |ps| > 1 && ps[0] == 0
    && (forall i :: 0 < i < |ps| ==> Prime(ps[i]) && 3 <= ps[i] < WORD && !PowerOfTwo(ps[i]))
    && forall i, j :: 0 <= i < j < |ps| ==> ps[i] < ps[j]
  }

  // The first three lines of the table in the header.
  const FIRST_PRIMES: seq<nat> := [0, 3, 11, 23, 53, 97, 193, 389, 769, 1543, 3079, 6151, 12289, 24593, 49157]

  lemma FirstPrimes()
    ensures PrimeTable(FIRST_PRIMES)
  {
    SmallPrimes();
    Prime769();
    Prime1543();
    Prime3079();
    Prime6151();
    Prime12289();
    Prime24593();
    Prime49157();
    var ps := FIRST_PRIMES;
    hide Prime;
    forall i | 0 < i < |ps| ensures Prime(ps[i]) && 3 <= ps[i] < WORD && !PowerOfTwo(ps[i]) {
    }
  }

  // The first prime of the table above x.
  function Above(ps: seq<nat>, x: nat): (p: nat)
    requires ps != [] && x < ps[|ps| - 1]
    ensures p > x && p in ps
  {
    if ps[0] > x then ps[0] else Above(ps[1..], x)
  }

  // It is the least one above x.
  lemma {:induction false} AboveLeast(ps: seq<nat>, x: nat)
    requires ps != [] && x < ps[|ps| - 1]
    requires forall i, j :: 0 <= i < j < |ps| ==> ps[i] < ps[j]
    ensures forall p :: p in ps && p > x ==> Above(ps, x) <= p
  {
    if ps[0] > x {
      assert forall i :: 0 < i < |ps| ==> ps[0] < ps[i];
    } else {
      AboveLeast(ps[1..], x);
      assert forall p :: p in ps ==> p == ps[0] || p in ps[1..];
    }
  }

  lemma {:induction false} AboveAt(ps: seq<nat>, x: nat, t: nat)
    requires t + 1 < |ps| && ps[t] <= x < ps[t + 1] && x < ps[|ps| - 1]
    requires forall i, j :: 0 <= i < j < |ps| ==> ps[i] < ps[j]
    ensures Above(ps, x) == ps[t + 1]
  {
    if t > 0 {
      AboveAt(ps[1..], x, t - 1);
    }
  }

  // The request n - 1 leads back to n, the request n + 1 beyond it.
  lemma AboveNear(ps: seq<nat>, n: nat)
    requires PrimeTable(ps) && n in ps
    ensures n > 0 ==> n - 1 < ps[|ps| - 1] && Above(ps, n - 1) == n
    ensures n + 1 < ps[|ps| - 1] ==> Above(ps, n + 1) >= n + 2
    ensures n + 1 < ps[|ps| - 1] ==> forall p :: p in ps && p > n + 1 ==> Above(ps, n + 1) <= p
  {
    hide Prime, PowerOfTwo, Above;
    var c :| 0 <= c < |ps| && ps[c] == n;
    if n > 0 {
      AboveAt(ps, n - 1, c - 1);
    }
    if n + 1 < ps[|ps| - 1] {
      AboveLeast(ps, n + 1);
    }
  }

  lemma InTable(ps: seq<nat>, x: nat)
    requires PrimeTable(ps) && x < ps[|ps| - 1]
    ensures Above(ps, x) >= 3 && Prime(Above(ps, x)) && Suited(Above(ps, x)) && Least(Modular, Above(ps, x))
    ensures Upper(Above(ps, x)) < Above(ps, x)
  {
    hide Prime, PowerOfTwo;
    var p := Above(ps, x);
    var c :| 0 <= c < |ps| && ps[c] == p;
  }

  class KhMap {
    const hash: Key -> Word
    const primes: seq<nat>
    var nCapacity: nat
    var nSize: nat
    var nOccupied: nat
    var upperBound: nat
    var flags: array<Flag>
    var keys: array<Key>
    var vals: array<Val>
    ghost var pos: map<Key, nat>
    ghost var contents: map<Key, Val>

    ghost predicate Arrays()
      reads this
    {
      && flags as object != keys as object && flags as object != vals as object && keys as object != vals as object
      && flags.Length == keys.Length == vals.Length == nCapacity
    }

    ghost predicate Valid()
      reads this, flags, keys, vals
    {
      && Arrays() && PrimeTable(primes) && nCapacity in primes
      && Sound(Modular, hash, nCapacity, nSize, nOccupied, upperBound, flags[..], keys[..], pos)
      && StandsFor(pos, vals[..], contents)
    }

    // n_occupied is the number of used buckets, and not merely a bound for it.
    ghost predicate Exact()
      reads this, flags
    {
      nOccupied == |Used(flags[..])|
    }

    constructor (h: Key -> Word, ps: seq<nat>)
      requires PrimeTable(ps)
      ensures Valid() && contents == map[] && hash == h && primes == ps
      ensures nCapacity == nSize == nOccupied == 0 && Exact()
      ensures fresh(flags) && fresh(keys) && fresh(vals)
    {
      hash, primes := h, ps;
      nCapacity, nSize, nOccupied, upperBound, pos, contents := 0, 0, 0, 0, map[], map[];
      flags, keys, vals := new Flag[0], new Key[0], new Val[0];
      new;
      assert Used(flags[..]) == {};
    }

    // __ac_hash_search_aux
    method SearchAux(key: Key) returns (i: nat)
      requires Valid()
      ensures key in pos ==> i == pos[key]
      ensures key !in pos ==> i == nCapacity || (i < nCapacity && flags[i] == Empty)
    {
      hide StandsFor, PrimeTable;
      if nCapacity == 0 {
        return 0;
      }
      ghost var n, F, Q := nCapacity, flags[..], keys[..];
      var k := hash(key);
      i := Home(k, nCapacity);
      var inc := Step(k, nCapacity);
      var last := i;
      ghost var j: nat := 0;
      assert Bucket(k, n, 0) == i;
      while flags[i] != Empty && (flags[i] == Deleted || keys[i] != key)
        invariant F == flags[..] && Q == keys[..]
        invariant j < n && i == Bucket(k, n, j) && Unmatched(k, n, F, Q, key, j)
        decreases n - j
      {
        SearchStep(k, n, F, Q, key, j);
        i := Next(i, inc, nCapacity);
        j := j + 1;
        if i == last {
          SearchEnds(hash, n, F, Q, pos, key, j);
          return nCapacity;
        }
      }
      if flags[i] == Empty {
        SearchEnds(hash, n, F, Q, pos, key, j);
      }
    }

    // __ac_hash_insert_aux
    method InsertAux(key: Key) returns (x: nat)
      requires Valid() && nCapacity > 0
      ensures x < nCapacity && (key in pos ==> x == pos[key])
      ensures nCapacity > 1 && (key !in pos ==> Lands(hash(key), nCapacity, flags[..], x))
    {
      hide StandsFor, PrimeTable, Home, Step, Next, LastDeleted, NoneDeleted, Lands, Reached;
      ghost var n, F, Q := nCapacity, flags[..], keys[..];
      var k := hash(key);
      var i: nat, inc: nat, site: nat := Home(k, nCapacity), Step(k, nCapacity), nCapacity;
      var last := i;
      ghost var j: nat := 0;
      assert Bucket(k, n, 0) == i;
      NoneYet(k, n, F);
      while flags[i] != Empty && (flags[i] == Deleted || keys[i] != key)
        invariant F == flags[..] && Q == keys[..]
        invariant j < n && i == Bucket(k, n, j) && Unmatched(k, n, F, Q, key, j) && AllUsed(k, n, F, j)
        invariant site == n || (site < n && F[site] == Deleted)
        invariant if site == n then NoneDeleted(k, n, F, j) else LastDeleted(k, n, F, j, site)
        decreases n - j
      {
        LastDeletedNext(k, n, F, j, site);
        if flags[i] == Deleted {
          site := i;
        }
        SearchStep(k, n, F, Q, key, j);
        i := Next(i, inc, nCapacity);
        j := j + 1;
        NoWrap(k, n, F, j);
        if i == last {
          return site;
        }
      }
      if F[i] == Empty {
        SearchEnds(hash, n, F, Q, pos, key, j);
        if site != n {
          SomeDeleted(k, n, F, j, site);
        }
        LandsAt(k, n, F, j, if site != n then site else i);
      }
      if flags[i] == Empty && site != nCapacity {
        return site;
      } else {
        return i;
      }
    }

    // direct_insert_aux, with the counting that every caller does after it.
    method DirectInsert(key: Key) returns (x: nat, ret: nat)
      requires Valid() && nOccupied < upperBound
      modifies this`nSize, this`nOccupied, this`pos, this`contents, flags, keys
      ensures Valid() && x < nCapacity && pos == old(pos)[key := x]
      ensures if key in old(pos) then ret == 0 && old(pos)[key] == x && contents == old(contents)
              else ret == (if old(flags[x]) == Empty then 1 else 2) && contents == old(contents)[key := vals[x]]
      ensures nCapacity > 1 && (key !in old(pos) ==> Lands(hash(key), nCapacity, old(flags[..]), x))
      ensures nOccupied == old(nOccupied) + (if ret == 1 then 1 else 0) && (Exact() <==> old(Exact()))
    {
      hide Sound, Lands, Reached, Used, Table, StandsFor, PrimeTable, Suited;
      SoundRoom(Modular, hash, nCapacity, nSize, nOccupied, upperBound, flags[..], keys[..], pos);
      x := InsertAux(key);
      ghost var F, Q, V := flags[..], keys[..], vals[..];
      assert F == old(flags[..]);
      if key !in pos {
        LandsThere(hash(key), nCapacity, F, x);
      }
      ret := KHash.Place(flags, keys, key, x);
      if ret != 0 {
        StandsStore(pos, V, contents, key, x);
        SoundStore(Modular, hash, nCapacity, nSize, nOccupied, upperBound, F, Q, pos, key, x);
        UsedUpdate(F, x, Live);
        nSize := nSize + 1;
        if ret == 1 {
          nOccupied := nOccupied + 1;
        }
        pos, contents := pos[key := x], contents[key := vals[x]];
      }
    }

    method SetValue(x: nat, key: Key, v: Val)
      requires Valid() && key in pos && pos[key] == x < nCapacity
      modifies vals, this`contents
      ensures Valid() && contents == old(contents)[key := v] && vals[x] == v && (Exact() <==> old(Exact()))
    {
      hide Sound, StandsFor, PrimeTable;
      Seen();
      ghost var F, Q, V := flags[..], keys[..], vals[..];
      vals[x] := v;
      assert vals[..] == V[x := v] && flags[..] == F && keys[..] == Q;
      contents := contents[key := v];
      StandsSet(pos, V, old(contents), Q, key, x, v);
    }

    // What the fields say about the map.
    lemma Seen()
      requires Valid()
      ensures |contents| == nSize && nOccupied <= upperBound
      ensures nCapacity > 0 ==> upperBound < nCapacity && Rounds77(upperBound, nCapacity)
      ensures forall k :: k in pos <==> k in contents
      ensures forall k :: k in pos ==> pos[k] < nCapacity && flags[pos[k]] == Live && keys[pos[k]] == k
      ensures forall k :: k in pos ==> vals[pos[k]] == contents[k]
      ensures forall i :: 0 <= i < nCapacity && flags[i] == Live ==> keys[i] in pos && pos[keys[i]] == i
      ensures StandsInjective(pos, keys[..])
    {
      hide Sound, StandsFor, PrimeTable;
      SoundKeys(Modular, hash, nCapacity, nSize, nOccupied, upperBound, flags[..], keys[..], pos, vals[..], contents);
      SoundCapacity(Modular, hash, nCapacity, nSize, nOccupied, upperBound, flags[..], keys[..], pos);
      UpperIs(nCapacity);
    }

    lemma SomeUsed(x: nat)
      requires Valid() && Exact() && x < nCapacity && flags[x] == Live
      ensures nOccupied > 0
    {
      assert x in Used(flags[..]);
    }

    // The only key of a table has its first bucket.
    lemma OnlyAtHome(x: nat)
      requires Valid() && Used(flags[..]) == {x} && x < nCapacity && flags[x] == Live
      ensures x == Home(hash(keys[x]), nCapacity)
    {
      hide Home, Step, PowerOfTwo, PrimeTable, StandsFor;
      var key := keys[x];
      var k := hash(key);
      assert key in pos && pos[key] == x;
      assert Reached(k, nCapacity, flags[..], x);
      var j: nat :| Bucket(k, nCapacity, j) == x && AllUsed(k, nCapacity, flags[..], j);
      if j > 0 {
        assert Bucket(k, nCapacity, 0) in Used(flags[..]);
      }
    }

    lemma EmptyHasRoom()
      requires Valid() && nCapacity == 11 && nOccupied == nSize == 0
      ensures nOccupied < upperBound && CanMakeRoom()
    {
    }

    lemma LoneKey(x: nat, m: map<Key, Val>)
      requires Valid() && Exact() && nOccupied <= 1 && x < nCapacity == 11 && flags[x] == Live
      requires keys[x] == 5 == hash(5) && m == map[] && contents == m[5 := 0]
      ensures x == 5 && nSize == 1
    {
      hide Sound, StandsFor, PrimeTable;
      assert contents.Keys == {5};
      Seen();
      assert x in Used(flags[..]);
      Alone(Used(flags[..]), x);
      OnlyAtHome(x);
      assert Home(5, 11) == 5;
    }

    // find: the bucket of the key, or n_capacity for end().
    method Find(key: Key) returns (x: nat)
      requires Valid()
      ensures if key in contents then x < nCapacity && keys[x] == key && vals[x] == contents[key] else x == nCapacity
    {
      hide Sound, StandsFor, PrimeTable;
      Seen();
      x := SearchAux(key);
      if x != nCapacity && flags[x] == Live {
      } else {
        x := nCapacity;
      }
    }

    // erase(key), with __ac_hash_erase_aux, whose test for a deleted bucket never holds: a search does not
    // end at one.
    method Erase(key: Key) returns (x: nat)
      requires Valid()
      modifies this`nSize, this`pos, this`contents, flags
      ensures Valid() && contents == Without(old(contents), key)
      ensures if key in old(contents) then x < nCapacity && keys[x] == key else x == nCapacity
      ensures Exact() <==> old(Exact())
    {
      hide StandsFor, Sound, Without, PrimeTable, Used;
      assert key in pos <==> key in contents by {
        Seen();
      }
      assert key in pos ==> pos[key] < nCapacity && flags[pos[key]] == Live && keys[pos[key]] == key by {
        Seen();
      }
      x := SearchAux(key);
      if x != nCapacity && flags[x] != Empty {
        ghost var F, Q, V := flags[..], keys[..], vals[..];
        SoundDelete(Modular, hash, nCapacity, nSize, nOccupied, upperBound, F, Q, pos, x);
        StandsDelete(pos, V, contents, key);
        UsedUpdate(F, x, Deleted);
        flags[x] := Deleted;
        assert flags[..] == F[x := Deleted] && keys[..] == Q && vals[..] == V;
        nSize := nSize - 1;
        pos, contents := Without(pos, key), Without(contents, key);
      } else {
        WithoutAbsent(contents, key);
        x := nCapacity;
      }
    }

    // clear: n_occupied keeps its value although no bucket is used any more, so that it counts them no longer
    // unless it was 0. The next resize that goes ahead sets it right.
    method Clear()
      requires Valid()
      modifies this`nSize, this`pos, this`contents, flags
      ensures Valid() && contents == map[] && nSize == 0
      ensures (forall i :: 0 <= i < nCapacity ==> flags[i] == Empty) && nOccupied == old(nOccupied)
      ensures Used(flags[..]) == {}
      ensures Exact() <==> old(nOccupied) == 0
    {
      ghost var F := flags[..];
      KHash.Memset(flags, Empty);
      SoundClear(Modular, hash, nCapacity, nSize, nOccupied, upperBound, F, flags[..], keys[..], pos);
      nSize, pos, contents := 0, map[], map[];
      assert Used(flags[..]) == {};
    }

    // The choice of resize_aux1: the prime behind the last one that is not above the request.
    method PickPrime(request: nat) returns (newCapacity: nat)
      requires PrimeTable(primes) && request < primes[|primes| - 1]
      ensures newCapacity == Above(primes, request) > request && newCapacity in primes
      ensures forall p :: p in primes && p > request ==> newCapacity <= p
    {
      hide Prime, PowerOfTwo, Above;
      var t := |primes| - 1;
      while primes[t] > request
        invariant 0 <= t < |primes| && (t + 1 < |primes| ==> primes[t + 1] > request)
      {
        t := t - 1;
      }
      AboveAt(primes, request, t);
      AboveLeast(primes, request);
      newCapacity := primes[t + 1];
    }

    // The table has a prime above the request, and this is the first one.
    predicate InReach(request: nat) { primes != [] && request < primes[|primes| - 1] }

    function Goal(request: nat): nat { if InReach(request) then Above(primes, request) else 0 }

    lemma ThreeAndEleven()
      requires primes == FIRST_PRIMES
      ensures InReach(1) && Goal(1) == 3 && InReach(3) && Goal(3) == 11 && 1 < Upper(3) && Upper(11) == 8
    {
      hide Above;
      FirstGoals();
    }

    // resize. The arrays are reallocated before they are read, so that no key may be in a bucket beyond the new
    // end; and beyond 2^31 buckets the step of a search wraps: see StepWraps.
    method Resize(request: nat)
      requires Valid() && InReach(request)
      requires RoomIn(nSize, Goal(request)) ==> Goal(request) <= WORD / 2
      requires RoomIn(nSize, Goal(request)) ==> forall i :: Goal(request) <= i < nCapacity ==> flags[i] != Live
      modifies this, flags, keys, vals
      ensures Valid() && nSize == old(nSize) && contents == old(contents)
      ensures !RoomIn(nSize, Goal(request)) ==> unchanged(this) && unchanged(flags, keys, vals)
      ensures RoomIn(nSize, Goal(request)) ==>
        nCapacity == Goal(request) && nOccupied == nSize && Exact() && Rounds77(upperBound, nCapacity)
      ensures flags in {old(flags)} || fresh(flags)
      ensures keys in {old(keys)} || fresh(keys)
      ensures vals in {old(vals)} || fresh(vals)
    {
      hide Sound, Table, Placed, StandsFor, Moving, Complete, Used, PrimeTable, Suited, Least, Above, Upper, RoomIn,
        Rounds77;
      var newN := PickPrime(request);
      InTable(primes, request);
      UpperIs(newN);
      if nSize >= Upper(newN) {
        return;
      }
      var newFlags := new Flag[newN];
      KHash.Memset(newFlags, Empty);
      var keys' := KHash.Realloc(keys, newN);
      var vals' := KHash.Realloc(vals, newN);
      ghost var s := Layout(flags[..], newFlags[..], keys'[..], vals'[..], pos, map[]);
      SoundPositions(Modular, hash, nCapacity, nSize, nOccupied, upperBound, flags[..], keys[..], pos);
      Prepared(hash, nCapacity, newN, nSize, keys[..], vals[..], s, contents);
      s := Rehash(hash, newN, flags, newFlags, keys', vals', s, contents);
      Finished(hash, newN, s, keys'[..], vals'[..], contents);
      SoundNew(Modular, hash, newN, nSize, newFlags[..], keys'[..], s.newPos);
      Install(newFlags, keys', vals', newN, s.newPos);
    }

    // resize_aux2
    method Install(flags': array<Flag>, keys': array<Key>, vals': array<Val>, n: nat, ghost pos': map<Key, nat>)
      requires flags'.Length == keys'.Length == vals'.Length == n
      requires flags' as object != keys' as object && flags' as object != vals' as object
      requires keys' as object != vals' as object
      requires PrimeTable(primes) && n in primes
      requires Sound(Modular, hash, n, nSize, nSize, Upper(n), flags'[..], keys'[..], pos')
      requires StandsFor(pos', vals'[..], contents)
      modifies this
      ensures Valid() && unchanged(`nSize) && unchanged(`contents)
      ensures flags == flags' && keys == keys' && vals == vals' && nCapacity == n && nOccupied == nSize
      ensures upperBound == Upper(n)
      ensures Exact() <==> nSize == |Used(flags'[..])|
    {
      hide Sound, StandsFor, PrimeTable;
      keys, vals := keys', vals';
      flags := flags';
      nCapacity := n;
      nOccupied := nSize;
      upperBound := Upper(n);
      pos := pos';
    }

    // Whether the table can be given room: it need not grow, or there is a next prime up to 2^31.
    predicate CanMakeRoom()
      requires primes != []
      reads this
    {
      nOccupied >= upperBound && nCapacity <= 2 * nSize ==>
        nCapacity + 1 < primes[|primes| - 1] && Above(primes, nCapacity + 1) <= WORD / 2
    }

    // The capacity of a table that is rehashed: the same one if less than half of it is taken, else the first
    // prime of the table above it and its successor.
    predicate IsNext(n: nat, size: nat, n': nat) {
      if n > 2 * size then n' == n
      else n' in primes && n' > n + 1 && forall p :: p in primes && p > n + 1 ==> n' <= p
    }

    // rehash: a full table is rehashed at its size, or into the next prime.
    method MakeRoom()
      requires Valid() && CanMakeRoom()
      modifies this, flags, keys, vals
      ensures Valid() && nOccupied < upperBound && nSize == old(nSize) && contents == old(contents)
      ensures if old(nOccupied < upperBound) then unchanged(this) && unchanged(flags, keys, vals)
              else nOccupied == nSize && IsNext(old(nCapacity), nSize, nCapacity)
      ensures Exact() <==> old(Exact() || nOccupied >= upperBound)
      ensures flags in {old(flags)} || fresh(flags)
      ensures keys in {old(keys)} || fresh(keys)
      ensures vals in {old(vals)} || fresh(vals)
    {
      hide StandsFor, Sound, PrimeTable, Used, Above, Suited, Least, KhMap.Exact;
      SoundCapacity(Modular, hash, nCapacity, nSize, nOccupied, upperBound, flags[..], keys[..], pos);
      AboveNear(primes, nCapacity);
      if nOccupied >= upperBound {
        if nCapacity > 2 * nSize {
          Resize(nCapacity - 1);
        } else {
          Resize(nCapacity + 1);
        }
        SoundCapacity(Modular, hash, nCapacity, nSize, nOccupied, upperBound, flags[..], keys[..], pos);
      }
    }

    // insert
    method Insert(key: Key, val: Val) returns (x: nat, added: bool)
      requires Valid() && CanMakeRoom()
      modifies this, flags, keys, vals
      ensures Valid() && contents == old(contents)[key := val]
      ensures added <==> key !in old(contents)
      ensures x < nCapacity && flags[x] == Live && keys[x] == key && nOccupied <= upperBound < nCapacity
      ensures old(nOccupied) < old(upperBound) ==> nCapacity == old(nCapacity) && nOccupied <= old(nOccupied) + 1
      ensures old(nOccupied) >= old(upperBound) ==> IsNext(old(nCapacity), old(nSize), nCapacity)
      ensures Exact() <==> old(Exact() || nOccupied >= upperBound)
      ensures flags in {old(flags)} || fresh(flags)
      ensures keys in {old(keys)} || fresh(keys)
      ensures vals in {old(vals)} || fresh(vals)
    {
      hide Sound, StandsFor, PrimeTable, Above, KhMap.Exact, Lands;
      MakeRoom();
      ghost var m := contents;
      assert key in pos <==> key in m by {
        Seen();
      }
      var ret;
      x, ret := DirectInsert(key);
      SetValue(x, key, val);
      assert contents == m[key := val];
      Seen();
      assert key in pos && pos[key] == x;
      added := ret != 0;
    }

    // operator[]: the value of the key, a default one if the key is new.
    method Index(key: Key, default: Val) returns (v: Val)
      requires Valid() && CanMakeRoom()
      modifies this, flags, keys, vals
      ensures Valid() && key in contents && v == contents[key]
      ensures contents == if key in old(contents) then old(contents) else old(contents)[key := default]
      ensures Exact() <==> old(Exact() || nOccupied >= upperBound)
      ensures flags in {old(flags)} || fresh(flags)
      ensures keys in {old(keys)} || fresh(keys)
      ensures vals in {old(vals)} || fresh(vals)
    {
      hide Sound, StandsFor, PrimeTable, Above, KhMap.Exact, Lands;
      MakeRoom();
      assert key in pos <==> key in contents by {
        Seen();
      }
      var x, ret := DirectInsert(key);
      if ret != 0 {
        SetValue(x, key, default);
      }
      assert key in contents && vals[x] == contents[key] by {
        Seen();
      }
      v := vals[x];
    }
  }

  lemma Alone(s: set<nat>, x: nat)
    requires x in s && |s| <= 1
    ensures s == {x}
  {
    assert |s - {x}| == 0 && s == (s - {x}) + {x};
  }

  lemma WithoutAbsent(m: map<Key, Val>, key: Key)
    requires key !in m
    ensures Without(m, key) == m
  {
    var w := Without(m, key);
    assert w.Keys == m.Keys - {key} == m.Keys;
  }

  // The step of a search in 32-bit arithmetic.
  function Next32(i: nat, inc: nat, m: nat): nat {
    var sum := (i + inc) % WORD;
    if sum >= m then sum - m else sum
  }

  // It is the step modulo m for tables of up to 2^31 buckets, and for no larger ones.
  lemma StepWraps(m: nat)
    requires 2 < m < WORD
    ensures (forall i: nat, inc: nat :: i < m && 0 < inc < m ==> Next32(i, inc, m) == (i + inc) % m) <==> m <= WORD / 2
  {
    if m <= WORD / 2 {
      forall i: nat, inc: nat | i < m && 0 < inc < m ensures Next32(i, inc, m) == (i + inc) % m {
        DivModIs(i + inc, WORD, 0, i + inc);
        if i + inc >= m {
          DivModIs(i + inc, m, 1, i + inc - m);
        } else {
          DivModIs(i + inc, m, 0, i + inc);
        }
      }
    } else {
      var i, inc: nat := m - 1, WORD - m + 1;
      DivModIs(i + inc, WORD, 1, 0);
      assert Next32(i, inc, m) == 0;
      DivModIs(i + inc, m, 1, WORD - m);
      assert (i + inc) % m == WORD - m != 0;
    }
  }

  // Beyond 2^31 buckets it is not even a permutation of the buckets: two of them lead to bucket 0.
  lemma StepsCollide(m: nat) returns (i: nat, j: nat, inc: nat)
    requires WORD / 2 < m < WORD
    ensures i < m && j < m && i != j && 0 < inc < m
    ensures Next32(i, inc, m) == Next32(j, inc, m) == 0
  {
    inc := WORD - m + 1;
    i, j := m - 1, m - inc;
    DivModIs(i + inc, WORD, 1, 0);
    DivModIs(j + inc, WORD, 0, m);
  }

  lemma FirstGoals()
    ensures Above(FIRST_PRIMES, 1) == 3 && Above(FIRST_PRIMES, 3) == 11
  {
    hide Above;
    AboveAt(FIRST_PRIMES, 1, 0);
    AboveAt(FIRST_PRIMES, 3, 1);
  }

  lemma NewHasRoom(m: KhMap)
    requires m.Valid() && m.primes == FIRST_PRIMES && m.nCapacity == 0
    ensures m.CanMakeRoom()
  {
    FirstGoals();
  }

  // A table on which clear leaves the count wrong.
  method ClearMiscounts() returns (m: KhMap)
    ensures m.Valid() && m.contents == map[] && m.nOccupied > 0 && Used(m.flags[..]) == {} && !m.Exact()
  {
    hide KhMap.Valid, KhMap.Exact, PrimeTable;
    FirstPrimes();
    m := new KhMap(k => k % WORD, FIRST_PRIMES);
    NewHasRoom(m);
    var x, added := m.Insert(1, 0);
    m.SomeUsed(x);
    m.Clear();
  }

  // A table of 11 buckets and a request for 3: there is room for its one key in so many, but the key sits in
  // bucket 5, which is beyond the end of the arrays by the time it would be read.
  method ShrinkTooFar() returns (m: KhMap)
    ensures m.Valid() && m.primes == FIRST_PRIMES && m.nCapacity == 11 && 5 in m.contents
    ensures m.InReach(1) && m.nSize < Upper(m.Goal(1)) && m.Goal(1) == 3 && m.flags[5] == Live && m.keys[5] == 5
  {
    hide KhMap.Valid, KhMap.Exact, KhMap.Goal, KhMap.InReach, PrimeTable, Upper;
    FirstPrimes();
    m := new KhMap(k => k % WORD, FIRST_PRIMES);
    m.ThreeAndEleven();
    m.Resize(3);
    m.EmptyHasRoom();
    ghost var empty := m.contents;
    var x, added := m.Insert(5, 0);
    m.LoneKey(x, empty);
  }
}
