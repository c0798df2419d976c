/**
 khash: the open-addressing table over arrays of flags, keys and values.
 */
module KHash {
  import opened Probing
  import opened RoundUp
  import opened KHashTheory
  import opened KHashRehash

  // The capacity a resize request ends up asking for.
  function Capacity(request: Word): nat {
    var r := RoundUp32(request);
    if r < 4 then 4 else r
  }

  // memset of a flag array to one flag.
  method Memset(a: array<Flag>, f: Flag)
    modifies a
    ensures forall i :: 0 <= i < a.Length ==> a[i] == f
  {
    for i := 0 to a.Length
      invariant forall j :: 0 <= j < i ==> a[j] == f
    {
      a[i] := f;
    }
  }

  // realloc: the first elements survive, as many as fit.
  method Realloc(a: array<int>, n: nat) returns (b: array<int>)
    ensures fresh(b) && b.Length == n && forall i :: 0 <= i < n && i < a.Length ==> b[i] == a[i]
  {
    b := new int[n];
    for i := 0 to n
      invariant forall j :: 0 <= j < i && j < a.Length ==> b[j] == a[j]
    {
      if i < a.Length {
        b[i] := a[i];
      }
    }
  }

  // The key goes into bucket x unless that is live; the code tells what it was before.
  method Place(flags: array<Flag>, keys: array<Key>, key: Key, x: nat) returns (ret: nat)
    requires x < flags.Length <= keys.Length && flags as object != keys as object
    modifies flags, keys
    ensures ret == match old(flags[x]) case Live => 0 case Empty => 1 case Deleted => 2
    ensures flags[..] == if ret == 0 then old(flags[..]) else old(flags[..])[x := Live]
    ensures keys[..] == if ret == 0 then old(keys[..]) else old(keys[..])[x := key]
  {
    if flags[x] == Empty {
      keys[x] := key;
      flags[x] := Live;
      ret := 1;
    } else if flags[x] == Deleted {
      keys[x] := key;
      flags[x] := Live;
      ret := 2;
    } else {
      ret := 0;
    }
  }

  class KHash {
    const hash: Key -> Word
    var nBuckets: nat
    var size: nat
    var nOccupied: nat
    var upperBound: nat
    var flags: array<Flag>
    var keys: array<Key>
    var vals: array<Val>
    ghost var pos: map<Key, nat>
    ghost var contents: map<Key, Val>

    ghost predicate Arrays()
      reads this
    {
      && flags as object != keys as object && flags as object != vals as object && keys as object != vals as object
      && flags.Length == keys.Length == vals.Length == nBuckets
    }

    ghost predicate Valid()
      reads this, flags, keys, vals
    {
      && Arrays() && Sound(Masked, hash, nBuckets, size, nOccupied, upperBound, flags[..], keys[..], pos)
      && StandsFor(pos, vals[..], contents)
    }

    constructor (h: Key -> Word)
      ensures Valid() && contents == map[] && hash == h && nBuckets == 0
      ensures fresh(flags) && fresh(keys) && fresh(vals)
    {
      hash := h;
      nBuckets, size, nOccupied, upperBound, pos, contents := 0, 0, 0, 0, map[], map[];
      flags, keys, vals := new Flag[0], new Key[0], new Val[0];
    }

    // A table of 2^31 buckets that holds the keys below 2^31.
    constructor Overfull()
      ensures Valid() && contents == Zeros(WORD / 2) && size == nBuckets == WORD / 2
      ensures fresh(flags) && fresh(keys) && fresh(vals)
    {
      hide Sound, StandsFor, Numbered, Zeros;
      var n: nat := WORD / 2;
      var f, k, v := FullArrays(n);
      hash := Identity;
      flags, keys, vals := f, k, v;
      nBuckets, size, nOccupied, upperBound := n, n, n, Upper(n);
      pos, contents := Numbered(n), Zeros(n);
    }

    // kh_get
    method Get(key: Key) returns (x: nat)
      requires Valid()
      ensures x == if key in pos then pos[key] else nBuckets
    {
      hide StandsFor;
      if nBuckets == 0 {
        return 0;
      }
      ghost var n, F, Q := nBuckets, flags[..], keys[..];
      var k := hash(key);
      var i, inc := Home(k, nBuckets), Step(k, nBuckets);
      var last := i;
      ghost var j: nat := 0;
      assert Bucket(k, n, 0) == i;
      while flags[i] != Empty && (flags[i] == Deleted || keys[i] != key)
        invariant F == flags[..] && Q == keys[..]
        invariant j < n && i == Bucket(k, n, j) && Unmatched(k, n, F, Q, key, j)
        decreases n - j
      {
        SearchStep(k, n, F, Q, key, j);
        i := Next(i, inc, nBuckets);
        j := j + 1;
        if i == last {
          SearchEnds(hash, n, F, Q, pos, key, j);
          return nBuckets;
        }
      }
      if flags[i] != Live {
        SearchEnds(hash, n, F, Q, pos, key, j);
        return nBuckets;
      }
      return i;
    }

    // There is a place for a new key, or the table can still be given one.
    predicate HasPlace()
      reads this
    {
      nBuckets == WORD / 2 ==> size < nBuckets
    }

    // The scan of kh_put: the key's own bucket, or the one to store it in. In a table full of other keys it
    // comes back to the first bucket of the search and ends there.
    method FindSite(key: Key) returns (x: nat)
      requires Valid() && nBuckets > 1
      ensures x < nBuckets && (key in pos ==> x == pos[key])
      ensures key !in pos && size < nBuckets ==> Lands(hash(key), nBuckets, flags[..], x)
      ensures key !in pos && size == nBuckets ==>
        flags[x] == Live && keys[x] != key && x == Home(hash(key), nBuckets)
    {
      hide StandsFor, Home, Step, Next, LastDeleted, NoneDeleted, Lands;
      SoundFull(Masked, hash, nBuckets, size, nOccupied, upperBound, flags[..], keys[..], pos);
      ghost var n, F, Q := nBuckets, flags[..], keys[..];
      var k := hash(key);
      var i: nat, inc: nat, site: nat := Home(k, nBuckets), Step(k, nBuckets), nBuckets;
      x := nBuckets;
      ghost var j: nat := 0;
      assert Bucket(k, n, 0) == i;
      NoneYet(k, n, F);
      if flags[i] == Empty {
        x := i;
      } else {
        var last := i;
        while flags[i] != Empty && (flags[i] == Deleted || keys[i] != key)
          invariant F == flags[..] && Q == keys[..] && x == n
          invariant j < n && i == Bucket(k, n, j) && Unmatched(k, n, F, Q, key, j) && AllUsed(k, n, F, j)
          invariant site == n || (site < n && F[site] == Deleted)
          invariant if site == n then NoneDeleted(k, n, F, j) else LastDeleted(k, n, F, j, site)
          decreases n - j
        {
          LastDeletedNext(k, n, F, j, site);
          if flags[i] == Deleted {
            site := i;
          }
          SearchStep(k, n, F, Q, key, j);
          i := Next(i, inc, nBuckets);
          j := j + 1;
          if i == last {
            SearchEnds(hash, n, F, Q, pos, key, j);
            WholeRound(k, n, F, j);
            x := site;
            break;
          }
        }
        if x == nBuckets {
          if flags[i] == Empty && site != nBuckets {
            x := site;
          } else {
            x := i;
          }
        }
      }
      if F[i] == Empty {
        SearchEnds(hash, n, F, Q, pos, key, j);
      }
      if key !in pos && size < nBuckets {
        if site != n {
          SomeDeleted(k, n, F, j, site);
        }
        LandsAt(k, n, F, j, x);
      }
    }

    // kh_put, after the table has been given what room it can be given.
    method Store(key: Key) returns (x: nat, ret: nat)
      requires Valid() && nBuckets > 0 && (nOccupied < upperBound || nBuckets == WORD / 2)
      modifies this`size, this`nOccupied, this`pos, this`contents, flags, keys
      ensures Valid() && x < nBuckets && flags[x] == Live
      ensures nOccupied == old(nOccupied) + if ret == 1 then 1 else 0
      ensures nBuckets > 1 && size == old(size) + if ret == 0 then 0 else 1
      ensures ret == 0 ==> pos == old(pos) && contents == old(contents)
      ensures ret != 0 ==> pos == old(pos)[key := x] && contents == old(contents)[key := vals[x]]
      ensures ret == if key in old(pos) || old(size) == nBuckets then 0 else if old(flags[x]) == Empty then 1 else 2
      ensures if ret != 0 then Lands(hash(key), nBuckets, old(flags[..]), x)
              else if key in pos then pos[key] == x else x == Home(hash(key), nBuckets) && keys[x] != key
    {
      hide Sound, Reached, Used, Table, StandsFor, Lands, Home;
      SoundRoom(Masked, hash, nBuckets, size, nOccupied, upperBound, flags[..], keys[..], pos);
      SoundCapacity(Masked, hash, nBuckets, size, nOccupied, upperBound, flags[..], keys[..], pos);
      x := FindSite(key);
      ghost var F, Q := flags[..], keys[..];
      if key !in pos && size < nBuckets {
        LandsThere(hash(key), nBuckets, F, x);
        StandsStore(pos, vals[..], contents, key, x);
        SoundStore(Masked, hash, nBuckets, size, nOccupied, upperBound, F, Q, pos, key, x);
      }
      ret := Place(flags, keys, key, x);
      if ret == 1 {
        size, nOccupied := size + 1, nOccupied + 1;
      } else if ret == 2 {
        size := size + 1;
      }
      if ret != 0 {
        pos, contents := pos[key := x], contents[key := vals[x]];
      }
    }

    // kh_value(h, x) = v
    method SetValue(x: nat, v: Val)
      requires Valid() && x < nBuckets && flags[x] == Live
      modifies vals, this`contents
      ensures Valid() && contents == old(contents)[keys[x] := v] && vals[x] == v
    {
      hide Sound, StandsFor;
      Seen();
      ghost var F, Q, V, key := flags[..], keys[..], vals[..], keys[x];
      vals[x] := v;
      assert vals[..] == V[x := v] && flags[..] == F && keys[..] == Q;
      contents := contents[key := v];
      StandsSet(pos, V, old(contents), Q, key, x, v);
    }

    // What the fields say about the map.
    lemma Seen()
      requires Valid()
      ensures |contents| == size && (nBuckets > 0 ==> upperBound < nBuckets && Rounds77(upperBound, nBuckets))
      ensures nOccupied <= upperBound || nBuckets == WORD / 2
      ensures forall k :: k in pos <==> k in contents
      ensures forall k :: k in pos ==> pos[k] < nBuckets && flags[pos[k]] == Live && keys[pos[k]] == k
      ensures forall k :: k in pos ==> vals[pos[k]] == contents[k]
      ensures forall i :: 0 <= i < nBuckets && flags[i] == Live ==> keys[i] in pos && pos[keys[i]] == i
      ensures StandsInjective(pos, keys[..])
    {
      hide Sound, StandsFor;
      SoundKeys(Masked, hash, nBuckets, size, nOccupied, upperBound, flags[..], keys[..], pos, vals[..], contents);
      SoundCapacity(Masked, hash, nBuckets, size, nOccupied, upperBound, flags[..], keys[..], pos);
      UpperIs(nBuckets);
    }

    // kh_del
    method Del(x: nat)
      requires Valid() && x <= nBuckets
      modifies this`size, this`pos, this`contents, flags
      ensures Valid()
      ensures x < nBuckets && old(flags[x]) == Live ==> keys[x] in old(pos) && old(pos)[keys[x]] == x
      ensures x < nBuckets && old(flags[x]) == Live ==>
        contents == Without(old(contents), keys[x]) && pos == Without(old(pos), keys[x])
      ensures x == nBuckets || old(flags[x]) != Live ==> contents == old(contents) && pos == old(pos)
    {
      hide StandsFor, Sound, Without;
      if x != nBuckets && flags[x] == Live {
        ghost var F, Q, V, key := flags[..], keys[..], vals[..], keys[x];
        SoundDelete(Masked, hash, nBuckets, size, nOccupied, upperBound, F, Q, pos, x);
        StandsDelete(pos, V, contents, key);
        flags[x] := Deleted;
        assert flags[..] == F[x := Deleted] && keys[..] == Q && vals[..] == V;
        size := size - 1;
        pos, contents := Without(pos, key), Without(contents, key);
      }
    }

    // kh_clear
    method Clear()
      requires Valid()
      modifies this`size, this`nOccupied, this`pos, this`contents, flags
      ensures Valid() && contents == map[] && size == nOccupied == 0
      ensures forall i :: 0 <= i < nBuckets ==> flags[i] == Empty
    {
      ghost var F := flags[..];
      Memset(flags, Empty);
      SoundClear(Masked, hash, nBuckets, size, nOccupied, upperBound, F, flags[..], keys[..], pos);
      size, nOccupied, pos, contents := 0, 0, map[], map[];
    }

    // kh_resize
    method Resize(request: Word)
      requires Valid()
      modifies this, flags, keys, vals
      ensures Valid() && size == old(size) && contents == old(contents)
      ensures !RoomIn(size, Capacity(request)) ==> unchanged(this) && unchanged(flags, keys, vals)
      ensures RoomIn(size, Capacity(request)) ==>
        nBuckets == Capacity(request) && nOccupied == size && Rounds77(upperBound, nBuckets)
      ensures flags in {old(flags)} || fresh(flags)
      ensures keys in {old(keys)} || fresh(keys)
      ensures vals in {old(vals)} || fresh(vals)
    {
      hide Sound, Table, Placed, StandsFor, Moving, Complete, Used, PowerOfTwo, Capacity, Upper, RoomIn, Rounds77;
      var newN := Capacity(request);
      CapacityIs(request);
      UpperIs(newN);
      if size >= Upper(newN) {
        return;
      }
      var newFlags := new Flag[newN];
      Memset(newFlags, Empty);
      var keys', vals' := keys, vals;
      if nBuckets < newN {
        keys' := Realloc(keys, newN);
        vals' := Realloc(vals, newN);
      }
      ghost var s := Layout(flags[..], newFlags[..], keys'[..], vals'[..], pos, map[]);
      SoundPositions(Masked, hash, nBuckets, size, nOccupied, upperBound, flags[..], keys[..], pos);
      Prepared(hash, nBuckets, newN, size, keys[..], vals[..], s, contents);
      s := Rehash(hash, newN, flags, newFlags, keys', vals', s, contents);
      if nBuckets > newN {
        keys' := Realloc(keys', newN);
        vals' := Realloc(vals', newN);
      }
      Finished(hash, newN, s, keys'[..], vals'[..], contents);
      SoundNew(Masked, hash, newN, size, newFlags[..], keys'[..], s.newPos);
      Install(newFlags, keys', vals', newN, s.newPos);
    }

    // The number of buckets kh_put gives a table that it rehashes.
    function NextBuckets(): nat
      reads this
    {
      if nBuckets > 2 * size then nBuckets else if nBuckets == 0 then 4 else 2 * nBuckets
    }

    // The table is due to grow and cannot: see GrowthRefused.
    predicate Refused()
      reads this
    {
      nBuckets == WORD / 2 && nOccupied >= upperBound && nBuckets <= 2 * size
    }

    // kh_put does not rehash the table: it has room, or cannot be given more.
    predicate Stays()
      reads this
    {
      nOccupied < upperBound || Refused()
    }

    // kh_put. It finds or stores the key unless 2^31 buckets are all taken by other keys; then it hands out the
    // bucket of another key as if that were the one asked for.
    method Put(key: Key) returns (x: nat, ret: nat)
      requires Valid()
      modifies this, flags, keys, vals
      ensures Valid() && x < nBuckets && flags[x] == Live && upperBound < nBuckets
      ensures nBuckets == old(if Stays() then nBuckets else NextBuckets()) > 1
      ensures keys[x] == key <==> key in old(contents) || old(HasPlace())
      ensures keys[x] == key || x == Home(hash(key), nBuckets)
      ensures if key in old(contents) || !old(HasPlace()) then ret == 0 && contents == old(contents)
              else ret in {1, 2} && contents == old(contents)[key := vals[x]]
      ensures ret != 0 ==> if old(Stays()) then ret == (if old(flags[x]) == Empty then 1 else 2)
                && Lands(hash(key), nBuckets, old(flags[..]), x)
              else ret == 1
      ensures nOccupied == old(if Stays() then nOccupied else size) + if ret == 1 then 1 else 0
      ensures nOccupied > upperBound <==> old(Refused()) && (ret == 1 || old(nOccupied) > old(upperBound))
      ensures flags in {old(flags)} || fresh(flags)
      ensures keys in {old(keys)} || fresh(keys)
      ensures vals in {old(vals)} || fresh(vals)
    {
      hide Sound, StandsFor, Lands, Home, Rounds77, StandsInjective, Suited, Least, Upper;
      MakeRoom();
      ghost var F, p := flags[..], pos;
      assert old(Stays()) ==> F == old(flags[..]);
      if nOccupied == size {
        SoundClean(hash, nBuckets, size, upperBound, F, keys[..], pos);
      }
      SoundCapacity(Masked, hash, nBuckets, size, nOccupied, upperBound, F, keys[..], pos);
      assert key in pos <==> key in contents by {
        Seen();
      }
      x, ret := Store(key);
      if ret != 0 {
        LandsThere(hash(key), nBuckets, F, x);
        assert F[x] == Deleted ==> old(Stays());
      }
      assert key in p || old(HasPlace()) ==> key in pos && pos[key] == x;
      assert upperBound < nBuckets && (key in pos ==> keys[pos[key]] == key) by {
        Seen();
      }
    }

    // The first part of kh_put: a table that is full is rehashed, at its size or at twice that. size << 1 wraps
    // for a table of 2^31 live buckets.
    method MakeRoom()
      requires Valid()
      modifies this, flags, keys, vals
      ensures Valid() && nBuckets > 0 && size == old(size) && contents == old(contents)
      ensures old(Stays()) ==> unchanged(this) && unchanged(flags, keys, vals)
      ensures !old(Stays()) ==> nBuckets == old(NextBuckets()) && nOccupied == size
      ensures nOccupied < upperBound || old(Refused())
      ensures nBuckets == WORD / 2 && size == nBuckets <==> !old(HasPlace())
      ensures flags in {old(flags)} || fresh(flags)
      ensures keys in {old(keys)} || fresh(keys)
      ensures vals in {old(vals)} || fresh(vals)
    {
      hide StandsFor, Sound, PowerOfTwo, Used, Capacity, Upper, RoomIn, Rounds77;
      SoundCapacity(Masked, hash, nBuckets, size, nOccupied, upperBound, flags[..], keys[..], pos);
      if nOccupied >= upperBound {
        if nBuckets > (size * 2) % WORD {
          RequestSame(nBuckets, size);
          UpperIs(Capacity(nBuckets - 1));
          Resize(nBuckets - 1);
        } else {
          RequestDouble(nBuckets, size);
          UpperIs(Capacity(nBuckets + 1));
          Resize(nBuckets + 1);
        }
        SoundCapacity(Masked, hash, nBuckets, size, nOccupied, upperBound, flags[..], keys[..], pos);
      }
    }

    // The last assignments of kh_resize.
    method Install(flags': array<Flag>, keys': array<Key>, vals': array<Val>, n: nat, ghost pos': map<Key, nat>)
      requires flags'.Length == keys'.Length == vals'.Length == n
      requires flags' as object != keys' as object && flags' as object != vals' as object
      requires keys' as object != vals' as object
      requires Sound(Masked, hash, n, size, size, Upper(n), flags'[..], keys'[..], pos') &&
        StandsFor(pos', vals'[..], contents)
      modifies this
      ensures Valid() && unchanged(`size) && unchanged(`contents)
      ensures flags == flags' && keys == keys' && vals == vals' && nBuckets == n && nOccupied == size
      ensures upperBound == Upper(n)
    {
      hide Sound, StandsFor;
      keys, vals := keys', vals';
      flags := flags';
      nBuckets := n;
      nOccupied := size;
      upperBound := Upper(n);
      pos := pos';
    }
  }

  lemma CapacityIs(request: Word)
    ensures var c := Capacity(request); PowerOfTwo(c) && 4 <= c <= WORD / 2 && Upper(c) < c
    ensures var c := Capacity(request); if 4 < request <= WORD / 2 then c / 2 < request <= c else c == 4
  {
    RoundUpIs(request);
    assert PowerOfTwo(4);
  }

  // The request to rehash at the same size is met, unless size << 1 has wrapped.
  lemma RequestSame(n: nat, size: nat)
    requires 4 <= n <= WORD / 2 && PowerOfTwo(n) && size <= n && (size * 2) % WORD < n
    ensures Capacity(n - 1) == n
    ensures 2 * size < n <==> size < Upper(n)
    ensures n <= 2 * size ==> n == size == WORD / 2
  {
    hide PowerOfTwo, RoundUp32;
    RoundUpIs(n - 1);
    OnePower(n - 1, n, RoundUp32(n - 1));
  }

  // The request to grow leads to twice the size, or comes to nothing at 2^31 buckets.
  lemma RequestDouble(n: nat, size: nat)
    requires n <= WORD / 2 && size <= n && (n == 0 || (4 <= n && PowerOfTwo(n)))
    requires size <= Upper(n) || n == WORD / 2
    requires n <= (size * 2) % WORD
    ensures n <= 2 * size
    ensures n < WORD / 2 ==> Capacity(n + 1) == (if n == 0 then 4 else 2 * n) && size < Upper(Capacity(n + 1))
    ensures n == WORD / 2 ==> size >= Upper(Capacity(n + 1))
  {
    hide PowerOfTwo, RoundUp32;
    if n < WORD / 2 {
      RoundUpIs(n + 1);
      if n > 0 {
        AtMostHalf(n);
        DoublePower(n);
        OnePower(n + 1, 2 * n, RoundUp32(n + 1));
      }
    } else {
      GrowthRefused(n, size);
    }
  }

  // A power of two below 2^31 is at most 2^30.
  lemma AtMostHalf(n: nat)
    requires PowerOfTwo(n) && n < WORD / 2
    ensures n <= WORD / 4
  {
    hide PowerOfTwo;
    HighestPower();
    PowerGap(n, WORD / 2);
  }

  lemma HighestPower()
    ensures PowerOfTwo(WORD / 2)
  {
    RoundUpIs(WORD / 2);
  }

  lemma DoublePower(n: nat)
    requires PowerOfTwo(n)
    ensures PowerOfTwo(2 * n)
  {
  }

  // Only one power of two lies between x and 2x.
  lemma OnePower(x: nat, a: nat, b: nat)
    requires PowerOfTwo(a) && PowerOfTwo(b) && x > 1 && a / 2 < x <= a && b / 2 < x <= b
    ensures a == b
  {
    hide PowerOfTwo;
    if a < b {
      PowerGap(a, b);
    } else if b < a {
      PowerGap(b, a);
    }
  }

  // Different powers of two are at least a factor of two apart.
  lemma {:induction false} PowerGap(a: nat, b: nat)
    requires PowerOfTwo(a) && PowerOfTwo(b) && a < b
    ensures 2 * a <= b
  {
    if a > 1 {
      PowerGap(a / 2, b / 2);
    }
  }

  // At 2^31 buckets the request to grow wraps to 0 and is turned down, which is the case Refused of kh_put.
  lemma GrowthRefused(n: nat, size: nat)
    requires n == WORD / 2 && n <= 2 * size
    ensures Capacity(n + 1) == 4 && size >= Upper(Capacity(n + 1))
  {
    RoundUpIs(n + 1);
  }

  // ---------- A table full of keys ----------

  function Identity(k: Key): Word { k % WORD }

  lemma {:induction false} CountBelow(s: set<nat>, n: nat)
    requires forall i: nat :: i in s <==> i < n
    ensures |s| == n
  {
    if n == 0 {
      assert s == {};
    } else {
      CountBelow(s - {n - 1}, n - 1);
    }
  }

  // A key whose number is its bucket is found at once.
  lemma FoundAtOnce(k: Key, n: nat, flags: seq<Flag>)
    requires 1 < n < WORD && |flags| == n && 0 <= k < n
    ensures Reached(Identity(k), n, flags, k)
  {
    hide PowerOfTwo, Home, Step;
    DivModIs(k, WORD, 0, k);
    DivModIs(k, n, 0, k);
    HomeIs(Identity(k), n);
    assert Bucket(Identity(k), n, 0) == k && AllUsed(Identity(k), n, flags, 0);
  }

  // Each number below n, with itself as its bucket.
  ghost function Numbered(n: nat): (pos: map<Key, nat>)
    ensures forall k :: k in pos <==> 0 <= k < n
    ensures forall k :: k in pos ==> pos[k] == k
  {
    if n == 0 then map[] else Numbered(n - 1)[n - 1 := n - 1]
  }

  ghost function Zeros(n: nat): (m: map<Key, Val>)
    ensures forall k :: k in m <==> 0 <= k < n
    ensures forall k :: k in m ==> m[k] == 0
  {
    if n == 0 then map[] else Zeros(n - 1)[n - 1 := 0]
  }

  // The keys 0, 1, 2, ... each in the bucket of its own number fill a sound table of 2^31 buckets.
  lemma FullTable(n: nat, flags: seq<Flag>, keys: seq<Key>)
    requires n == WORD / 2 && |flags| == |keys| == n
    requires forall i :: 0 <= i < n ==> flags[i] == Live && keys[i] == i
    ensures Sound(Masked, Identity, n, n, n, Upper(n), flags, keys, Numbered(n))
  {
    hide Reached, Identity, Numbered;
    var pos := Numbered(n);
    HighestPower();
    hide PowerOfTwo;
    CountBelow(Used(flags), n);
    UsedSize(flags, keys, Used(flags), pos);
    forall k | k in pos ensures Reached(Identity(k), n, flags, pos[k]) {
      FoundAtOnce(k, n, flags);
    }
  }

  lemma ZerosStand(n: nat, vals: seq<Val>)
    requires |vals| == n && forall i :: 0 <= i < n ==> vals[i] == 0
    ensures StandsFor(Numbered(n), vals, Zeros(n)) && n !in Zeros(n)
  {
    hide Numbered, Zeros;
    forall k: Key ensures k in Numbered(n).Keys <==> k in Zeros(n).Keys {
    }
  }

  method FullArrays(n: nat) returns (flags: array<Flag>, keys: array<Key>, vals: array<Val>)
    requires n == WORD / 2
    ensures flags.Length == keys.Length == vals.Length == n && fresh(flags) && fresh(keys) && fresh(vals)
    ensures flags as object != keys as object && flags as object != vals as object && keys as object != vals as object
    ensures Sound(Masked, Identity, n, n, n, Upper(n), flags[..], keys[..], Numbered(n))
    ensures StandsFor(Numbered(n), vals[..], Zeros(n))
  {
    hide Sound, StandsFor, Numbered, Zeros;
    flags := new Flag[n](i => Live);
    keys := new Key[n](i => i);
    vals := new Val[n](i => 0);
    FullTable(n, flags[..], keys[..]);
    ZerosStand(n, vals[..]);
  }

  // kh_put on such a table: for a key that is not there it reports the bucket of another.
  method PutOverfull() returns (t: KHash, x: nat, ret: nat)
    ensures t.Valid() && t.contents == Zeros(WORD / 2) && WORD / 2 !in t.contents
    ensures ret == 0 && x < t.nBuckets && t.flags[x] == Live && t.keys[x] != WORD / 2
  {
    hide Sound, StandsFor, Numbered, Zeros, KHash.Valid;
    t := new KHash.Overfull();
    x, ret := t.Put(WORD / 2);
  }
}
