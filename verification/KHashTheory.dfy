/**
 The abstract side of khash: bucket flags, probe sequences, and what it means for the arrays of an
 open-addressing table to hold exactly the keys of a map. It serves both tables: khash, with a power of
 two of buckets, and khash2, with a prime number of them.
 */
module KHashTheory {
  import opened Probing

  // Keys and values are opaque to the table: of keys it uses only equality and the hash. Integers stand
  // for any such types.
  type Key = int
  type Val = int

  // The two flag bits of a bucket: never used, deleted, or in use.
  datatype Flag = Empty | Deleted | Live

  // The numbers of buckets for which the searches are made.
  ghost predicate Suited(n: nat) {
    n > 1 && (PowerOfTwo(n) || Prime(n))
  }

  // The first bucket of a search: k & mask in khash, k % m in khash2.
  function Home(k: Word, n: nat): nat
    requires n > 1
  {
    if PowerOfTwo(n) then And(k, n - 1) else k % n
  }

  // The step of a search: __ac_inc(k, mask) in khash, 1 + k % (m - 1) in khash2.
  function Step(k: Word, n: nat): nat
    requires n > 1
  {
    if PowerOfTwo(n) then And(OrOne(Xor(k / 8, (k * 8) % WORD)), n - 1) else 1 + k % (n - 1)
  }

  // The bucket after i: (i + inc) & mask in khash, i + inc or i + inc - m in khash2.
  function Next(i: nat, inc: nat, n: nat): nat
    requires n > 1
  {
    if PowerOfTwo(n) then And(i + inc, n - 1) else if i + inc >= n then i + inc - n else i + inc
  }

  lemma HalfOf(n: nat)
    requires PowerOfTwo(n) && n > 1
    ensures n == 2 * (n / 2) && n / 2 > 0
  {
  }

  lemma NextIs(i: nat, inc: nat, n: nat)
    requires n > 1 && i < n && inc < n
    ensures Next(i, inc, n) == (i + inc) % n
  {
    hide PowerOfTwo;
    if PowerOfTwo(n) {
      AndMask(i + inc, n);
    } else if i + inc >= n {
      DivModIs(i + inc, n, 1, i + inc - n);
    } else {
      DivModIs(i + inc, n, 0, i + inc);
    }
  }

  lemma HomeIs(k: Word, n: nat)
    requires n > 1
    ensures Home(k, n) == k % n < n
  {
    if PowerOfTwo(n) {
      AndMask(k, n);
    }
  }

  // Either way of choosing the step reaches every bucket.
  lemma StepCovers(k: Word, n: nat)
    requires Suited(n)
    ensures Home(k, n) < n && Step(k, n) < n && Covering(Step(k, n), n)
  {
    hide And, Xor, Covering, PowerOfTwo, Prime;
    HomeIs(k, n);
    if PowerOfTwo(n) {
      MaskedCovers(Xor(k / 8, (k * 8) % WORD), n);
    } else {
      PrimeCovers(1 + k % (n - 1), n);
    }
  }

  lemma MaskedCovers(y: nat, n: nat)
    requires PowerOfTwo(n) && n > 1
    ensures And(OrOne(y), n - 1) < n && Covering(And(OrOne(y), n - 1), n)
  {
    hide And, Covering, PowerOfTwo;
    HalfOf(n);
    AndMask(OrOne(y), n);
    OddMod(OrOne(y), n / 2);
    OddCovers(OrOne(y) % n, n);
  }

  // Bucket number j of the search for a key with hash k.
  function Bucket(k: Word, n: nat, j: nat): (b: nat)
    requires n > 1
    ensures b < n
  {
    HomeIs(k, n);
    Probe(Home(k, n), Step(k, n), n, j)
  }

  // The code's own step from one bucket to the next.
  lemma BucketNext(k: Word, n: nat, j: nat)
    requires Suited(n)
    ensures Bucket(k, n, j + 1) == Next(Bucket(k, n, j), Step(k, n), n)
  {
    StepCovers(k, n);
    NextIs(Bucket(k, n, j), Step(k, n), n);
  }

  // Bucket b is met before any never-used bucket.
  ghost predicate Reached(k: Word, n: nat, flags: seq<Flag>, b: nat)
    requires n > 1 && |flags| == n
  {
    exists j: nat :: Bucket(k, n, j) == b && AllUsed(k, n, flags, j)
  }

  // The first j buckets of the search have been used.
  ghost predicate AllUsed(k: Word, n: nat, flags: seq<Flag>, j: nat)
    requires n > 1 && |flags| == n
  {
    forall i: nat :: i < j ==> flags[Bucket(k, n, i)] != Empty
  }

  // The live buckets are exactly the keys of pos, each where pos says and each within reach.
  ghost predicate Table(hash: Key -> Word, n: nat, flags: seq<Flag>, keys: seq<Key>, pos: map<Key, nat>) {
    && Suited(n) && |flags| == n <= |keys|
    && (forall k :: k in pos ==>
          pos[k] < n && flags[pos[k]] == Live && keys[pos[k]] == k && Reached(hash(k), n, flags, pos[k]))
    && (forall i :: 0 <= i < n && flags[i] == Live ==> keys[i] in pos && pos[keys[i]] == i)
  }

  // No live bucket among the first j of the search holds the key.
  ghost predicate Unmatched(k: Word, n: nat, flags: seq<Flag>, keys: seq<Key>, key: Key, j: nat)
    requires n > 1 && |flags| == n <= |keys|
  {
    forall i: nat :: i < j ==> !(flags[Bucket(k, n, i)] == Live && keys[Bucket(k, n, i)] == key)
  }

  lemma UnmatchedAt(k: Word, n: nat, flags: seq<Flag>, keys: seq<Key>, key: Key, j: nat, i: nat)
    requires n > 1 && |flags| == n <= |keys| && Unmatched(k, n, flags, keys, key, j) && i < j
    ensures !(flags[Bucket(k, n, i)] == Live && keys[Bucket(k, n, i)] == key)
  {
  }

  lemma AllUsedAt(k: Word, n: nat, flags: seq<Flag>, j: nat, i: nat)
    requires n > 1 && |flags| == n && AllUsed(k, n, flags, j) && i < j
    ensures flags[Bucket(k, n, i)] != Empty
  {
  }

  // A search that has passed over every bucket, or has come to a never-used one, proves absence.
  lemma SearchEnds(hash: Key -> Word, n: nat, flags: seq<Flag>, keys: seq<Key>, pos: map<Key, nat>, key: Key, j: nat)
    requires Table(hash, n, flags, keys, pos) && Unmatched(hash(key), n, flags, keys, key, j)
    requires j >= n || flags[Bucket(hash(key), n, j)] == Empty
    ensures key !in pos
  {
    if key in pos {
      var k := hash(key);
      assert Reached(k, n, flags, pos[key]);
      var d: nat :| Bucket(k, n, d) == pos[key] && AllUsed(k, n, flags, d);
      if d < j {
        UnmatchedAt(k, n, flags, keys, key, j, d);
      } else if j < n {
        if j < d { AllUsedAt(k, n, flags, d, j); }
      } else {
        StepCovers(k, n);
        var e := Coverage(Home(k, n), Step(k, n), n, pos[key]);
        UnmatchedAt(k, n, flags, keys, key, j, e);
      }
    }
  }

  // One step of a search past a bucket that does not hold the key.
  lemma SearchStep(k: Word, n: nat, flags: seq<Flag>, keys: seq<Key>, key: Key, j: nat)
    requires Suited(n) && |flags| == n <= |keys| && j < n && Unmatched(k, n, flags, keys, key, j)
    requires flags[Bucket(k, n, j)] == Deleted || keys[Bucket(k, n, j)] != key
    ensures Unmatched(k, n, flags, keys, key, j + 1)
    ensures Next(Bucket(k, n, j), Step(k, n), n) == Bucket(k, n, j + 1)
    ensures Bucket(k, n, j + 1) == Home(k, n) <==> j + 1 == n
  {
    StepCovers(k, n);
    BucketNext(k, n, j);
    FirstReturn(Home(k, n), Step(k, n), n, j + 1);
  }

  // Filling or deleting a bucket hides no other key.
  lemma ReachedKept(k: Word, n: nat, flags: seq<Flag>, flags': seq<Flag>, b: nat)
    requires n > 1 && |flags| == |flags'| == n && Reached(k, n, flags, b)
    requires forall i :: 0 <= i < n && flags[i] != Empty ==> flags'[i] != Empty
    ensures Reached(k, n, flags', b)
  {
    var j: nat :| Bucket(k, n, j) == b && AllUsed(k, n, flags, j);
    assert AllUsed(k, n, flags', j);
  }

  // ---------- Where a new key goes ----------

  // The search passes over j used buckets, and then over none: it has come to a never-used one, or round.
  ghost predicate Stops(k: Word, n: nat, flags: seq<Flag>, j: nat)
    requires n > 1 && |flags| == n
  {
    j <= n && AllUsed(k, n, flags, j) && (j < n ==> flags[Bucket(k, n, j)] == Empty)
  }

  // Bucket x is the last deleted one among the first j of the search.
  ghost predicate LastDeleted(k: Word, n: nat, flags: seq<Flag>, j: nat, x: nat)
    requires n > 1 && |flags| == n
  {
    exists d: nat :: d < j && Bucket(k, n, d) == x && flags[x] == Deleted
      && forall i: nat :: d < i < j ==> flags[Bucket(k, n, i)] != Deleted
  }

  // A new key goes into the last deleted bucket on its way, or if there is none into the never-used one at its end.
  ghost predicate Lands(k: Word, n: nat, flags: seq<Flag>, x: nat)
    requires n > 1 && |flags| == n
  {
    exists j: nat :: Stops(k, n, flags, j) &&
      if NoneDeleted(k, n, flags, j) then j < n && x == Bucket(k, n, j) else LastDeleted(k, n, flags, j, x)
  }

  lemma LandsThere(k: Word, n: nat, flags: seq<Flag>, x: nat)
    requires n > 1 && |flags| == n && Lands(k, n, flags, x)
    ensures x < n && flags[x] != Live && Reached(k, n, flags, x)
  {
    hide Bucket;
    var j: nat :| Stops(k, n, flags, j) &&
      if NoneDeleted(k, n, flags, j) then j < n && x == Bucket(k, n, j) else LastDeleted(k, n, flags, j, x);
    if !NoneDeleted(k, n, flags, j) {
      var d: nat :| d < j && Bucket(k, n, d) == x && flags[x] == Deleted;
      assert AllUsed(k, n, flags, d);
    }
  }

  // The scan keeps in mind the last deleted bucket it has passed over.
  lemma LastDeletedNext(k: Word, n: nat, flags: seq<Flag>, j: nat, site: nat)
    requires n > 1 && |flags| == n
    requires if site == n then NoneDeleted(k, n, flags, j) else LastDeleted(k, n, flags, j, site)
    ensures var i := Bucket(k, n, j);
      if flags[i] == Deleted then LastDeleted(k, n, flags, j + 1, i)
      else if site == n then NoneDeleted(k, n, flags, j + 1) else LastDeleted(k, n, flags, j + 1, site)
  {
    hide Bucket;
    if site != n {
      var d: nat :| d < j && Bucket(k, n, d) == site && flags[site] == Deleted
        && forall i: nat :: d < i < j ==> flags[Bucket(k, n, i)] != Deleted;
    }
  }

  lemma LandsAt(k: Word, n: nat, flags: seq<Flag>, j: nat, x: nat)
    requires n > 1 && |flags| == n && Stops(k, n, flags, j)
    requires if NoneDeleted(k, n, flags, j) then j < n && x == Bucket(k, n, j) else LastDeleted(k, n, flags, j, x)
    ensures Lands(k, n, flags, x)
  {
  }

  lemma NoneYet(k: Word, n: nat, flags: seq<Flag>)
    requires n > 1 && |flags| == n
    ensures NoneDeleted(k, n, flags, 0)
  {
  }

  lemma SomeDeleted(k: Word, n: nat, flags: seq<Flag>, j: nat, x: nat)
    requires n > 1 && |flags| == n && LastDeleted(k, n, flags, j, x)
    ensures !NoneDeleted(k, n, flags, j)
  {
  }

  // ---------- Counting ----------

  ghost function Used(flags: seq<Flag>): set<nat> {
    set i: nat | i < |flags| && flags[i] != Empty
  }

  lemma UsedUpdate(flags: seq<Flag>, i: nat, f: Flag)
    requires i < |flags| && f != Empty
    ensures Used(flags[i := f]) == Used(flags) + {i}
    ensures |Used(flags[i := f])| == |Used(flags)| + if flags[i] == Empty then 1 else 0
  {
    assert Used(flags[i := f]) == Used(flags) + {i};
    if flags[i] != Empty {
      assert Used(flags) + {i} == Used(flags);
    }
  }

  lemma SomeEmpty(flags: seq<Flag>) returns (b: nat)
    requires |Used(flags)| < |flags|
    ensures b < |flags| && flags[b] == Empty
  {
    if exists b: nat :: b < |flags| && flags[b] == Empty {
      b :| b < |flags| && flags[b] == Empty;
    } else {
      b := 0;
      forall i: nat | i < |flags| ensures i in Used(flags) {}
      AllBelow(Used(flags), |flags|);
      assert false;
    }
  }

  lemma {:induction false} AllBelow(s: set<nat>, n: nat)
    requires forall i: nat :: i < n ==> i in s
    ensures |s| >= n
  {
    if n > 0 {
      AllBelow(s - {n - 1}, n - 1);
    }
  }

  // No deleted bucket is among the first j of the search.
  ghost predicate NoneDeleted(k: Word, n: nat, flags: seq<Flag>, j: nat)
    requires n > 1 && |flags| == n
  {
    forall i: nat :: i < j ==> flags[Bucket(k, n, i)] != Deleted
  }

  // A search that has been all the way round has seen every bucket.
  lemma WholeRound(k: Word, n: nat, flags: seq<Flag>, j: nat)
    requires Suited(n) && |flags| == n && j >= n && AllUsed(k, n, flags, j)
    ensures NoneDeleted(k, n, flags, j) ==> forall b :: 0 <= b < n ==> flags[b] == Live
  {
    if NoneDeleted(k, n, flags, j) {
      forall b: nat | b < n ensures flags[b] == Live {
        StepCovers(k, n);
        var e := Coverage(Home(k, n), Step(k, n), n, b);
        assert flags[Bucket(k, n, e)] != Empty && flags[Bucket(k, n, e)] != Deleted;
      }
    }
  }

  // With a never-used bucket left, a search cannot pass over used ones all the way round.
  lemma NoWrap(k: Word, n: nat, flags: seq<Flag>, j: nat)
    requires Suited(n) && |flags| == n && |Used(flags)| < n && AllUsed(k, n, flags, j)
    ensures j < n
  {
    var b := SomeEmpty(flags);
    StepCovers(k, n);
    var e := Coverage(Home(k, n), Step(k, n), n, b);
    if j >= n {
      AllUsedAt(k, n, flags, j, e);
    }
  }

  // As many used buckets as keys, when every used bucket is live.
  lemma {:induction false} UsedSize(flags: seq<Flag>, keys: seq<Key>, used: set<nat>, pos: map<Key, nat>)
    requires forall i :: i in used ==> i < |keys| && keys[i] in pos && pos[keys[i]] == i
    requires forall k :: k in pos ==> pos[k] in used && keys[pos[k]] == k
    ensures |used| == |pos|
    decreases |pos|
  {
    if used == {} {
      forall k | k in pos ensures false {}
      assert pos.Keys == {};
    } else {
      var i :| i in used;
      var pos' := pos - {keys[i]};
      assert pos'.Keys == pos.Keys - {keys[i]};
      UsedSize(flags, keys, used - {i}, pos');
    }
  }

  // Storing a new key in a bucket that is not live and lies within its reach.
  lemma TableStore(hash: Key -> Word, n: nat, flags: seq<Flag>, keys: seq<Key>, pos: map<Key, nat>, key: Key, x: nat)
    requires Table(hash, n, flags, keys, pos) && key !in pos
    requires x < n && flags[x] != Live && Reached(hash(key), n, flags, x)
    ensures Table(hash, n, flags[x := Live], keys[x := key], pos[key := x])
  {
    var flags', keys', pos' := flags[x := Live], keys[x := key], pos[key := x];
    forall k | k in pos'
      ensures pos'[k] < n && flags'[pos'[k]] == Live && keys'[pos'[k]] == k && Reached(hash(k), n, flags', pos'[k])
    {
      ReachedKept(hash(k), n, flags, flags', pos'[k]);
    }
  }

  lemma TableDelete(hash: Key -> Word, n: nat, flags: seq<Flag>, keys: seq<Key>, pos: map<Key, nat>, x: nat)
    requires Table(hash, n, flags, keys, pos) && x < n && flags[x] == Live
    ensures keys[x] in pos && Table(hash, n, flags[x := Deleted], keys, pos - {keys[x]})
  {
    var flags', pos' := flags[x := Deleted], pos - {keys[x]};
    forall k | k in pos'
      ensures pos'[k] < n && flags'[pos'[k]] == Live && keys[pos'[k]] == k && Reached(hash(k), n, flags', pos'[k])
    {
      ReachedKept(hash(k), n, flags, flags', pos'[k]);
    }
  }

  // (khint_t)(n * 0.77 + 0.5); for the powers of two it is used on, the double arithmetic is exact enough
  // for this to be the same number.
  function Upper(n: nat): nat { (77 * n + 50) / 100 }

  // u is 0.77 n rounded to the nearest integer, and upwards from a half.
  predicate Rounds77(u: nat, n: nat) { 100 * u <= 77 * n + 50 < 100 * (u + 1) }

  // There is room in n buckets for one entry more than these.
  predicate RoomIn(size: nat, n: nat) { 100 * (size + 1) <= 77 * n + 50 }

  lemma UpperIs(n: nat)
    ensures Rounds77(Upper(n), n)
    ensures forall size: nat :: RoomIn(size, n) <==> size < Upper(n)
  {
  }

  // Which of the two tables: khash masks hashes to a power of two, khash2 reduces them modulo a prime.
  datatype Scheme = Masked | Modular

  predicate Least(scheme: Scheme, n: nat) {
    if scheme.Masked? then 4 <= n && PowerOfTwo(n) else 3 <= n && !PowerOfTwo(n)
  }

  predicate CannotGrow(scheme: Scheme, n: nat) { scheme.Masked? && n == WORD / 2 }

  // Everything a table's fields promise, between operations. khash2 clears a table without resetting
  // n_occupied, so that there it only bounds the number of used buckets.
  ghost predicate Sound(scheme: Scheme, hash: Key -> Word, n: nat, size: nat, occupied: nat, upper: nat,
                                 flags: seq<Flag>, keys: seq<Key>, pos: map<Key, nat>) {
    match scheme
    case Masked => occupied == |Used(flags)| && Bounded(scheme, hash, n, size, occupied, upper, flags, keys, pos)
    case Modular => Bounded(scheme, hash, n, size, occupied, upper, flags, keys, pos)
  }

  // A khash table of 2^31 buckets cannot grow, and goes on being filled beyond the bound.
  ghost predicate Bounded(scheme: Scheme, hash: Key -> Word, n: nat, size: nat, occupied: nat, upper: nat,
                                 flags: seq<Flag>, keys: seq<Key>, pos: map<Key, nat>) {
    && n <= WORD / 2 && |flags| == n <= |keys|
    && size == |pos| && |Used(flags)| <= occupied && (occupied <= upper || CannotGrow(scheme, n))
    && (if n == 0 then upper == 0 && pos == map[]
        else Least(scheme, n) && upper == Upper(n) < n && Table(hash, n, flags, keys, pos))
  }

  ghost function Without<V>(m: map<Key, V>, key: Key): map<Key, V> { m - {key} }

  // The map a table stands for.
  ghost predicate StandsFor(pos: map<Key, nat>, vals: seq<Val>, m: map<Key, Val>) {
    && pos.Keys == m.Keys
    && (forall k :: k in m ==> k in pos && pos[k] < |vals| && vals[pos[k]] == m[k])
  }

  lemma StandsStore(pos: map<Key, nat>, vals: seq<Val>, m: map<Key, Val>, key: Key, x: nat)
    requires StandsFor(pos, vals, m) && x < |vals|
    ensures StandsFor(pos[key := x], vals, m[key := vals[x]])
  {
  }

  ghost predicate StandsInjective(pos: map<Key, nat>, keys: seq<Key>) {
    forall k :: k in pos ==> pos[k] < |keys| && keys[pos[k]] == k
  }

  lemma StandsSet(pos: map<Key, nat>, vals: seq<Val>, m: map<Key, Val>, keys: seq<Key>, key: Key, x: nat, v: Val)
    requires StandsFor(pos, vals, m) && StandsInjective(pos, keys) && x < |vals| && key in pos && pos[key] == x
    ensures StandsFor(pos, vals[x := v], m[key := v])
  {
  }

  lemma StandsDelete(pos: map<Key, nat>, vals: seq<Val>, m: map<Key, Val>, key: Key)
    requires StandsFor(pos, vals, m)
    ensures StandsFor(Without(pos, key), vals, Without(m, key))
  {
  }

  // Each key sits in the live bucket pos names, and every live bucket holds the key pos has there.
  ghost predicate Placed(n: nat, flags: seq<Flag>, keys: seq<Key>, pos: map<Key, nat>) {
    && |flags| == n <= |keys|
    && (forall k :: k in pos ==> pos[k] < n && flags[pos[k]] == Live && keys[pos[k]] == k)
    && (forall i :: 0 <= i < n && flags[i] == Live ==> keys[i] in pos && pos[keys[i]] == i)
  }

  lemma SoundPositions(scheme: Scheme, hash: Key -> Word, n: nat, size: nat, occupied: nat, upper: nat,
                       flags: seq<Flag>, keys: seq<Key>, pos: map<Key, nat>)
    requires Sound(scheme, hash, n, size, occupied, upper, flags, keys, pos)
    ensures Placed(n, flags, keys, pos) && |pos| == size
  {
    hide Reached, PowerOfTwo, Suited, Used;
  }

  // Positions and contents have the same keys, and each sits in its live bucket.
  lemma SoundKeys(scheme: Scheme, hash: Key -> Word, n: nat, size: nat, occupied: nat, upper: nat,
                  flags: seq<Flag>, keys: seq<Key>, pos: map<Key, nat>, vals: seq<Val>, m: map<Key, Val>)
    requires Sound(scheme, hash, n, size, occupied, upper, flags, keys, pos) && StandsFor(pos, vals, m)
    ensures |m| == size && (occupied <= upper || CannotGrow(scheme, n)) && (n > 0 ==> upper < n)
    ensures forall k :: k in pos <==> k in m
    ensures forall k :: k in pos ==> pos[k] < n && flags[pos[k]] == Live && keys[pos[k]] == k
    ensures forall k :: k in pos ==> pos[k] < |vals| && vals[pos[k]] == m[k]
    ensures forall i :: 0 <= i < n && flags[i] == Live ==> keys[i] in pos && pos[keys[i]] == i
  {
    hide Reached, PowerOfTwo, Suited, Used;
    assert |pos| == |pos.Keys| && |m| == |m.Keys|;
    forall k: Key ensures k in pos <==> k in m { assert k in pos.Keys <==> k in m.Keys; }
  }

  lemma SoundCapacity(scheme: Scheme, hash: Key -> Word, n: nat, size: nat, occupied: nat, upper: nat,
                      flags: seq<Flag>, keys: seq<Key>, pos: map<Key, nat>)
    requires Sound(scheme, hash, n, size, occupied, upper, flags, keys, pos)
    ensures size <= occupied && size <= n <= WORD / 2 && (occupied <= upper || CannotGrow(scheme, n))
    ensures if n == 0 then upper == 0 else Least(scheme, n) && Suited(n) && upper == Upper(n) < n
  {
    hide Reached, PowerOfTwo, Suited;
    var live := set i: nat | i < |flags| && flags[i] == Live;
    if n > 0 {
      UsedSize(flags, keys, live, pos);
    }
    SubsetAtMost(live, Used(flags));
    SubsetSize(live, n);
  }

  // The table is full of keys exactly if all its buckets are live.
  lemma SoundFull(scheme: Scheme, hash: Key -> Word, n: nat, size: nat, occupied: nat, upper: nat,
                  flags: seq<Flag>, keys: seq<Key>, pos: map<Key, nat>)
    requires Sound(scheme, hash, n, size, occupied, upper, flags, keys, pos) && n > 0
    ensures size == n <==> forall i :: 0 <= i < n ==> flags[i] == Live
  {
    hide Reached, PowerOfTwo, Suited;
    var live := set i: nat | i < |flags| && flags[i] == Live;
    UsedSize(flags, keys, live, pos);
    if size == n {
      FullSubset(live, n);
      forall i: nat | i < n ensures flags[i] == Live {
        assert i in live;
      }
    } else if forall i :: 0 <= i < n ==> flags[i] == Live {
      AllBelow(live, n);
      SubsetSize(live, n);
    }
  }

  // With as many used buckets as keys no bucket has a deletion mark.
  lemma SoundClean(hash: Key -> Word, n: nat, size: nat, upper: nat, flags: seq<Flag>, keys: seq<Key>,
                   pos: map<Key, nat>)
    requires Sound(Masked, hash, n, size, size, upper, flags, keys, pos) && n > 0
    ensures forall i :: 0 <= i < n ==> flags[i] != Deleted
  {
    hide Reached, PowerOfTwo, Suited;
    var live := set i: nat | i < |flags| && flags[i] == Live;
    UsedSize(flags, keys, live, pos);
    if i: nat :| i < n && flags[i] == Deleted {
      SubsetAtMost(live, Used(flags) - {i});
      assert false;
    }
  }

  lemma SubsetAtMost(a: set<nat>, b: set<nat>)
    requires a <= b
    ensures |a| <= |b|
  {
    assert b == a + (b - a);
  }

  lemma SoundRoom(scheme: Scheme, hash: Key -> Word, n: nat, size: nat, occupied: nat, upper: nat,
                  flags: seq<Flag>, keys: seq<Key>, pos: map<Key, nat>)
    requires Sound(scheme, hash, n, size, occupied, upper, flags, keys, pos)
    requires n > 0 || occupied < upper
    ensures n > 0 && Suited(n)
    ensures forall k :: k in pos ==> pos[k] < n && flags[pos[k]] == Live && keys[pos[k]] == k
  {
    hide Reached, PowerOfTwo, Suited, Used;
  }

  lemma SoundStore(scheme: Scheme, hash: Key -> Word, n: nat, size: nat, occupied: nat, upper: nat,
                            flags: seq<Flag>, keys: seq<Key>, pos: map<Key, nat>, key: Key, x: nat)
    requires Sound(scheme, hash, n, size, occupied, upper, flags, keys, pos) && key !in pos
    requires occupied < upper || CannotGrow(scheme, n)
    requires x < n && Suited(n) && flags[x] != Live && Reached(hash(key), n, flags, x)
    ensures Sound(scheme, hash, n, size + 1, occupied + (if flags[x] == Empty then 1 else 0), upper,
                  flags[x := Live], keys[x := key], pos[key := x])
  {
    TableStore(hash, n, flags, keys, pos, key, x);
    UsedUpdate(flags, x, Live);
    assert pos[key := x].Keys == pos.Keys + {key};
  }

  lemma SoundDelete(scheme: Scheme, hash: Key -> Word, n: nat, size: nat, occupied: nat, upper: nat,
                             flags: seq<Flag>, keys: seq<Key>, pos: map<Key, nat>, x: nat)
    requires Sound(scheme, hash, n, size, occupied, upper, flags, keys, pos) && x < n && flags[x] == Live
    ensures size > 0 && keys[x] in pos && pos[keys[x]] == x
    ensures Sound(scheme, hash, n, size - 1, occupied, upper, flags[x := Deleted], keys, Without(pos, keys[x]))
  {
    TableDelete(hash, n, flags, keys, pos, x);
    UsedUpdate(flags, x, Deleted);
    assert pos.Keys == (pos - {keys[x]}).Keys + {keys[x]};
  }

  lemma SoundNew(scheme: Scheme, hash: Key -> Word, n: nat, size: nat, flags: seq<Flag>, keys: seq<Key>,
                 pos: map<Key, nat>)
    requires Table(hash, n, flags, keys, pos) && Least(scheme, n) && n <= WORD / 2
    requires size == |pos| == |Used(flags)| < Upper(n) < n
    ensures Sound(scheme, hash, n, size, size, Upper(n), flags, keys, pos)
  {
  }

  lemma SoundClear(scheme: Scheme, hash: Key -> Word, n: nat, size: nat, occupied: nat, upper: nat,
                            flags: seq<Flag>, flags': seq<Flag>, keys: seq<Key>, pos: map<Key, nat>)
    requires Sound(scheme, hash, n, size, occupied, upper, flags, keys, pos)
    requires |flags'| == n && forall i :: 0 <= i < n ==> flags'[i] == Empty
    ensures Sound(scheme, hash, n, 0, if scheme.Masked? then 0 else occupied, upper, flags', keys, map[])
  {
    assert Used(flags') == {};
  }
}
