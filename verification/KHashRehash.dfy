/**
 The in-place rehash of kh_resize: one pair of key and value arrays holds the old layout and the new
 one at once, and a key stored on top of a pending one kicks it out.
 */
module KHashRehash {
  import opened Probing
  import opened KHashTheory

  // The working state: the two flag arrays over the shared keys and values, and where the keys are that
  // still wait in the old layout (oldPos) or have been moved to the new one (newPos).
  datatype Layout = Layout(flags: seq<Flag>, flags2: seq<Flag>, keys: seq<Key>, vals: seq<Val>,
                                 oldPos: map<Key, nat>, newPos: map<Key, nat>)

  // The keys still waiting are exactly those of the live buckets of the old layout, none of which lies beyond
  // the key array.
  ghost predicate Waiting(flags: seq<Flag>, keys: seq<Key>, vals: seq<Val>, oldPos: map<Key, nat>, m: map<Key, Val>) {
    && |keys| == |vals|
    && (forall k :: k in oldPos ==> oldPos[k] < |flags| && flags[oldPos[k]] == Live && oldPos[k] < |keys|)
    && (forall k :: k in oldPos ==> keys[oldPos[k]] == k && k in m && vals[oldPos[k]] == m[k])
    && (forall i :: 0 <= i < |flags| && flags[i] == Live ==>
          i < |keys| && keys[i] in oldPos && oldPos[keys[i]] == i)
  }

  // The keys already moved sit in the new layout with their values.
  ghost predicate Moved(hash: Key -> Word, n2: nat, flags2: seq<Flag>, keys: seq<Key>, vals: seq<Val>,
                        newPos: map<Key, nat>, m: map<Key, Val>) {
    && Table(hash, n2, flags2, keys, newPos) && |keys| == |vals|
    && (forall k :: k in newPos ==> k in m && vals[newPos[k]] == m[k])
    && (forall i :: 0 <= i < n2 ==> flags2[i] != Deleted)
  }

  ghost predicate NoClash(flags: seq<Flag>, flags2: seq<Flag>) {
    forall i :: 0 <= i < |flags| && i < |flags2| && flags[i] == Live ==> flags2[i] == Empty
  }

  // Both layouts are in order and do not clash.
  ghost predicate Moving(hash: Key -> Word, n2: nat, s: Layout, m: map<Key, Val>) {
    match s
    case Layout(flags, flags2, keys, vals, oldPos, newPos) =>
      && Waiting(flags, keys, vals, oldPos, m) && Moved(hash, n2, flags2, keys, vals, newPos, m)
      && NoClash(flags, flags2) && oldPos.Keys !! newPos.Keys
  }

  // Every key of m is somewhere.
  ghost predicate Complete(s: Layout, m: map<Key, Val>) {
    s.oldPos.Keys + s.newPos.Keys == m.Keys
  }

  // The key in hand between two kicks: neither pending nor moved, and with it every key accounted for.
  ghost predicate InHand(s: Layout, m: map<Key, Val>, key: Key, val: Val) {
    match s
    case Layout(_, _, _, _, oldPos, newPos) =>
      && key in m && val == m[key] && key !in oldPos && key !in newPos
      && oldPos.Keys + newPos.Keys + {key} == m.Keys
  }

  // Bucket i of the old layout gives up its key.
  function TakenOut(s: Layout, i: nat): Layout
    requires i < |s.flags| && i < |s.keys|
  {
    s.(flags := s.flags[i := Deleted], oldPos := s.oldPos - {s.keys[i]})
  }

  // Bucket i of the new layout receives a key.
  function PutIn(s: Layout, i: nat, key: Key, val: Val): Layout
    requires i < |s.flags2| && i < |s.keys| && i < |s.vals|
  {
    s.(flags2 := s.flags2[i := Live], keys := s.keys[i := key], vals := s.vals[i := val], newPos := s.newPos[key := i])
  }

  // No bucket of s' is live that was not live in s.
  ghost predicate Drained(s: Layout, s': Layout) {
    |s.flags| == |s'.flags| && forall i :: 0 <= i < |s.flags| && s.flags[i] != Live ==> s'.flags[i] != Live
  }

  ghost predicate DrainedTo(s: Layout, j: nat) {
    j <= |s.flags| && forall i :: 0 <= i < j ==> s.flags[i] != Live
  }

  lemma DrainedNext(s: Layout, s': Layout, j: nat)
    requires DrainedTo(s, j) && Drained(s, s') && j < |s.flags| && s'.flags[j] != Live
    ensures DrainedTo(s', j + 1)
  {
  }

  lemma StillDrained(s: Layout, s': Layout, j: nat)
    requires Drained(s, s') && j < |s.flags| && s.flags[j] != Live
    ensures j < |s'.flags| && s'.flags[j] != Live
  {
  }

  lemma DrainedOn(s: Layout, s1: Layout, s2: Layout)
    requires Drained(s, s1) && Drained(s1, s2)
    ensures Drained(s, s2)
  {
  }

  lemma WaitingLess(flags: seq<Flag>, keys: seq<Key>, vals: seq<Val>, oldPos: map<Key, nat>, m: map<Key, Val>, i: nat)
    requires Waiting(flags, keys, vals, oldPos, m) && i < |flags| && flags[i] == Live
    ensures keys[i] in oldPos && keys[i] in m && vals[i] == m[keys[i]]
    ensures Waiting(flags[i := Deleted], keys, vals, oldPos - {keys[i]}, m)
    ensures |oldPos - {keys[i]}| < |oldPos| && oldPos.Keys == (oldPos - {keys[i]}).Keys + {keys[i]}
  {
    var k := keys[i];
    assert k in oldPos;
    assert oldPos.Keys == (oldPos - {k}).Keys + {k};
  }

  // A bucket with nothing waiting in it may be overwritten.
  lemma WaitingKept(flags: seq<Flag>, keys: seq<Key>, vals: seq<Val>, oldPos: map<Key, nat>, m: map<Key, Val>,
                    i: nat, key: Key, val: Val)
    requires Waiting(flags, keys, vals, oldPos, m) && i < |keys| && (i < |flags| ==> flags[i] != Live)
    ensures Waiting(flags, keys[i := key], vals[i := val], oldPos, m)
  {
  }

  lemma MovedMore(hash: Key -> Word, n2: nat, flags2: seq<Flag>, keys: seq<Key>, vals: seq<Val>,
                  newPos: map<Key, nat>, m: map<Key, Val>, i: nat, key: Key)
    requires Moved(hash, n2, flags2, keys, vals, newPos, m) && key in m && key !in newPos
    requires i < n2 && flags2[i] == Empty && Reached(hash(key), n2, flags2, i)
    ensures Moved(hash, n2, flags2[i := Live], keys[i := key], vals[i := m[key]], newPos[key := i], m)
    ensures newPos[key := i].Keys == newPos.Keys + {key}
  {
    TableStore(hash, n2, flags2, keys, newPos, key, i);
  }

  lemma TakeOut(hash: Key -> Word, n2: nat, s: Layout, m: map<Key, Val>, i: nat)
    requires Moving(hash, n2, s, m) && i < |s.flags| && s.flags[i] == Live && i < |s.keys|
    ensures s.keys[i] in s.oldPos && s.keys[i] !in s.newPos && s.keys[i] in m && s.vals[i] == m[s.keys[i]]
    ensures |s.flags2| == n2 <= |s.keys| == |s.vals|
    ensures Moving(hash, n2, TakenOut(s, i), m) && |TakenOut(s, i).oldPos| < |s.oldPos|
    ensures s.oldPos.Keys == TakenOut(s, i).oldPos.Keys + {s.keys[i]} && s.keys[i] !in TakenOut(s, i).oldPos
    ensures Drained(s, TakenOut(s, i))
  {
    hide Waiting, Moved;
    MovingShape(hash, n2, s, m);
    WaitingLess(s.flags, s.keys, s.vals, s.oldPos, m, i);
  }

  lemma MovingShape(hash: Key -> Word, n2: nat, s: Layout, m: map<Key, Val>)
    requires Moving(hash, n2, s, m)
    ensures |s.flags2| == n2 <= |s.keys| == |s.vals|
    ensures forall i :: 0 <= i < |s.flags| && s.flags[i] == Live ==> i < |s.keys|
  {
  }

  // The key taken out first.
  lemma TakenInHand(s: Layout, m: map<Key, Val>, i: nat)
    requires Complete(s, m) && i < |s.flags| && i < |s.keys| == |s.vals|
    requires s.keys[i] in s.oldPos && s.keys[i] !in s.newPos && s.keys[i] in m && s.vals[i] == m[s.keys[i]]
    ensures InHand(TakenOut(s, i), m, s.keys[i], s.vals[i])
  {
    assert s.oldPos.Keys == TakenOut(s, i).oldPos.Keys + {s.keys[i]};
  }

  lemma PutFree(hash: Key -> Word, n2: nat, s: Layout, m: map<Key, Val>, i: nat, key: Key, val: Val)
    requires Moving(hash, n2, s, m) && key in m && val == m[key] && key !in s.oldPos && key !in s.newPos
    requires |s.flags2| == n2 && |s.keys| == |s.vals|
    requires i < n2 <= |s.keys| && s.flags2[i] == Empty && Suited(n2) && Reached(hash(key), n2, s.flags2, i)
    requires i < |s.flags| ==> s.flags[i] != Live
    ensures Moving(hash, n2, PutIn(s, i, key, val), m)
    ensures PutIn(s, i, key, val).newPos.Keys == s.newPos.Keys + {key} && Drained(s, PutIn(s, i, key, val))
    ensures InHand(s, m, key, val) ==> Complete(PutIn(s, i, key, val), m)
  {
    WaitingKept(s.flags, s.keys, s.vals, s.oldPos, m, i, key, val);
    MovedMore(hash, n2, s.flags2, s.keys, s.vals, s.newPos, m, i, key);
  }

  lemma HandOver(s: Layout, m: map<Key, Val>, i: nat, key: Key, val: Val)
    requires InHand(s, m, key, val) && i < |s.flags| && i < |s.flags2| && i < |s.keys| == |s.vals|
    requires var k := s.keys[i]; k in s.oldPos && k !in s.newPos && k in m && s.vals[i] == m[k]
    ensures InHand(PutIn(TakenOut(s, i), i, key, val), m, s.keys[i], s.vals[i])
  {
    var k, s' := s.keys[i], PutIn(TakenOut(s, i), i, key, val);
    assert s.oldPos.Keys == s'.oldPos.Keys + {k};
    assert s'.newPos.Keys == s.newPos.Keys + {key};
  }

  // A kick: the key in hand takes the place of a pending one, which is in hand next.
  lemma Kick(hash: Key -> Word, n2: nat, s: Layout, m: map<Key, Val>, i: nat, key: Key, val: Val)
    requires Moving(hash, n2, s, m) && InHand(s, m, key, val) && i < |s.flags| && s.flags[i] == Live
    requires key in m && val == m[key] && key !in s.oldPos && key !in s.newPos
    requires |s.flags2| == n2 && |s.keys| == |s.vals|
    requires i < n2 <= |s.keys| && s.flags2[i] == Empty && Suited(n2) && Reached(hash(key), n2, s.flags2, i)
    ensures var s' := PutIn(TakenOut(s, i), i, key, val);
      Moving(hash, n2, s', m) && InHand(s', m, s.keys[i], s.vals[i]) && |s'.oldPos| < |s.oldPos| && Drained(s, s')
  {
    hide Moving, Drained, Reached, Complete, InHand;
    TakeOut(hash, n2, s, m, i);
    var s1 := TakenOut(s, i);
    PutFree(hash, n2, s1, m, i, key, val);
    HandOver(s, m, i, key, val);
    DrainedOn(s, s1, PutIn(s1, i, key, val));
  }

  // While a key is in hand the new layout is not full.
  lemma RoomInHand(hash: Key -> Word, n2: nat, s: Layout, m: map<Key, Val>, key: Key, val: Val)
    requires Moving(hash, n2, s, m) && InHand(s, m, key, val) && |m| < n2
    ensures |Used(s.flags2)| < n2 == |s.flags2| && Suited(n2) && |s.keys| == |s.vals|
    ensures key in m && val == m[key] && key !in s.oldPos && key !in s.newPos
  {
    hide Reached, NoClash;
    ProperSubset(s.newPos.Keys, m.Keys);
    MovedSize(hash, n2, s, m);
    assert |s.newPos| == |s.newPos.Keys| && |m| == |m.Keys|;
  }

  lemma MovedSize(hash: Key -> Word, n2: nat, s: Layout, m: map<Key, Val>)
    requires Moving(hash, n2, s, m)
    ensures |Used(s.flags2)| == |s.newPos|
  {
    hide Reached, Waiting, NoClash, Suited;
    UsedSize(s.flags2, s.keys, Used(s.flags2), s.newPos);
  }

  lemma ProperSubset(a: set<Key>, b: set<Key>)
    requires a < b
    ensures |a| < |b|
  {
    assert b == a + (b - a);
  }

  // Once the old layout has no live bucket, every key is in the new one.
  lemma AllMoved(hash: Key -> Word, n2: nat, s: Layout, m: map<Key, Val>)
    requires Moving(hash, n2, s, m) && Complete(s, m) && DrainedTo(s, |s.flags|)
    ensures s.newPos.Keys == m.Keys && |Used(s.flags2)| == |m|
  {
    forall k | k in s.oldPos ensures false {}
    assert s.oldPos.Keys + s.newPos.Keys == s.newPos.Keys;
    MovedSize(hash, n2, s, m);
    assert |s.newPos| == |s.newPos.Keys| && |m| == |m.Keys|;
  }

  // The state in which the rehash starts.
  lemma Prepared(hash: Key -> Word, n: nat, n2: nat, size: nat, keys: seq<Key>, vals: seq<Val>, s: Layout,
                 m: map<Key, Val>)
    requires |s.flags| == n && Placed(n, s.flags, keys, s.oldPos) && |s.oldPos| == size
    requires StandsFor(s.oldPos, vals, m)
    requires |vals| == |keys| == n && Suited(n2) && s.newPos == map[]
    requires |s.flags2| == n2 <= |s.keys| == |s.vals|
    requires forall i :: |s.keys| <= i < n ==> s.flags[i] != Live
    requires forall i :: 0 <= i < n2 ==> s.flags2[i] == Empty
    requires forall i :: 0 <= i < n && i < |s.keys| ==> s.keys[i] == keys[i] && s.vals[i] == vals[i]
    ensures Moving(hash, n2, s, m) && Complete(s, m) && |m| == size
  {
    hide Waiting, Moved, Placed, Suited, StandsFor;
    PreparedOld(n, size, s.flags, keys, vals, s.oldPos, s.keys, s.vals, m);
    PreparedNew(hash, n2, s.flags2, s.keys, s.vals, m);
  }

  lemma PreparedOld(n: nat, size: nat, flags: seq<Flag>, keys: seq<Key>, vals: seq<Val>, pos: map<Key, nat>,
                    keys': seq<Key>, vals': seq<Val>, m: map<Key, Val>)
    requires |flags| == n && Placed(n, flags, keys, pos) && |pos| == size && StandsFor(pos, vals, m)
    requires |vals| == |keys| == n && |keys'| == |vals'|
    requires forall i :: |keys'| <= i < n ==> flags[i] != Live
    requires forall i :: 0 <= i < n && i < |keys'| ==> keys'[i] == keys[i] && vals'[i] == vals[i]
    ensures Waiting(flags, keys', vals', pos, m) && m.Keys == pos.Keys && |m| == size
    ensures |flags| == n
  {
    assert |m| == |m.Keys| && |pos| == |pos.Keys|;
  }

  lemma PreparedNew(hash: Key -> Word, n2: nat, flags2: seq<Flag>, keys: seq<Key>, vals: seq<Val>, m: map<Key, Val>)
    requires Suited(n2) && |flags2| == n2 <= |keys| == |vals|
    requires forall i :: 0 <= i < n2 ==> flags2[i] == Empty
    ensures Moved(hash, n2, flags2, keys, vals, map[], m)
  {
  }

  // The state in which it ends.
  lemma Finished(hash: Key -> Word, n2: nat, s: Layout, keys: seq<Key>, vals: seq<Val>, m: map<Key, Val>)
    requires Moving(hash, n2, s, m) && s.newPos.Keys == m.Keys && |Used(s.flags2)| == |m|
    requires |keys| == |vals| == n2 <= |s.keys|
    requires forall i :: 0 <= i < n2 ==> keys[i] == s.keys[i] && vals[i] == s.vals[i]
    ensures Table(hash, n2, s.flags2, keys, s.newPos) && |s.newPos| == |m| && StandsFor(s.newPos, vals, m)
  {
    hide Waiting, Used, Reached, PowerOfTwo, Suited, NoClash;
    assert |m| == |m.Keys| && |s.newPos| == |s.newPos.Keys|;
  }

  // ---------- What the rehash makes ----------

  // The first never-used bucket of the search for k.
  ghost predicate IsSpot(k: Word, n2: nat, flags2: seq<Flag>, i: nat) {
    n2 > 1 && |flags2| == n2 && i < n2 && flags2[i] == Empty && Reached(k, n2, flags2, i)
  }

  lemma OneSpot(k: Word, n2: nat, flags2: seq<Flag>, i: nat, i': nat)
    requires IsSpot(k, n2, flags2, i) && IsSpot(k, n2, flags2, i')
    ensures i == i'
  {
    hide Bucket;
    var j: nat :| Bucket(k, n2, j) == i && AllUsed(k, n2, flags2, j);
    var j': nat :| Bucket(k, n2, j') == i' && AllUsed(k, n2, flags2, j');
    if j < j' {
      AllUsedAt(k, n2, flags2, j', j);
    } else if j' < j {
      AllUsedAt(k, n2, flags2, j, j');
    }
  }

  ghost function Spot(k: Word, n2: nat, flags2: seq<Flag>): nat {
    if exists i: nat :: IsSpot(k, n2, flags2, i) then
      var i: nat :| IsSpot(k, n2, flags2, i);
      i
    else n2
  }

  lemma SpotIs(k: Word, n2: nat, flags2: seq<Flag>, i: nat)
    requires IsSpot(k, n2, flags2, i)
    ensures Spot(k, n2, flags2) == i
  {
    OneSpot(k, n2, flags2, i, Spot(k, n2, flags2));
  }

  // A key in hand goes to its first free bucket. If a key still waits there, that one goes on in the same way.
  ghost function Settled(hash: Key -> Word, n2: nat, s: Layout, key: Key, val: Val): (r: Layout)
    ensures |r.flags| == |s.flags|
    decreases |s.oldPos|
  {
    var i := Spot(hash(key), n2, s.flags2);
    if i >= |s.flags2| || i >= |s.keys| || i >= |s.vals| then s
    else if i < |s.flags| && s.flags[i] == Live && s.keys[i] in s.oldPos then
      Fewer(s.oldPos, s.keys[i]);
      Settled(hash, n2, PutIn(TakenOut(s, i), i, key, val), s.keys[i], s.vals[i])
    else PutIn(s, i, key, val)
  }

  lemma Fewer(pos: map<Key, nat>, k: Key)
    requires k in pos
    ensures |pos - {k}| < |pos|
  {
    assert pos.Keys == (pos - {k}).Keys + {k};
    assert |pos| == |pos.Keys| && |pos - {k}| == |(pos - {k}).Keys|;
  }

  // The old buckets from j on give up their keys one after the other.
  ghost function Rehashed(hash: Key -> Word, n2: nat, s: Layout, j: nat): Layout
    decreases |s.flags| - j
  {
    if j >= |s.flags| then s
    else if s.flags[j] == Live && j < |s.keys| && j < |s.vals| then
      Rehashed(hash, n2, Settled(hash, n2, TakenOut(s, j), s.keys[j], s.vals[j]), j + 1)
    else Rehashed(hash, n2, s, j + 1)
  }

  lemma RehashedNext(hash: Key -> Word, n2: nat, s: Layout, j: nat)
    requires j < |s.flags| && (s.flags[j] == Live ==> j < |s.keys| && j < |s.vals|)
    ensures Rehashed(hash, n2, s, j) == Rehashed(hash, n2, if s.flags[j] == Live then
        Settled(hash, n2, TakenOut(s, j), s.keys[j], s.vals[j]) else s, j + 1)
  {
    hide Settled;
  }

  lemma RehashedEnd(hash: Key -> Word, n2: nat, s: Layout)
    ensures Rehashed(hash, n2, s, |s.flags|) == s
  {
  }

  lemma SettledFree(hash: Key -> Word, n2: nat, s: Layout, key: Key, val: Val, i: nat)
    requires IsSpot(hash(key), n2, s.flags2, i) && i < |s.keys| == |s.vals| && (i < |s.flags| ==> s.flags[i] != Live)
    ensures Settled(hash, n2, s, key, val) == PutIn(s, i, key, val)
  {
    hide Spot, Reached;
    SpotIs(hash(key), n2, s.flags2, i);
  }

  lemma SettledKick(hash: Key -> Word, n2: nat, s: Layout, key: Key, val: Val, i: nat)
    requires IsSpot(hash(key), n2, s.flags2, i) && i < |s.keys| == |s.vals| && i < |s.flags| && s.flags[i] == Live
    requires i < |s.flags2| && s.keys[i] in s.oldPos
    ensures Settled(hash, n2, s, key, val)
         == Settled(hash, n2, PutIn(TakenOut(s, i), i, key, val), s.keys[i], s.vals[i])
  {
    hide IsSpot, Spot;
    SpotIs(hash(key), n2, s.flags2, i);
  }

  lemma IsTheSpot(k: Word, n2: nat, flags2: seq<Flag>, i: nat)
    requires n2 > 1 && |flags2| == n2 && i < n2 && flags2[i] == Empty && Reached(k, n2, flags2, i)
    ensures IsSpot(k, n2, flags2, i)
  {
  }

  lemma WaitsThere(hash: Key -> Word, n2: nat, s: Layout, m: map<Key, Val>, i: nat)
    requires Moving(hash, n2, s, m) && i < |s.flags| && s.flags[i] == Live && i < |s.keys|
    ensures s.keys[i] in s.oldPos
  {
    TakeOut(hash, n2, s, m, i);
  }

  // The innermost loop of kh_resize: the first never-used bucket of the search.
  method FindFree(k: Word, n2: nat, flags2: array<Flag>) returns (i: nat)
    requires Suited(n2) && flags2.Length == n2 && |Used(flags2[..])| < n2
    ensures n2 > 1 && i < n2 && flags2[i] == Empty && Reached(k, n2, flags2[..], i)
  {
    ghost var G := flags2[..];
    i := Home(k, n2);
    var inc := Step(k, n2);
    ghost var j: nat := 0;
    assert Bucket(k, n2, 0) == i;
    NoWrap(k, n2, G, 0);
    while flags2[i] != Empty
      invariant G == flags2[..] && i == Bucket(k, n2, j) && AllUsed(k, n2, G, j) && j < n2
      decreases n2 - j
    {
      BucketNext(k, n2, j);
      i := Next(i, inc, n2);
      j := j + 1;
      NoWrap(k, n2, G, j);
    }
  }

  // The arrays spell out the working state.
  ghost predicate Spells(s: Layout, flags: array<Flag>, flags2: array<Flag>, keys: array<Key>, vals: array<Val>)
    reads flags, flags2, keys, vals
  {
    match s
    case Layout(f, f2, k, v, _, _) =>
      && flags != flags2 && keys != vals && f == flags[..] && f2 == flags2[..] && k == keys[..] && v == vals[..]
  }

  // One round of the kick-out process.
  method KickOut(hash: Key -> Word, n2: nat, flags: array<Flag>, flags2: array<Flag>,
                                   keys: array<Key>, vals: array<Val>, key: Key, val: Val, ghost s: Layout,
                                   ghost m: map<Key, Val>)
    returns (done: bool, key': Key, val': Val, ghost s': Layout)
    requires Spells(s, flags, flags2, keys, vals) && |m| < n2 <= |s.keys|
    requires Moving(hash, n2, s, m) && InHand(s, m, key, val)
    modifies flags, flags2, keys, vals
    ensures Spells(s', flags, flags2, keys, vals) && Moving(hash, n2, s', m) && Drained(s, s') && |s'.keys| == |s.keys|
    ensures if done then Complete(s', m) else InHand(s', m, key', val') && |s'.oldPos| < |s.oldPos|
    ensures Settled(hash, n2, s, key, val) == if done then s' else Settled(hash, n2, s', key', val')
  {
    hide Moving, InHand, Complete, Reached, Drained, Used, Suited, Settled, IsSpot;
    RoomInHand(hash, n2, s, m, key, val);
    var i := FindFree(hash(key), n2, flags2);
    IsTheSpot(hash(key), n2, s.flags2, i);
    flags2[i] := Live;
    key', val' := keys[i], vals[i];
    keys[i] := key;
    vals[i] := val;
    assert flags2[..] == s.flags2[i := Live] && flags[..] == s.flags;
    assert keys[..] == s.keys[i := key];
    assert vals[..] == s.vals[i := val];
    if i < flags.Length && flags[i] == Live {
      Kick(hash, n2, s, m, i, key, val);
      WaitsThere(hash, n2, s, m, i);
      SettledKick(hash, n2, s, key, val, i);
      ghost var G, Q, V := flags2[..], keys[..], vals[..];
      flags[i] := Deleted;
      assert flags[..] == s.flags[i := Deleted] && flags2[..] == G && keys[..] == Q && vals[..] == V;
      done, s' := false, PutIn(TakenOut(s, i), i, key, val);
    } else {
      PutFree(hash, n2, s, m, i, key, val);
      SettledFree(hash, n2, s, key, val, i);
      done, s' := true, PutIn(s, i, key, val);
    }
  }

  // The kick-out process started by the key pending in bucket j.
  method MoveChain(hash: Key -> Word, n2: nat, flags: array<Flag>, flags2: array<Flag>,
                                     keys: array<Key>, vals: array<Val>, j: nat, ghost s: Layout,
                                     ghost m: map<Key, Val>)
    returns (ghost s': Layout)
    requires Spells(s, flags, flags2, keys, vals) && |m| < n2 <= |s.keys| && j < |s.flags| && s.flags[j] == Live
    requires Moving(hash, n2, s, m) && Complete(s, m) && j < |s.keys| == |s.vals|
    modifies flags, flags2, keys, vals
    ensures Spells(s', flags, flags2, keys, vals) && Moving(hash, n2, s', m) && Complete(s', m)
    ensures Drained(s, s') && s'.flags[j] != Live
    ensures s' == Settled(hash, n2, TakenOut(s, j), s.keys[j], s.vals[j])
  {
    hide Moving, InHand, Complete, Drained, Settled;
    TakeOut(hash, n2, s, m, j);
    TakenInHand(s, m, j);
    var key, val := keys[j], vals[j];
    flags[j] := Deleted;
    s' := TakenOut(s, j);
    assert flags[..] == s'.flags;
    ghost var end := Settled(hash, n2, s', key, val);
    var done := false;
    while !done
      invariant Spells(s', flags, flags2, keys, vals) && Moving(hash, n2, s', m)
      invariant if done then Complete(s', m) else InHand(s', m, key, val)
      invariant end == if done then s' else Settled(hash, n2, s', key, val)
      invariant Drained(s, s') && s'.flags[j] != Live && |s'.keys| == |s.keys|
      decreases !done, |s'.oldPos|
    {
      ghost var s1 := s';
      done, key, val, s' := KickOut(hash, n2, flags, flags2, keys, vals, key, val, s', m);
      DrainedOn(s, s1, s');
      StillDrained(s1, s', j);
    }
  }

  // The outer loop of kh_resize.
  method Rehash(hash: Key -> Word, n2: nat, flags: array<Flag>, flags2: array<Flag>,
                                  keys: array<Key>, vals: array<Val>, ghost s: Layout, ghost m: map<Key, Val>)
    returns (ghost s': Layout)
    requires Spells(s, flags, flags2, keys, vals) && |m| < n2 <= |s.keys|
    requires Moving(hash, n2, s, m) && Complete(s, m)
    modifies flags, flags2, keys, vals
    ensures Spells(s', flags, flags2, keys, vals) && Moving(hash, n2, s', m)
    ensures s'.newPos.Keys == m.Keys && |Used(s'.flags2)| == |m| && s' == Rehashed(hash, n2, s, 0)
  {
    hide Settled, Rehashed, Moving, Complete, Drained, Used;
    s' := s;
    for j := 0 to flags.Length
      invariant Spells(s', flags, flags2, keys, vals) && Moving(hash, n2, s', m) && Complete(s', m)
      invariant |s'.keys| == |s.keys| && DrainedTo(s', j) && Rehashed(hash, n2, s', j) == Rehashed(hash, n2, s, 0)
    {
      MovingShape(hash, n2, s', m);
      RehashedNext(hash, n2, s', j);
      if flags[j] == Live {
        ghost var s0 := s';
        s' := MoveChain(hash, n2, flags, flags2, keys, vals, j, s', m);
        DrainedNext(s0, s', j);
      } else {
        DrainedNext(s', s', j);
      }
    }
    RehashedEnd(hash, n2, s');
    AllMoved(hash, n2, s', m);
  }
}
