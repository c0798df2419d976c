/**
 The circular buffer behind tw_safeCircular: what its indices mean, in either direction, and what each
 lock-protected section does to the sequence it stands for.
 */
module CircularTheory {

  type T = int

  // The fields read and written under the lock. cnt is the semaphore's count: the free places.
  datatype Ring = Ring(size: nat, cnt: int, nextIn: int, nextOut: int, reversed: bool, data: seq<T>)

  // nextNextIn and nextNextOut: one place on, in the current direction.
  function NextPlace(p: int, size: int, reversed: bool): int {
    if reversed then (if p - 1 < 0 then size - 1 else p - 1)
    else (if p + 1 >= size then 0 else p + 1)
  }

  // The place of item number j, counted from nextOut.
  function Place(p: int, size: int, reversed: bool, j: int): int {
    if reversed then (if p - j < 0 then p - j + size else p - j)
    else (if p + j >= size then p + j - size else p + j)
  }

  function Remain(r: Ring): int { r.size - r.cnt }

  // The count is in range, the indices lie in the array, and nextIn is the place of the last item: with
  // nothing in the buffer it is the place before nextOut, or -1 as the constructor left it.
  ghost predicate Sound(r: Ring) {
    && 0 <= r.cnt <= r.size == |r.data| && (r.size > 0 ==> 0 <= r.nextOut < r.size)
    && if r.nextIn == -1 then r.cnt == r.size && !r.reversed && r.nextOut == 0
       else && 0 <= r.nextIn < r.size
            && NextPlace(r.nextIn, r.size, r.reversed) == Place(r.nextOut, r.size, r.reversed, Remain(r))
  }

  // The items, oldest first.
  ghost function Items(r: Ring): (s: seq<T>)
    requires Sound(r)
    ensures |s| == Remain(r)
    ensures forall j :: 0 <= j < |s| ==> s[j] == r.data[Place(r.nextOut, r.size, r.reversed, j)]
  {
    seq(Remain(r), j requires 0 <= j < Remain(r) => r.data[Place(r.nextOut, r.size, r.reversed, j)])
  }

  // What follows a successful acquire: the item goes to the next place in.
  function Put(r: Ring, d: T): Ring
    requires Sound(r) && r.cnt > 0
  {
    var n := NextPlace(r.nextIn, r.size, r.reversed);
    r.(cnt := r.cnt - 1, nextIn := n, data := r.data[n := d])
  }

  // remove, and the path of removeOrBlock that does not wait: an emptied buffer starts over.
  function TakeAndReset(r: Ring): Ring
    requires Sound(r) && Remain(r) > 0
  {
    if Remain(r) == 1 then r.(cnt := r.cnt + 1, nextIn := -1, nextOut := 0, reversed := false)
    else r.(cnt := r.cnt + 1, nextOut := NextPlace(r.nextOut, r.size, r.reversed))
  }

  // The path of removeOrBlock behind a wait: the emptiness test comes before the release, so it never
  // holds there and the indices stay where they are.
  function TakeAfterWait(r: Ring): Ring
    requires Sound(r) && Remain(r) > 0
  {
    r.(cnt := r.cnt + 1, nextOut := NextPlace(r.nextOut, r.size, r.reversed))
  }

  // reverse
  function Flip(r: Ring): Ring
    requires Sound(r)
  {
    if Remain(r) < 1 then r else r.(reversed := !r.reversed, nextIn := r.nextOut, nextOut := r.nextIn)
  }

  // clear: the count and the indices go back to their first values.
  function Cleared(r: Ring): Ring { r.(cnt := r.size, nextIn := -1, nextOut := 0, reversed := false) }

  function Reversed(s: seq<T>): (r: seq<T>)
    ensures |r| == |s| && forall j :: 0 <= j < |s| ==> r[j] == s[|s| - 1 - j]
  {
    if s == [] then [] else Reversed(s[1..]) + [s[0]]
  }

  lemma SoundEmpty(size: nat, data: seq<T>)
    requires |data| == size
    ensures var r := Ring(size, size, -1, 0, false, data); Sound(r) && Items(r) == []
  {
  }

  lemma PutItems(r: Ring, d: T)
    requires Sound(r) && r.cnt > 0
    ensures Sound(Put(r, d)) && Items(Put(r, d)) == Items(r) + [d]
  {
    var r' := Put(r, d);
    assert Sound(r');
    assert r'.nextIn == Place(r.nextOut, r.size, r.reversed, Remain(r));
  }

  lemma TakeItems(r: Ring)
    requires Sound(r) && Remain(r) > 0
    ensures Sound(TakeAndReset(r)) && Items(TakeAndReset(r)) == Items(r)[1..]
    ensures Sound(TakeAfterWait(r)) && Items(TakeAfterWait(r)) == Items(r)[1..]
    ensures 0 <= r.nextOut < r.size && Items(r)[0] == r.data[r.nextOut]
  {
  }

  // The place of the last item, seen the other way round.
  lemma PlaceFlip(p: int, q: int, size: int, reversed: bool, k: int, j: int)
    requires 0 <= p < size && 0 <= q < size && 0 < k <= size && 0 <= j < k
    requires NextPlace(q, size, reversed) == Place(p, size, reversed, k)
    ensures Place(q, size, !reversed, j) == Place(p, size, reversed, k - 1 - j)
  {
    if reversed {
      assert q == if p - (k - 1) < 0 then p - (k - 1) + size else p - (k - 1);
    } else {
      assert q == if p + (k - 1) >= size then p + (k - 1) - size else p + (k - 1);
    }
  }

  lemma FlipItems(r: Ring)
    requires Sound(r)
    ensures Sound(Flip(r)) && Items(Flip(r)) == Reversed(Items(r))
  {
    var k := Remain(r);
    if k >= 1 {
      FlipEnds(r.nextOut, r.nextIn, r.size, r.reversed, k);
      var r' := Flip(r);
      forall j | 0 <= j < k ensures Items(r')[j] == Items(r)[k - 1 - j] {
        PlaceFlip(r.nextOut, r.nextIn, r.size, r.reversed, k, j);
      }
    }
  }

  lemma FlipEnds(p: int, q: int, size: int, reversed: bool, k: int)
    requires 0 <= p < size && 0 <= q < size && 0 < k <= size &&
      NextPlace(q, size, reversed) == Place(p, size, reversed, k)
    ensures NextPlace(p, size, !reversed) == Place(q, size, !reversed, k)
  {
    PlaceFlip(p, q, size, reversed, k, k - 1);
  }
}
