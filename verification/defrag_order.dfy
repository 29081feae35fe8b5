/** The order in which `write` (`src/fs/mod.rs`) defragments sectors when no sector has room
    for a block: the sectors other than the two reserved ones that hold some dead data
    (`next_block != valid_size`), sorted with the stable `sort_by_key` by the key
    `(1 << 15) * next_block / valid_size` (`usize::MAX` for a sector without valid data),
    then tried from the last one back. The stable sort of sectors listed by increasing id
    orders them by key, and sectors of equal key by id. */
module DefragOrder {
  import Store
  import Codec

  // ---------------------------------------------------------------------------------
  // A stable sort of ids by a key

  /** Every id has a key. */
  predicate Keyed(keys: seq<int>, xs: seq<nat>)
  {
    forall i | 0 <= i < |xs| :: xs[i] < |keys|
  }

  /** Id `a` comes before id `b`: a smaller key, or the same key and a smaller id. */
  predicate Before(keys: seq<int>, a: nat, b: nat)
    requires a < |keys| && b < |keys|
  {
    keys[a] < keys[b] || (keys[a] == keys[b] && a < b)
  }

  /** Sorted by key, ties broken by id. */
  predicate Ordered(keys: seq<int>, xs: seq<nat>)
    requires Keyed(keys, xs)
  {
    forall i, j | 0 <= i < j < |xs| :: Before(keys, xs[i], xs[j])
  }

  /** Strictly increasing ids. */
  predicate Ascending(xs: seq<nat>)
  {
    forall i, j | 0 <= i < j < |xs| :: xs[i] < xs[j]
  }

  /** One step of the stable insertion sort: `x` goes before the first id whose key is not
      smaller. */
  function Insert(keys: seq<int>, x: nat, xs: seq<nat>): (r: seq<nat>)
    requires Keyed(keys, xs) && x < |keys|
    ensures |r| == |xs| + 1 && multiset(r) == multiset(xs) + multiset{x} && Keyed(keys, r)
  {
    if xs == [] then [x]
    else if keys[x] <= keys[xs[0]] then [x] + xs
    else
      var rest := Insert(keys, x, xs[1..]);
      assert xs == [xs[0]] + xs[1..];
      [xs[0]] + rest
  }

  /** `sort_by_key` (a stable sort), as an insertion sort from the back of the list. */
  function SortByKey(keys: seq<int>, xs: seq<nat>): (r: seq<nat>)
    requires Keyed(keys, xs)
    ensures |r| == |xs| && multiset(r) == multiset(xs) && Keyed(keys, r)
  {
    if xs == [] then []
    else
      assert xs == [xs[0]] + xs[1..];
      Insert(keys, xs[0], SortByKey(keys, xs[1..]))
  }

  /** Inserting an id smaller than all the others into an ordered list keeps it ordered. */
  lemma {:induction false} InsertOrdered(keys: seq<int>, x: nat, xs: seq<nat>)
    requires Keyed(keys, xs) && x < |keys| && Ordered(keys, xs)
    requires forall i | 0 <= i < |xs| :: x < xs[i]
    ensures Ordered(keys, Insert(keys, x, xs))
  {
    if xs != [] && keys[x] > keys[xs[0]] {
      InsertOrdered(keys, x, xs[1..]);
      var rest := Insert(keys, x, xs[1..]);
      forall j | 0 <= j < |rest| ensures Before(keys, xs[0], rest[j]) {
        assert rest[j] in multiset(rest);
        assert rest[j] in multiset(xs[1..]) + multiset{x};
        if rest[j] != x {
          var k :| 0 <= k < |xs[1..]| && xs[1..][k] == rest[j];
          assert Before(keys, xs[0], xs[k + 1]);
        }
      }
    }
  }

  /** Sorting ids given in increasing order orders them by key, then by id: the stable sort
      keeps ids of equal key in the order they came. */
  lemma {:induction false} SortOrdered(keys: seq<int>, xs: seq<nat>)
    requires Keyed(keys, xs) && Ascending(xs)
    ensures Ordered(keys, SortByKey(keys, xs))
  {
    if xs != [] {
      SortOrdered(keys, xs[1..]);
      var sorted := SortByKey(keys, xs[1..]);
      forall i | 0 <= i < |sorted| ensures xs[0] < sorted[i] {
        assert sorted[i] in multiset(xs[1..]);
        var k :| 0 <= k < |xs[1..]| && xs[1..][k] == sorted[i];
        assert xs[0] < xs[k + 1];
      }
      InsertOrdered(keys, xs[0], sorted);
    }
  }

  /** Two nonempty lists ordered by the same keys, holding the same ids, start alike: each
      starts with the id that comes before all the others. */
  lemma HeadsAgree(keys: seq<int>, xs: seq<nat>, ys: seq<nat>)
    requires Keyed(keys, xs) && Keyed(keys, ys) && Ordered(keys, xs) && Ordered(keys, ys)
    requires xs != [] && ys != [] && multiset(xs) == multiset(ys)
    ensures xs[0] == ys[0]
  {
    assert xs[0] in multiset(ys) && ys[0] in multiset(xs);
    var i :| 0 <= i < |ys| && ys[i] == xs[0];
    var j :| 0 <= j < |xs| && xs[j] == ys[0];
  }

  /** Two lists ordered by the same keys, holding the same ids, are the same list: the
      order the sort gives does not depend on how the ids came. */
  lemma {:induction false} OrderedUnique(keys: seq<int>, xs: seq<nat>, ys: seq<nat>)
    requires Keyed(keys, xs) && Keyed(keys, ys) && Ordered(keys, xs) && Ordered(keys, ys)
    requires multiset(xs) == multiset(ys)
    ensures xs == ys
  {
    if xs == [] || ys == [] {
      assert |multiset(xs)| == |xs| && |multiset(ys)| == |ys|;
    } else {
      HeadsAgree(keys, xs, ys);
      assert multiset(xs[1..]) == multiset(ys[1..]) by {
        assert xs == [xs[0]] + xs[1..] && ys == [ys[0]] + ys[1..];
        assert multiset(xs) == multiset([xs[0]]) + multiset(xs[1..]);
        assert multiset(ys) == multiset([ys[0]]) + multiset(ys[1..]);
        forall x ensures multiset(xs[1..])[x] == multiset(ys[1..])[x] {
          assert multiset(xs)[x] == multiset([xs[0]])[x] + multiset(xs[1..])[x];
          assert multiset(ys)[x] == multiset([ys[0]])[x] + multiset(ys[1..])[x];
        }
      }
      OrderedUnique(keys, xs[1..], ys[1..]);
      assert xs == [xs[0]] + xs[1..] && ys == [ys[0]] + ys[1..];
    }
  }

  // ---------------------------------------------------------------------------------
  // The sectors of a store

  /** The sectors `write` may defragment: neither reserved sector, and some dead data. */
  predicate ToDefragment(fs: Store.Fs, s: nat)
    requires Store.Wf(fs) && s < |fs.mem|
  {
    s != fs.defrag && s != fs.applet && fs.nextBlocks[s] != fs.validSizes[s]
  }

  /** The largest `usize` of the 32-bit targets. */
  const USIZE_MAX: int := Codec.USIZE_LIMIT - 1

  /** The sort key of a sector: the room it takes on flash per byte of valid data, scaled by
      2^15; a sector without valid data sorts last. */
  function Key(fs: Store.Fs, s: nat): int
    requires Store.Wf(fs) && s < |fs.mem|
  {
    if fs.validSizes[s] == 0 then USIZE_MAX else (32768 * fs.nextBlocks[s]) / fs.validSizes[s]
  }

  /** The keys of all sectors. */
  function Keys(fs: Store.Fs): (r: seq<int>)
    requires Store.Wf(fs)
    ensures |r| == |fs.mem| && forall s | 0 <= s < |fs.mem| :: r[s] == Key(fs, s)
  {
    seq(|fs.mem|, s requires 0 <= s < |fs.mem| => Key(fs, s))
  }

  /** The `filter` of `sector_ids()`, from sector `from` on. */
  function Filtered(fs: Store.Fs, from: nat): (r: seq<nat>)
    requires Store.Wf(fs) && from <= |fs.mem|
    ensures Ascending(r) && forall i | 0 <= i < |r| :: from <= r[i] < |fs.mem|
    ensures forall s | from <= s < |fs.mem| :: s in r <==> ToDefragment(fs, s)
    decreases |fs.mem| - from
  {
    if from == |fs.mem| then []
    else if ToDefragment(fs, from) then [from] + Filtered(fs, from + 1)
    else Filtered(fs, from + 1)
  }

  /** The sectors `write` defragments, in the order it tries them from the back. */
  function Order(fs: Store.Fs): (r: seq<nat>)
    requires Store.Wf(fs)
    ensures Keyed(Keys(fs), r) && Ordered(Keys(fs), r)
    ensures forall s | 0 <= s < |fs.mem| :: s in r <==> ToDefragment(fs, s)
    ensures forall i | 0 <= i < |r| :: r[i] < |fs.mem| && ToDefragment(fs, r[i])
  {
    var ids := Filtered(fs, 0);
    var r := SortByKey(Keys(fs), ids);
    SortOrdered(Keys(fs), ids);
    forall s | 0 <= s < |fs.mem| ensures s in r <==> s in ids {
      assert s in r <==> s in multiset(r);
    }
    forall i | 0 <= i < |r| ensures r[i] < |fs.mem| && ToDefragment(fs, r[i]) {
      assert r[i] in multiset(ids);
    }
    r
  }
}
