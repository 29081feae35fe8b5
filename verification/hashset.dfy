/** The fixed-bucket hash set the kernel uses instead of the standard library's
    (`src/hashset/mod.rs`): a sequence of buckets, each an unordered vector.

    The set is generic in its element type `T`. Elements are compared through a key
    `key: T -> K` (a file is compared by its tag, a flash lock by the whole triple) and
    placed by a hash of that key, so every operation takes `key` and `hash` as
    parameters. */
module HashSet {
  import opened Wrappers

  /** Width of `usize` on the 32-bit target: the hasher's state wraps at this modulus. */
  const WORD: nat := 0x1_0000_0000

  /** One step of `CustomHasher`: `state.overflowing_mul(101).0.overflowing_add(x).0`,
      i.e. two wrapping operations one after the other. */
  function Mix(state: nat, x: nat): (r: nat)
    requires x < WORD
    ensures r < WORD
  {
    ((state * 101) % WORD + x) % WORD
  }

  /** Wrapping after each of the two operations is the same as wrapping once: the state
      is `state * 101 + x` modulo the word size. */
  lemma MixIsAffineModWord(state: nat, x: nat)
    requires x < WORD
    ensures Mix(state, x) == (state * 101 + x) % WORD
  {
    var q := (state * 101) / WORD;
    assert state * 101 == q * WORD + (state * 101) % WORD;
    assert state * 101 + x == q * WORD + ((state * 101) % WORD + x);
    ModAddMultiple(q, (state * 101) % WORD + x);
  }

  lemma ModAddMultiple(q: nat, y: nat)
    ensures (q * WORD + y) % WORD == y % WORD
  {
  }

  /** `CustomHasher::write` on a byte string, starting from `state`. */
  function HashBytes(state: nat, bytes: seq<bv8>): (r: nat)
    requires state < WORD
    ensures r < WORD
    decreases |bytes|
  {
    if bytes == [] then state else HashBytes(Mix(state, bytes[0] as nat), bytes[1..])
  }

  /** Feeding two byte strings one after the other is feeding their concatenation:
      the hasher is a left fold over the bytes. */
  lemma {:induction false} HashBytesAppend(state: nat, a: seq<bv8>, b: seq<bv8>)
    requires state < WORD
    ensures HashBytes(state, a + b) == HashBytes(HashBytes(state, a), b)
    decreases |a|
  {
    if a == [] {
      assert a + b == b;
    } else {
      var next := Mix(state, a[0] as nat);
      assert (a + b)[0] == a[0];
      assert (a + b)[1..] == a[1..] + b;
      HashBytesAppend(next, a[1..], b);
    }
  }

  /** `hash(tag)` for a byte-string tag: the standard library hashes a slice as its
      length (through `write_usize`) followed by its bytes (through `write`). */
  function HashTag(tag: seq<bv8>): (r: nat)
    requires |tag| < WORD
    ensures r < WORD
  {
    HashBytes(Mix(0, |tag|), tag)
  }

  /** A one-byte tag `[b]` hashes to `101 + b`. */
  lemma HashTagOneByte(b: bv8)
    ensures HashTag([b]) == 101 + b as nat
  {
    var x := b as nat;
    var tag := [b];
    assert Mix(0, |tag|) == 1;
    assert tag[1..] == [];
    assert HashBytes(1, tag) == HashBytes(Mix(1, x), []);
    assert Mix(1, x) == 101 + x;
  }

  /** The set: `buckets[h]` holds the elements whose key hashes to `h` modulo the bucket
      count. */
  datatype HashSet<T> = HashSet(buckets: seq<seq<T>>)

  /** Every element stored in the set, wherever it is. */
  function Elements<T(==)>(s: HashSet<T>): set<T>
  {
    set b, i | 0 <= b < |s.buckets| && 0 <= i < |s.buckets[b]| :: s.buckets[b][i]
  }

  /** The set's invariant: at least one bucket, every element in the bucket its key
      hashes to, and no two elements of a bucket with the same key. */
  predicate Valid<T, K(==)>(s: HashSet<T>, key: T -> K, hash: K -> nat)
  {
    && |s.buckets| > 0
    && (forall b, i | 0 <= b < |s.buckets| && 0 <= i < |s.buckets[b]| ::
          hash(key(s.buckets[b][i])) % |s.buckets| == b)
    && (forall b, i, j | 0 <= b < |s.buckets| && 0 <= i < j < |s.buckets[b]| ::
          key(s.buckets[b][i]) != key(s.buckets[b][j]))
  }

  /** In a valid set, two different places hold elements with different keys. */
  lemma KeysDiffer<T, K>(s: HashSet<T>, key: T -> K, hash: K -> nat,
                         b: nat, i: nat, c: nat, j: nat)
    requires Valid(s, key, hash)
    requires b < |s.buckets| && i < |s.buckets[b]|
    requires c < |s.buckets| && j < |s.buckets[c]|
    ensures key(s.buckets[b][i]) == key(s.buckets[c][j]) ==> b == c && i == j
  {
    assert hash(key(s.buckets[b][i])) % |s.buckets| == b;
    assert hash(key(s.buckets[c][j])) % |s.buckets| == c;
    if b == c && j < i {
      assert key(s.buckets[b][j]) != key(s.buckets[b][i]);
    }
  }

  /** In a valid set, a key identifies at most one element. */
  lemma KeyIdentifiesElement<T, K>(s: HashSet<T>, key: T -> K, hash: K -> nat, x: T, y: T)
    requires Valid(s, key, hash)
    requires x in Elements(s) && y in Elements(s)
    requires key(x) == key(y)
    ensures x == y
  {
    var b, i :| 0 <= b < |s.buckets| && 0 <= i < |s.buckets[b]| && s.buckets[b][i] == x;
    var c, j :| 0 <= c < |s.buckets| && 0 <= j < |s.buckets[c]| && s.buckets[c][j] == y;
    KeysDiffer(s, key, hash, b, i, c, j);
  }

  /** `HashSet::new(buckets)`: `buckets` empty vectors; zero buckets is refused by an
      assertion, modelled as the precondition. */
  function New<T, K(==)>(n: nat, key: T -> K, hash: K -> nat): (s: HashSet<T>)
    requires n != 0
    ensures |s.buckets| == n
    ensures Valid(s, key, hash)
    ensures forall b | 0 <= b < |s.buckets| :: s.buckets[b] == []
  {
    HashSet(seq(n, _ => []))
  }

  /** A new set holds nothing. */
  lemma NewIsEmpty<T, K>(n: nat, key: T -> K, hash: K -> nat)
    requires n != 0
    ensures Elements(New(n, key, hash)) == {}
  {
  }

  /** The position of the first element of `xs` at or after `from` whose key is `k`. */
  function Position<T, K(==)>(xs: seq<T>, k: K, key: T -> K, from: nat): (r: Option<nat>)
    requires from <= |xs|
    ensures r.Some? ==> from <= r.value < |xs| && key(xs[r.value]) == k
    ensures r.Some? ==> forall j | from <= j < r.value :: key(xs[j]) != k
    ensures r.None? ==> forall j | from <= j < |xs| :: key(xs[j]) != k
    decreases |xs| - from
  {
    if from == |xs| then None
    else if key(xs[from]) == k then Some(from)
    else Position(xs, k, key, from + 1)
  }

  /** `get(k)`: the element with key `k`, looked up in the bucket `k` hashes to. */
  function Get<T(==), K(==)>(s: HashSet<T>, k: K, key: T -> K, hash: K -> nat): (r: Option<T>)
    requires Valid(s, key, hash)
    ensures r.Some? ==> r.value in Elements(s) && key(r.value) == k
    ensures r.None? ==> forall x | x in Elements(s) :: key(x) != k
  {
    var h := hash(k) % |s.buckets|;
    match Position(s.buckets[h], k, key, 0)
    case Some(i) => Some(s.buckets[h][i])
    case None =>
      assert forall x | x in Elements(s) :: key(x) != k by {
        forall x | x in Elements(s) ensures key(x) != k {
          var b, i :| 0 <= b < |s.buckets| && 0 <= i < |s.buckets[b]| && s.buckets[b][i] == x;
          assert hash(key(x)) % |s.buckets| == b;
        }
      }
      None
  }

  /** `insert(v)`: added at the end of its bucket unless an element with the same key is
      already present, in which case nothing changes and the answer is `false`. */
  function Insert<T(==), K(==)>(s: HashSet<T>, v: T, key: T -> K, hash: K -> nat): (r: (HashSet<T>, bool))
    requires Valid(s, key, hash)
    ensures Valid(r.0, key, hash)
    ensures r.1 <==> forall x | x in Elements(s) :: key(x) != key(v)
    ensures r.1 ==> Elements(r.0) == Elements(s) + {v}
    ensures !r.1 ==> r.0 == s
  {
    var h := hash(key(v)) % |s.buckets|;
    match Position(s.buckets[h], key(v), key, 0)
    case Some(i) =>
      assert s.buckets[h][i] in Elements(s);
      (s, false)
    case None =>
      var s' := HashSet(s.buckets[h := s.buckets[h] + [v]]);
      InsertElements(s, h, v, s');
      assert forall x | x in Elements(s) :: key(x) != key(v) by {
        forall x | x in Elements(s) ensures key(x) != key(v) {
          var b, i :| 0 <= b < |s.buckets| && 0 <= i < |s.buckets[b]| && s.buckets[b][i] == x;
          assert hash(key(x)) % |s.buckets| == b;
        }
      }
      (s', true)
  }

  lemma InsertElements<T>(s: HashSet<T>, h: nat, v: T, s': HashSet<T>)
    requires h < |s.buckets|
    requires s' == HashSet(s.buckets[h := s.buckets[h] + [v]])
    ensures Elements(s') == Elements(s) + {v}
  {
    assert s'.buckets[h][|s.buckets[h]|] == v;
    forall x | x in Elements(s) ensures x in Elements(s') {
      var b, i :| 0 <= b < |s.buckets| && 0 <= i < |s.buckets[b]| && s.buckets[b][i] == x;
      assert s'.buckets[b][i] == x;
    }
  }

  /** `Vec::swap_remove(i)`: the last element takes the place of the removed one. */
  function SwapRemove<T>(xs: seq<T>, i: nat): (r: seq<T>)
    requires i < |xs|
    ensures |r| == |xs| - 1
    ensures forall j | 0 <= j < |r| && j != i :: r[j] == xs[j]
    ensures i < |r| ==> r[i] == xs[|xs| - 1]
  {
    xs[i := xs[|xs| - 1]][..|xs| - 1]
  }

  /** `take(k)`: removes and returns the element with key `k`, if there is one. */
  function Take<T(==), K(==)>(s: HashSet<T>, k: K, key: T -> K, hash: K -> nat): (r: (HashSet<T>, Option<T>))
    requires Valid(s, key, hash)
    ensures Valid(r.0, key, hash)
    ensures r.1.Some? ==> r.1.value in Elements(s) && key(r.1.value) == k
    ensures r.1.Some? ==> Elements(r.0) == Elements(s) - {r.1.value}
    ensures r.1.None? ==> r.0 == s && forall x | x in Elements(s) :: key(x) != k
    ensures forall x | x in Elements(r.0) :: key(x) != k
  {
    var h := hash(k) % |s.buckets|;
    match Position(s.buckets[h], k, key, 0)
    case Some(i) =>
      var s' := HashSet(s.buckets[h := SwapRemove(s.buckets[h], i)]);
      TakeElements(s, key, hash, h, i, s');
      (s', Some(s.buckets[h][i]))
    case None =>
      assert forall x | x in Elements(s) :: key(x) != k by {
        forall x | x in Elements(s) ensures key(x) != k {
          var b, i :| 0 <= b < |s.buckets| && 0 <= i < |s.buckets[b]| && s.buckets[b][i] == x;
          assert hash(key(x)) % |s.buckets| == b;
        }
      }
      (s, None)
  }

  lemma TakeElements<T, K>(s: HashSet<T>, key: T -> K, hash: K -> nat, h: nat, i: nat, s': HashSet<T>)
    requires Valid(s, key, hash)
    requires h < |s.buckets| && i < |s.buckets[h]|
    requires s' == HashSet(s.buckets[h := SwapRemove(s.buckets[h], i)])
    ensures Valid(s', key, hash)
    ensures Elements(s') == Elements(s) - {s.buckets[h][i]}
    ensures forall x | x in Elements(s') :: key(x) != key(s.buckets[h][i])
  {
    var v := s.buckets[h][i];
    var last := |s.buckets[h]| - 1;
    forall b, j | 0 <= b < |s'.buckets| && 0 <= j < |s'.buckets[b]|
      ensures key(s'.buckets[b][j]) != key(v)
      ensures s'.buckets[b][j] in Elements(s)
    {
      var j0: nat := if b == h && j == i then last else j;
      assert s'.buckets[b][j] == s.buckets[b][j0];
      KeysDiffer(s, key, hash, b, j0, h, i);
    }
    forall b, j, l | 0 <= b < |s'.buckets| && 0 <= j < l < |s'.buckets[b]|
      ensures key(s'.buckets[b][j]) != key(s'.buckets[b][l])
    {
      var j0: nat := if b == h && j == i then last else j;
      var l0: nat := if b == h && l == i then last else l;
      assert s'.buckets[b][j] == s.buckets[b][j0];
      assert s'.buckets[b][l] == s.buckets[b][l0];
      KeysDiffer(s, key, hash, b, j0, b, l0);
    }
    forall x | x in Elements(s) && x != v ensures x in Elements(s') {
      var b, j :| 0 <= b < |s.buckets| && 0 <= j < |s.buckets[b]| && s.buckets[b][j] == x;
      if b == h && j == last {
        assert s'.buckets[h][i] == x;
      } else {
        assert s'.buckets[b][j] == x;
      }
    }
  }

  /** `remove(v)`: whether an element equal to `v` was present (and is now gone). */
  function Remove<T(==), K(==)>(s: HashSet<T>, v: T, key: T -> K, hash: K -> nat): (r: (HashSet<T>, bool))
    requires Valid(s, key, hash)
    ensures Valid(r.0, key, hash)
    ensures r.1 <==> exists x | x in Elements(s) :: key(x) == key(v)
    ensures forall x | x in Elements(r.0) :: key(x) != key(v)
    ensures Elements(r.0) <= Elements(s)
    ensures forall x | x in Elements(s) && key(x) != key(v) :: x in Elements(r.0)
  {
    var (s', t) := Take(s, key(v), key, hash);
    (s', t.Some?)
  }

  /** Taking the same key twice: the second take finds nothing. */
  lemma TakeTwice<T, K>(s: HashSet<T>, k: K, key: T -> K, hash: K -> nat)
    requires Valid(s, key, hash)
    ensures Take(Take(s, k, key, hash).0, k, key, hash).1 == None
  {
  }

  /** Inserting an element and then taking its key gives the element back and restores
      the set's contents. */
  lemma InsertThenTake<T, K>(s: HashSet<T>, v: T, key: T -> K, hash: K -> nat)
    requires Valid(s, key, hash)
    requires forall x | x in Elements(s) :: key(x) != key(v)
    ensures var t := Take(Insert(s, v, key, hash).0, key(v), key, hash);
            t.1 == Some(v) && Elements(t.0) == Elements(s)
  {
    var s1 := Insert(s, v, key, hash).0;
    var t := Take(s1, key(v), key, hash);
    assert v in Elements(s1);
    assert t.1.Some?;
    KeyIdentifiesElement(s1, key, hash, v, t.1.value);
    assert v !in Elements(s);
  }

  // ---------------------------------------------------------------------------------
  // Iteration

  /** One call of the iterator's `next` from cursor (`bucket`, `ptr`): the element at the
      cursor and the advanced cursor, skipping exhausted buckets. */
  function Next<T>(s: HashSet<T>, bucket: nat, ptr: nat): (r: Option<(T, nat, nat)>)
    ensures r.Some? ==> bucket <= r.value.1 < |s.buckets|
    ensures r.Some? ==> 0 < r.value.2 <= |s.buckets[r.value.1]|
    ensures r.Some? ==> r.value.0 == s.buckets[r.value.1][r.value.2 - 1]
    ensures r.Some? && r.value.1 == bucket ==> r.value.2 == ptr + 1
    decreases |s.buckets| - bucket
  {
    if bucket >= |s.buckets| then None
    else if ptr >= |s.buckets[bucket]| then Next(s, bucket + 1, 0)
    else Some((s.buckets[bucket][ptr], bucket, ptr + 1))
  }

  function Remaining<T>(s: HashSet<T>, bucket: nat, ptr: nat): nat
  {
    if bucket < |s.buckets| && ptr < |s.buckets[bucket]| then |s.buckets[bucket]| - ptr else 0
  }

  /** Everything the iterator yields from cursor (`bucket`, `ptr`) until `next` returns
      `None`. */
  function Iterate<T>(s: HashSet<T>, bucket: nat, ptr: nat): seq<T>
    decreases |s.buckets| - bucket, Remaining(s, bucket, ptr)
  {
    match Next(s, bucket, ptr)
    case None => []
    case Some((x, b, p)) => [x] + Iterate(s, b, p)
  }

  /** The buckets from `b` on, concatenated. */
  function FlattenFrom<T>(bs: seq<seq<T>>, b: nat): seq<T>
    decreases |bs| - b
  {
    if b >= |bs| then [] else bs[b] + FlattenFrom(bs, b + 1)
  }

  /** From any cursor, the iterator yields the rest of the current bucket and then every
      later bucket in order. */
  lemma {:induction false} IterateFrom<T>(s: HashSet<T>, bucket: nat, ptr: nat)
    requires bucket < |s.buckets| ==> ptr <= |s.buckets[bucket]|
    ensures Iterate(s, bucket, ptr)
            == (if bucket < |s.buckets| then s.buckets[bucket][ptr..] + FlattenFrom(s.buckets, bucket + 1) else [])
    decreases |s.buckets| - bucket, Remaining(s, bucket, ptr)
  {
    if bucket >= |s.buckets| {
    } else if ptr >= |s.buckets[bucket]| {
      assert Next(s, bucket, ptr) == Next(s, bucket + 1, 0);
      assert Iterate(s, bucket, ptr) == Iterate(s, bucket + 1, 0);
      IterateFrom(s, bucket + 1, 0);
      assert s.buckets[bucket][ptr..] == [];
      if bucket + 1 < |s.buckets| {
        assert s.buckets[bucket + 1][0..] == s.buckets[bucket + 1];
      }
    } else {
      IterateFrom(s, bucket, ptr + 1);
      assert s.buckets[bucket][ptr..] == [s.buckets[bucket][ptr]] + s.buckets[bucket][ptr + 1..];
    }
  }

  predicate Distinct<T(==)>(xs: seq<T>)
  {
    forall i, j | 0 <= i < j < |xs| :: xs[i] != xs[j]
  }

  lemma DistinctAppend<T>(a: seq<T>, b: seq<T>)
    requires Distinct(a) && Distinct(b)
    requires forall x | x in a :: x !in b
    ensures Distinct(a + b)
  {
    forall i, j | 0 <= i < j < |a + b| ensures (a + b)[i] != (a + b)[j] {
      if j < |a| {
      } else if i >= |a| {
        assert (a + b)[i] == b[i - |a|] && (a + b)[j] == b[j - |a|];
      } else {
        assert (a + b)[i] == a[i] && (a + b)[j] == b[j - |a|];
        assert a[i] in a;
      }
    }
  }

  /** The elements of the buckets from `b` on are distinct, and are exactly the stored
      elements that live in those buckets. */
  lemma {:induction false} FlattenFromContents<T, K>(s: HashSet<T>, key: T -> K, hash: K -> nat, b: nat)
    requires Valid(s, key, hash)
    ensures Distinct(FlattenFrom(s.buckets, b))
    ensures forall x | x in FlattenFrom(s.buckets, b) ::
              b <= hash(key(x)) % |s.buckets| && x in Elements(s)
    ensures forall c, i | b <= c < |s.buckets| && 0 <= i < |s.buckets[c]| ::
              s.buckets[c][i] in FlattenFrom(s.buckets, b)
    decreases |s.buckets| - b
  {
    if b < |s.buckets| {
      FlattenFromContents(s, key, hash, b + 1);
      var bk := s.buckets[b];
      var rest := FlattenFrom(s.buckets, b + 1);
      assert FlattenFrom(s.buckets, b) == bk + rest;
      forall x | x in bk ensures x !in rest && b <= hash(key(x)) % |s.buckets| && x in Elements(s) {
        var i :| 0 <= i < |bk| && bk[i] == x;
        assert hash(key(s.buckets[b][i])) % |s.buckets| == b;
      }
      forall i, j | 0 <= i < j < |bk| ensures bk[i] != bk[j] {
        assert key(s.buckets[b][i]) != key(s.buckets[b][j]);
      }
      DistinctAppend(bk, rest);
      forall c, i | b <= c < |s.buckets| && 0 <= i < |s.buckets[c]|
        ensures s.buckets[c][i] in FlattenFrom(s.buckets, b)
      {
        if c == b {
          assert s.buckets[c][i] == bk[i];
        }
      }
    }
  }

  /** A full iteration yields every stored element exactly once, and nothing else. */
  lemma IterateYieldsEachOnce<T, K>(s: HashSet<T>, key: T -> K, hash: K -> nat)
    requires Valid(s, key, hash)
    ensures Distinct(Iterate(s, 0, 0))
    ensures forall x :: x in Iterate(s, 0, 0) <==> x in Elements(s)
  {
    IterateFrom(s, 0, 0);
    assert s.buckets[0][0..] == s.buckets[0];
    assert Iterate(s, 0, 0) == FlattenFrom(s.buckets, 0);
    FlattenFromContents(s, key, hash, 0);
  }
}
