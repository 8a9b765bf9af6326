/** The layout of a hopscotch hash table: which bucket may hold which key, what the neighbourhood bits
    and overflow flags say, and how single updates keep that true. */
module HopscotchLayout {
  import opened Options

  /** What a table asks of its growth policy: the bucket of a hash, the count a constructor rounds a
      request to, and the next count, if there is one. */
  datatype Policy = Policy(
    bucketFor: (nat, nat) -> nat,
    roundUp: nat -> nat,
    next: nat -> Option<nat>,
    max: nat)
  {
    ghost predicate Lawful() {
      && (forall h: nat, c: nat :: bucketFor(h, c) < c || bucketFor(h, c) == 0)
      && (forall c: nat :: c <= max ==> c <= roundUp(c) <= max)
      && (forall c: nat :: next(c).Some? ==> c < next(c).value <= max)
    }
  }

  /** A bucket: its value if it has one, the neighbourhood bits of its home, as the set of the offsets
      that are on, and its overflow flag. NeighborhoodBits relates these to the packed word. */
  datatype Bucket<K, V> = Bucket(value: Option<(K, V)>, neighbors: set<nat>, hasOverflow: bool)
  {
    predicate Empty() { value.None? }
  }

  /** What fixes the place of a key: neighbourhood size, hash, policy and bucket count. */
  datatype Scheme<!K> = Scheme(neighborhood: nat, hash: K -> nat, policy: Policy, count: nat)
  {
    function Home(k: K): nat {
      policy.bucketFor(hash(k), count)
    }
  }

  function Toggle(s: set<nat>, i: nat): (r: set<nat>)
    ensures forall x :: x in r <==> (x in s) != (x == i)
  {
    if i in s then s - {i} else s + {i}
  }

  // ----- The layout -----

  /** A value is within the neighbourhood that starts at its home. */
  ghost predicate Near<K, V>(sc: Scheme<K>, b: seq<Bucket<K, V>>) {
    forall j {:trigger b[j].value} :: 0 <= j < |b| && b[j].value.Some? ==>
      sc.Home(b[j].value.value.0) <= j < sc.Home(b[j].value.value.0) + sc.neighborhood
  }

  /** Offset `i` is on at bucket `h` exactly when bucket `h + i` holds a value whose home is `h`. */
  ghost predicate BitMeans<K, V>(sc: Scheme<K>, b: seq<Bucket<K, V>>, h: nat, i: nat)
    requires h < |b|
  {
    i in b[h].neighbors <==>
      i < sc.neighborhood && h + i < |b| && b[h + i].value.Some? && sc.Home(b[h + i].value.value.0) == h
  }

  ghost predicate Bits<K, V>(sc: Scheme<K>, b: seq<Bucket<K, V>>) {
    forall h: nat, i: nat {:trigger BitMeans(sc, b, h, i)} :: h < |b| ==> BitMeans(sc, b, h, i)
  }

  ghost predicate Spills<K, V>(sc: Scheme<K>, o: seq<(K, V)>, h: nat) {
    exists i :: 0 <= i < |o| && sc.Home(o[i].0) == h
  }

  ghost predicate Flags<K, V>(sc: Scheme<K>, b: seq<Bucket<K, V>>, o: seq<(K, V)>) {
    && (forall h: nat {:trigger Spills(sc, o, h)} :: h < |b| ==> (b[h].hasOverflow <==> Spills(sc, o, h)))
    && (forall i :: 0 <= i < |o| ==> sc.Home(o[i].0) < |b|)
  }

  ghost predicate UniqueKeys<K, V>(b: seq<Bucket<K, V>>, o: seq<(K, V)>) {
    && (forall i, j {:trigger b[i].value, b[j].value} ::
          0 <= i < j < |b| && b[i].value.Some? && b[j].value.Some? ==> b[i].value.value.0 != b[j].value.value.0)
    && (forall i, j :: 0 <= i < j < |o| ==> o[i].0 != o[j].0)
    && (forall i, j {:trigger b[i].value, o[j]} ::
          0 <= i < |b| && 0 <= j < |o| && b[i].value.Some? ==> b[i].value.value.0 != o[j].0)
  }

  ghost predicate Layout<K, V>(sc: Scheme<K>, b: seq<Bucket<K, V>>, o: seq<(K, V)>) {
    Near(sc, b) && Bits(sc, b) && Flags(sc, b, o) && UniqueKeys(b, o)
  }

  ghost function Occupied<K, V>(b: seq<Bucket<K, V>>): set<int> {
    set j | 0 <= j < |b| && b[j].value.Some?
  }

  // ----- What the table holds -----

  ghost predicate InBuckets<K, V>(b: seq<Bucket<K, V>>, k: K) {
    exists j :: 0 <= j < |b| && b[j].value.Some? && b[j].value.value.0 == k
  }

  ghost predicate InOverflow<K, V>(o: seq<(K, V)>, k: K) {
    exists i :: 0 <= i < |o| && o[i].0 == k
  }

  /** Buckets and overflow together hold exactly the pairs of `m`. */
  ghost predicate Represents<K, V>(b: seq<Bucket<K, V>>, o: seq<(K, V)>, m: map<K, V>) {
    && (forall j {:trigger b[j].value} :: 0 <= j < |b| && b[j].value.Some? ==>
          b[j].value.value.0 in m && m[b[j].value.value.0] == b[j].value.value.1)
    && (forall i :: 0 <= i < |o| ==> o[i].0 in m && m[o[i].0] == o[i].1)
    && (forall k {:trigger k in m} :: k in m ==> InBuckets(b, k) || InOverflow(o, k))
  }

  // ----- Single updates -----

  function PutIn<K, V>(b: seq<Bucket<K, V>>, j: nat, home: nat, p: (K, V)): (r: seq<Bucket<K, V>>)
    requires home <= j < |b|
    ensures Changed(b, r, j, Some(p), home, Toggle(b[home].neighbors, j - home))
  {
    var b' := b[j := b[j].(value := Some(p))];
    b'[home := b'[home].(neighbors := Toggle(b'[home].neighbors, j - home))]
  }

  function TakeOut<K, V>(b: seq<Bucket<K, V>>, j: nat, home: nat): (r: seq<Bucket<K, V>>)
    requires home <= j < |b|
    ensures Changed(b, r, j, None, home, Toggle(b[home].neighbors, j - home))
  {
    var b' := b[j := b[j].(value := None)];
    b'[home := b'[home].(neighbors := Toggle(b'[home].neighbors, j - home))]
  }

  function SetFlag<K, V>(b: seq<Bucket<K, V>>, home: nat, on: bool): (r: seq<Bucket<K, V>>)
    requires home < |b|
  {
    b[home := b[home].(hasOverflow := on)]
  }

  /** All that differs between `b` and `r`: the value of bucket `j`, the bits of bucket `home`. */
  ghost predicate Changed<K, V>(b: seq<Bucket<K, V>>, r: seq<Bucket<K, V>>, j: nat, v: Option<(K, V)>, home: nat,
      bits: set<nat>)
    requires j < |b| && home < |b|
  {
    && |r| == |b|
    && (forall i {:trigger r[i].value} {:trigger b[i].value} :: 0 <= i < |b| ==>
        r[i].value == if i == j then v else b[i].value)
    && (forall i {:trigger r[i].neighbors} :: 0 <= i < |b| ==>
        r[i].neighbors == if i == home then bits else b[i].neighbors)
    && (forall i {:trigger r[i].hasOverflow} :: 0 <= i < |b| ==> r[i].hasOverflow == b[i].hasOverflow)
  }

  /** The two together: the value of bucket `from` moved to bucket `to`. */
  function MoveTo<K, V>(b: seq<Bucket<K, V>>, from: nat, to: nat, home: nat): (r: seq<Bucket<K, V>>)
    requires home <= from < to < |b| && b[from].value.Some?
    ensures |r| == |b|
  {
    PutIn(TakeOut(b, from, home), to, home, b[from].value.value)
  }

  // ----- Where a key can be -----

  /** A key in some bucket is found through a bit of its home. */
  lemma BitOfKey<K, V>(sc: Scheme<K>, b: seq<Bucket<K, V>>, o: seq<(K, V)>, k: K) returns (i: nat)
    requires Layout(sc, b, o) && InBuckets(b, k)
    ensures var h := sc.Home(k);
      h + i < |b| && i in b[h].neighbors && b[h + i].value.Some? && b[h + i].value.value.0 == k
  {
    var j :| 0 <= j < |b| && b[j].value.Some? && b[j].value.value.0 == k;
    i := j - sc.Home(k);
    assert BitMeans(sc, b, sc.Home(k), i);
  }

  /** A key in the overflow list is announced by the flag of its home. */
  lemma FlagOfKey<K, V>(sc: Scheme<K>, b: seq<Bucket<K, V>>, o: seq<(K, V)>, k: K)
    requires Layout(sc, b, o) && InOverflow(o, k)
    ensures sc.Home(k) < |b| && b[sc.Home(k)].hasOverflow
  {
    assert Spills(sc, o, sc.Home(k));
  }

  lemma Held<K, V>(b: seq<Bucket<K, V>>, o: seq<(K, V)>, m: map<K, V>, k: K)
    requires Represents(b, o, m)
    ensures k in m <==> InBuckets(b, k) || InOverflow(o, k)
    ensures forall j {:trigger b[j].value} :: 0 <= j < |b| && b[j].value.Some? && b[j].value.value.0 == k ==>
      k in m && m[k] == b[j].value.value.1
    ensures forall i :: 0 <= i < |o| && o[i].0 == k ==> k in m && m[k] == o[i].1
  {
  }

  // ----- Putting a value in -----

  lemma PutInBits<K, V>(sc: Scheme<K>, b: seq<Bucket<K, V>>, j: nat, k: K, v: V)
    requires Bits(sc, b) && j < |b| && b[j].Empty() && sc.Home(k) <= j < sc.Home(k) + sc.neighborhood
    ensures Bits(sc, PutIn(b, j, sc.Home(k), (k, v)))
  {
    var r := PutIn(b, j, sc.Home(k), (k, v));
    forall h: nat, i: nat | h < |r| ensures BitMeans(sc, r, h, i) {
      assert BitMeans(sc, b, h, i);
      assert r[h].neighbors == r[h].neighbors;
      if h + i < |b| {
        assert r[h + i].value == r[h + i].value;
      }
    }
  }

  lemma PutInNear<K, V>(sc: Scheme<K>, b: seq<Bucket<K, V>>, j: nat, k: K, v: V)
    requires Near(sc, b) && j < |b| && b[j].Empty() && sc.Home(k) <= j < sc.Home(k) + sc.neighborhood
    ensures
      var r := PutIn(b, j, sc.Home(k), (k, v));
      Near(sc, r) && |Occupied(r)| == |Occupied(b)| + 1
  {
    assert Occupied(PutIn(b, j, sc.Home(k), (k, v))) == Occupied(b) + {j};
  }

  lemma PutInUnique<K, V>(sc: Scheme<K>, b: seq<Bucket<K, V>>, o: seq<(K, V)>, m: map<K, V>, j: nat, k: K, v: V)
    requires UniqueKeys(b, o) && Represents(b, o, m) && j < |b| && b[j].Empty() && k !in m && sc.Home(k) <= j
    ensures UniqueKeys(PutIn(b, j, sc.Home(k), (k, v)), o)
  {
  }

  lemma PutInRepresents<K, V>(sc: Scheme<K>, b: seq<Bucket<K, V>>, o: seq<(K, V)>, m: map<K, V>, j: nat, k: K, v: V)
    requires Represents(b, o, m) && j < |b| && b[j].Empty() && k !in m && sc.Home(k) <= j
    ensures Represents(PutIn(b, j, sc.Home(k), (k, v)), o, m[k := v])
  {
    var r := PutIn(b, j, sc.Home(k), (k, v));
    forall x | x in m[k := v] ensures InBuckets(r, x) || InOverflow(o, x) {
      if x == k {
        assert r[j].value == Some((k, v));
      } else if InBuckets(b, x) {
        var i :| 0 <= i < |b| && b[i].value.Some? && b[i].value.value.0 == x;
        assert r[i].value == b[i].value;
      }
    }
  }

  lemma FlagsStay<K, V>(sc: Scheme<K>, b: seq<Bucket<K, V>>, r: seq<Bucket<K, V>>, o: seq<(K, V)>)
    requires Flags(sc, b, o) && |r| == |b|
    requires forall i {:trigger r[i].hasOverflow} :: 0 <= i < |b| ==> r[i].hasOverflow == b[i].hasOverflow
    ensures Flags(sc, r, o)
  {
    forall h: nat | h < |r| ensures r[h].hasOverflow <==> Spills(sc, o, h) {
      assert b[h].hasOverflow <==> Spills(sc, o, h);
    }
  }

  lemma PutInOk<K, V>(sc: Scheme<K>, b: seq<Bucket<K, V>>, o: seq<(K, V)>, m: map<K, V>, j: nat, k: K, v: V)
    requires Layout(sc, b, o) && Represents(b, o, m)
    requires j < |b| && b[j].Empty() && k !in m && sc.Home(k) <= j < sc.Home(k) + sc.neighborhood
    ensures
      var r := PutIn(b, j, sc.Home(k), (k, v));
      Layout(sc, r, o) && Represents(r, o, m[k := v]) && |Occupied(r)| == |Occupied(b)| + 1
  {
    var r := PutIn(b, j, sc.Home(k), (k, v));
    hide Near, Bits, Flags, UniqueKeys, Represents, Occupied;
    PutInBits(sc, b, j, k, v);
    PutInNear(sc, b, j, k, v);
    PutInUnique(sc, b, o, m, j, k, v);
    PutInRepresents(sc, b, o, m, j, k, v);
    FlagsStay(sc, b, r, o);
  }

  // ----- Taking a value out -----

  lemma TakeOutBits<K, V>(sc: Scheme<K>, b: seq<Bucket<K, V>>, j: nat)
    requires Near(sc, b) && Bits(sc, b) && j < |b| && b[j].value.Some?
    ensures sc.Home(b[j].value.value.0) <= j && Bits(sc, TakeOut(b, j, sc.Home(b[j].value.value.0)))
  {
    var home := sc.Home(b[j].value.value.0);
    var r := TakeOut(b, j, home);
    assert BitMeans(sc, b, home, j - home);
    forall h: nat, i: nat | h < |r| ensures BitMeans(sc, r, h, i) {
      assert BitMeans(sc, b, h, i);
      assert r[h].neighbors == r[h].neighbors;
      if h + i < |b| {
        assert r[h + i].value == r[h + i].value;
      }
    }
  }

  lemma TakeOutRepresents<K, V>(b: seq<Bucket<K, V>>, o: seq<(K, V)>, m: map<K, V>, j: nat, home: nat)
    requires UniqueKeys(b, o) && Represents(b, o, m) && home <= j < |b| && b[j].value.Some?
    ensures Represents(TakeOut(b, j, home), o, m - {b[j].value.value.0})
  {
    var k := b[j].value.value.0;
    var r := TakeOut(b, j, home);
    forall x | x in m - {k} ensures InBuckets(r, x) || InOverflow(o, x) {
      if InBuckets(b, x) {
        var i :| 0 <= i < |b| && b[i].value.Some? && b[i].value.value.0 == x;
        assert r[i].value == b[i].value;
      }
    }
    forall i | 0 <= i < |r| && r[i].value.Some?
      ensures r[i].value.value.0 in m - {k} && m[r[i].value.value.0] == r[i].value.value.1
    {
      assert r[i].value == b[i].value;
    }
  }

  lemma TakeOutKeeps<K, V>(sc: Scheme<K>, b: seq<Bucket<K, V>>, o: seq<(K, V)>, j: nat, home: nat)
    requires Near(sc, b) && UniqueKeys(b, o) && home <= j < |b| && b[j].value.Some?
    ensures Near(sc, TakeOut(b, j, home)) && UniqueKeys(TakeOut(b, j, home), o)
    ensures |Occupied(TakeOut(b, j, home))| + 1 == |Occupied(b)|
  {
    assert Occupied(TakeOut(b, j, home)) == Occupied(b) - {j} && j in Occupied(b);
  }

  lemma TakeOutOk<K, V>(sc: Scheme<K>, b: seq<Bucket<K, V>>, o: seq<(K, V)>, m: map<K, V>, j: nat)
    requires Layout(sc, b, o) && Represents(b, o, m) && j < |b| && b[j].value.Some?
    ensures
      var k := b[j].value.value.0;
      && sc.Home(k) <= j && k in m
      && var r := TakeOut(b, j, sc.Home(k));
      Layout(sc, r, o) && Represents(r, o, m - {k}) && |Occupied(r)| + 1 == |Occupied(b)|
  {
    var home := sc.Home(b[j].value.value.0);
    var r := TakeOut(b, j, home);
    assert b[j].value.value.0 in m;
    hide Near, Bits, Flags, UniqueKeys, Represents, Occupied;
    TakeOutBits(sc, b, j);
    TakeOutKeeps(sc, b, o, j, home);
    TakeOutRepresents(b, o, m, j, home);
    FlagsStay(sc, b, r, o);
  }

  lemma MoveToValues<K, V>(b: seq<Bucket<K, V>>, from: nat, to: nat, home: nat)
    requires home <= from < to < |b| && b[from].value.Some?
    ensures
      var r := MoveTo(b, from, to, home);
      && (forall i {:trigger r[i].value} :: 0 <= i < |b| && i != from && i != to ==> r[i].value == b[i].value)
      && r[from].Empty() && r[to].value == b[from].value
  {
    var b' := TakeOut(b, from, home);
    var r := MoveTo(b, from, to, home);
    assert r[from].value == b'[from].value && r[to].value == b[from].value;
  }

  /** The order in which the table moves a value gives the same buckets. */
  lemma MoveToInSteps<K, V>(b: seq<Bucket<K, V>>, r: seq<Bucket<K, V>>, from: nat, to: nat, home: nat)
    requires home <= from < to < |b| && b[from].value.Some?
    requires
      var b1 := b[to := b[to].(value := b[from].value)];
      var b2 := b1[from := b1[from].(value := None)];
      var b3 := b2[home := b2[home].(neighbors := Toggle(b2[home].neighbors, to - home))];
      r == b3[home := b3[home].(neighbors := Toggle(b3[home].neighbors, from - home))]
    ensures r == MoveTo(b, from, to, home)
  {
    var q := MoveTo(b, from, to, home);
    assert r[home].neighbors == q[home].neighbors;
    assert forall i :: 0 <= i < |b| ==> r[i] == q[i];
  }

  lemma BitHome<K, V>(sc: Scheme<K>, b: seq<Bucket<K, V>>, o: seq<(K, V)>, m: map<K, V>, h: nat, i: nat)
    requires Layout(sc, b, o) && Represents(b, o, m) && h < |b| && i in b[h].neighbors
    ensures h + i < |b| && b[h + i].value.Some? && i < sc.neighborhood
    ensures var p := b[h + i].value.value; sc.Home(p.0) == h && p.0 in m && m[p.0] == p.1
  {
    assert BitMeans(sc, b, h, i);
  }

  /** Moving a value to an empty bucket of its neighbourhood changes neither what the table holds nor how much. */
  lemma MoveToOk<K, V>(sc: Scheme<K>, b: seq<Bucket<K, V>>, o: seq<(K, V)>, m: map<K, V>, from: nat, to: nat, home: nat)
    requires Layout(sc, b, o) && Represents(b, o, m)
    requires home <= from < to < |b| && b[to].Empty()
    requires from - home in b[home].neighbors && to < home + sc.neighborhood
    ensures b[from].value.Some?
    ensures
      var r := MoveTo(b, from, to, home);
      Layout(sc, r, o) && Represents(r, o, m) && |Occupied(r)| == |Occupied(b)|
  {
    hide Layout, Represents;
    BitHome(sc, b, o, m, home, from - home);
    var p := b[from].value.value;
    TakeOutOk(sc, b, o, m, from);
    var b' := TakeOut(b, from, home);
    assert b'[to].value == b[to].value;
    PutInOk(sc, b', o, m - {p.0}, to, p.0, p.1);
    assert (m - {p.0})[p.0 := p.1] == m;
  }

  // ----- The overflow list -----

  lemma SpillOk<K, V>(sc: Scheme<K>, b: seq<Bucket<K, V>>, o: seq<(K, V)>, m: map<K, V>, k: K, v: V)
    requires Layout(sc, b, o) && Represents(b, o, m) && k !in m && sc.Home(k) < |b|
    ensures
      var r := SetFlag(b, sc.Home(k), true);
      Layout(sc, r, o + [(k, v)]) && Represents(r, o + [(k, v)], m[k := v]) && Occupied(r) == Occupied(b)
  {
    var r, o' := SetFlag(b, sc.Home(k), true), o + [(k, v)];
    SameValues(sc, b, r, o, m);
    forall h: nat | h < |r| ensures r[h].hasOverflow <==> Spills(sc, o', h) {
      assert b[h].hasOverflow <==> Spills(sc, o, h);
      if Spills(sc, o, h) {
        var i :| 0 <= i < |o| && sc.Home(o[i].0) == h;
        assert o'[i] == o[i];
      }
      assert o'[|o|] == (k, v);
    }
    forall x | x in m[k := v] ensures InBuckets(r, x) || InOverflow(o', x) {
      if x == k {
        assert o'[|o|].0 == x;
      } else if InOverflow(o, x) {
        var i :| 0 <= i < |o| && o[i].0 == x;
        assert o'[i].0 == x;
      }
    }
  }

  /** Flags apart, nothing depends on them. */
  lemma SameValues<K, V>(sc: Scheme<K>, b: seq<Bucket<K, V>>, r: seq<Bucket<K, V>>, o: seq<(K, V)>, m: map<K, V>)
    requires Near(sc, b) && Bits(sc, b) && UniqueKeys(b, o) && Represents(b, o, m) && |r| == |b|
    requires forall i {:trigger r[i]} :: 0 <= i < |b| ==> r[i].value == b[i].value && r[i].neighbors == b[i].neighbors
    ensures Near(sc, r) && Bits(sc, r) && UniqueKeys(r, o) && Represents(r, o, m) && Occupied(r) == Occupied(b)
  {
    forall h: nat, i: nat | h < |r| ensures BitMeans(sc, r, h, i) {
      assert BitMeans(sc, b, h, i);
    }
    forall x | x in m ensures InBuckets(r, x) || InOverflow(o, x) {
      if InBuckets(b, x) {
        var i :| 0 <= i < |b| && b[i].value.Some? && b[i].value.value.0 == x;
        assert r[i].value == b[i].value;
      }
    }
  }

  lemma UnspillFlags<K, V>(sc: Scheme<K>, b: seq<Bucket<K, V>>, o: seq<(K, V)>, i: nat)
    requires Flags(sc, b, o) && i < |o|
    ensures
      var o' := o[..i] + o[i + 1..];
      sc.Home(o[i].0) < |b| && Flags(sc, SetFlag(b, sc.Home(o[i].0), Spills(sc, o', sc.Home(o[i].0))), o')
  {
    var o' := o[..i] + o[i + 1..];
    var r := SetFlag(b, sc.Home(o[i].0), Spills(sc, o', sc.Home(o[i].0)));
    assert forall j :: 0 <= j < |o'| ==> o'[j] == o[if j < i then j else j + 1];
    forall h: nat | h < |r| ensures r[h].hasOverflow <==> Spills(sc, o', h) {
      assert b[h].hasOverflow <==> Spills(sc, o, h);
      if h != sc.Home(o[i].0) && Spills(sc, o, h) {
        var j :| 0 <= j < |o| && sc.Home(o[j].0) == h;
        assert o'[if j < i then j else j - 1] == o[j];
      }
    }
  }

  /** Removing overflow element `i`, and lowering its home's flag when no other element needs it. */
  lemma UnspillOk<K, V>(sc: Scheme<K>, b: seq<Bucket<K, V>>, o: seq<(K, V)>, m: map<K, V>, i: nat)
    requires Layout(sc, b, o) && Represents(b, o, m) && i < |o|
    ensures
      var k := o[i].0;
      var o' := o[..i] + o[i + 1..];
      && sc.Home(k) < |b| && k in m
      && var r := SetFlag(b, sc.Home(k), Spills(sc, o', sc.Home(k)));
      Layout(sc, r, o') && Represents(r, o', m - {k}) && Occupied(r) == Occupied(b)
  {
    var k := o[i].0;
    var o' := o[..i] + o[i + 1..];
    UnspillFlags(sc, b, o, i);
    RemoveFromList(b, o, m, i);
    SameValues(sc, b, SetFlag(b, sc.Home(k), Spills(sc, o', sc.Home(k))), o', m - {k});
  }

  lemma RemoveFromList<K, V>(b: seq<Bucket<K, V>>, o: seq<(K, V)>, m: map<K, V>, i: nat)
    requires UniqueKeys(b, o) && Represents(b, o, m) && i < |o|
    ensures
      var o' := o[..i] + o[i + 1..];
      UniqueKeys(b, o') && Represents(b, o', m - {o[i].0})
  {
    var k := o[i].0;
    var o' := o[..i] + o[i + 1..];
    assert forall j :: 0 <= j < |o'| ==> o'[j] == o[if j < i then j else j + 1];
    forall x | x in m - {k} ensures InBuckets(b, x) || InOverflow(o', x) {
      if InOverflow(o, x) {
        var j :| 0 <= j < |o| && o[j].0 == x;
        assert o'[if j < i then j else j - 1] == o[j];
      }
    }
  }

  /** The layout speaks of keys only. */
  lemma SameKeys<K, V>(sc: Scheme<K>, b: seq<Bucket<K, V>>, r: seq<Bucket<K, V>>, o: seq<(K, V)>)
    requires Layout(sc, b, o) && |r| == |b|
    requires forall i {:trigger r[i]} :: 0 <= i < |b| ==>
      && r[i].neighbors == b[i].neighbors && r[i].hasOverflow == b[i].hasOverflow &&
          r[i].value.Some? == b[i].value.Some?
      && (b[i].value.Some? ==> r[i].value.value.0 == b[i].value.value.0)
    ensures Layout(sc, r, o) && Occupied(r) == Occupied(b)
  {
    forall h: nat, i: nat | h < |r| ensures BitMeans(sc, r, h, i) {
      assert BitMeans(sc, b, h, i);
    }
    FlagsStay(sc, b, r, o);
  }

  /** Replacing the value that goes with a key changes nothing else. */
  lemma AssignInBucketOk<K, V>(sc: Scheme<K>, b: seq<Bucket<K, V>>, o: seq<(K, V)>, m: map<K, V>, j: nat, v: V)
    requires Layout(sc, b, o) && Represents(b, o, m) && j < |b| && b[j].value.Some?
    ensures
      var k := b[j].value.value.0;
      var r := b[j := b[j].(value := Some((k, v)))];
      k in m && Layout(sc, r, o) && Represents(r, o, m[k := v]) && Occupied(r) == Occupied(b)
  {
    var r := b[j := b[j].(value := Some((b[j].value.value.0, v)))];
    SameKeys(sc, b, r, o);
    AssignRepresents(b, o, m, j, v);
  }

  lemma AssignRepresents<K, V>(b: seq<Bucket<K, V>>, o: seq<(K, V)>, m: map<K, V>, j: nat, v: V)
    requires UniqueKeys(b, o) && Represents(b, o, m) && j < |b| && b[j].value.Some?
    ensures
      var k := b[j].value.value.0;
      k in m && Represents(b[j := b[j].(value := Some((k, v)))], o, m[k := v])
  {
    var k := b[j].value.value.0;
    var r := b[j := b[j].(value := Some((k, v)))];
    assert forall i {:trigger r[i].value} :: 0 <= i < |b| && i != j ==> r[i].value == b[i].value;
    forall x | x in m[k := v] ensures InBuckets(r, x) || InOverflow(o, x) {
      if InBuckets(b, x) {
        var i :| 0 <= i < |b| && b[i].value.Some? && b[i].value.value.0 == x;
        assert r[i].value.value.0 == x;
      }
    }
  }

  lemma AssignInListOk<K, V>(sc: Scheme<K>, b: seq<Bucket<K, V>>, o: seq<(K, V)>, m: map<K, V>, i: nat, v: V)
    requires Layout(sc, b, o) && Represents(b, o, m) && i < |o|
    ensures
      var o' := o[i := (o[i].0, v)];
      o[i].0 in m && Layout(sc, b, o') && Represents(b, o', m[o[i].0 := v])
  {
    var o' := o[i := (o[i].0, v)];
    assert forall j :: 0 <= j < |o| ==> o'[j].0 == o[j].0;
    forall h: nat | h < |b| ensures b[h].hasOverflow <==> Spills(sc, o', h) {
      assert b[h].hasOverflow <==> Spills(sc, o, h);
      if Spills(sc, o, h) {
        var j :| 0 <= j < |o| && sc.Home(o[j].0) == h;
        assert sc.Home(o'[j].0) == h;
      }
    }
    forall x | x in m[o[i].0 := v] ensures InBuckets(b, x) || InOverflow(o', x) {
      if InOverflow(o, x) {
        var j :| 0 <= j < |o| && o[j].0 == x;
        assert o'[j].0 == x;
      }
    }
  }

  // ----- Iteration -----

  /** The values of the buckets, in order. */
  function Values<K, V>(b: seq<Bucket<K, V>>): seq<(K, V)> {
    if b == [] then [] else (if b[0].value.Some? then [b[0].value.value] else []) + Values(b[1..])
  }

  /** Bits and flags do not count. */
  lemma {:induction false} ValuesSame<K, V>(b: seq<Bucket<K, V>>, r: seq<Bucket<K, V>>)
    requires |b| == |r| && forall i :: 0 <= i < |b| ==> b[i].value == r[i].value
    ensures Values(b) == Values(r)
    decreases |b|
  {
    if b != [] {
      ValuesSame(b[1..], r[1..]);
    }
  }

  lemma ValuesFrom<K, V>(b: seq<Bucket<K, V>>, j: nat)
    requires j < |b|
    ensures Values(b[j..]) == (if b[j].value.Some? then [b[j].value.value] else []) + Values(b[j + 1..])
  {
    assert b[j..][1..] == b[j + 1..];
  }

  // ----- Rehashing -----

  lemma EmptyTableOk<K, V>(sc: Scheme<K>, b: seq<Bucket<K, V>>)
    requires forall j :: 0 <= j < |b| ==> b[j] == Bucket(None, {}, false)
    ensures Layout(sc, b, []) && Represents(b, [], map[]) && Occupied(b) == {}
  {
    forall h: nat, i: nat | h < |b| ensures BitMeans(sc, b, h, i) {
    }
  }

  /** A table whose buckets are all empty, with the flags of an overflow list taken over whole. */
  lemma OverflowOnlyOk<K, V>(sc: Scheme<K>, b: seq<Bucket<K, V>>,
                             oldSc: Scheme<K>, old_: seq<Bucket<K, V>>, o: seq<(K, V)>, m: map<K, V>)
    requires Layout(oldSc, old_, o) && Represents(old_, o, m)
    requires Flags(sc, b, o)
    requires forall j :: 0 <= j < |b| ==> b[j].value.None? && b[j].neighbors == {}
    ensures Layout(sc, b, o) && Represents(b, o, Moved(m, old_, o, 0)) && Occupied(b) == {}
    ensures |Moved(m, old_, o, 0)| == |o|
  {
    forall h: nat, i: nat | h < |b| ensures BitMeans(sc, b, h, i) {
    }
    OverflowSize(old_, o, m);
  }

  lemma {:induction false} OverflowSize<K, V>(b: seq<Bucket<K, V>>, o: seq<(K, V)>, m: map<K, V>)
    requires UniqueKeys(b, o) && forall i :: 0 <= i < |o| ==> o[i].0 in m
    ensures |Moved(m, b, o, 0)| == |o|
    decreases |o|
  {
    if o == [] {
      assert Moved(m, b, o, 0) == map[];
    } else {
      var n := |o| - 1;
      var o' := o[..n];
      OverflowSize(b, o', m);
      assert forall x :: InOverflow(o, x) <==> InOverflow(o', x) || x == o[n].0 by {
        assert forall i :: 0 <= i < n ==> o[i] == o'[i];
      }
      assert Moved(m, b, o, 0) == Moved(m, b, o', 0)[o[n].0 := m[o[n].0]];
    }
  }

  /** What has reached the new table: the overflow list and the first `i` buckets. */
  ghost function Moved<K, V>(m: map<K, V>, b: seq<Bucket<K, V>>, o: seq<(K, V)>, i: nat): map<K, V>
    requires i <= |b|
  {
    map k | k in m && (InOverflow(o, k) || InBuckets(b[..i], k)) :: m[k]
  }

  lemma MovedNext<K, V>(m: map<K, V>, b: seq<Bucket<K, V>>, o: seq<(K, V)>, i: nat)
    requires i < |b| && UniqueKeys(b, o) && Represents(b, o, m)
    ensures b[i].value.None? ==> Moved(m, b, o, i + 1) == Moved(m, b, o, i)
    ensures b[i].value.Some? ==>
      var (k, v) := b[i].value.value;
      k !in Moved(m, b, o, i) && Moved(m, b, o, i + 1) == Moved(m, b, o, i)[k := v]
  {
    forall k ensures InBuckets(b[..i + 1], k) <==>
      InBuckets(b[..i], k) || (b[i].value.Some? && b[i].value.value.0 == k)
    {
      InLast(b, i, k);
    }
  }

  lemma MovedAll<K, V>(m: map<K, V>, b: seq<Bucket<K, V>>, o: seq<(K, V)>)
    requires Represents(b, o, m)
    ensures Moved(m, b, o, |b|) == m
  {
    assert b[..|b|] == b;
  }

  /** The next bucket's value is not in the new table yet, and is reachable from its home in the old one. */
  lemma MovedStep<K, V>(sc: Scheme<K>, b: seq<Bucket<K, V>>, o: seq<(K, V)>, m: map<K, V>, i: nat)
    requires Layout(sc, b, o) && Represents(b, o, m) && i < |b|
    ensures b[i].value.None? ==> Moved(m, b, o, i + 1) == Moved(m, b, o, i)
    ensures b[i].value.Some? ==>
      var (k, v) := b[i].value.value;
      && k !in Moved(m, b, o, i) && Moved(m, b, o, i + 1) == Moved(m, b, o, i)[k := v]
      && sc.Home(k) <= i
  {
    MovedNext(m, b, o, i);
  }

  // ----- Rolling a rehash back -----

  /** What is still in the old table: the overflow list and the buckets from `i` on. */
  ghost function Left<K, V>(m: map<K, V>, b: seq<Bucket<K, V>>, o: seq<(K, V)>, i: nat): map<K, V>
    requires i <= |b|
  {
    map k | k in m && (InOverflow(o, k) || InBuckets(b[i..], k)) :: m[k]
  }

  lemma LeftAll<K, V>(m: map<K, V>, b: seq<Bucket<K, V>>, o: seq<(K, V)>)
    requires Represents(b, o, m)
    ensures Left(m, b, o, 0) == m
  {
    assert b[0..] == b;
  }

  lemma InFirst<K, V>(b: seq<Bucket<K, V>>, i: nat, k: K)
    requires i < |b|
    ensures InBuckets(b[i..], k) <==> InBuckets(b[i + 1..], k) || (b[i].value.Some? && b[i].value.value.0 == k)
  {
    if InBuckets(b[i..], k) {
      var j :| 0 <= j < |b[i..]| && b[i..][j].value.Some? && b[i..][j].value.value.0 == k;
      assert j > 0 ==> b[i + 1..][j - 1].value == b[i..][j].value;
    }
    if InBuckets(b[i + 1..], k) {
      var j :| 0 <= j < |b[i + 1..]| && b[i + 1..][j].value.Some? && b[i + 1..][j].value.value.0 == k;
      assert b[i..][j + 1].value == b[i + 1..][j].value;
    }
    assert b[i..][0].value == b[i].value;
  }

  lemma InLast<K, V>(b: seq<Bucket<K, V>>, i: nat, k: K)
    requires i < |b|
    ensures InBuckets(b[..i + 1], k) <==> InBuckets(b[..i], k) || (b[i].value.Some? && b[i].value.value.0 == k)
  {
    if InBuckets(b[..i], k) {
      var j :| 0 <= j < i && b[..i][j].value.Some? && b[..i][j].value.value.0 == k;
      assert b[..i + 1][j].value == b[..i][j].value;
    }
    if InBuckets(b[..i + 1], k) {
      var j :| 0 <= j < i + 1 && b[..i + 1][j].value.Some? && b[..i + 1][j].value.value.0 == k;
      assert j < i ==> b[..i][j].value == b[..i + 1][j].value;
    }
    assert b[..i + 1][i].value == b[i].value;
  }

  lemma LeftNext<K, V>(m: map<K, V>, b: seq<Bucket<K, V>>, o: seq<(K, V)>, i: nat)
    requires i < |b| && UniqueKeys(b, o) && Represents(b, o, m)
    ensures b[i].value.None? ==> Left(m, b, o, i + 1) == Left(m, b, o, i)
    ensures b[i].value.Some? ==> Left(m, b, o, i + 1) == Left(m, b, o, i) - {b[i].value.value.0}
  {
    forall k ensures InBuckets(b[i..], k) <==>
      InBuckets(b[i + 1..], k) || (b[i].value.Some? && b[i].value.value.0 == k)
    {
      InFirst(b, i, k);
    }
    if b[i].value.Some? {
      NotAgain(b, o, i);
    }
  }

  /** The old table without bucket `i`. */
  lemma OldStep<K, V>(sc: Scheme<K>, m: map<K, V>, b: seq<Bucket<K, V>>, o: seq<(K, V)>, i: nat)
    requires i < |b| && Layout(sc, b, o) && Represents(b, o, m)
    ensures b[i].value.None? ==> Left(m, b, o, i + 1) == Left(m, b, o, i)
    ensures b[i].value.Some? ==>
      var k := b[i].value.value.0;
      && k in Left(m, b, o, i) && Left(m, b, o, i + 1) == Left(m, b, o, i) - {k}
      && |Left(m, b, o, i + 1)| + 1 == |Left(m, b, o, i)|
  {
    hide Left;
    LeftNext(m, b, o, i);
    if b[i].value.Some? {
      var k, part := b[i].value.value.0, Left(m, b, o, i);
      InLeft(m, b, o, i);
      assert part.Keys == (part - {k}).Keys + {k};
    }
  }

  lemma InLeft<K, V>(m: map<K, V>, b: seq<Bucket<K, V>>, o: seq<(K, V)>, i: nat)
    requires i < |b| && Represents(b, o, m) && b[i].value.Some?
    ensures b[i].value.value.0 in Left(m, b, o, i)
  {
    InFirst(b, i, b[i].value.value.0);
  }

  lemma MovedPart<K, V>(m: map<K, V>, b: seq<Bucket<K, V>>, o: seq<(K, V)>, i: nat)
    requires i <= |b|
    ensures Moved(m, b, o, i).Keys <= m.Keys
  {
  }

  lemma PutBackPart<K, V>(m: map<K, V>, b: seq<Bucket<K, V>>, o: seq<(K, V)>, i: nat, r: seq<Bucket<K, V>>, j: nat)
    requires i <= |b| && j <= |r|
    ensures PutBack(m, b, o, i, r, j).Keys <= m.Keys
  {
  }

  lemma NotAgain<K, V>(b: seq<Bucket<K, V>>, o: seq<(K, V)>, i: nat)
    requires i < |b| && UniqueKeys(b, o) && b[i].value.Some?
    ensures var k := b[i].value.value.0; !InOverflow(o, k) && !InBuckets(b[i + 1..], k) && !InBuckets(b[..i], k)
  {
    assert forall j {:trigger b[i + 1..][j]} :: 0 <= j < |b[i + 1..]| ==> b[i + 1..][j].value == b[i + 1 + j].value;
    assert forall j :: 0 <= j < i ==> b[..i][j].value == b[j].value;
  }

  /** With the list taken back and the values of the first `j` buckets of the new table put back. */
  ghost function PutBack<K, V>(m: map<K, V>, b: seq<Bucket<K, V>>, o: seq<(K, V)>, i: nat, r: seq<Bucket<K, V>>, j: nat)
    : map<K, V>
    requires i <= |b| && j <= |r|
  {
    map k | k in m && (InOverflow(o, k) || InBuckets(b[i..], k) || InBuckets(r[..j], k)) :: m[k]
  }

  lemma PutBackNone<K, V>(m: map<K, V>, b: seq<Bucket<K, V>>, o: seq<(K, V)>, i: nat, r: seq<Bucket<K, V>>)
    requires i <= |b|
    ensures PutBack(m, b, o, i, r, 0) == Left(m, b, o, i)
  {
    assert r[..0] == [];
  }

  /** The next value of the new table is not in the old one. */
  lemma PutBackNext<K, V>(m: map<K, V>, b: seq<Bucket<K, V>>, o: seq<(K, V)>, i: nat, r: seq<Bucket<K, V>>, j: nat)
    requires i <= |b| && j < |r| && UniqueKeys(b, o) && UniqueKeys(r, o)
    requires Represents(b, o, m) && Represents(r, o, Moved(m, b, o, i))
    ensures r[j].value.None? ==> PutBack(m, b, o, i, r, j + 1) == PutBack(m, b, o, i, r, j)
    ensures r[j].value.Some? ==>
      var (k, v) := r[j].value.value;
      && k in m && k !in PutBack(m, b, o, i, r, j)
      && PutBack(m, b, o, i, r, j + 1) == PutBack(m, b, o, i, r, j)[k := v]
  {
    forall k ensures InBuckets(r[..j + 1], k) <==>
      InBuckets(r[..j], k) || (r[j].value.Some? && r[j].value.value.0 == k)
    {
      InLast(r, j, k);
    }
    if r[j].value.Some? {
      var (k, v) := r[j].value.value;
      NotAgain(r, o, j);
      assert k in Moved(m, b, o, i) && Moved(m, b, o, i)[k] == v;
      NotBefore(b, i, o, k);
    }
  }

  lemma PutBackStep<K, V>(sc: Scheme<K>, sc': Scheme<K>, m: map<K, V>, b: seq<Bucket<K, V>>, o: seq<(K, V)>, i: nat,
                          r: seq<Bucket<K, V>>, j: nat)
    requires i <= |b| && j < |r| && Layout(sc, b, o) && Layout(sc', r, o)
    requires Represents(b, o, m) && Represents(r, o, Moved(m, b, o, i))
    ensures r[j].value.None? ==> PutBack(m, b, o, i, r, j + 1) == PutBack(m, b, o, i, r, j)
    ensures r[j].value.Some? ==>
      var (k, v) := r[j].value.value;
      && k in m && k !in PutBack(m, b, o, i, r, j)
      && PutBack(m, b, o, i, r, j + 1) == PutBack(m, b, o, i, r, j)[k := v]
  {
    PutBackNext(m, b, o, i, r, j);
  }

  lemma NotBefore<K, V>(b: seq<Bucket<K, V>>, i: nat, o: seq<(K, V)>, k: K)
    requires i <= |b| && UniqueKeys(b, o) && InBuckets(b[..i], k)
    ensures !InBuckets(b[i..], k)
  {
    var x :| 0 <= x < i && b[..i][x].value.Some? && b[..i][x].value.value.0 == k;
    assert b[x].value == b[..i][x].value;
    assert forall j :: 0 <= j < |b[i..]| ==> b[i..][j].value == b[i + j].value;
  }

  /** With all of them, the old table has everything again. */
  lemma PutBackAll<K, V>(m: map<K, V>, b: seq<Bucket<K, V>>, o: seq<(K, V)>, i: nat, r: seq<Bucket<K, V>>)
    requires i <= |b| && Represents(b, o, m) && Represents(r, o, Moved(m, b, o, i))
    ensures PutBack(m, b, o, i, r, |r|) == m
  {
    assert r[..|r|] == r;
    forall k | k in m ensures InOverflow(o, k) || InBuckets(b[i..], k) || InBuckets(r, k) {
      if InBuckets(b, k) {
        var x :| 0 <= x < |b| && b[x].value.Some? && b[x].value.value.0 == k;
        if x < i {
          assert b[..i][x].value == b[x].value;
          assert k in Moved(m, b, o, i);
        } else {
          assert b[i..][x - i].value == b[x].value;
        }
      }
    }
  }

  /** A part of a map that lacks a key is smaller. */
  lemma Smaller<K, V>(part: map<K, V>, m: map<K, V>, k: K)
    requires part.Keys <= m.Keys && k in m && k !in part
    ensures |part| < |m|
  {
    var missing := m.Keys - part.Keys;
    assert m.Keys == part.Keys + missing && k in missing;
    assert |m.Keys| == |part.Keys| + |missing|;
  }

  /** The homes of the elements of the list from the `n`-th on announce one. */
  ghost predicate Announced<K, V>(sc: Scheme<K>, b: seq<Bucket<K, V>>, o: seq<(K, V)>, n: nat) {
    forall j {:trigger o[j]} :: n <= j < |o| ==> sc.Home(o[j].0) < |b| && b[sc.Home(o[j].0)].hasOverflow
  }

  /** A list that has grown goes with a table's flags if and only if the homes of the new elements announced one
      already; else such an element cannot be found in the table. */
  lemma GrownIff<K, V>(sc: Scheme<K>, b: seq<Bucket<K, V>>, o: seq<(K, V)>, grown: seq<(K, V)>)
    requires Layout(sc, b, o) && o <= grown
    ensures Flags(sc, b, grown) <==> Announced(sc, b, grown, |o|)
  {
    forall h: nat | h < |b| && Spills(sc, o, h) ensures Spills(sc, grown, h) {
      var j :| 0 <= j < |o| && sc.Home(o[j].0) == h;
      assert grown[j] == o[j];
    }
    if Flags(sc, b, grown) {
      forall j | |o| <= j < |grown| ensures b[sc.Home(grown[j].0)].hasOverflow {
        assert Spills(sc, grown, sc.Home(grown[j].0));
      }
    }
    if Announced(sc, b, grown, |o|) {
      forall h: nat | h < |b| ensures b[h].hasOverflow <==> Spills(sc, grown, h) {
        assert b[h].hasOverflow <==> Spills(sc, o, h);
      }
      forall j | 0 <= j < |grown| ensures sc.Home(grown[j].0) < |b| {
        assert j < |o| ==> grown[j] == o[j];
      }
    }
  }

  /** The flags announce exactly the first `i` overflow elements. */
  ghost predicate FlagsUpTo<K, V>(sc: Scheme<K>, b: seq<Bucket<K, V>>, o: seq<(K, V)>, i: nat)
    requires i <= |o|
  {
    && (forall h: nat {:trigger Spills(sc, o[..i], h)} :: h < |b| ==> (b[h].hasOverflow <==> Spills(sc, o[..i], h)))
    && (forall j :: 0 <= j < |o| ==> sc.Home(o[j].0) < |b|)
  }

  lemma FlagsUpToNext<K, V>(sc: Scheme<K>, b: seq<Bucket<K, V>>, o: seq<(K, V)>, i: nat)
    requires i < |o| && FlagsUpTo(sc, b, o, i)
    ensures sc.Home(o[i].0) < |b| && FlagsUpTo(sc, SetFlag(b, sc.Home(o[i].0), true), o, i + 1)
  {
    var r := SetFlag(b, sc.Home(o[i].0), true);
    forall h: nat | h < |r| ensures r[h].hasOverflow <==> Spills(sc, o[..i + 1], h) {
      assert b[h].hasOverflow <==> Spills(sc, o[..i], h);
      if Spills(sc, o[..i], h) {
        var j :| 0 <= j < i && sc.Home(o[..i][j].0) == h;
        assert o[..i + 1][j] == o[..i][j];
      }
      if Spills(sc, o[..i + 1], h) {
        var j :| 0 <= j < i + 1 && sc.Home(o[..i + 1][j].0) == h;
        assert j < i ==> o[..i][j] == o[..i + 1][j];
      }
      assert o[..i + 1][i] == o[i];
    }
  }

  lemma FlagsUpToAll<K, V>(sc: Scheme<K>, b: seq<Bucket<K, V>>, o: seq<(K, V)>)
    requires FlagsUpTo(sc, b, o, |o|)
    ensures Flags(sc, b, o)
  {
    assert o[..|o|] == o;
  }
}
