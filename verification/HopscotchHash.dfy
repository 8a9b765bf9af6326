/** The hopscotch hash table as a class: buckets, overflow list and element count are updated in place
    by probing, displacement, erasure and rehashing. A ghost map says what the table holds; every
    operation is proved against it. */
module HopscotchHash {
  import opened Arith
  import opened HopscotchLayout
  import opened Options

  /** The table's load factors, as thresholds and a bucket count per number of elements. */
  datatype Load = Load(minThreshold: nat -> nat, maxThreshold: nat -> nat, needed: nat -> nat)
  {
    ghost predicate Lawful() {
      && maxThreshold(0) == 0
      && forall n: nat :: n > 0 ==> needed(n) > 0
    }
  }

  /** What an iterator of the table points at. */
  datatype Position = InBucket(j: nat) | InList(i: nat) | End

  const PROBE_FACTOR: nat := 12

  function Max(a: nat, b: nat): nat {
    if a < b then b else a
  }

  class HopscotchMap<!K(==), V> {
    const neighborhood: nat
    const hash: K -> nat
    const policy: Policy
    const load: Load

    var count: nat                       // the growth policy's bucket count
    var buckets: seq<Bucket<K, V>>       // m_buckets_data
    var overflow: seq<(K, V)>            // m_overflow_elements
    var nbElements: nat                  // m_nb_elements
    var minLoad: nat                     // m_min_load_threshold_rehash
    var maxLoad: nat                     // m_max_load_threshold_rehash
    ghost var contents: map<K, V>

    function Places(): Scheme<K>
      reads this`count
    {
      Scheme(neighborhood, hash, policy, count)
    }

    function Home(k: K): nat
      reads this`count
    {
      policy.bucketFor(hash(k), count)
    }

    ghost predicate Configured() {
      4 <= neighborhood <= 62 && policy.Lawful() && load.Lawful()
    }

    ghost predicate Sized()
      reads this`count, this`buckets, this`minLoad, this`maxLoad
    {
      && count <= policy.max
      && |buckets| == (if count == 0 then 0 else count + neighborhood - 1)
      && minLoad == load.minThreshold(count) && maxLoad == load.maxThreshold(count)
    }

    ghost predicate Valid()
      reads this
    {
      && Configured() && Sized()
      && Layout(Places(), buckets, overflow)
      && Represents(buckets, overflow, contents)
      && nbElements == |Occupied(buckets)| + |overflow|
      && nbElements == |contents|
    }

    /** An empty table of at least `n` buckets. */
    constructor (neighborhood: nat, hash: K -> nat, policy: Policy, load: Load, n: nat)
      requires 4 <= neighborhood <= 62 && policy.Lawful() && load.Lawful() && n <= policy.max
      ensures Valid() && contents == map[] && overflow == [] && count == policy.roundUp(n)
      ensures this.neighborhood == neighborhood && this.hash == hash && this.policy == policy && this.load == load
      ensures forall j :: 0 <= j < |buckets| ==> buckets[j] == Bucket(None, {}, false)
    {
      this.neighborhood, this.hash, this.policy, this.load := neighborhood, hash, policy, load;
      var c := policy.roundUp(n);
      count := c;
      buckets := seq(if c == 0 then 0 else c + neighborhood - 1, _ => Bucket(None, {}, false));
      overflow := [];
      nbElements := 0;
      minLoad, maxLoad := load.minThreshold(c), load.maxThreshold(c);
      contents := map[];
      new;
      EmptyTableOk(Places(), buckets);
    }

    /** `m_buckets[h]`: a static empty bucket stands in while there are none. */
    function BucketAt(h: nat): Bucket<K, V>
      requires h < |buckets| || |buckets| == 0
      reads this`buckets
    {
      if |buckets| == 0 then Bucket(None, {}, false) else buckets[h]
    }

    lemma HomeInRange(k: K)
      requires Configured() && Sized()
      ensures Home(k) < |buckets| || |buckets| == 0
      ensures Home(k) == Places().Home(k)
    {
    }

    // ----- Looking up -----

    method FindInBuckets(k: K, home: nat) returns (found: Option<nat>)
      requires Valid() && home == Home(k)
      ensures found.Some? ==>
        found.value < |buckets| && buckets[found.value].value.Some? && buckets[found.value].value.value.0 == k
      ensures found.None? <==> !InBuckets(buckets, k)
    {
      hide Layout, Represents;
      HomeInRange(k);
      var bits := BucketAt(home).neighbors;
      forall i | i in bits
        ensures home + i < |buckets| && buckets[home + i].value.Some? && i < neighborhood
      {
        BitHome(Places(), buckets, overflow, contents, home, i);
      }
      var rest := bits;
      var j := home;
      while rest != {}
        invariant home <= j
        invariant forall i :: i in rest <==> i in bits && home + i >= j
        invariant forall i :: i in bits && home + i < j ==> buckets[home + i].value.value.0 != k
        decreases home + neighborhood - j
      {
        ghost var i :| i in rest;
        if j - home in rest {
          if buckets[j].value.value.0 == k {
            return Some(j);
          }
        }
        rest := rest - {j - home};
        j := j + 1;
      }
      found := None;
      if InBuckets(buckets, k) {
        var i := BitOfKey(Places(), buckets, overflow, k);
        assert false;
      }
    }

    /** The position in the overflow list, or its length. */
    method FindInOverflow(k: K) returns (i: nat)
      ensures i <= |overflow|
      ensures i < |overflow| ==> overflow[i].0 == k
      ensures i == |overflow| ==> !InOverflow(overflow, k)
    {
      i := 0;
      while i < |overflow| && overflow[i].0 != k
        invariant i <= |overflow|
        invariant forall x :: 0 <= x < i ==> overflow[x].0 != k
      {
        i := i + 1;
      }
    }

    /** The place of `k`, as find_impl gives it. */
    method FindPosition(k: K) returns (p: Position)
      requires Valid()
      ensures p.End? <==> k !in contents
      ensures p.InBucket? ==>
        p.j < |buckets| && buckets[p.j].value.Some? && buckets[p.j].value.value.0 == k
        && contents[k] == buckets[p.j].value.value.1
      ensures p.InList? ==> p.i < |overflow| && overflow[p.i].0 == k && contents[k] == overflow[p.i].1
    {
      hide Layout, Represents;
      var home := Home(k);
      HomeInRange(k);
      Held(buckets, overflow, contents, k);
      var found := FindInBuckets(k, home);
      if found.Some? {
        return InBucket(found.value);
      }
      if !BucketAt(home).hasOverflow {
        if InOverflow(overflow, k) {
          FlagOfKey(Places(), buckets, overflow, k);
          assert false;
        }
        return End;
      }
      var i := FindInOverflow(k);
      p := if i < |overflow| then InList(i) else End;
    }

    /** What `find` of a map gives. */
    method Find(k: K) returns (r: Option<V>)
      requires Valid()
      ensures r == if k in contents then Some(contents[k]) else None
    {
      var p := FindPosition(k);
      match p
      case InBucket(j) => r := Some(buckets[j].value.value.1);
      case InList(i) => r := Some(overflow[i].1);
      case End => r := None;
    }

    // ----- Erasing -----

    method EraseFromBucket(j: nat, home: nat)
      requires home <= j < |buckets| && nbElements > 0
      modifies this`buckets, this`nbElements
      ensures buckets == TakeOut(old(buckets), j, home) && nbElements == old(nbElements) - 1
    {
      buckets := buckets[j := buckets[j].(value := None)];
      buckets := buckets[home := buckets[home].(neighbors := Toggle(buckets[home].neighbors, j - home))];
      nbElements := nbElements - 1;
    }

    method EraseFromOverflow(i: nat, home: nat)
      requires i < |overflow| && home < |buckets| && nbElements > 0 && buckets[home].hasOverflow
      modifies this`buckets, this`overflow, this`nbElements
      ensures overflow == old(overflow)[..i] + old(overflow)[i + 1..] && nbElements == old(nbElements) - 1
      ensures buckets == SetFlag(old(buckets), home, Spills(Places(), overflow, home))
    {
      overflow := overflow[..i] + overflow[i + 1..];
      nbElements := nbElements - 1;
      var x := 0;
      while x < |overflow|
        invariant 0 <= x <= |overflow|
        invariant forall y :: 0 <= y < x ==> Places().Home(overflow[y].0) != home
      {
        if Home(overflow[x].0) == home {
          assert Spills(Places(), overflow, home);
          assert buckets == SetFlag(buckets, home, true);
          return;
        }
        x := x + 1;
      }
      buckets := buckets[home := buckets[home].(hasOverflow := false)];
    }

    method RemoveFromBucket(j: nat)
      requires Valid() && j < |buckets| && buckets[j].value.Some?
      modifies this`buckets, this`nbElements, this`contents
      ensures Valid() && contents == old(contents) - {old(buckets)[j].value.value.0}
      ensures |buckets| == |old(buckets)| && forall i :: 0 <= i < |buckets| && i != j ==>
        buckets[i].value == old(buckets)[i].value
    {
      hide Layout, Represents;
      var k := buckets[j].value.value.0;
      TakeOutOk(Places(), buckets, overflow, contents, j);
      EraseFromBucket(j, Home(k));
      contents := contents - {k};
    }

    method RemoveFromOverflow(i: nat)
      requires Valid() && i < |overflow|
      modifies this`buckets, this`overflow, this`nbElements, this`contents
      ensures Valid() && contents == old(contents) - {old(overflow)[i].0}
      ensures overflow == old(overflow)[..i] + old(overflow)[i + 1..]
    {
      hide Layout, Represents;
      var k := overflow[i].0;
      UnspillOk(Places(), buckets, overflow, contents, i);
      FlagOfKey(Places(), buckets, overflow, k);
      EraseFromOverflow(i, Home(k));
      contents := contents - {k};
    }

    /** The iterator points at an element, or is the end. */
    predicate PointsAt(p: Position)
      reads this`buckets, this`overflow
    {
      match p
      case InBucket(j) => j < |buckets| && buckets[j].value.Some?
      case InList(i) => i < |overflow|
      case End => true
    }

    /** The elements that an iterator has before it: those of the buckets from there on, and then the list. */
    function From(p: Position): seq<(K, V)>
      requires PointsAt(p)
      reads this`buckets, this`overflow
    {
      match p
      case InBucket(j) => Values(buckets[j..]) + overflow
      case InList(i) => overflow[i..]
      case End => []
    }

    /** `operator++` of an iterator in bucket `j`. */
    method NextBucket(j: nat) returns (next: Position)
      requires j < |buckets|
      ensures PointsAt(next) && From(next) == Values(buckets[j + 1..]) + overflow
    {
      var i := j + 1;
      while i < |buckets| && buckets[i].value.None?
        invariant j < i <= |buckets| && Values(buckets[i..]) == Values(buckets[j + 1..])
      {
        ValuesFrom(buckets, i);
        i := i + 1;
      }
      next := if i < |buckets| then InBucket(i) else if |overflow| > 0 then InList(0) else End;
    }

    method EraseBucketAt(j: nat) returns (next: Position)
      requires Valid() && PointsAt(InBucket(j))
      modifies this`buckets, this`nbElements, this`contents
      ensures Valid() && contents == old(contents) - {old(buckets)[j].value.value.0}
      ensures PointsAt(next) && From(next) == Values(old(buckets)[j + 1..]) + overflow
    {
      hide Valid;
      RemoveFromBucket(j);
      ValuesSame(old(buckets)[j + 1..], buckets[j + 1..]);
      next := NextBucket(j);
    }

    method EraseListAt(i: nat) returns (next: Position)
      requires Valid() && PointsAt(InList(i))
      modifies this`buckets, this`overflow, this`nbElements, this`contents
      ensures Valid() && contents == old(contents) - {old(overflow)[i].0}
      ensures PointsAt(next) && From(next) == old(overflow)[i + 1..]
    {
      hide Valid;
      RemoveFromOverflow(i);
      next := if i < |overflow| then InList(i) else End;
    }

    /** Removes the element an iterator points at, and gives the iterator to the next: what it has before it are the
        elements that were before the first one, but for the one removed. */
    method EraseAt(p: Position) returns (next: Position)
      requires Valid() && PointsAt(p) && !p.End?
      modifies this`buckets, this`overflow, this`nbElements, this`contents
      ensures Valid() && old(From(p)) != [] && contents == old(contents) - {old(From(p))[0].0}
      ensures PointsAt(next) && From(next) == old(From(p))[1..]
    {
      hide Valid;
      match p
      case InBucket(j) =>
        ValuesFrom(buckets, j);
        next := EraseBucketAt(j);
      case InList(i) =>
        next := EraseListAt(i);
    }

    /** Removes `k`; gives the number of elements removed. */
    method Erase(k: K) returns (n: nat)
      requires Valid()
      modifies this`buckets, this`overflow, this`nbElements, this`contents
      ensures Valid() && contents == old(contents) - {k}
      ensures n == if k in old(contents) then 1 else 0
    {
      hide Layout, Represents;
      var home := Home(k);
      HomeInRange(k);
      Held(buckets, overflow, contents, k);
      var found := FindInBuckets(k, home);
      if found.Some? {
        RemoveFromBucket(found.value);
        return 1;
      }
      if BucketAt(home).hasOverflow {
        var i := FindInOverflow(k);
        if i < |overflow| {
          RemoveFromOverflow(i);
          return 1;
        }
      } else if InOverflow(overflow, k) {
        FlagOfKey(Places(), buckets, overflow, k);
        assert false;
      }
      assert contents - {k} == contents;
      n := 0;
    }

    // ----- Inserting -----

    /** The first empty bucket among the probes from `start`, or the number of buckets. */
    method FindEmptyBucket(start: nat) returns (e: nat)
      requires start < |buckets|
      ensures start <= e <= |buckets|
      ensures e < |buckets| ==> buckets[e].Empty()
      ensures forall i ::
        start <= i < (if e < |buckets| then e else Min(start + PROBE_FACTOR * neighborhood, |buckets|)) ==>
          buckets[i].value.Some?
    {
      var limit := Min(start + PROBE_FACTOR * neighborhood, |buckets|);
      e := start;
      while e < limit
        invariant start <= e <= limit
        invariant forall i :: start <= i < e ==> buckets[i].value.Some?
      {
        if buckets[e].Empty() {
          return;
        }
        e := e + 1;
      }
      e := |buckets|;
    }

    method InsertInBucket(e: nat, k: K, v: V)
      requires Valid() && k !in contents && e < |buckets| && buckets[e].Empty()
      requires Home(k) <= e < Home(k) + neighborhood
      modifies this`buckets, this`nbElements, this`contents
      ensures Valid() && contents == old(contents)[k := v] && buckets == PutIn(old(buckets), e, Home(k), (k, v))
    {
      hide Layout, Represents;
      PutInOk(Places(), buckets, overflow, contents, e, k, v);
      var home := Home(k);
      buckets := buckets[e := buckets[e].(value := Some((k, v)))];
      buckets := buckets[home := buckets[home].(neighbors := Toggle(buckets[home].neighbors, e - home))];
      nbElements := nbElements + 1;
      contents := contents[k := v];
    }

    method InsertInOverflow(k: K, v: V)
      requires Valid() && k !in contents && Home(k) < |buckets|
      modifies this`buckets, this`overflow, this`nbElements, this`contents
      ensures Valid() && contents == old(contents)[k := v] && overflow == old(overflow) + [(k, v)]
    {
      hide Layout, Represents;
      SpillOk(Places(), buckets, overflow, contents, k, v);
      var home := Home(k);
      overflow := overflow + [(k, v)];
      buckets := buckets[home := buckets[home].(hasOverflow := true)];
      nbElements := nbElements + 1;
      contents := contents[k := v];
    }

    /** Moves a value of an earlier bucket, whose neighbourhood reaches that far, into the empty bucket
        `e`; the bucket it leaves is the new empty one. */
    method SwapEmptyBucketCloser(e: nat) returns (closer: bool, e': nat)
      requires Valid() && neighborhood <= e < |buckets| && buckets[e].Empty()
      modifies this`buckets
      ensures Valid()
      ensures !closer ==> buckets == old(buckets) && e' == e
      ensures closer ==> e - neighborhood < e' < e && buckets[e'].Empty()
      ensures |buckets| == |old(buckets)|
      ensures forall i {:trigger buckets[i].value} :: 0 <= i < |buckets| && i != e && i != e' ==>
        buckets[i].value == old(buckets)[i].value
    {
      hide Layout, Represents;
      var toCheck := e - neighborhood + 1;
      while toCheck < e
        invariant e - neighborhood < toCheck <= e
        invariant buckets == old(buckets)
      {
        var bits := buckets[toCheck].neighbors;
        var rest := bits;
        var toSwap := toCheck;
        while rest != {} && toSwap < e
          invariant toCheck <= toSwap <= e
          invariant rest <= bits
          invariant buckets == old(buckets)
        {
          if toSwap - toCheck in rest {
            MoveToOk(Places(), buckets, overflow, contents, toSwap, e, toCheck);
            MoveToValues(buckets, toSwap, e, toCheck);
            ghost var b := buckets;
            buckets := buckets[e := buckets[e].(value := buckets[toSwap].value)];
            buckets := buckets[toSwap := buckets[toSwap].(value := None)];
            buckets := buckets[toCheck :=
              buckets[toCheck].(neighbors := Toggle(buckets[toCheck].neighbors, e - toCheck))];
            buckets := buckets[toCheck :=
              buckets[toCheck].(neighbors := Toggle(buckets[toCheck].neighbors, toSwap - toCheck))];
            MoveToInSteps(b, buckets, toSwap, e, toCheck);
            return true, toSwap;
          }
          rest := rest - {toSwap - toCheck};
          toSwap := toSwap + 1;
        }
        toCheck := toCheck + 1;
      }
      return false, e;
    }

    ghost predicate HomesChange(home: nat, newCount: nat)
      reads this`count, this`buckets
      requires forall i :: home <= i < Min(home + neighborhood, |buckets|) ==> buckets[i].value.Some?
    {
      exists i :: home <= i < Min(home + neighborhood, |buckets|)
        && Home(buckets[i].value.value.0) != policy.bucketFor(hash(buckets[i].value.value.0), newCount)
    }

    /** Whether some value near `home` would get another home in the next larger table. There is no
        answer when the policy cannot grow any more. */
    method WillNeighborhoodChangeOnRehash(home: nat) returns (r: Option<bool>)
      requires Configured()
      requires forall i :: home <= i < Min(home + neighborhood, |buckets|) ==> buckets[i].value.Some?
      ensures r.None? <==> policy.next(count).None?
      ensures r.Some? ==> (r.value <==> HomesChange(home, policy.roundUp(policy.next(count).value)))
    {
      var next := policy.next(count);
      if next.None? {
        return None;
      }
      var expanded := policy.roundUp(next.value);
      var i := home;
      while i < |buckets| && i - home < neighborhood
        invariant home <= i
        invariant i <= Min(home + neighborhood, |buckets|) || i == home
        invariant forall x :: home <= x < i ==>
          Home(buckets[x].value.value.0) == policy.bucketFor(hash(buckets[x].value.value.0), expanded)
      {
        var k := buckets[i].value.value.0;
        if Home(k) != policy.bucketFor(hash(k), expanded) {
          return Some(true);
        }
        i := i + 1;
      }
      return Some(false);
    }

    /** Growing may be needed to insert `k`: the buckets have reached the load threshold, or the table is
        not nearly empty and no bucket of the neighbourhood is free. */
    ghost predicate Crowded(k: K)
      reads this
    {
      || nbElements - |overflow| >= maxLoad
      || (nbElements >= minLoad && forall i :: Home(k) <= i < Min(Home(k) + neighborhood, |buckets|) ==>
          buckets[i].value.Some?)
    }

    /** The load has reached the threshold at which the table grows first of all. */
    predicate MustGrow()
      reads this
    {
      nbElements - |overflow| >= maxLoad
    }

    /** No bucket near the home of `k` is free, and the table is nearly empty or growing would move no value that is
        there. */
    ghost predicate MayOverflow(k: K)
      requires policy.Lawful()
      reads this
    {
      && (forall i :: Home(k) <= i < Min(Home(k) + neighborhood, |buckets|) ==> buckets[i].value.Some?)
      && (nbElements < minLoad
          || var next := policy.next(count);
             next.Some? && !HomesChange(Home(k), policy.roundUp(next.value)))
    }

    lemma NoneNear(k: K)
      requires policy.Lawful()
      requires forall i :: Home(k) <= i < Min(Home(k) + neighborhood, |buckets|) ==> buckets[i].value.Some?
      ensures Crowded(k) <==> MustGrow() || nbElements >= minLoad
      ensures MayOverflow(k) <==>
        || nbElements < minLoad
        || (policy.next(count).Some? && !HomesChange(Home(k), policy.roundUp(policy.next(count).value)))
    {
      hide HomesChange;
    }

    /** Neither threshold of a table with `c` buckets stops it from taking `n` elements. */
    predicate Takes(c: nat, n: nat) {
      n <= load.minThreshold(c) && n <= load.maxThreshold(c)
    }

    /** The number of buckets that `rehash` makes when at least `n` are asked for. */
    function Asked(n: nat): nat
      reads this`nbElements
    {
      Max(n, load.needed(nbElements))
    }

    /** The next larger table exists and takes the elements and one more. */
    ghost predicate CanGrow()
      requires policy.Lawful()
      reads this`count, this`nbElements
    {
      var next := policy.next(count);
      next.Some? && Asked(next.value) <= policy.max && Takes(policy.roundUp(Asked(next.value)), nbElements + 1)
    }

    /** There is no next larger table: the policy has none, or the elements need more buckets than the maximum. */
    predicate CannotGrow()
      reads this`count, this`nbElements
    {
      var next := policy.next(count);
      next.None? || Asked(next.value) > policy.max
    }

    ghost function Room(c: nat): nat {
      if c <= policy.max then policy.max - c else 0
    }

    /** Inserts a key the table does not hold. It succeeds if the table is not crowded, or can grow to one that
        takes all elements. If it fails, `kept` tells whether the table still holds what it held: it does if it cannot
        grow at all, or if the rehash that failed was rolled back. */
    method InsertValue(k: K, v: V) returns (ok: bool, kept: bool)
      requires Valid() && k !in contents
      modifies this
      ensures ok ==> Valid() && contents == old(contents)[k := v] && count >= old(count)
      ensures ok && !old(Crowded(k)) ==> count == old(count)
      ensures !ok ==> old(Crowded(k)) && !old(CanGrow())
      ensures !ok && old(CannotGrow()) ==> kept
      ensures old(!MustGrow() && MayOverflow(k)) ==> ok && count == old(count)
      ensures old(MustGrow()) && ok ==> old(policy.next(count)).Some? && count >= old(policy.next(count)).value
      ensures ok && count == old(count) && overflow != old(overflow) ==>
        old(MayOverflow(k)) && overflow == old(overflow) + [(k, v)]
      ensures !ok && kept ==> Valid() && contents == old(contents)
      ensures ok || kept ==> old(overflow) <= overflow
      decreases 2 * |contents| + 2, Room(count), 1
    {
      hide Layout, Represents;
      if nbElements - |overflow| >= maxLoad {
        var next := policy.next(count);
        if next.None? {
          return false, true;
        }
        ok, kept := Rehash(next.value);
        if !ok {
          return;
        }
      }
      ok, kept := InsertOrGrow(k, v);
    }

    /** Puts a value in an empty bucket near its home, moving the empty bucket closer as long as that is possible. */
    method InsertNear(k: K, v: V) returns (done: bool)
      requires Valid() && k !in contents && Home(k) < |buckets|
      modifies this`buckets, this`nbElements, this`contents
      ensures Valid() && contents == if done then old(contents)[k := v] else old(contents)
      ensures !done ==> |buckets| == |old(buckets)| && nbElements == old(nbElements)
      ensures !done ==> forall i :: Home(k) <= i < Min(Home(k) + neighborhood, |buckets|) ==>
        buckets[i].value.Some? && buckets[i].value == old(buckets)[i].value
      ensures !done ==> MayOverflow(k) == old(MayOverflow(k)) && Crowded(k) == old(Crowded(k))
    {
      hide Layout, Represents;
      var home := Home(k);
      var e := FindEmptyBucket(home);
      if e < |buckets| {
        var closer := true;
        while closer
          invariant Valid() && contents == old(contents) && nbElements == old(nbElements)
          invariant home <= e < |buckets| && |buckets| == |old(buckets)| && buckets[e].Empty()
          invariant forall i :: home <= i < e ==> buckets[i].value.Some?
          invariant forall i :: home <= i < e ==> old(buckets)[i].value.Some?
          invariant forall i :: home <= i < e && i < home + neighborhood ==> buckets[i].value == old(buckets)[i].value
          invariant !closer ==> e - home >= neighborhood
          decreases e, closer
        {
          if e - home < neighborhood {
            InsertInBucket(e, k, v);
            return true;
          }
          closer, e := SwapEmptyBucketCloser(e);
        }
      }
      done := false;
    }

    /** The rest of insert_value, after its first test: the load is below the threshold, or the table
        has just grown. */
    method InsertOrGrow(k: K, v: V) returns (ok: bool, kept: bool)
      requires Valid() && k !in contents && count > 0
      modifies this
      ensures ok ==> Valid() && contents == old(contents)[k := v] && count >= old(count)
      ensures ok && !old(Crowded(k)) ==> count == old(count)
      ensures !ok ==> old(Crowded(k)) && !old(CanGrow())
      ensures !ok && old(CannotGrow()) ==> kept
      ensures old(MayOverflow(k)) ==> ok && count == old(count)
      ensures ok && count == old(count) && overflow != old(overflow) ==>
        old(MayOverflow(k)) && overflow == old(overflow) + [(k, v)]
      ensures !ok && kept ==> Valid() && contents == old(contents)
      ensures ok || kept ==> old(overflow) <= overflow
      decreases 2 * |contents| + 2, Room(count), 0
    {
      hide Layout, Represents, MayOverflow, Crowded, HomesChange;
      HomeInRange(k);
      var done := InsertNear(k, v);
      if done {
        return true, true;
      }
      NoneNear(k);
      if nbElements < minLoad {
        InsertInOverflow(k, v);
        return true, true;
      }
      var change := WillNeighborhoodChangeOnRehash(Home(k));
      if change.None? {
        return false, true;
      }
      if !change.value {
        InsertInOverflow(k, v);
        return true, true;
      }
      ok, kept := Rehash(policy.next(count).value);
      if ok {
        if Takes(count, |contents| + 1) {
          NotCrowded(k, |contents| + 1);
        }
        ok, kept := InsertValue(k, v);
      }
    }

    /** At least `n` buckets, and enough for the elements there are. It succeeds, with exactly the buckets asked for, if
        a table of that many takes the elements; more than the maximum is refused before anything changes. */
    method Rehash(n: nat) returns (ok: bool, kept: bool)
      requires Valid()
      modifies this
      ensures ok ==> Valid() && contents == old(contents) && count >= n
      ensures !ok && kept ==> Valid() && contents == old(contents)
      ensures ok || kept ==> old(overflow) <= overflow
      ensures old(Asked(n)) <= policy.max && Takes(policy.roundUp(old(Asked(n))), old(nbElements)) ==>
        ok && count == policy.roundUp(old(Asked(n)))
      ensures old(Asked(n)) > policy.max ==> !ok && kept && count == old(count)
      decreases 2 * |contents| + 1, Room(n), 4
    {
      ok, kept := RehashImpl(Max(n, load.needed(nbElements)));
    }

    /** Exchanges the state of two tables of the same kind. */
    method Swap(other: HopscotchMap<K, V>)
      requires other != this
      requires SameKind(other)
      modifies this, other
      ensures count == old(other.count) && other.count == old(count)
      ensures buckets == old(other.buckets) && other.buckets == old(buckets)
      ensures overflow == old(other.overflow) && other.overflow == old(overflow)
      ensures nbElements == old(other.nbElements) && other.nbElements == old(nbElements)
      ensures minLoad == old(other.minLoad) && other.minLoad == old(minLoad)
      ensures maxLoad == old(other.maxLoad) && other.maxLoad == old(maxLoad)
      ensures contents == old(other.contents) && other.contents == old(contents)
      ensures old(other.Valid()) ==> Valid()
    {
      hide Layout, Represents, Occupied;
      count, other.count := other.count, count;
      buckets, other.buckets := other.buckets, buckets;
      overflow, other.overflow := other.overflow, overflow;
      nbElements, other.nbElements := other.nbElements, nbElements;
      minLoad, other.minLoad := other.minLoad, minLoad;
      maxLoad, other.maxLoad := other.maxLoad, maxLoad;
      contents, other.contents := other.contents, contents;
    }

    /** The loop over the list that raises the flags of its elements' homes. */
    method RaiseFlags()
      requires Configured() && Sized() && (overflow != [] ==> count > 0)
      requires forall j :: 0 <= j < |buckets| ==> buckets[j] == Bucket(None, {}, false)
      modifies this`buckets
      ensures |buckets| == |old(buckets)| && Flags(Places(), buckets, overflow)
      ensures forall j :: 0 <= j < |buckets| ==> buckets[j].value.None? && buckets[j].neighbors == {}
    {
      hide FlagsUpTo, Flags;
      StartFlags(overflow);
      var i := 0;
      while i < |overflow|
        invariant 0 <= i <= |overflow| && |buckets| == |old(buckets)|
        invariant forall j :: 0 <= j < |buckets| ==> buckets[j].value.None? && buckets[j].neighbors == {}
        invariant FlagsUpTo(Places(), buckets, overflow, i)
      {
        FlagsUpToNext(Places(), buckets, overflow, i);
        var home := Home(overflow[i].0);
        buckets := buckets[home := buckets[home].(hasOverflow := true)];
        i := i + 1;
      }
      FlagsUpToAll(Places(), buckets, overflow);
    }

    /** An empty table takes over the overflow list of a table that holds `m` in `b` and `o`. */
    method TakeOverflow(o: seq<(K, V)>, ghost sc: Scheme<K>, ghost b: seq<Bucket<K, V>>, ghost m: map<K, V>)
      requires Valid() && contents == map[] && overflow == [] && (o != [] ==> count > 0)
      requires forall j :: 0 <= j < |buckets| ==> buckets[j] == Bucket(None, {}, false)
      requires Layout(sc, b, o) && Represents(b, o, m)
      modifies this`buckets, this`overflow, this`nbElements, this`contents
      ensures Valid() && overflow == o && contents == Moved(m, b, o, 0)
    {
      hide Layout, Represents, Occupied, Moved, Flags;
      EmptyTableOk(Places(), buckets);
      overflow := o;
      nbElements := nbElements + |overflow|;
      RaiseFlags();
      OverflowOnlyOk(Places(), buckets, sc, b, o, m);
      contents := Moved(m, b, o, 0);
    }

    lemma StartFlags(o: seq<(K, V)>)
      requires Configured() && Sized() && (o != [] ==> count > 0)
      requires forall j :: 0 <= j < |buckets| ==> !buckets[j].hasOverflow
      ensures FlagsUpTo(Places(), buckets, o, 0)
    {
      forall j | 0 <= j < |o| ensures Places().Home(o[j].0) < |buckets| {
        HomeInRange(o[j].0);
      }
    }

    ghost predicate SameKind(other: HopscotchMap<K, V>) {
      other.neighborhood == neighborhood && other.hash == hash && other.policy == policy && other.load == load
    }

    /** Half way through a rehash of a table that held `m` in `b` and `o`: the buckets from `i` on are still here, and
        in order with the old list. */
    ghost predicate OldPart(b: seq<Bucket<K, V>>, o: seq<(K, V)>, m: map<K, V>, i: nat)
      reads this
    {
      && Configured() && Sized() && i <= |buckets| == |b|
      && Layout(Places(), b, o) && Represents(b, o, m)
      && (forall j {:trigger buckets[j].value} :: i <= j < |b| ==> buckets[j].value == b[j].value)
      && nbElements == |Occupied(buckets)| + |o| && nbElements == |Left(m, b, o, i)|
      && Layout(Places(), buckets, o) && Represents(buckets, o, Left(m, b, o, i))
    }

    /** The overflow list and the first `i` buckets are in this new table. */
    ghost predicate NewPart(b: seq<Bucket<K, V>>, o: seq<(K, V)>, m: map<K, V>, i: nat)
      reads this
    {
      i <= |b| && Valid() && contents == Moved(m, b, o, i) && o <= overflow
    }

    ghost predicate Moving(newMap: HopscotchMap<K, V>, b: seq<Bucket<K, V>>, o: seq<(K, V)>, m: map<K, V>, i: nat)
      reads this, newMap
    {
      OldPart(b, o, m, i) && newMap.NewPart(b, o, m, i) && SameKind(newMap)
    }

    /** The new table, with the overflow list carried over. */
    method StartRehash(n: nat) returns (newMap: HopscotchMap<K, V>)
      requires Valid() && n <= policy.max && (nbElements > 0 ==> n > 0)
      modifies this`overflow
      ensures fresh(newMap) && newMap.count == policy.roundUp(n)
      ensures Moving(newMap, old(buckets), old(overflow), old(contents), 0)
    {
      hide Layout, Represents, Occupied, Moved, Left;
      newMap := new HopscotchMap<K, V>(neighborhood, hash, policy, load, n);
      newMap.TakeOverflow(overflow, Places(), buckets, contents);
      LeftAll(contents, buckets, overflow);
      overflow := [];
    }

    /** What bucket `i` has to be moved. */
    lemma NextToMove(newMap: HopscotchMap<K, V>, b: seq<Bucket<K, V>>, o: seq<(K, V)>, m: map<K, V>, i: nat)
      requires Moving(newMap, b, o, m, i) && i < |buckets|
      ensures i < |b| && buckets[i].value == b[i].value && newMap.Valid() && newMap.contents == Moved(m, b, o, i)
      ensures b[i].value.None? ==> Moving(newMap, b, o, m, i + 1)
      ensures b[i].value.Some? ==>
        var (k, v) := b[i].value.value;
        && k !in newMap.contents && |newMap.contents| < |m|
        && Moved(m, b, o, i + 1) == Moved(m, b, o, i)[k := v]
    {
      hide Layout, Represents, Occupied, Moved, Left;
      MovedStep(Places(), b, o, m, i);
      OldStep(Places(), m, b, o, i);
      if b[i].value.Some? {
        Held(b, o, m, b[i].value.value.0);
        MovedPart(m, b, o, i);
        Smaller(newMap.contents, m, b[i].value.value.0);
      }
    }

    /** Erases the value that was moved. */
    method EraseMoved(i: nat, ghost b: seq<Bucket<K, V>>, ghost o: seq<(K, V)>, ghost m: map<K, V>)
      requires i < |buckets| && OldPart(b, o, m, i) && buckets[i].value.Some?
      modifies this`buckets, this`nbElements
      ensures OldPart(b, o, m, i + 1) && |buckets| == |old(buckets)|
    {
      hide Layout, Represents, Occupied, Left;
      OldStep(Places(), m, b, o, i);
      TakeOutOk(Places(), buckets, o, Left(m, b, o, i), i);
      EraseFromBucket(i, Home(buckets[i].value.value.0));
    }

    method MoveBucket(newMap: HopscotchMap<K, V>, i: nat, ghost b: seq<Bucket<K, V>>, ghost o: seq<(K, V)>,
        ghost m: map<K, V>)
      returns (ok: bool, kept: bool)
      requires newMap != this && i < |buckets| && Moving(newMap, b, o, m, i)
      modifies newMap, this`buckets, this`nbElements
      ensures |buckets| == |old(buckets)|
      ensures ok ==> Moving(newMap, b, o, m, i + 1) && newMap.count >= old(newMap.count)
      ensures !ok && kept ==> Moving(newMap, b, o, m, i)
      ensures Takes(old(newMap.count), |m|) ==> ok && newMap.count == old(newMap.count)
      decreases 2 * |m| + 1, 0, 2
    {
      hide Layout, Represents, OldPart, Moved, Crowded, CanGrow, CannotGrow, Valid;
      NextToMove(newMap, b, o, m, i);
      if buckets[i].value.None? {
        return true, true;
      }
      var (k, v) := buckets[i].value.value;
      if newMap.Takes(newMap.count, |m|) {
        newMap.NotCrowded(k, |m|);
      }
      ok, kept := newMap.InsertValue(k, v);
      if ok {
        EraseMoved(i, b, o, m);
      }
    }

    lemma NotCrowded(k: K, n: nat)
      requires Valid() && |contents| < n && Takes(count, n)
      ensures !Crowded(k)
    {
    }

    /** The `catch` of a rehash that failed at bucket `i`, with the new table in order: takes the list back and puts the
        values of the new table's buckets in again. `restored` tells whether the map is what it was. It is not if the
        list has grown: the elements that went to it are not counted here, and this table's flags announce them only if
        their homes had others there; the original goes on with such a table. Nor is it if one of the values cannot be
        put in again. */
    method RollBack(newMap: HopscotchMap<K, V>, carried: nat, ghost i: nat, ghost b: seq<Bucket<K, V>>,
        ghost o: seq<(K, V)>, ghost m: map<K, V>)
      returns (restored: bool)
      requires newMap != this && Moving(newMap, b, o, m, i) && carried == |o|
      modifies this, newMap`overflow
      ensures restored ==> Valid() && contents == m && old(newMap.overflow) <= overflow
      ensures old(newMap.overflow) != o ==> !restored && overflow == old(newMap.overflow) && !Valid()
      ensures old(newMap.overflow) != o ==>
        (Flags(Places(), buckets, overflow) <==> Announced(Places(), buckets, overflow, |o|))
      decreases 2 * |m| + 1, 0, 1
    {
      hide Layout, Represents, Occupied, Moved, Left, PutBack, Flags, Announced;
      ghost var sc, sc' := Places(), newMap.Places();
      overflow, newMap.overflow := newMap.overflow, overflow;
      if |overflow| != carried {
        GrownIff(sc, buckets, o, overflow);
        return false;
      }
      assert overflow == o;
      contents := Left(m, b, o, i);
      restored := InsertAgain(newMap.buckets, sc, sc', i, b, o, m);
    }

    /** The loop of the `catch`. */
    method InsertAgain(r: seq<Bucket<K, V>>, ghost sc: Scheme<K>, ghost sc': Scheme<K>, ghost i: nat,
        ghost b: seq<Bucket<K, V>>, ghost o: seq<(K, V)>, ghost m: map<K, V>)
      returns (ok: bool)
      requires i <= |b| && Layout(sc, b, o) && Represents(b, o, m)
      requires Layout(sc', r, o) && Represents(r, o, Moved(m, b, o, i))
      requires Valid() && contents == Left(m, b, o, i) && overflow == o
      modifies this
      ensures ok ==> Valid() && contents == m && o <= overflow
      decreases 2 * |m| + 1, 0, 0
    {
      hide Layout, Represents, Occupied, Moved, Left, PutBack;
      PutBackNone(m, b, o, i, r);
      var j := 0;
      while j < |r|
        invariant 0 <= j <= |r| && Valid() && contents == PutBack(m, b, o, i, r, j) && o <= overflow
      {
        PutBackStep(sc, sc', m, b, o, i, r, j);
        if r[j].value.Some? {
          var (k, v) := r[j].value.value;
          PutBackPart(m, b, o, i, r, j);
          Smaller(contents, m, k);
          var kept;
          ok, kept := InsertValue(k, v);
          if !ok {
            return;
          }
        }
        j := j + 1;
      }
      PutBackAll(m, b, o, i, r);
      ok := true;
    }

    /** At the end the new table has the whole map. */
    lemma AllMoved(newMap: HopscotchMap<K, V>, b: seq<Bucket<K, V>>, o: seq<(K, V)>, m: map<K, V>)
      requires Moving(newMap, b, o, m, |buckets|)
      ensures newMap.Valid() && SameKind(newMap) && newMap.contents == m && o <= newMap.overflow
    {
      MovedAll(m, b, o);
    }

    /** Moves everything to a table with another bucket count: the overflow list whole, then the values
        bucket by bucket, and takes that table over. */
    method RehashImpl(n: nat) returns (ok: bool, kept: bool)
      requires Valid() && (nbElements > 0 ==> n > 0)
      modifies this
      ensures ok ==> Valid() && contents == old(contents) && n <= policy.max && count >= policy.roundUp(n)
      ensures !ok && kept ==> Valid() && contents == old(contents)
      ensures ok || kept ==> old(overflow) <= overflow
      ensures n <= policy.max && Takes(policy.roundUp(n), old(nbElements)) ==> ok && count == policy.roundUp(n)
      ensures n > policy.max ==> !ok && kept && count == old(count)
      decreases 2 * |contents| + 1, Room(if n <= policy.max then policy.roundUp(n) else n), 3
    {
      hide Layout, Represents, Occupied, Moving;
      if n > policy.max {
        return false, true;
      }
      ghost var b, o, m := buckets, overflow, contents;
      var carried := |overflow|;
      var newMap := StartRehash(n);
      var i := 0;
      while i < |buckets|
        invariant 0 <= i <= |buckets| == |b|
        invariant Moving(newMap, b, o, m, i) && newMap.count >= policy.roundUp(n)
        invariant Takes(policy.roundUp(n), |m|) ==> newMap.count == policy.roundUp(n)
      {
        ok, kept := MoveBucket(newMap, i, b, o, m);
        if !ok {
          if kept {
            kept := RollBack(newMap, carried, i, b, o, m);
          }
          return;
        }
        i := i + 1;
      }
      AllMoved(newMap, b, o, m);
      Swap(newMap);
      ok, kept := true, true;
    }

    // ----- The operations of a map -----

    /** Inserts unless the key is there; tells whether it did. */
    method Insert(k: K, v: V) returns (ok: bool, kept: bool, inserted: bool)
      requires Valid()
      modifies this
      ensures ok ==> Valid() && inserted == (k !in old(contents))
      ensures ok ==> contents == if k in old(contents) then old(contents) else old(contents)[k := v]
      ensures !ok ==> k !in old(contents) && old(Crowded(k)) && !old(CanGrow())
      ensures !ok && old(CannotGrow()) ==> kept
      ensures !ok && kept ==> Valid() && contents == old(contents)
      ensures ok && inserted && count == old(count) && overflow != old(overflow) ==>
        old(MayOverflow(k)) && overflow == old(overflow) + [(k, v)]
      ensures k !in old(contents) && old(!MustGrow() && MayOverflow(k)) ==> ok && count == old(count)
    {
      var p := FindPosition(k);
      if !p.End? {
        return true, true, false;
      }
      ok, kept := InsertValue(k, v);
      inserted := true;
    }

    /** Inserts, or replaces the value of a key that is there. */
    method InsertOrAssign(k: K, v: V) returns (ok: bool, kept: bool, inserted: bool)
      requires Valid()
      modifies this
      ensures ok ==> Valid() && inserted == (k !in old(contents)) && contents == old(contents)[k := v]
      ensures !ok ==> k !in old(contents) && old(Crowded(k)) && !old(CanGrow())
      ensures !ok && old(CannotGrow()) ==> kept
      ensures !ok && kept ==> Valid() && contents == old(contents)
      ensures ok && inserted && count == old(count) && overflow != old(overflow) ==>
        old(MayOverflow(k)) && overflow == old(overflow) + [(k, v)]
      ensures k !in old(contents) && old(!MustGrow() && MayOverflow(k)) ==> ok && count == old(count)
    {
      hide Layout, Represents;
      var p := FindPosition(k);
      match p
      case End =>
        ok, kept := InsertValue(k, v);
        inserted := true;
      case InBucket(j) =>
        AssignInBucketOk(Places(), buckets, overflow, contents, j, v);
        buckets := buckets[j := buckets[j].(value := Some((k, v)))];
        contents := contents[k := v];
        ok, kept, inserted := true, true, false;
      case InList(i) =>
        AssignInListOk(Places(), buckets, overflow, contents, i, v);
        overflow := overflow[i := (k, v)];
        contents := contents[k := v];
        ok, kept, inserted := true, true, false;
    }

    method Size() returns (n: nat)
      requires Valid()
      ensures n == |contents|
    {
      n := nbElements;
    }

    method Clear()
      requires Valid()
      modifies this`buckets, this`overflow, this`nbElements, this`contents
      ensures Valid() && contents == map[] && count == old(count)
    {
      hide Layout, Represents, Occupied;
      var j := 0;
      while j < |buckets|
        invariant 0 <= j <= |buckets| == |old(buckets)|
        invariant forall i :: 0 <= i < j ==> buckets[i] == Bucket(None, {}, false)
      {
        buckets := buckets[j := Bucket(None, {}, false)];
        j := j + 1;
      }
      overflow := [];
      nbElements := 0;
      contents := map[];
      EmptyTableOk(Places(), buckets);
    }
  }
}
