/**
 The hash table from buffer addresses to buffer control blocks: open addressing with
 linear probing and tombstones, in one page of 170 buckets.
 */
module SlabHashTable {
  import opened Options
  import opened Cardinality

  datatype State = EMPTY | DELETED | FULL
  datatype Bucket = Bucket(val: nat, key: nat, state: State)

  /** Bucket number n on the probe path of a key. */
  function Probe(key: nat, n: nat): (i: nat)
    ensures i < 170 && i == (key + n) % 170
  {
    (key % 170 + n) % 170
  }

  lemma {:induction false} ProbeNext(key: nat, n: nat)
    ensures (Probe(key, n) + 1) % 170 == Probe(key, n + 1)
  {
  }

  /** The first 170 probes visit every bucket. */
  lemma {:induction false} ProbeReaches(key: nat, i: nat) returns (n: nat)
    requires i < 170
    ensures n < 170 && Probe(key, n) == i
  {
    var h := key % 170;
    n := if h <= i then i - h else i + 170 - h;
  }

  /** Fewer than 170 buckets in use leave one unused. */
  lemma {:induction false} SomeUnused(full: set<nat>) returns (i: nat)
    requires |full| < 170
    ensures i < 170 && i !in full
  {
    if forall j: nat | j in Indices(170) :: j in full {
      IndicesSize(170);
      SubsetSize(Indices(170), full);
    }
    i :| i in Indices(170) && i !in full;
  }

  /** The table invariant, folded: proofs that look inside mention UnfoldTable. */
  ghost predicate Represents(b: seq<Bucket>, model: map<nat, nat>, steps: map<nat, nat>, full: set<nat>) {
    forall n: nat | UnfoldTable(n) :: Refines(b, model, steps, full)
  }

  predicate UnfoldTable(n: nat) { true }

  /** The FULL buckets hold exactly the map, and every live key is found before an EMPTY bucket. */
  ghost predicate Refines(b: seq<Bucket>, model: map<nat, nat>, steps: map<nat, nat>, full: set<nat>) {
    |b| == 170 && model.Keys == steps.Keys
    && (forall i: nat | i < 170 :: i in full <==> b[i].state == FULL)
    && (forall i | i in full :: i < 170 && b[i].key in steps && i == Probe(b[i].key, steps[b[i].key]))
    && (forall k | k in steps :: OnPath(b, k, steps[k]) && b[Probe(k, steps[k])] == Bucket(model[k], k, FULL))
  }

  /** No EMPTY bucket among the first n probes for the key. */
  ghost predicate OnPath(b: seq<Bucket>, key: nat, n: nat) {
    |b| == 170 && n < 170 && forall m: nat {:trigger Probe(key, m)} | m < n :: b[Probe(key, m)].state != EMPTY
  }

  /** The probe loop of ht_get and ht_erase goes past this bucket. */
  predicate Passes(s: Bucket, key: nat) {
    (s.state != FULL || s.key != key) && s.state != EMPTY
  }

  lemma {:induction false} ProbeInjective(key: nat, m: nat, n: nat)
    requires m < 170 && n < 170 && Probe(key, m) == Probe(key, n)
    ensures m == n
  {
  }

  /** What a probe finds: only the key's own bucket matches, and no EMPTY bucket comes before it. */
  lemma {:induction false} AtProbe(b: seq<Bucket>, model: map<nat, nat>, steps: map<nat, nat>, full: set<nat>, key: nat,
                                   n: nat)
    requires Represents(b, model, steps, full) && |b| == 170 && n < 170
    ensures key in model <==> key in steps
    ensures key in model ==> steps[key] < 170
    ensures var s := b[Probe(key, n)];
            (s.state == FULL && s.key == key ==> key in model && n == steps[key] && s.val == model[key])
            && (key in model && n < steps[key] ==> s.state != EMPTY)
            && (key in model && n == steps[key] ==> s.state == FULL && s.key == key)
  {
    assert UnfoldTable(0);
    var s := b[Probe(key, n)];
    if s.state == FULL && s.key == key {
      assert Probe(key, n) in full;
      ProbeInjective(key, n, steps[key]);
    }
  }

  /** Filling an unused bucket at the end of the new key's probe path adds the key. */
  lemma {:induction false} Insert(b: seq<Bucket>, model: map<nat, nat>, steps: map<nat, nat>, full: set<nat>, key: nat,
                                  val: nat, n: nat)
    requires Represents(b, model, steps, full) && |b| == 170 && n < 170 && key !in model
    requires forall m: nat {:trigger Probe(key, m)} | m < n :: b[Probe(key, m)].state == FULL
    requires b[Probe(key, n)].state != FULL
    ensures Probe(key, n) !in full
    ensures Represents(b[Probe(key, n) := Bucket(val, key, FULL)], model[key := val], steps[key := n],
                       full + {Probe(key, n)})
  {
    assert UnfoldTable(0);
    var i := Probe(key, n);
    var b', steps' := b[i := Bucket(val, key, FULL)], steps[key := n];
    forall k | k in steps'
      ensures OnPath(b', k, steps'[k]) && b'[Probe(k, steps'[k])] == Bucket(model[key := val][k], k, FULL)
    {
      if k != key {
        assert OnPath(b, k, steps[k]);
        assert Probe(k, steps[k]) in full;
      }
    }
  }

  /** A tombstone removes exactly its key. */
  lemma {:induction false} Remove(b: seq<Bucket>, model: map<nat, nat>, steps: map<nat, nat>, full: set<nat>, key: nat)
    requires Represents(b, model, steps, full) && |b| == 170 && key in model && key in steps
    ensures Probe(key, steps[key]) in full
    ensures Represents(b[Probe(key, steps[key]) := b[Probe(key, steps[key])].(state := DELETED)],
                       model - {key}, steps - {key}, full - {Probe(key, steps[key])})
  {
    assert UnfoldTable(0);
    var i := Probe(key, steps[key]);
    var b', steps' := b[i := b[i].(state := DELETED)], steps - {key};
    assert i in full;
    forall k | k in steps'
      ensures OnPath(b', k, steps'[k]) && b'[Probe(k, steps'[k])] == Bucket(model[k], k, FULL)
    {
      assert OnPath(b, k, steps[k]);
    }
  }

  /**
   ht_set does not look for the key. A second insertion of a key leaves two buckets for it, and the
   table stands for no map any more; a search meets the new bucket first exactly if it filled a
   tombstone in front of the old one.
   */
  lemma {:induction false} InsertAgain(b: seq<Bucket>, model: map<nat, nat>, steps: map<nat, nat>, full: set<nat>,
                                       key: nat, val: nat, n: nat,
                                       model': map<nat, nat>, steps': map<nat, nat>, full': set<nat>)
    requires Represents(b, model, steps, full) && |b| == 170 && n < 170 && key in model
    requires forall m: nat {:trigger Probe(key, m)} | m < n :: b[Probe(key, m)].state == FULL
    requires b[Probe(key, n)].state != FULL && key in steps && steps[key] < 170
    ensures var b' := b[Probe(key, n) := Bucket(val, key, FULL)];
            && !Represents(b', model', steps', full') && n != steps[key]
            && var first := if n < steps[key] then n else steps[key];
               && b'[Probe(key, first)] == Bucket(if n < steps[key] then val else model[key], key, FULL)
               && forall m: nat {:trigger Probe(key, m)} | m < first :: Passes(b'[Probe(key, m)], key)
  {
    var b', was := b[Probe(key, n) := Bucket(val, key, FULL)], steps[key];
    AtProbe(b, model, steps, full, key, was);
    assert n != was;
    if Probe(key, n) == Probe(key, was) { ProbeInjective(key, n, was); }
    TwoBuckets(b', key, Probe(key, n), Probe(key, was), model', steps', full');
    var first := if n < was then n else was;
    forall m: nat {:trigger Probe(key, m)} | m < first
      ensures Passes(b'[Probe(key, m)], key)
    {
      AtProbe(b, model, steps, full, key, m);
      if Probe(key, m) == Probe(key, n) { ProbeInjective(key, m, n); }
    }
  }

  /** A table with two buckets for one key stands for no map. */
  lemma {:induction false} TwoBuckets(b: seq<Bucket>, key: nat, i: nat, j: nat, model: map<nat, nat>,
                                      steps: map<nat, nat>, full: set<nat>)
    requires |b| == 170 && i < 170 && j < 170 && i != j
    requires b[i].state == FULL && b[i].key == key && b[j].state == FULL && b[j].key == key
    ensures !Represents(b, model, steps, full)
  {
    assert UnfoldTable(0);
    assert Refines(b, model, steps, full) ==> i in full && j in full;
  }

  lemma {:induction false} OneLess(model: map<nat, nat>, full: set<nat>, key: nat, i: nat)
    requires key in model && i in full
    ensures |model - {key}| == |model| - 1 && |full - {i}| == |full| - 1
  {
    assert (model - {key}).Keys == model.Keys - {key};
  }

  lemma {:induction false} OneMore(model: map<nat, nat>, full: set<nat>, key: nat, val: nat, i: nat)
    requires key !in model && i !in full
    ensures |model[key := val]| == |model| + 1 && |full + {i}| == |full| + 1
  {
    assert model[key := val].Keys == model.Keys + {key};
  }

  class HashTable {
    const buckets: array<Bucket>
    var size: nat
    var capacity: nat
    /** The finite map the table stands for, each key's distance from its home bucket, the buckets in use. */
    ghost var model: map<nat, nat>
    ghost var steps: map<nat, nat>
    ghost var full: set<nat>

    ghost predicate Valid()
      reads this, buckets
    {
      buckets.Length == 170 && capacity == 170 && size == |model| == |full|
      && Represents(buckets[..], model, steps, full)
    }

    ghost predicate HasEmpty()
      reads buckets
    {
      exists i :: 0 <= i < buckets.Length && buckets[i].state == EMPTY
    }

    /** ht_init: a zeroed page of 24-byte buckets. */
    constructor ()
      ensures Valid() && model == map[] && size == 0 && fresh(buckets)
      ensures forall i | 0 <= i < 170 :: buckets[i].state == EMPTY
    {
      buckets := new Bucket[170](_ => Bucket(0, 0, EMPTY));
      size, capacity := 0, 4096 / 24;
      model, steps, full := map[], map[], {};
    }

    /** The search loop of ht_get and ht_erase: the bucket of the key, or an EMPTY one. */
    method Find(key: nat) returns (i: nat, ghost n: nat)
      requires Valid() && (key in model || HasEmpty())
      ensures i == Probe(key, n) && n < 170
      ensures key in model ==> key in steps && n == steps[key] && buckets[i].state == FULL && buckets[i].key == key
      ensures key in model ==> buckets[i].val == model[key]
      ensures key !in model ==> buckets[i].state == EMPTY
    {
      ghost var b := buckets[..];
      AtProbe(b, model, steps, full, key, 0);
      ghost var bound;
      if key in model {
        bound := steps[key];
      } else {
        var e :| 0 <= e < buckets.Length && buckets[e].state == EMPTY;
        bound := ProbeReaches(key, e);
      }
      i, n := key % capacity, 0;
      while buckets[i].state != FULL || buckets[i].key != key
        invariant i == Probe(key, n) && n <= bound < 170
        invariant key in model ==> key in steps && bound == steps[key]
        invariant key !in model ==> buckets[Probe(key, bound)].state == EMPTY
        decreases bound - n
      {
        AtProbe(b, model, steps, full, key, n);
        if buckets[i].state == EMPTY {
          return;
        }
        ProbeNext(key, n);
        i := (i + 1) % capacity;
        n := n + 1;
      }
      AtProbe(b, model, steps, full, key, n);
    }

    /** ht_get: NULL for a key that is not in the map. */
    method Get(key: nat) returns (r: Option<nat>)
      requires Valid() && (key in model || HasEmpty())
      ensures r == if key in model then Some(model[key]) else None
    {
      var i, n := Find(key);
      if buckets[i].state == EMPTY {
        return None;
      }
      return Some(buckets[i].val);
    }

    method Store(i: nat, s: Bucket)
      requires i < buckets.Length
      modifies buckets
      ensures buckets[..] == old(buckets[..])[i := s]
    {
      buckets[i] := s;
    }

    /** ht_erase. */
    method Erase(key: nat) returns (erased: bool)
      requires Valid() && (key in model || HasEmpty())
      modifies this, buckets
      ensures Valid() && erased == (key in old(model)) && model == old(model) - {key}
      ensures !erased ==> buckets[..] == old(buckets[..])
      ensures erased ==>
                key in old(steps)
                && var i := Probe(key, old(steps)[key]);
                   buckets[..] == old(buckets[..])[i := old(buckets[i]).(state := DELETED)]
    {
      var i, n := Find(key);
      if buckets[i].state == EMPTY {
        return false;
      }
      Bury(i, key);
      return true;
    }

    /** The tombstone for a key whose bucket has been found. */
    method Bury(i: nat, key: nat)
      requires Valid() && key in model && key in steps && i == Probe(key, steps[key])
      modifies this, buckets
      ensures Valid() && model == old(model) - {key}
      ensures buckets[..] == old(buckets[..])[i := old(buckets[i]).(state := DELETED)]
    {
      Remove(buckets[..], model, steps, full, key);
      ghost var was := buckets[..];
      Store(i, buckets[i].(state := DELETED));
      assert was[i] == old(buckets[i]);
      size := size - 1;
      OneLess(model, full, key, i);
      model, steps, full := model - {key}, steps - {key}, full - {i};
    }

    /** The search loop of ht_set: the first bucket on the path that is not FULL. */
    method FindUnused(key: nat) returns (i: nat, ghost n: nat)
      requires Valid() && size < capacity
      ensures i == Probe(key, n) && n < 170 && buckets[i].state != FULL
      ensures forall m: nat {:trigger Probe(key, m)} | m < n :: buckets[Probe(key, m)].state == FULL
    {
      ghost var free := SomeUnused(full);
      ghost var bound := ProbeReaches(key, free);
      assert buckets[free].state != FULL by { assert UnfoldTable(0); }
      i, n := key % capacity, 0;
      while buckets[i].state == FULL
        invariant i == Probe(key, n) && n <= bound
        invariant forall m: nat {:trigger Probe(key, m)} | m < n :: buckets[Probe(key, m)].state == FULL
        decreases bound - n
      {
        ProbeNext(key, n);
        i := (i + 1) % capacity;
        n := n + 1;
      }
    }

    /**
     ht_set for a key that is not in the map. Past a load of one half it first rehashes into a
     table of the same capacity, which it then does not keep.
     */
    method Set(key: nat, val: nat) returns (ghost n: nat)
      requires Valid() && key !in model && size < capacity
      modifies this, buckets
      ensures Valid() && model == old(model)[key := val] && key in steps && steps[key] == n
      ensures size == old(size) + 1
      ensures forall m: nat {:trigger Probe(key, m)} | m < n :: old(buckets[Probe(key, m)].state) == FULL
      ensures old(buckets[Probe(key, 0)].state) != FULL ==> n == 0
      ensures buckets[..] == old(buckets[..])[Probe(key, n) := Bucket(val, key, FULL)]
    {
      if size >= capacity || 2 * size > capacity {
        Grow();
      }
      var i;
      i, n := FindUnused(key);
      Fill(i, key, val, n);
    }

    /** ht_set for a key that is in the map: it gets a second bucket, and the table stands for no map any more. */
    method SetPresent(key: nat, val: nat) returns (ghost n: nat)
      requires Valid() && key in model && key in steps && size < capacity
      modifies `size, `capacity, buckets
      ensures size == old(size) + 1 && n < 170 && n != steps[key] && old(buckets[Probe(key, n)].state) != FULL
      ensures forall m: nat {:trigger Probe(key, m)} | m < n :: old(buckets[Probe(key, m)].state) == FULL
      ensures buckets[..] == old(buckets[..])[Probe(key, n) := Bucket(val, key, FULL)]
      ensures forall model', steps', full' :: !Represents(buckets[..], model', steps', full')
    {
      if size >= capacity || 2 * size > capacity {
        Grow();
      }
      var i;
      i, n := FindUnused(key);
      ghost var was := buckets[..];
      Store(i, Bucket(val, key, FULL));
      size := size + 1;
      AtProbe(was, model, steps, full, key, 0);
      InsertAgain(was, model, steps, full, key, val, n, model, steps, full);
      forall model', steps', full' ensures !Represents(buckets[..], model', steps', full') {
        InsertAgain(was, model, steps, full, key, val, n, model', steps', full');
      }
    }

    /** The new bucket for a key, once its place has been found. */
    method Fill(i: nat, key: nat, val: nat, ghost n: nat)
      requires Valid() && key !in model && n < 170 && i == Probe(key, n) && buckets[i].state != FULL
      requires forall m: nat {:trigger Probe(key, m)} | m < n :: buckets[Probe(key, m)].state == FULL
      modifies this, buckets
      ensures Valid() && model == old(model)[key := val] && key in steps && steps[key] == n
      ensures size == old(size) + 1
      ensures buckets[..] == old(buckets[..])[i := Bucket(val, key, FULL)]
    {
      Insert(buckets[..], model, steps, full, key, val, n);
      Store(i, Bucket(val, key, FULL));
      size := size + 1;
      OneMore(model, full, key, val, i);
      model, steps, full := model[key := val], steps[key := n], full + {i};
    }

    /** ht_grow: the copy it builds is dropped and the recomputed capacity is the old one. */
    method Grow()
      requires Valid()
      modifies `capacity
      ensures Valid()
    {
      var frames := (capacity * 2 + 4096 - 1) / 4096;
      var newCap := frames * 4096 / 24;
      var fresh' := new Bucket[newCap](_ => Bucket(0, 0, EMPTY));
      ghost var used := {};
      for i := 0 to capacity
        invariant |used| <= i && forall j: nat | j < 170 :: j in used <==> fresh'[j].state == FULL
      {
        if buckets[i].state == FULL {
          used := CopyBucket(fresh', buckets[i], used);
        }
      }
      capacity := newCap;
    }

    /** The inner loop of ht_grow. */
    static method CopyBucket(b: array<Bucket>, s: Bucket, ghost used: set<nat>) returns (ghost used': set<nat>)
      requires b.Length == 170 && |used| < 170 && s.state == FULL
      requires forall j: nat | j < 170 :: j in used <==> b[j].state == FULL
      modifies b
      ensures |used'| == |used| + 1 && forall j: nat | j < 170 :: j in used' <==> b[j].state == FULL
    {
      ghost var free := SomeUnused(used);
      ghost var bound := ProbeReaches(s.key, free);
      ghost var n := 0;
      var h := s.key % b.Length;
      while b[h].state == FULL
        invariant h == Probe(s.key, n) && n <= bound
        decreases bound - n
        modifies {}
      {
        ProbeNext(s.key, n);
        h := (h + 1) % b.Length;
        n := n + 1;
      }
      b[h] := s;
      used' := used + {h};
    }

    /** With no EMPTY bucket left, the search for an absent key never ends. */
    lemma {:induction false} SearchNeverEnds(key: nat, n: nat)
      requires Valid() && key !in model && !HasEmpty()
      ensures Passes(buckets[Probe(key, n)], key)
    {
      AtProbe(buckets[..], model, steps, full, key, n % 170);
      assert Probe(key, n) == Probe(key, n % 170);
    }

    /** With every bucket FULL, the search for an unused bucket never ends. */
    lemma {:induction false} InsertionNeverEnds(key: nat, n: nat)
      requires Valid() && size == capacity
      ensures buckets[Probe(key, n)].state == FULL
    {
      assert UnfoldTable(0);
      var i := Probe(key, n);
      if i !in full {
        SubsetSize(full + {i}, Indices(170));
        IndicesSize(170);
      }
    }
  }

  /** Tombstones alone can use up the EMPTY buckets: after this run the table is empty and every search diverges. */
  method FillWithTombstones() returns (t: HashTable)
    ensures fresh(t) && t.Valid() && t.model == map[] && !t.HasEmpty()
  {
    t := new HashTable();
    for i := 0 to 170
      invariant fresh(t) && fresh(t.buckets) && t.Valid() && t.model == map[]
      invariant forall j | 0 <= j < 170 :: t.buckets[j].state == if j < i then DELETED else EMPTY
    {
      assert Probe(i, 0) == i;
      ghost var n := t.Set(i, 1);
      var erased := t.Erase(i);
    }
  }

  /** A key inserted twice into an empty table: the second bucket goes behind the first. */
  method InsertTwice(key: nat) returns (t: HashTable)
    requires key < 169
    ensures fresh(t) && t.buckets.Length == 170 && t.size == 2
    ensures t.buckets[key] == Bucket(1, key, FULL) && t.buckets[key + 1] == Bucket(2, key, FULL)
    ensures forall model, steps, full :: !Represents(t.buckets[..], model, steps, full)
  {
    t := OneKey(key);
    ghost var was := t.buckets[..];
    assert Probe(key, 0) == key && Probe(key, 1) == key + 1;
    ghost var n := t.SetPresent(key, 2);
    assert was[Probe(key, 0)].state == FULL && was[Probe(key, 1)].state == EMPTY;
    assert t.buckets[..] == was[key + 1 := Bucket(2, key, FULL)];
    OthersStay(was, t.buckets[..], key + 1, Bucket(2, key, FULL), key);
  }

  method OneKey(key: nat) returns (t: HashTable)
    requires key < 169
    ensures fresh(t) && fresh(t.buckets) && t.Valid() && key in t.model && key in t.steps && t.size == 1
    ensures t.buckets[key] == Bucket(1, key, FULL) && t.buckets[key + 1].state == EMPTY
  {
    t := new HashTable();
    ghost var was := t.buckets[..];
    assert Probe(key, 0) == key;
    ghost var n := t.Set(key, 1);
    OthersStay(was, t.buckets[..], key, Bucket(1, key, FULL), key + 1);
  }

  lemma {:induction false} OthersStay(b: seq<Bucket>, b': seq<Bucket>, i: nat, x: Bucket, j: nat)
    requires i < |b| && j < |b| && i != j && b' == b[i := x]
    ensures b'[i] == x && b'[j] == b[j]
  {
  }

  /** 170 insertions fill the table: after this run the next insertion finds no bucket. */
  method FillTable() returns (t: HashTable)
    ensures fresh(t) && t.Valid() && t.size == t.capacity
    ensures forall key: nat, n: nat :: t.buckets[Probe(key, n)].state == FULL
  {
    t := new HashTable();
    for i := 0 to 170
      invariant fresh(t) && fresh(t.buckets) && t.Valid() && t.size == i
      invariant forall k | k in t.model :: k < i
    {
      ghost var n := t.Set(i, 1);
    }
    forall key: nat, n: nat ensures t.buckets[Probe(key, n)].state == FULL {
      t.InsertionNeverEnds(key, n);
    }
  }
}
