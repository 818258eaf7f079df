/**
 The mapped-DNS cache as a value: the names in order of use, least recent first, and the
 name each index stands for.
 */
module DnsCache {
  import opened ByteOrder
  import opened RBShape
  import opened Sequences

  datatype Cache = Cache(lru: seq<Bytes>, slots: seq<Bytes>)

  /** Both views hold the same distinct names, at most `max` of them. */
  ghost predicate Consistent(c: Cache, max: nat) {
    NoDup(c.lru) && NoDup(c.slots) && Elems(c.lru) == Elems(c.slots) && |c.lru| == |c.slots| <= max
  }

  ghost function IndexOf<T>(s: seq<T>, x: T): (i: nat)
    requires x in s
    ensures i < |s| && s[i] == x
  {
    if s[0] == x then 0 else 1 + IndexOf(s[1..], x)
  }

  ghost function Drop<T>(s: seq<T>, i: nat): seq<T>
    requires i < |s|
  {
    s[..i] + s[i + 1..]
  }

  /** The name moves to the recent end. */
  ghost function Touch(c: Cache, name: Bytes): Cache
    requires name in c.lru
  {
    c.(lru := Drop(c.lru, IndexOf(c.lru, name)) + [name])
  }

  /** A new name takes the index of the oldest one. */
  ghost function Evict(c: Cache, name: Bytes): Cache
    requires c.lru != [] && c.lru[0] in c.slots
  {
    Cache(c.lru[1..] + [name], c.slots[IndexOf(c.slots, c.lru[0]) := name])
  }

  /** `hev_mapped_dns_lookup` on an index. */
  ghost function Lookup(c: Cache, i: nat): Cache
    requires Elems(c.lru) == Elems(c.slots)
  {
    if i < |c.slots| then
      assert c.slots[i] in Elems(c.slots);
      Touch(c, c.slots[i])
    else c
  }

  // ---------------------------------------------------------------- what every step keeps

  lemma DropAndAppend<T>(s: seq<T>, i: nat)
    requires NoDup(s) && i < |s|
    ensures NoDup(Drop(s, i) + [s[i]]) && Elems(Drop(s, i) + [s[i]]) == Elems(s) && |Drop(s, i) + [s[i]]| == |s|
  {
    var d := Drop(s, i);
    assert forall j :: 0 <= j < |d| ==> d[j] == if j < i then s[j] else s[j + 1];
    assert forall x <- s :: x in d + [s[i]] by {
      forall x | x in s
        ensures x in d + [s[i]]
      {
        var j :| 0 <= j < |s| && s[j] == x;
        assert j < i ==> d[j] == x;
        assert j > i ==> d[j - 1] == x;
        assert j == i ==> (d + [s[i]])[|d|] == x;
      }
    }
    assert forall x <- d + [s[i]] :: x in s;
  }

  lemma TouchKeeps(c: Cache, name: Bytes, max: nat)
    requires Consistent(c, max) && name in c.lru
    ensures Consistent(Touch(c, name), max)
  {
    DropAndAppend(c.lru, IndexOf(c.lru, name));
  }

  lemma InBoth(c: Cache, max: nat, x: Bytes)
    requires Consistent(c, max)
    ensures x in c.lru <==> x in c.slots
  {
    assert x in Elems(c.lru) <==> x in c.lru;
    assert x in Elems(c.slots) <==> x in c.slots;
  }

  lemma AdmitKeeps(c: Cache, name: Bytes, max: nat)
    requires Consistent(c, max) && name !in c.slots && |c.slots| < max
    ensures Consistent(Cache(c.lru + [name], c.slots + [name]), max)
  {
    InBoth(c, max, name);
    assert Elems(c.lru + [name]) == Elems(c.lru) + {name};
    assert Elems(c.slots + [name]) == Elems(c.slots) + {name};
  }

  lemma EvictKeeps(c: Cache, name: Bytes, max: nat)
    requires Consistent(c, max) && name !in c.slots && c.lru != [] && c.lru[0] in c.slots
    ensures Consistent(Evict(c, name), max)
  {
    var (c', i, victim) := (Evict(c, name), IndexOf(c.slots, c.lru[0]), c.lru[0]);
    assert Elems(c'.lru) == Elems(c.lru) - {victim} + {name} by {
      assert forall x <- c.lru :: x == victim || x in c.lru[1..];
      assert victim !in c.lru[1..];
      assert forall x <- c'.lru :: x == name || x in c.lru[1..];
      assert forall x <- c.lru[1..] :: x in c'.lru && x in c.lru;
      assert name in c'.lru;
    }
    assert Elems(c'.slots) == Elems(c.slots) - {victim} + {name} by {
      forall x | x in c.slots && x != victim
        ensures x in c'.slots
      {
        var j :| 0 <= j < |c.slots| && c.slots[j] == x;
        assert c'.slots[j] == x;
      }
      assert c'.slots[i] == name;
    }
    InBoth(c, max, name);
  }

  /** `hev_mapped_dns_find`: a known name keeps its index, a new one takes a free or the oldest one. */
  ghost function Find(c: Cache, name: Bytes, max: nat): (r: (Cache, nat))
    requires Consistent(c, max) && max >= 1
    ensures Consistent(r.0, max) && r.1 < |r.0.slots| && r.0.slots[r.1] == name
  {
    InBoth(c, max, name);
    if name in c.slots then
      TouchKeeps(c, name, max);
      (Touch(c, name), IndexOf(c.slots, name))
    else if |c.slots| < max then
      AdmitKeeps(c, name, max);
      (Cache(c.lru + [name], c.slots + [name]), |c.slots|)
    else
      InBoth(c, max, c.lru[0]);
      EvictKeeps(c, name, max);
      (Evict(c, name), IndexOf(c.slots, c.lru[0]))
  }

  lemma LookupKeeps(c: Cache, i: nat, max: nat)
    requires Consistent(c, max)
    ensures Consistent(Lookup(c, i), max) && Lookup(c, i).slots == c.slots
  {
    if i < |c.slots| {
      InBoth(c, max, c.slots[i]);
      TouchKeeps(c, c.slots[i], max);
    }
  }

  // ---------------------------------------------------------------- runs, and least recent use

  datatype Op = FindOp(name: Bytes) | LookupOp(index: nat)

  ghost function Step(c: Cache, op: Op, max: nat): Cache
    requires Consistent(c, max) && max >= 1
  {
    match op
    case FindOp(name) => Find(c, name, max).0
    case LookupOp(i) => Lookup(c, i)
  }

  lemma StepKeeps(c: Cache, op: Op, max: nat)
    requires Consistent(c, max) && max >= 1
    ensures Consistent(Step(c, op, max), max)
  {
    match op
    case FindOp(name) =>
    case LookupOp(i) => LookupKeeps(c, i, max);
  }

  /** The names an operation touches. */
  ghost function Touched(c: Cache, op: Op): set<Bytes> {
    match op
    case FindOp(name) => {name}
    case LookupOp(i) => if i < |c.slots| then {c.slots[i]} else {}
  }

  /** The state after a run, and the names touched on the way. */
  ghost function Run(c: Cache, ops: seq<Op>, max: nat): (r: (Cache, set<Bytes>))
    requires Consistent(c, max) && max >= 1
    ensures Consistent(r.0, max)
    decreases |ops|
  {
    if ops == [] then (c, {}) else
    StepKeeps(c, ops[0], max);
    var (c', names) := Run(Step(c, ops[0], max), ops[1..], max);
    (c', Touched(c, ops[0]) + names)
  }

  /** Since `name` was touched at index `i`, exactly the names in `since` were: it is still there while they are few. */
  ghost predicate Aged(c: Cache, name: Bytes, i: nat, since: set<Bytes>, max: nat) {
    if |since| < max then
      i < |c.slots| && c.slots[i] == name && name in c.lru && Elems(c.lru[IndexOf(c.lru, name) + 1..]) == since
    else
      name !in c.slots
  }

  lemma {:induction false} DistinctCount<T>(s: seq<T>)
    requires NoDup(s)
    ensures |Elems(s)| == |s|
  {
    if s != [] {
      var t := s[..|s| - 1];
      DistinctCount(t);
      assert Elems(s) == Elems(t) + {s[|s| - 1]};
      assert s[|s| - 1] !in Elems(t);
    }
  }

  lemma {:induction false} IndexInSplit<T>(a: seq<T>, x: T, b: seq<T>)
    requires NoDup(a + [x] + b)
    ensures IndexOf(a + [x] + b, x) == |a| && (a + [x] + b)[|a| + 1..] == b && (a + [x] + b)[..|a|] == a
  {
    var s := a + [x] + b;
    assert s[|a|] == x;
    var i := IndexOf(s, x);
    assert s[i] == x;
  }

  lemma SplitAt<T>(s: seq<T>, x: T)
    requires x in s
    ensures s == s[..IndexOf(s, x)] + [x] + s[IndexOf(s, x) + 1..]
  {
  }

  /** The shape behind `Aged` while the name is there: `b` is what was touched since. */
  ghost predicate Placed(c: Cache, name: Bytes, i: nat, a: seq<Bytes>, b: seq<Bytes>, since: set<Bytes>) {
    c.lru == a + [name] + b && Elems(b) == since && i < |c.slots| && c.slots[i] == name
  }

  lemma PlacedIsAged(c: Cache, name: Bytes, i: nat, a: seq<Bytes>, b: seq<Bytes>, since: set<Bytes>, max: nat)
    requires Consistent(c, max) && Placed(c, name, i, a, b, since)
    ensures Aged(c, name, i, since, max) && |since| == |b| && NoDup(b)
  {
    IndexInSplit(a, name, b);
    assert forall j :: 0 <= j < |b| ==> c.lru[|a| + 1 + j] == b[j];
    DistinctCount(b);
  }

  /** Another name moves to the recent end. */
  lemma TouchOther(c: Cache, name: Bytes, i: nat, a: seq<Bytes>, b: seq<Bytes>, since: set<Bytes>, m: Bytes, max: nat)
    requires Consistent(c, max) && Placed(c, name, i, a, b, since) && m in c.lru && m != name
    ensures Aged(Touch(c, m), name, i, since + {m}, max)
  {
    var j := IndexOf(c.lru, m);
    var c' := Touch(c, m);
    TouchKeeps(c, m, max);
    if j < |a| {
      assert a[j] == m;
      assert c'.lru == Drop(a, j) + [name] + (b + [m]);
      assert Elems(b + [m]) == since + {m};
      PlacedIsAged(c', name, i, Drop(a, j), b + [m], since + {m}, max);
    } else {
      var k := j - |a| - 1;
      assert b[k] == m;
      assert NoDup(b) by { PlacedIsAged(c, name, i, a, b, since, max); }
      DropAndAppend(b, k);
      assert c'.lru == a + [name] + (Drop(b, k) + [m]);
      PlacedIsAged(c', name, i, a, Drop(b, k) + [m], since + {m}, max);
    }
  }

  /** A name that was not there comes in at the recent end; an older one may go. */
  lemma NewOther(c: Cache, c': Cache, name: Bytes, i: nat, a: seq<Bytes>, a': seq<Bytes>, b: seq<Bytes>, since: set<Bytes>,
                 m: Bytes, max: nat)
    requires Consistent(c', max) && Placed(c, name, i, a, b, since)
    requires c'.lru == a' + [name] + (b + [m]) && i < |c'.slots| && c'.slots[i] == name
    ensures Aged(c', name, i, since + {m}, max)
  {
    assert Elems(b + [m]) == since + {m};
    PlacedIsAged(c', name, i, a', b + [m], since + {m}, max);
  }

  /** The name was the oldest, and the newcomer takes its index. */
  lemma PushedOut(c: Cache, name: Bytes, i: nat, b: seq<Bytes>, since: set<Bytes>, m: Bytes, max: nat)
    requires Consistent(c, max) && Placed(c, name, i, [], b, since) && m !in c.slots && m != name && |c.slots| == max
    ensures Aged(Evict(c, m), name, i, since + {m}, max)
  {
    assert c.lru == [name] + b;
    assert |since| == max - 1 by { PlacedIsAged(c, name, i, [], b, since, max); }
    assert m !in since by { InBoth(c, max, m); }
    var k := IndexOf(c.slots, name);
    assert forall j :: 0 <= j < |c.slots| && j != k ==> c.slots[j] != name;
  }

  lemma FindOther(c: Cache, name: Bytes, i: nat, since: set<Bytes>, m: Bytes, max: nat)
    requires Consistent(c, max) && max >= 1 && Aged(c, name, i, since, max) && |since| < max && m != name
    ensures Aged(Find(c, m, max).0, name, i, since + {m}, max)
  {
    SplitAt(c.lru, name);
    var (a, b) := (c.lru[..IndexOf(c.lru, name)], c.lru[IndexOf(c.lru, name) + 1..]);
    InBoth(c, max, m);
    var c' := Find(c, m, max).0;
    if m in c.slots {
      TouchOther(c, name, i, a, b, since, m, max);
    } else if |c.slots| < max {
      assert c'.lru == a + [name] + (b + [m]);
      NewOther(c, c', name, i, a, a, b, since, m, max);
    } else if a != [] {
      assert c.lru[0] == a[0] && a[0] != c.lru[|a|];
      assert c'.lru == a[1..] + [name] + (b + [m]);
      NewOther(c, c', name, i, a, a[1..], b, since, m, max);
    } else {
      PushedOut(c, name, i, b, since, m, max);
    }
  }

  lemma LookupOther(c: Cache, name: Bytes, i: nat, since: set<Bytes>, j: nat, max: nat)
    requires Consistent(c, max) && Aged(c, name, i, since, max) && |since| < max && j < |c.slots| && c.slots[j] != name
    ensures Aged(Lookup(c, j), name, i, since + {c.slots[j]}, max)
  {
    SplitAt(c.lru, name);
    InBoth(c, max, c.slots[j]);
    TouchOther(c, name, i, c.lru[..IndexOf(c.lru, name)], c.lru[IndexOf(c.lru, name) + 1..], since, c.slots[j], max);
  }

  lemma AgedStep(c: Cache, name: Bytes, i: nat, since: set<Bytes>, op: Op, max: nat)
    requires Consistent(c, max) && max >= 1 && Aged(c, name, i, since, max) && name !in Touched(c, op)
    ensures Aged(Step(c, op, max), name, i, since + Touched(c, op), max)
  {
    assert since + {} == since;
    if |since| >= max {
      StaysOut(c, name, op, max);
      Bigger(since, Touched(c, op));
    } else if op.FindOp? {
      FindOther(c, name, i, since, op.name, max);
    } else if op.index < |c.slots| {
      LookupOther(c, name, i, since, op.index, max);
    }
  }

  lemma Bigger<T>(a: set<T>, b: set<T>)
    ensures |a| <= |a + b|
  {
    assert a + b == a + (b - a);
  }

  lemma StaysOut(c: Cache, name: Bytes, op: Op, max: nat)
    requires Consistent(c, max) && max >= 1 && name !in c.slots && name !in Touched(c, op)
    ensures name !in Step(c, op, max).slots
  {
  }

  /**
   True least-recent use, both ways.  After a run of finds and lookups that do not touch
   `name`, its index still stands for it exactly when fewer than `max` distinct other names
   were touched since its last touch.
   */
  lemma {:induction false} LeastRecentlyUsed(c: Cache, name: Bytes, i: nat, since: set<Bytes>, ops: seq<Op>, max: nat)
    requires Consistent(c, max) && max >= 1 && Aged(c, name, i, since, max)
    requires name !in Run(c, ops, max).1
    ensures Aged(Run(c, ops, max).0, name, i, since + Run(c, ops, max).1, max)
    decreases |ops|
  {
    if ops == [] {
      assert since + {} == since;
    } else {
      AgedStep(c, name, i, since, ops[0], max);
      StepKeeps(c, ops[0], max);
      var c' := Step(c, ops[0], max);
      LeastRecentlyUsed(c', name, i, since + Touched(c, ops[0]), ops[1..], max);
      assert since + Touched(c, ops[0]) + Run(c', ops[1..], max).1 == since + Run(c, ops, max).1;
    }
  }

  /** Just after a find nothing else was touched. */
  lemma JustFound(c: Cache, name: Bytes, max: nat)
    requires Consistent(c, max) && max >= 1
    ensures Aged(Find(c, name, max).0, name, Find(c, name, max).1, {}, max)
  {
    var (c', i) := Find(c, name, max);
    InBoth(c, max, name);
    var a := c'.lru[..|c'.lru| - 1];
    assert c'.lru == a + [name] + [];
    PlacedIsAged(c', name, i, a, [], {}, max);
  }

  /** A name found keeps its index over every run in which fewer than `max` other names are touched, and loses it otherwise. */
  lemma FoundNameKeepsIndex(c: Cache, name: Bytes, ops: seq<Op>, max: nat)
    requires Consistent(c, max) && max >= 1
    requires name !in Run(Find(c, name, max).0, ops, max).1
    ensures var (c', i) := Find(c, name, max);
      var (c'', others) := Run(c', ops, max);
      if |others| < max then i < |c''.slots| && c''.slots[i] == name else name !in c''.slots
  {
    JustFound(c, name, max);
    LeastRecentlyUsed(Find(c, name, max).0, name, Find(c, name, max).1, {}, ops, max);
    assert {} + Run(Find(c, name, max).0, ops, max).1 == Run(Find(c, name, max).0, ops, max).1;
  }
}
