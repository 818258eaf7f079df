/** The comparisons of byte strings that order the trees. */
module ByteOrder {

  type byte = x: int | 0 <= x < 256
  type Bytes = seq<byte>

  /** The sign of `memcmp` on two strings of the same length. */
  function Memcmp(a: Bytes, b: Bytes): (r: int)
    requires |a| == |b|
    ensures -1 <= r <= 1
  {
    if a == [] then 0
    else if a[0] != b[0] then (if a[0] < b[0] then -1 else 1)
    else Memcmp(a[1..], b[1..])
  }

  /** Shorter strings first, then `memcmp`: the order of the users and of the memory pool. */
  function LengthFirst(a: Bytes, b: Bytes): (r: int)
    ensures -1 <= r <= 1
  {
    if |a| < |b| then -1 else if |a| > |b| then 1 else Memcmp(a, b)
  }

  /** The sign of `strcmp`; the arguments are the strings without their final NUL. */
  function Strcmp(a: Bytes, b: Bytes): (r: int)
    ensures -1 <= r <= 1
  {
    if a == [] && b == [] then 0
    else if a == [] then -1
    else if b == [] then 1
    else if a[0] != b[0] then (if a[0] < b[0] then -1 else 1)
    else Strcmp(a[1..], b[1..])
  }

  /** Which comparison orders a tree. */
  datatype Order = ByLength | ByString

  function Compare(o: Order, a: Bytes, b: Bytes): (r: int)
    ensures -1 <= r <= 1
  {
    if o == ByLength then LengthFirst(a, b) else Strcmp(a, b)
  }

  lemma {:induction false} MemcmpOrder(a: Bytes, b: Bytes)
    requires |a| == |b|
    ensures (Memcmp(a, b) == 0 <==> a == b) && (Memcmp(a, b) < 0 <==> Memcmp(b, a) > 0)
  {
    if a != [] {
      MemcmpOrder(a[1..], b[1..]);
      assert a == [a[0]] + a[1..] && b == [b[0]] + b[1..];
    }
  }

  lemma {:induction false} MemcmpTransitive(a: Bytes, b: Bytes, c: Bytes)
    requires |a| == |b| == |c| && Memcmp(a, b) < 0 && Memcmp(b, c) < 0
    ensures Memcmp(a, c) < 0
  {
    if a != [] && a[0] == b[0] == c[0] {
      MemcmpTransitive(a[1..], b[1..], c[1..]);
    }
  }

  lemma {:induction false} StrcmpOrder(a: Bytes, b: Bytes)
    ensures (Strcmp(a, b) == 0 <==> a == b) && (Strcmp(a, b) < 0 <==> Strcmp(b, a) > 0)
  {
    if a != [] && b != [] {
      StrcmpOrder(a[1..], b[1..]);
      assert a == [a[0]] + a[1..] && b == [b[0]] + b[1..];
    }
  }

  lemma {:induction false} StrcmpTransitive(a: Bytes, b: Bytes, c: Bytes)
    requires Strcmp(a, b) < 0 && Strcmp(b, c) < 0
    ensures Strcmp(a, c) < 0
  {
    if a != [] && b != [] && c != [] && a[0] == b[0] == c[0] {
      StrcmpTransitive(a[1..], b[1..], c[1..]);
    }
  }

  /** `a` comes before `b`: it has the smaller byte where they first differ, or it is a beginning of `b`. */
  ghost predicate Precedes(a: Bytes, b: Bytes) {
    exists k :: FirstDifference(a, b, k)
  }

  ghost predicate FirstDifference(a: Bytes, b: Bytes, k: nat) {
    k <= |a| && k < |b| && a[..k] == b[..k] && (k == |a| || a[k] < b[k])
  }

  lemma {:induction false} StrcmpIs(a: Bytes, b: Bytes)
    ensures Strcmp(a, b) < 0 <==> Precedes(a, b)
  {
    if a == [] || b == [] || a[0] != b[0] {
      assert Strcmp(a, b) < 0 ==> FirstDifference(a, b, 0);
    } else {
      StrcmpIs(a[1..], b[1..]);
      PrecedesTails(a, b);
    }
  }

  lemma PrecedesTails(a: Bytes, b: Bytes)
    requires a != [] && b != [] && a[0] == b[0]
    ensures Precedes(a, b) <==> Precedes(a[1..], b[1..])
  {
    if k: nat :| FirstDifference(a, b, k) {
      assert k > 0 && a[1..][..k - 1] == a[..k][1..] && b[1..][..k - 1] == b[..k][1..];
      assert FirstDifference(a[1..], b[1..], k - 1);
    }
    if k: nat :| FirstDifference(a[1..], b[1..], k) {
      assert a[..k + 1] == [a[0]] + a[1..][..k] && b[..k + 1] == [b[0]] + b[1..][..k];
      assert FirstDifference(a, b, k + 1);
    }
  }

  lemma {:induction false} MemcmpIs(a: Bytes, b: Bytes)
    requires |a| == |b|
    ensures Memcmp(a, b) == Strcmp(a, b)
  {
    if a != [] {
      MemcmpIs(a[1..], b[1..]);
    }
  }

  /** Which of two strings comes first: by the first byte that differs, or by length before that. */
  lemma CompareIs(a: Bytes, b: Bytes)
    ensures Compare(ByString, a, b) < 0 <==> Precedes(a, b)
    ensures Compare(ByLength, a, b) < 0 <==> |a| < |b| || (|a| == |b| && Precedes(a, b))
  {
    StrcmpIs(a, b);
    if |a| == |b| {
      MemcmpIs(a, b);
    }
  }

  /** Both comparisons are total orders. */
  lemma CompareOrder(o: Order, a: Bytes, b: Bytes)
    ensures (Compare(o, a, b) == 0 <==> a == b) && (Compare(o, a, b) < 0 <==> Compare(o, b, a) > 0)
  {
    StrcmpOrder(a, b);
    if |a| == |b| {
      MemcmpOrder(a, b);
    }
  }

  lemma CompareTransitive(o: Order, a: Bytes, b: Bytes, c: Bytes)
    requires Compare(o, a, b) < 0 && Compare(o, b, c) < 0
    ensures Compare(o, a, c) < 0
  {
    if o == ByString {
      StrcmpTransitive(a, b, c);
    } else if |a| == |b| == |c| {
      MemcmpTransitive(a, b, c);
    }
  }
}
