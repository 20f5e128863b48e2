/** Identities, values and list helpers shared by the storage core and the operators. */
module Basics {

  datatype Option<+T> = None | Some(value: T)

  datatype Result<+T, +E> = Ok(value: T) | Err(error: E)

  /** A transaction identity. The source compares TransactionId objects; the model compares ids. */
  type TransactionId = nat

  /** A page identity: the owning table and the page number within that table. */
  datatype PageId = PageId(tableId: int, pageNumber: nat)

  type Bytes = seq<bv8>

  /** A field of a tuple. Integer fields hold mathematical integers; where the source's 32-bit
      range matters the operator says so. */
  datatype Field = IntField(value: int) | StringField(text: string)

  type Tuple = seq<Field>

  const IntMin: int := -0x8000_0000
  const IntMax: int := 0x7fff_ffff

  predicate IsInt32(x: int) { IntMin <= x <= IntMax }

  const Two32: int := 0x1_0000_0000

  /** The value of an int computation in Java: x reduced into [-2^31, 2^31) modulo 2^32. */
  function Wrap32(x: int): (r: int)
    ensures IsInt32(r)
    ensures IsInt32(x) ==> r == x
  {
    (x - IntMin) % Two32 + IntMin
  }

  /** Adding to an already wrapped value wraps the same as adding to the exact value, so a
      running int sum is the wrapped exact sum. */
  lemma WrapAdd(a: int, b: int)
    ensures Wrap32(Wrap32(a) + b) == Wrap32(a + b)
  {
    var x := a - IntMin;
    var q := x / Two32;
    assert x == q * Two32 + x % Two32;
    assert Wrap32(a) + b - IntMin == x % Two32 + b;
    assert a + b - IntMin == (x % Two32 + b) + q * Two32;
    ModShift(x % Two32 + b, q);
  }

  lemma ModShift(y: int, q: int)
    ensures (y + q * Two32) % Two32 == y % Two32
  {
    var k := y / Two32;
    assert y == k * Two32 + y % Two32;
    assert y + q * Two32 == (k + q) * Two32 + y % Two32;
  }

  predicate NoDup<T(==)>(s: seq<T>) {
    forall i, j | 0 <= i < j < |s| :: s[i] != s[j]
  }

  /** The index of the first occurrence of x in s. */
  function FirstIndex<T(==)>(s: seq<T>, x: T): (i: nat)
    requires x in s
    ensures i < |s| && s[i] == x && x !in s[..i]
  {
    if s[0] == x then 0
    else
      var j := FirstIndex(s[1..], x);
      assert s[..j + 1] == [s[0]] + s[1..][..j];
      j + 1
  }

  /** r is s with the first occurrence of x, if any, removed: s cut around the first index
      holding x, everything else kept in order. */
  ghost predicate RemovesFirst<T>(s: seq<T>, x: T, r: seq<T>) {
    && (x !in s ==> r == s)
    && (x in s ==> |r| == |s| - 1)
    && (forall y :: y in r ==> y in s)
    && (NoDup(s) ==> NoDup(r) && x !in r)
    && (forall y :: y in s && y != x ==> y in r)
    && (x in s ==> r == s[..FirstIndex(s, x)] + s[FirstIndex(s, x) + 1..])
  }

  /** ArrayList.remove(Object): drop the first occurrence of x, if any. */
  function RemoveFirst<T(==)>(s: seq<T>, x: T): (r: seq<T>)
    ensures x !in s ==> r == s
    ensures x in s ==> |r| == |s| - 1
    ensures forall y :: y in r ==> y in s
    ensures NoDup(s) ==> NoDup(r) && x !in r
    ensures forall y :: y in s && y != x ==> y in r
    ensures x in s ==> r == s[..FirstIndex(s, x)] + s[FirstIndex(s, x) + 1..]
  {
    if s == [] then []
    else if s[0] == x then
      assert s[..0] + s[1..] == s[1..];
      s[1..]
    else
      var rest := RemoveFirst(s[1..], x);
      ConsRemovesFirst(s, x, rest);
      [s[0]] + rest
  }

  /** Putting back a head other than x keeps a first-occurrence removal one. */
  lemma ConsRemovesFirst<T>(s: seq<T>, x: T, rest: seq<T>)
    requires s != [] && s[0] != x
    requires RemovesFirst(s[1..], x, rest)
    ensures RemovesFirst(s, x, [s[0]] + rest)
  {
    ConsKeepsNoDup(s, rest, x);
    if x in s {
      assert x in s[1..];
      var j := FirstIndex(s[1..], x);
      assert FirstIndex(s, x) == j + 1;
      ConsKeepsFirstSplit(s[0], s[1..], j);
      assert [s[0]] + s[1..] == s;
    }
  }

  lemma ConsKeepsNoDup<T>(s: seq<T>, rest: seq<T>, x: T)
    requires s != [] && s[0] != x
    requires forall y :: y in rest ==> y in s[1..]
    requires NoDup(s[1..]) ==> NoDup(rest)
    ensures NoDup(s) ==> NoDup([s[0]] + rest)
  {
    if NoDup(s) {
      assert NoDup(s[1..]);
      forall i, j | 0 <= i < j < |[s[0]] + rest| ensures ([s[0]] + rest)[i] != ([s[0]] + rest)[j] {
        if i == 0 { assert ([s[0]] + rest)[j] in rest; }
      }
    }
  }

  lemma ConsKeepsFirstSplit<T>(h: T, t: seq<T>, j: nat)
    requires j < |t|
    ensures [h] + (t[..j] + t[j + 1..]) == ([h] + t)[..j + 1] + ([h] + t)[j + 2..]
  {
    var s := [h] + t;
    assert s[..j + 1] == [h] + t[..j];
    assert s[j + 2..] == t[j + 1..];
  }
}
