/** Vocabulary shared by every component: options, results, time, and the SQL aggregates. */
module Common {

  datatype Option<+T> = None | Some(value: T)

  datatype Result<+T, +E> = Ok(value: T) | Err(error: E)

  /** Instants and durations are integers in microseconds, PostgreSQL's timestamp resolution. */
  type Time = int

  const SECOND: Time := 1_000_000
  const DAY: Time := 86_400 * SECOND

  newtype Byte = x: int | 0 <= x < 256
  type Bytes = seq<Byte>

  function Max(a: int, b: int): int {
    if a < b then b else a
  }

  function Min(a: int, b: int): int {
    if a < b then a else b
  }

  /** Some element of a non-empty set. */
  ghost function Pick<T>(s: set<T>): (x: T)
    requires s != {}
    ensures x in s
  {
    var x :| x in s;
    x
  }

  /** SQL `max` over a non-empty group. */
  ghost function MaxOf(s: set<int>): (m: int)
    requires s != {}
    ensures m in s
    ensures forall x :: x in s ==> x <= m
  {
    var x := Pick(s);
    if s == {x} then
      x
    else
      assert s == (s - {x}) + {x};
      Max(x, MaxOf(s - {x}))
  }

  /** SQL `min` over a non-empty group. */
  ghost function MinOf(s: set<int>): (m: int)
    requires s != {}
    ensures m in s
    ensures forall x :: x in s ==> m <= x
  {
    var x := Pick(s);
    if s == {x} then
      x
    else
      assert s == (s - {x}) + {x};
      Min(x, MinOf(s - {x}))
  }

  /** The sum of `f` over a finite set. */
  ghost function Sum<T>(s: set<T>, f: T -> int): int
  {
    if s == {} then 0
    else
      var x :| x in s;
      f(x) + Sum(s - {x}, f)
  }

  /** `Sum` does not depend on the order in which the elements are taken. */
  lemma {:induction false} SumExtract<T>(s: set<T>, f: T -> int, y: T)
    requires y in s
    ensures Sum(s, f) == f(y) + Sum(s - {y}, f)
  {
    var x :| x in s && Sum(s, f) == f(x) + Sum(s - {x}, f);
    if x != y {
      SumExtract(s - {x}, f, y);
      SumExtract(s - {y}, f, x);
      assert s - {x} - {y} == s - {y} - {x};
    }
  }

  /** The last index below k at which f holds, or -1. */
  ghost function LastTrue(f: nat -> bool, k: nat): (i: int)
    ensures -1 <= i < k && (i >= 0 ==> f(i))
    ensures forall j: nat :: j < k && i < j ==> !f(j)
  {
    if k == 0 then -1 else if f(k - 1) then k - 1 else LastTrue(f, k - 1)
  }

  /** Subset of a finite set is no larger. */
  lemma {:induction false} SubsetSize<T>(a: set<T>, b: set<T>)
    requires a <= b
    ensures |a| <= |b|
  {
    if a != {} {
      var x :| x in a;
      SubsetSize(a - {x}, b - {x});
    }
  }

  /** ASCII lower case. */
  function Lower(s: string): (r: string)
    ensures |r| == |s|
  {
    seq(|s|, i requires 0 <= i < |s| => if 'A' <= s[i] <= 'Z' then s[i] - 'A' + 'a' else s[i])
  }

  lemma ConsAppend<T>(s: seq<T>, t: seq<T>)
    requires s != []
    ensures [s[0]] + (s[1..] + t) == s + t
  {
  }

  lemma AppendAssoc<T>(a: seq<T>, b: seq<T>, c: seq<T>)
    ensures a + b + c == a + (b + c)
  {
  }

  lemma AppendEmpty<T>(s: seq<T>)
    ensures [] + s == s && s + [] == s
  {
  }

  lemma PrefixKept<T>(w: seq<T>, a: seq<T>, b: seq<T>)
    requires a <= b
    ensures w + a <= w + b
  {
  }

  lemma SliceOfAppend<T>(s: seq<T>, t: seq<T>, i: nat, j: nat)
    requires i <= j <= |s|
    ensures (s + t)[i..j] == s[i..j]
    ensures (s + t)[j..] == s[j..] + t
  {
  }
}
