/** Small shared vocabulary: optional values, success-or-error results and
    duplicate-free sequences (the model of a JavaScript `Set` in insertion order). */
module Basics {

  /** A value that may be absent (TypeScript's `null` / `undefined`). */
  datatype Option<+T> = None | Some(value: T) {
    function GetOr(default: T): T {
      match this
      case Some(v) => v
      case None => default
    }
  }

  /** The answer of a store call or any other step that may fail with a message. */
  datatype Result<+R, +E> = Success(value: R) | Failure(error: E)

  /** No element occurs twice. */
  predicate NoDup<T(==)>(s: seq<T>) {
    forall i, j :: 0 <= i < j < |s| ==> s[i] != s[j]
  }

  /** `s` with every occurrence of `x` removed, the others kept in order. */
  function Remove<T(==,!new)>(s: seq<T>, x: T): (r: seq<T>)
    ensures forall y :: y in r <==> y in s && y != x
    ensures NoDup(s) ==> NoDup(r)
    ensures x !in s ==> r == s
    ensures |r| <= |s|
  {
    if |s| == 0 then []
    else if s[0] == x then Remove(s[1..], x)
    else
      var rest := Remove(s[1..], x);
      assert NoDup(s) ==> NoDup(s[1..]) && s[0] !in s[1..];
      [s[0]] + rest
  }

  /** Removal keeps order: from a duplicate-free sequence, `Remove` cuts out
      exactly the one position holding `x` and keeps the rest as it was. */
  lemma {:induction false} RemoveKeepsOrder<T(!new)>(s: seq<T>, x: T)
    requires NoDup(s) && x in s
    ensures Remove(s, x) == s[..IndexOf(s, x)] + s[IndexOf(s, x) + 1..]
  {
    if s[0] == x {
      assert x !in s[1..];
      assert IndexOf(s, x) == 0 && Remove(s, x) == Remove(s[1..], x) == s[1..];
      assert s[1..] == s[..0] + s[0 + 1..];
    } else {
      var k := IndexOf(s[1..], x);
      assert NoDup(s[1..]) && x in s[1..];
      assert IndexOf(s, x) == k + 1 && Remove(s, x) == [s[0]] + Remove(s[1..], x);
      RemoveKeepsOrder(s[1..], x);
      DropAfterHead(s, k);
    }
  }

  /** The position of the first occurrence of `x` in `s`. */
  function IndexOf<T(==)>(s: seq<T>, x: T): (i: nat)
    requires x in s
    ensures i < |s| && s[i] == x && x !in s[..i]
  {
    if s[0] == x then 0 else IndexOf(s[1..], x) + 1
  }

  /** Dropping the element after position `k` of the tail is dropping the one
      at `k + 1` of the whole sequence. */
  lemma DropAfterHead<T>(s: seq<T>, k: nat)
    requires k + 1 < |s|
    ensures [s[0]] + (s[1..][..k] + s[1..][k + 1..]) == s[..k + 1] + s[k + 2..]
  {
    assert [s[0]] + s[1..][..k] == s[..k + 1];
    assert s[1..][k + 1..] == s[k + 2..];
  }
}
