/** Vocabulary shared by the other modules: optional values, bytes, and
    the concatenation of a list of byte chunks. */
module Common {

  /** Python's `None` or a present value. */
  datatype Option<+T> = None | Some(value: T)

  /** One octet, as Python's `bytes` holds them. */
  type byte = x: int | 0 <= x < 256

  /** All the pieces of `xss`, one after the other. */
  function Flatten<T>(xss: seq<seq<T>>): seq<T>
  {
    if xss == [] then [] else Flatten(xss[..|xss| - 1]) + xss[|xss| - 1]
  }

  /** One more piece adds that piece at the end. */
  lemma FlattenNext<T>(xss: seq<seq<T>>, j: nat)
    requires j < |xss|
    ensures Flatten(xss[..j + 1]) == Flatten(xss[..j]) + xss[j]
  {
    assert xss[..j + 1][..j] == xss[..j];
  }

  /** Flattening distributes over concatenation of the piece lists. */
  lemma {:induction false} FlattenAppend<T>(a: seq<seq<T>>, b: seq<seq<T>>)
    ensures Flatten(a + b) == Flatten(a) + Flatten(b)
    decreases |b|
  {
    if b == [] {
      assert a + b == a;
    } else {
      var b' := b[..|b| - 1];
      var last := b[|b| - 1];
      assert (a + b)[..|a + b| - 1] == a + b' && (a + b)[|a + b| - 1] == last;
      assert Flatten(a + b) == Flatten(a + b') + last;
      FlattenAppend(a, b');
      assert Flatten(b) == Flatten(b') + last;
    }
  }

  /** When every piece is non-empty, a longer prefix of the pieces flattens
      to strictly more elements. */
  lemma {:induction false} FlattenPrefixGrows<T>(xss: seq<seq<T>>, k: nat, l: nat)
    requires k < l <= |xss|
    requires forall i :: 0 <= i < |xss| ==> |xss[i]| > 0
    ensures |Flatten(xss[..k])| < |Flatten(xss[..l])|
    decreases l - k
  {
    assert xss[..l][..l - 1] == xss[..l - 1];
    if k < l - 1 {
      FlattenPrefixGrows(xss, k, l - 1);
    }
  }

  /** The entries of `tbl` at the positions `order` lists, in that order. */
  function Pick<T>(tbl: seq<T>, order: seq<nat>): seq<T>
    requires forall k :: 0 <= k < |order| ==> order[k] < |tbl|
  {
    if order == [] then [] else [tbl[order[0]]] + Pick(tbl, order[1..])
  }

  /** Picking along two position lists one after the other is picking
      along the first, then along the second. */
  lemma {:induction false} PickAppend<T>(tbl: seq<T>, a: seq<nat>, b: seq<nat>)
    requires forall k :: 0 <= k < |a| ==> a[k] < |tbl|
    requires forall k :: 0 <= k < |b| ==> b[k] < |tbl|
    ensures Pick(tbl, a + b) == Pick(tbl, a) + Pick(tbl, b)
    decreases |a|
  {
    if a == [] {
      assert a + b == b;
    } else {
      var x, a' := a[0], a[1..];
      assert a + b == [x] + (a' + b);
      PickAppend(tbl, a', b);
      PickCons(tbl, x, a' + b);
    }
  }

  /** Picking along `[x] + o` picks `tbl[x]`, then along `o`. */
  lemma PickCons<T>(tbl: seq<T>, x: nat, o: seq<nat>)
    requires x < |tbl| && forall k :: 0 <= k < |o| ==> o[k] < |tbl|
    ensures Pick(tbl, [x] + o) == [tbl[x]] + Pick(tbl, o)
  {
    assert ([x] + o)[1..] == o;
  }
}
