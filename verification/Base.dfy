/** Types shared by every component. */
module Base {

  datatype Option<+T> = None | Some(value: T)

  lemma Pick<T>(s: set<T>) returns (x: T)
    requires s != {}
    ensures x in s
  {
    x :| x in s;
  }

  /** A finite set with an injective image has as many elements as its image. */
  lemma {:induction false} InjectiveImageSize<A, B>(xs: set<A>, ys: set<B>, f: A --> B)
    requires forall x | x in xs :: f.requires(x) && f(x) in ys
    requires forall x, y | x in xs && y in xs && x != y :: f(x) != f(y)
    ensures |xs| <= |ys|
    decreases |xs|
  {
    if xs != {} {
      var x :| x in xs;
      InjectiveImageSize(xs - {x}, ys - {f(x)}, f);
    }
  }

  lemma {:induction false} SubsetSize<T>(xs: set<T>, ys: set<T>)
    requires xs <= ys
    ensures |xs| <= |ys|
    decreases |xs|
  {
    if xs != {} {
      var x :| x in xs;
      SubsetSize(xs - {x}, ys - {x});
    }
  }

  /** The naturals below n. */
  function Below(n: nat): (s: set<int>)
    ensures |s| == n
    ensures forall i: int :: i in s <==> 0 <= i < n
  {
    if n == 0 then {} else Below(n - 1) + {n - 1}
  }

  lemma AtLeastOne(factor: int, size: nat)
    requires 1 <= factor
    ensures factor * size >= size
  {
  }

  lemma ModOfBlock(block: nat, size: nat, j: nat)
    requires j < size
    ensures (block * size + j) % size == j
  {
    var n := block * size + j;
    assert n == n / size * size + n % size;
    assert (block - n / size) * size == n % size - j;
    if block - n / size >= 1 {
      AtLeastOne(block - n / size, size);
    } else if n / size - block >= 1 {
      AtLeastOne(n / size - block, size);
    }
  }

  lemma Quotient(n: nat, size: nat, q: nat, r: nat)
    requires r < size && n == q * size + r
    ensures n / size == q
  {
    ModOfBlock(q, size, r);
    assert n / size * size == q * size;
  }
}
