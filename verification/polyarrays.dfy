/** Polynomial arithmetic in place, on coefficient arrays. */
module PolyArrays {
  import opened Galois
  import opened GaloisTables
  import opened Recurrence
  import opened Codeword

  method CopyPoly(dst: array<Byte>, src: array<Byte>)
    requires dst.Length >= MAXDEG && src.Length >= MAXDEG && dst != src
    modifies dst
    ensures forall i :: 0 <= i < MAXDEG ==> dst[i] == src[i]
    ensures forall i :: MAXDEG <= i < dst.Length ==> dst[i] == old(dst[i])
  {
    for i := 0 to MAXDEG
      invariant forall k :: 0 <= k < i ==> dst[k] == src[k]
      invariant forall k :: i <= k < dst.Length ==> dst[k] == old(dst[k])
    {
      dst[i] := src[i];
    }
  }

  method ZeroPoly(poly: array<Byte>)
    requires poly.Length >= MAXDEG
    modifies poly
    ensures forall i :: 0 <= i < MAXDEG ==> poly[i] == ZERO
    ensures forall i :: MAXDEG <= i < poly.Length ==> poly[i] == old(poly[i])
  {
    for i := 0 to MAXDEG
      invariant forall k :: 0 <= k < i ==> poly[k] == ZERO
      invariant forall k :: i <= k < poly.Length ==> poly[k] == old(poly[k])
    {
      poly[i] := ZERO;
    }
  }

  /** Multiply by z: every coefficient moves up one place and the top one falls off. */
  method MulZPoly(src: array<Byte>)
    requires src.Length >= MAXDEG
    modifies src
    ensures src[0] == ZERO
    ensures forall i :: 0 < i < MAXDEG ==> src[i] == old(src[i - 1])
    ensures forall i :: MAXDEG <= i < src.Length ==> src[i] == old(src[i])
  {
    var i := MAXDEG - 1;
    while i > 0
      invariant 0 <= i < MAXDEG
      invariant forall k :: i < k < MAXDEG ==> src[k] == old(src[k - 1])
      invariant forall k :: 0 <= k <= i ==> src[k] == old(src[k])
      invariant forall k :: MAXDEG <= k < src.Length ==> src[k] == old(src[k])
    {
      src[i] := src[i - 1];
      i := i - 1;
    }
    src[0] := ZERO;
  }

  /** dst becomes src + d a. */
  method AddScaled(t: Tables, d: Byte, a: array<Byte>, dst: array<Byte>, src: array<Byte>)
    requires t.Valid() && a.Length == dst.Length == src.Length == MAXDEG && dst != a && dst != src
    modifies dst
    ensures forall i :: 0 <= i < MAXDEG ==> dst[i] == Add(src[i], Mul(d, a[i]))
  {
    hide Add, Mul;
    for i := 0 to MAXDEG
      invariant forall k :: 0 <= k < i ==> dst[k] == Add(src[k], Mul(d, a[k]))
    {
      dst[i] := Xor(src[i], t.Gmult(d, a[i]));
    }
  }

  /** dst becomes src times k. */
  method ScaleInto(t: Tables, dst: array<Byte>, src: array<Byte>, k: Byte)
    requires t.Valid() && dst.Length >= MAXDEG && src.Length >= MAXDEG && dst != src
    modifies dst
    ensures forall i :: 0 <= i < MAXDEG ==> dst[i] == Mul(src[i], k)
    ensures forall i :: MAXDEG <= i < dst.Length ==> dst[i] == old(dst[i])
  {
    hide Mul;
    for i := 0 to MAXDEG
      invariant forall m :: 0 <= m < i ==> dst[m] == Mul(src[m], k)
      invariant forall m :: i <= m < dst.Length ==> dst[m] == old(dst[m])
    {
      dst[i] := t.Gmult(src[i], k);
    }
  }

  method ScalePoly(t: Tables, k: Byte, poly: array<Byte>)
    requires t.Valid() && poly.Length == MAXDEG
    modifies poly
    ensures forall i :: 0 <= i < MAXDEG ==> poly[i] == Mul(k, old(poly[i]))
  {
    hide Mul;
    for i := 0 to MAXDEG
      invariant forall m :: 0 <= m < i ==> poly[m] == Mul(k, old(poly[m]))
      invariant forall m :: i <= m < MAXDEG ==> poly[m] == old(poly[m])
    {
      poly[i] := t.Gmult(k, poly[i]);
    }
  }

  /** Shift the whole array up by n places, zeros entering at the bottom. */
  method ShiftUp(tmp: array<Byte>, n: nat)
    requires n < tmp.Length
    modifies tmp
    ensures forall j :: 0 <= j < n ==> tmp[j] == ZERO
    ensures forall j :: n <= j < tmp.Length ==> tmp[j] == old(tmp[..])[j - n]
  {
    MoveUp(tmp, n);
    for k := 0 to n
      invariant forall m :: 0 <= m < k ==> tmp[m] == ZERO
      invariant forall m :: n <= m < tmp.Length ==> tmp[m] == old(tmp[..])[m - n]
    {
      tmp[k] := ZERO;
    }
  }

  method MoveUp(tmp: array<Byte>, n: nat)
    requires n < tmp.Length
    modifies tmp
    ensures forall j :: n <= j < tmp.Length ==> tmp[j] == old(tmp[..])[j - n]
  {
    ghost var was := tmp[..];
    var j := tmp.Length - 1;
    while j >= n
      invariant n - 1 <= j < tmp.Length
      invariant forall k :: j < k < tmp.Length ==> tmp[k] == was[k - n]
      invariant forall k :: 0 <= k <= j ==> tmp[k] == was[k]
    {
      tmp[j] := tmp[j - n];
      j := j - 1;
    }
  }

  method AddInto(dst: array<Byte>, tmp: array<Byte>)
    requires dst.Length == tmp.Length && dst != tmp
    modifies dst
    ensures forall j :: 0 <= j < dst.Length ==> dst[j] == Add(old(dst[j]), tmp[j])
  {
    hide Add;
    for j := 0 to dst.Length
      invariant forall k :: 0 <= k < j ==> dst[k] == Add(old(dst[k]), tmp[k])
      invariant forall k :: j <= k < dst.Length ==> dst[k] == old(dst[k])
    {
      dst[j] := Xor(dst[j], tmp[j]);
    }
  }

  /** One partial product: p2 scaled by k and moved up by i places. */
  method PartialProduct(t: Tables, tmp: array<Byte>, p2: array<Byte>, k: Byte, i: nat)
    requires t.Valid() && tmp.Length == 2 * MAXDEG && p2.Length >= MAXDEG && tmp != p2 && i < MAXDEG
    modifies tmp
    ensures forall j :: 0 <= j < 2 * MAXDEG ==> tmp[j] == Mul(k, Coef(p2[..MAXDEG], j - i))
  {
    hide Mul;
    for j := MAXDEG to 2 * MAXDEG
      invariant forall m :: MAXDEG <= m < j ==> tmp[m] == ZERO
    {
      tmp[j] := ZERO;
    }
    ScaleInto(t, tmp, p2, k);
    ShiftUp(tmp, i);
    forall j | 0 <= j < 2 * MAXDEG
      ensures tmp[j] == Mul(k, Coef(p2[..MAXDEG], j - i))
    {
      MulZero(k);
      if i <= j < i + MAXDEG { MulComm(p2[j - i], k); }
    }
  }

  /** dst becomes the product of p1 and p2. */
  method MultPolys(t: Tables, dst: array<Byte>, p1: array<Byte>, p2: array<Byte>)
    requires t.Valid() && dst.Length == 2 * MAXDEG && p1.Length >= MAXDEG && p2.Length >= MAXDEG
    requires dst != p1 && dst != p2
    modifies dst
    ensures forall k :: 0 <= k < 2 * MAXDEG ==> dst[k] == Dot(p1[..MAXDEG], p2[..MAXDEG], k, MAXDEG)
  {
    hide Mul, Add;
    var tmp1 := new Byte[2 * MAXDEG](_ => ZERO);
    for i := 0 to 2 * MAXDEG
      invariant forall k :: 0 <= k < i ==> dst[k] == ZERO
    {
      dst[i] := ZERO;
    }
    ghost var a, b := p1[..MAXDEG], p2[..MAXDEG];
    for i := 0 to MAXDEG
      invariant p1[..MAXDEG] == a && p2[..MAXDEG] == b
      invariant forall k :: 0 <= k < 2 * MAXDEG ==> dst[k] == Dot(a, b, k, i)
    {
      PartialProduct(t, tmp1, p2, p1[i], i);
      AddInto(dst, tmp1);
    }
  }
}
