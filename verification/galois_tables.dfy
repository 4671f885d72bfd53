/** The logarithm and antilogarithm tables, and the table arithmetic built on them. */
module GaloisTables {
  import opened Galois

  /** The two tables as they stand once initialised; nothing writes them afterwards. */
  datatype Tables = Tables(gexp: seq<Byte>, glog: seq<nat>) {

    ghost predicate Valid() {
      && |gexp| == 512 && |glog| == 256
      && (forall i :: 0 <= i < 511 ==> gexp[i] == Exp(i))
      && glog[0] == 0
      && (forall b :: b != ZERO ==> glog[Index(b)] == Log(b))
    }

    function Gmult(a: Byte, b: Byte): (r: Byte)
      requires Valid()
      ensures r == Mul(a, b)
    {
      hide Mul, Exp;
      MulZero(a);
      MulZero(b);
      if a == ZERO || b == ZERO then ZERO else
      ExpAdd(Log(a), Log(b));
      gexp[glog[Index(a)] + glog[Index(b)]]
    }

    function Ginv(elt: Byte): (r: Byte)
      requires Valid()
      ensures elt != ZERO ==> r == Inv(elt)
      ensures elt == ZERO ==> r == ONE
    {
      if elt == ZERO then
        FullCycle(255 - glog[0]);
        gexp[255 - glog[0]]
      else
        InvIsExp(elt);
        gexp[255 - glog[Index(elt)]]
    }
  }

  lemma ExpStep(i: nat)
    requires i > 0
    ensures Exp(i) == XTime(Exp(i - 1))
  {}

  lemma ExpPeriod(i: nat)
    ensures Exp(i + 255) == Exp(i)
  {
    hide Mul, Exp, XTime;
    FullCycle(255);
    ExpAdd(i, 255);
    MulOne(Exp(i));
  }

  lemma LogUnique(b: Byte, z: nat)
    requires z < 255 && Exp(z) == b
    ensures b != ZERO && Log(b) == z
  {
    hide Exp;
    ExpNonZero(z);
    if z < Log(b) { ExpInjective(z, Log(b)); }
    if Log(b) < z { ExpInjective(Log(b), z); }
  }

  /** The shift register p8..p1 runs through the powers of alpha; each is stored twice, 255 apart. */
  method FillExpTable(gexp: array<Byte>)
    requires gexp.Length == 512
    modifies gexp
    ensures forall i :: 0 <= i < 511 ==> gexp[i] == Exp(i)
  {
    hide *;
    ExpZero();
    var pinit, p1, p2, p3, p4, p5, p6, p7, p8 := false, true, false, false, false, false, false, false, false;
    gexp[0] := Byte(false, false, false, false, false, false, false, true);
    gexp[255] := gexp[0];
    ClockStart();
    for i := 1 to 256
      invariant Byte(p8, p7, p6, p5, p4, p3, p2, p1) == Exp(i - 1)
      invariant forall k :: 0 <= k < i ==> gexp[k] == Exp(k)
      invariant forall k :: 256 <= k < i + 255 ==> gexp[k] == Exp(k)
    {
      ghost var before := Byte(p8, p7, p6, p5, p4, p3, p2, p1);
      pinit := p8;
      p8 := p7;
      p7 := p6;
      p6 := p5;
      p5 := p4 != pinit;
      p4 := p3 != pinit;
      p3 := p2 != pinit;
      p2 := p1;
      p1 := pinit;
      gexp[i] := Byte(p8, p7, p6, p5, p4, p3, p2, p1);
      gexp[i + 255] := gexp[i];
      ClockStep(before);
      ExpStep(i);
      ExpPeriod(i);
    }
  }

  lemma ClockStart()
    ensures Byte(false, false, false, false, false, false, false, true) == ONE
  {}

  lemma ClockStep(b: Byte)
    ensures XTime(b) == Byte(b.b6, b.b5, b.b4, b.b3 != b.b7, b.b2 != b.b7, b.b1 != b.b7, b.b0, b.b7)
  {}

  /** For each value the first position of the antilogarithm table that holds it. */
  method FillLogTable(gexp: array<Byte>, glog: array<nat>)
    requires gexp.Length == 512 && glog.Length == 256
    requires forall i :: 0 <= i < 511 ==> gexp[i] == Exp(i)
    modifies glog
    ensures glog[0] == 0
    ensures forall b :: b != ZERO ==> glog[Index(b)] == Log(b)
  {
    hide Exp, Index;
    glog[0] := 0;
    for i := 1 to 256
      invariant glog[0] == 0
      invariant forall b :: 0 < Index(b) < i ==> glog[Index(b)] == Log(b)
    {
      var z := 0;
      while z < 256
        invariant 0 <= z <= 256
        invariant forall k :: 0 <= k < z ==> Index(gexp[k]) != i
        invariant glog[0] == 0
        invariant forall b :: 0 < Index(b) < i ==> glog[Index(b)] == Log(b)
      {
        if Index(gexp[z]) == i {
          glog[i] := z;
          break;
        }
        z := z + 1;
      }
      forall b | Index(b) == i
        ensures glog[i] == Log(b)
      {
        assert gexp[Log(b)] == b;
        IndexInjective(gexp[z], b);
        LogUnique(b, z);
      }
    }
  }

  method InitGaloisTables() returns (t: Tables)
    ensures t.Valid()
  {
    var gexp := new Byte[512](_ => ZERO);
    var glog := new nat[256](_ => 0);
    FillExpTable(gexp);
    FillLogTable(gexp, glog);
    t := Tables(gexp[..], glog[..]);
  }
}
