/** Numbers read from the middle of a byte sequence. */
module BitFields {
  import opened Division
  import opened Gf2Division
  import opened Checksums
  import opened Firecode

  lemma {:induction false} ValueOfJoin(a: seq<bool>, b: seq<bool>)
    ensures Value(a + b) == Value(a) * Pow2(|b|) + Value(b)
  {
    if b == [] {
      assert a + b == a;
      assert Pow2(0) == 1;
    } else {
      var n := |b| - 1;
      assert (a + b)[..|a + b| - 1] == a + b[..n];
      ValueOfJoin(a, b[..n]);
      hide Value;
      Doubling(Value(a), Pow2(n), Value(b[..n]));
    }
  }

  lemma Doubling(a: nat, p: nat, b: nat)
    ensures 2 * (a * p + b) == a * (2 * p) + 2 * b
  {}

  /** Shifting out what follows a field and masking what precedes it leaves the field. */
  lemma FieldOf(before: seq<bool>, field: seq<bool>, after: seq<bool>)
    ensures Value(before + field + after) / Pow2(|after|) % Pow2(|field|) == Value(field)
  {
    ValueOfJoin(before + field, after);
    ValueOfJoin(before, field);
    ValueBound(after);
    ValueBound(field);
    hide Value, Pow2;
    QuotientUnique(Value(before + field + after), Value(before + field), Value(after), Pow2(|after|));
    QuotientUnique(Value(before + field), Value(before), Value(field), Pow2(|field|));
  }

  lemma ThreeOctets(a: Octet, b: Octet, c: Octet)
    ensures Value(Bits([a, b, c])) == Value(a) * 65536 + Value(b) * 256 + Value(c)
    ensures |Bits([a, b, c])| == 24
  {
    hide Value;
    assert [a, b, c][..2] == [a, b];
    TwoOctets(a, b);
    assert Bits([a, b, c]) == (a + b) + c;
    ValueOfJoin(a, b);
    ValueOfJoin(a + b, c);
    assert Pow2(8) == 256;
  }

  /** The number written by length bits from bit offset on: three bytes are joined, shifted and masked. */
  method BinToDec(data: seq<Octet>, offset: nat, length: nat) returns (output: nat)
    requires length <= 16 && offset % 8 + length <= 24 && offset / 8 + 3 <= |data|
    ensures output == Value(Bits(data)[offset..offset + length])
  {
    hide Value, Bits, Pow2;
    var at, skip := offset / 8, offset % 8;
    output := Value(data[at]) * 65536 + Value(data[at + 1]) * 256 + Value(data[at + 2]);
    ThreeOctets(data[at], data[at + 1], data[at + 2]);
    ghost var w := Bits([data[at], data[at + 1], data[at + 2]]);
    assert w == w[..skip] + w[skip..skip + length] + w[skip + length..];
    FieldOf(w[..skip], w[skip..skip + length], w[skip + length..]);
    output := output / Pow2(24 - length - skip);
    output := output % Pow2(length);
    BitsInside(data, at, skip, length);
  }

  lemma BitsInside(data: seq<Octet>, at: nat, skip: nat, length: nat)
    requires at + 3 <= |data| && skip + length <= 24
    ensures Bits(data)[8 * at + skip..8 * at + skip + length] ==
              Bits([data[at], data[at + 1], data[at + 2]])[skip..skip + length]
  {
    ThreeBytes(data, at);
    hide *;
    BitsOfMiddle(data, at, at + 3);
    SliceInside(Bits(data), Bits(data[..at]), Bits(data[at..at + 3]), Bits(data[at + 3..]), at, skip, length);
  }

  lemma ThreeBytes(data: seq<Octet>, at: nat)
    requires at + 3 <= |data|
    ensures data[at..at + 3] == [data[at], data[at + 1], data[at + 2]]
  {}

  lemma SliceInside(all: seq<bool>, a: seq<bool>, b: seq<bool>, c: seq<bool>, at: nat, skip: nat, length: nat)
    requires all == a + b + c && |a| == 8 * at && |b| == 24 && skip + length <= 24
    ensures all[8 * at + skip..8 * at + skip + length] == b[skip..skip + length]
  {
    MiddleSlice(a, b, c, skip, skip + length);
  }

  lemma BitsOfMiddle(data: seq<Octet>, i: nat, j: nat)
    requires i <= j <= |data|
    ensures Bits(data) == Bits(data[..i]) + Bits(data[i..j]) + Bits(data[j..])
  {
    Cut(data, i, j);
    hide *;
    BitsSplit(data[..j], data[j..]);
    BitsSplit(data[..i], data[i..j]);
  }

  lemma Cut(data: seq<Octet>, i: nat, j: nat)
    requires i <= j <= |data|
    ensures data == data[..j] + data[j..] && data[..j] == data[..i] + data[i..j]
  {}

  lemma MiddleSlice(a: seq<bool>, b: seq<bool>, c: seq<bool>, i: nat, j: nat)
    requires i <= j <= |b|
    ensures (a + b + c)[|a| + i..|a| + j] == b[i..j]
  {}
}
