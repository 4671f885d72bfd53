/** Correction of a superframe: one codeword in every column of a 120-row table. */
module ReedSolomon {
  import opened Galois
  import opened Codeword
  import opened Correction
  import opened Generator
  import R = RsCode

  const CELL_SIZE := 120

  /** Column i of data read as CELL_SIZE rows of n cells. */
  function Column(data: seq<Byte>, n: nat, i: nat): (c: seq<Byte>)
    requires i < n && CELL_SIZE * n <= |data|
    ensures |c| == CELL_SIZE
  {
    seq(CELL_SIZE, j requires 0 <= j < CELL_SIZE => (CellBounds(n, i, j); data[i + j * n]))
  }

  lemma CellBounds(n: nat, i: nat, j: nat)
    requires i < n && j < CELL_SIZE
    ensures 0 <= i + j * n < CELL_SIZE * n
  {
    assert j * n <= (CELL_SIZE - 1) * n;
  }

  /** Different cells of the table are different positions. */
  lemma CellsDistinct(n: nat, i: nat, j: nat, i': nat, j': nat)
    requires i < n && i' < n && i + j * n == i' + j' * n
    ensures i == i' && j == j'
  {
    if j < j' { RowsApart(n, j, j'); }
    if j' < j { RowsApart(n, j', j); }
  }

  lemma RowsApart(n: nat, j: nat, j': nat)
    requires j < j'
    ensures j' * n >= j * n + n
  {
    assert j' * n == j * n + n + (j' - j - 1) * n;
  }

  ghost predicate Near(c: seq<Byte>, word: seq<Byte>) {
    |c| == |word| && IsCodeword(c) && 2 * Distance(c, word) <= NPAR
  }

  /** cs lists, for each column, a codeword within reach of it. */
  ghost predicate NearColumns(cs: seq<seq<Byte>>, data: seq<Byte>, n: nat)
    requires CELL_SIZE * n <= |data|
  {
    |cs| == n && forall i :: 0 <= i < n ==> Near(cs[i], Column(data, n, i))
  }

  /** The number of errors in the first m columns. */
  ghost function TotalDistance(cs: seq<seq<Byte>>, data: seq<Byte>, n: nat, m: nat): nat
    requires CELL_SIZE * n <= |data| && NearColumns(cs, data, n) && m <= n
  {
    if m == 0 then 0 else TotalDistance(cs, data, n, m - 1) + Distance(cs[m - 1], Column(data, n, m - 1))
  }

  lemma CleanColumn(word: seq<Byte>, c: seq<Byte>)
    requires |word| == CELL_SIZE && ZeroSyndromes(word) && Near(c, word)
    ensures c == word && Distance(c, word) == 0
  {
    hide Syndrome;
    CodewordsAreFarApart(c, word);
    NoDifference(word);
  }

  lemma {:induction false} NoDifference(word: seq<Byte>)
    ensures Distance(word, word) == 0
    decreases |word|
  {
    if word != [] { NoDifference(word[1..]); }
  }

  method GetColumn(data: array<Byte>, n: nat, i: nat, temp: array<Byte>)
    requires i < n && CELL_SIZE * n <= data.Length && temp.Length == 256 && temp != data
    modifies temp
    ensures temp[..CELL_SIZE] == Column(data[..], n, i)
  {
    for j := 0 to CELL_SIZE
      invariant forall k :: 0 <= k < j ==> temp[k] == Column(data[..], n, i)[k]
    {
      CellBounds(n, i, j);
      temp[j] := data[i + j * n];
    }
  }

  method PutColumn(data: array<Byte>, n: nat, i: nat, temp: array<Byte>)
    requires i < n && CELL_SIZE * n <= data.Length && temp.Length == 256 && temp != data
    modifies data
    ensures Column(data[..], n, i) == temp[..CELL_SIZE]
    ensures forall m :: 0 <= m < n && m != i ==> Column(data[..], n, m) == old(Column(data[..], n, m))
    ensures forall k :: CELL_SIZE * n <= k < data.Length ==> data[k] == old(data[k])
  {
    ghost var was := data[..];
    for j := 0 to CELL_SIZE
      invariant forall k :: 0 <= k < j ==> Column(data[..], n, i)[k] == temp[k]
      invariant forall m :: 0 <= m < n && m != i ==> Column(data[..], n, m) == Column(was, n, m)
      invariant forall k :: CELL_SIZE * n <= k < data.Length ==> data[k] == was[k]
    {
      ghost var before := data[..];
      CellBounds(n, i, j);
      data[i + j * n] := temp[j];
      OneCellWritten(before, data[..], n, i, j);
    }
  }

  /** Writing one cell changes that cell of its column and no other column. */
  lemma OneCellWritten(before: seq<Byte>, after: seq<Byte>, n: nat, i: nat, j: nat)
    requires i < n && j < CELL_SIZE && CELL_SIZE * n <= |before| && 0 <= i + j * n < |before|
    requires |after| == |before| && after == before[i + j * n := after[i + j * n]]
    ensures Column(after, n, i) == Column(before, n, i)[j := after[i + j * n]]
    ensures forall m :: 0 <= m < n && m != i ==> Column(after, n, m) == Column(before, n, m)
  {
    forall m, k | 0 <= m < n && 0 <= k < CELL_SIZE && (m != i || k != j)
      ensures Column(after, n, m)[k] == Column(before, n, m)[k]
    {
      CellBounds(n, m, k);
      if m + k * n == i + j * n { CellsDistinct(n, m, k, i, j); }
    }
  }

  /** Without flags, correctable is near. */
  lemma NearIsCorrectable(c: seq<Byte>, word: seq<Byte>)
    requires Near(c, word)
    ensures Correctable(c, word, []) && |ErrataLocations(c, word, [])| == Distance(c, word)
  {
    NoFlags(c, word);
  }

  /** Decode one copied column; a column whose syndromes vanish is left alone. */
  method CorrectColumn(codec: R.RsCode, temp: array<Byte>, ghost word: seq<Byte>) returns (found: nat, changed: bool)
    requires codec.Valid() && codec.Foreign(temp) && temp.Length == 256 && temp[..CELL_SIZE] == word
    modifies codec`nErrors, codec`nErasures, codec.synBytes, codec.lambda, codec.omega, codec.errorLocs,
             codec.erasureLocs, temp
    ensures forall c :: Near(c, word) ==> temp[..CELL_SIZE] == c && found == Distance(c, word)
    ensures !changed ==> temp[..CELL_SIZE] == word
  {
    hide Distance, IsCodeword, ErrorLocations, Syndrome, Correctable;
    codec.DecodeData(temp, CELL_SIZE);
    var nz := codec.CheckSyndrome();
    if nz {
      found := codec.CorrectErrorsErasures(temp, CELL_SIZE, []);
      changed := true;
      forall c | Near(c, word)
        ensures Correctable(c, word, []) && |ErrataLocations(c, word, [])| == Distance(c, word)
      {
        NearIsCorrectable(c, word);
      }
    } else {
      found, changed := 0, false;
      assert ZeroSyndromes(word) by {
        forall j: nat | j < NPAR
          ensures Syndrome(word, j) == ZERO
        {
          assert codec.synBytes[..][j] == ZERO;
        }
      }
      forall c | Near(c, word)
        ensures c == word && Distance(c, word) == 0
      {
        CleanColumn(word, c);
      }
    }
  }

  /** Every column near a codeword becomes that codeword; the count is the number of errors removed. */
  method ReedSolomonCorrection(data: array<Byte>, size: nat) returns (noErrors: nat)
    requires size <= data.Length
    modifies data
    ensures var n := size / CELL_SIZE;
            forall i, c :: 0 <= i < n && Near(c, old(Column(data[..], n, i))) ==> Column(data[..], n, i) == c
    ensures var n := size / CELL_SIZE;
            forall cs :: NearColumns(cs, old(data[..]), n) ==> noErrors == TotalDistance(cs, old(data[..]), n, n)
    ensures forall k :: CELL_SIZE * (size / CELL_SIZE) <= k < data.Length ==> data[k] == old(data[k])
  {
    hide Near, ZeroSyndromes, Column, Distance;
    var noCells := size / CELL_SIZE;
    ghost var was := data[..];
    var tempData := new Byte[256](_ => ZERO);
    var codec := new R.RsCode();
    noErrors := 0;
    for i := 0 to noCells
      invariant codec.Valid() && fresh(tempData) && codec.Foreign(data) && codec.Foreign(tempData)
      invariant fresh(codec) && fresh(codec.synBytes) && fresh(codec.lambda) && fresh(codec.omega)
      invariant fresh(codec.errorLocs) && fresh(codec.erasureLocs)
      invariant forall m, c :: 0 <= m < i && Near(c, Column(was, noCells, m)) ==> Column(data[..], noCells, m) == c
      invariant forall m :: i <= m < noCells ==> Column(data[..], noCells, m) == Column(was, noCells, m)
      invariant forall cs :: NearColumns(cs, was, noCells) ==> noErrors == TotalDistance(cs, was, noCells, i)
      invariant forall k :: CELL_SIZE * noCells <= k < data.Length ==> data[k] == was[k]
    {
      ghost var word := Column(was, noCells, i);
      GetColumn(data, noCells, i, tempData);
      var found, changed := CorrectColumn(codec, tempData, word);
      if changed {
        PutColumn(data, noCells, i, tempData);
      }
      noErrors := noErrors + found;
    }
  }
}
