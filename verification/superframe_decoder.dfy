/** The decoding step on the bytes of the buffer: synchronisation, correction and checksums put together. */
module SuperframeDecoder {
  import opened SuperframeAssembly
  import opened SlidingBuffer
  import opened Galois
  import opened ReedSolomon
  import opened Division
  import B = Gf2Division
  import F = Firecode
  import C = Checksums
  import BitFields

  function OctetOf(b: Byte): B.Octet {
    [b.b7, b.b6, b.b5, b.b4, b.b3, b.b2, b.b1, b.b0]
  }

  /** The bits are listed from the highest down: both write the same number. */
  lemma OctetKeepsNumber(b: Byte)
    ensures F.Value(OctetOf(b)) == Index(b)
  {
    ValueOfEight(b.b7, b.b6, b.b5, b.b4, b.b3, b.b2, b.b1, b.b0);
    hide F.Value;
  }

  lemma ValueOfEight(a: bool, b: bool, c: bool, d: bool, e: bool, f: bool, g: bool, h: bool)
    ensures F.Value([a, b, c, d, e, f, g, h]) ==
              (if a then 128 else 0) + (if b then 64 else 0) + (if c then 32 else 0) + (if d then 16 else 0) +
              (if e then 8 else 0) + (if f then 4 else 0) + (if g then 2 else 0) + (if h then 1 else 0)
  {
    hide *;
    LongerValue([], [a], a);
    LongerValue([a], [a, b], b);
    LongerValue([a, b], [a, b, c], c);
    LongerValue([a, b, c], [a, b, c, d], d);
    LongerValue([a, b, c, d], [a, b, c, d, e], e);
    LongerValue([a, b, c, d, e], [a, b, c, d, e, f], f);
    LongerValue([a, b, c, d, e, f], [a, b, c, d, e, f, g], g);
    LongerValue([a, b, c, d, e, f, g], [a, b, c, d, e, f, g, h], h);
    NoValue();
  }

  lemma NoValue()
    ensures F.Value([]) == 0
  {}

  lemma LongerValue(w: seq<bool>, longer: seq<bool>, b: bool)
    requires longer == w + [b]
    ensures F.Value(longer) == 2 * F.Value(w) + if b then 1 else 0
  {
    assert longer[..|w|] == w;
  }

  function Octets(bytes: seq<Byte>): (o: seq<B.Octet>)
    ensures |o| == |bytes| && forall i :: 0 <= i < |o| ==> o[i] == OctetOf(bytes[i])
  {
    seq(|bytes|, i requires 0 <= i < |bytes| => OctetOf(bytes[i]))
  }

  // --- the header of a superframe and its access units ---

  const HEADER: nat := 24

  /** The number of access units, from the two bits for sampling rate and band replication. */
  function UnitCount(frame: seq<B.Octet>): (n: nat)
    requires |frame| >= HEADER
    ensures 2 <= n <= 6
  {
    if frame[2][1] then (if frame[2][2] then 3 else 6) else (if frame[2][2] then 2 else 4)
  }

  function FirstStart(frame: seq<B.Octet>): nat
    requires |frame| >= HEADER
  {
    if frame[2][1] then (if frame[2][2] then 6 else 11) else (if frame[2][2] then 5 else 8)
  }

  /** The units are 120 ms of audio: 960 samples each, of half the rate where band replication doubles it. */
  lemma UnitsFillSuperframe(frame: seq<B.Octet>)
    requires |frame| >= HEADER
    ensures var dac, sbr := frame[2][1], frame[2][2];
            UnitCount(frame) * 960 * (if sbr then 2 else 1) * 1000 == 120 * (if dac then 48000 else 32000)
  {}

  /** The first unit starts behind the header's three bytes and an address of twelve bits for each further unit. */
  lemma FirstBehindAddresses(frame: seq<B.Octet>)
    requires |frame| >= HEADER
    ensures FirstStart(frame) == (24 + 12 * (UnitCount(frame) - 1) + 7) / 8
  {}

  /** Where access unit r starts: the first behind the header, the next as the header says; the last stops at end. */
  function UnitStart(frame: seq<B.Octet>, end: nat, r: nat): nat
    requires |frame| >= HEADER && r <= UnitCount(frame)
  {
    if r == UnitCount(frame) then end
    else if r == 0 then FirstStart(frame)
    else F.Value(C.Bits(frame)[24 + 12 * (r - 1)..24 + 12 * (r - 1) + 12])
  }

  ghost predicate OrderedTo(frame: seq<B.Octet>, end: nat, n: nat)
    requires |frame| >= HEADER && n <= UnitCount(frame)
  {
    forall r :: 0 <= r < n ==> UnitStart(frame, end, r) < UnitStart(frame, end, r + 1)
  }

  ghost predicate Ordered(frame: seq<B.Octet>, end: nat)
    requires |frame| >= HEADER
  {
    OrderedTo(frame, end, UnitCount(frame))
  }

  /** The checksum behind an access unit is its own. */
  ghost predicate UnitOk(frame: seq<B.Octet>, from: nat, to: nat)
    requires from <= to <= |frame|
  {
    from + 2 <= to && C.OwnChecksum(frame, from, to)
  }

  lemma {:induction false} StartsBelowEnd(frame: seq<B.Octet>, end: nat, r: nat)
    requires |frame| >= HEADER && r <= UnitCount(frame) && Ordered(frame, end)
    ensures UnitStart(frame, end, r) <= end
    decreases UnitCount(frame) - r
  {
    hide UnitStart;
    if r < UnitCount(frame) {
      StartsBelowEnd(frame, end, r + 1);
    } else {
      LastStart(frame, end);
    }
  }

  lemma LastStart(frame: seq<B.Octet>, end: nat)
    requires |frame| >= HEADER
    ensures UnitStart(frame, end, UnitCount(frame)) == end
  {}

  /** The first n access units of a superframe that have their own checksum, in order and without it. */
  ghost function GoodUnits(frame: seq<B.Octet>, end: nat, n: nat): seq<seq<B.Octet>>
    requires |frame| >= HEADER && end <= |frame| && Ordered(frame, end) && n <= UnitCount(frame)
  {
    if n == 0 then []
    else
      var from, to := UnitStart(frame, end, n - 1), UnitStart(frame, end, n);
      StartsBelowEnd(frame, end, n);
      GoodUnits(frame, end, n - 1) + if UnitOk(frame, from, to) then [frame[from..to - 2]] else []
  }

  /** Read the addresses; false if they are not in order. */
  method ReadStarts(frame: seq<B.Octet>, end: nat) returns (starts: seq<nat>, ordered: bool)
    requires |frame| >= HEADER
    ensures |starts| == UnitCount(frame) + 1
    ensures forall r :: 0 <= r < |starts| ==> starts[r] == UnitStart(frame, end, r)
    ensures ordered <==> Ordered(frame, end)
  {
    hide F.Value, C.Bits;
    var n := UnitCount(frame);
    starts := [FirstStart(frame)];
    for r := 1 to n
      invariant |starts| == r && forall j :: 0 <= j < r ==> starts[j] == UnitStart(frame, end, j)
    {
      var at := BitFields.BinToDec(frame, 24 + 12 * (r - 1), 12);
      starts := starts + [at];
    }
    starts := starts + [end];
    hide UnitStart;
    ordered := true;
    for r := 0 to n
      invariant ordered && OrderedTo(frame, end, r)
    {
      if starts[r] >= starts[r + 1] {
        ordered := false;
        break;
      }
    }
  }

  /** Check the access units: those that pass are handed on. */
  method CheckUnits(frame: seq<B.Octet>, end: nat, starts: seq<nat>) returns (units: seq<seq<B.Octet>>, crcErrors: nat)
    requires |frame| >= HEADER && end <= |frame| && Ordered(frame, end) && |starts| == UnitCount(frame) + 1
    requires forall r :: 0 <= r < |starts| ==> starts[r] == UnitStart(frame, end, r)
    ensures units == GoodUnits(frame, end, UnitCount(frame)) && |units| + crcErrors == UnitCount(frame)
  {
    hide UnitStart, C.OwnChecksum, Ordered;
    var n := UnitCount(frame);
    var data := new B.Octet[|frame|](i requires 0 <= i < |frame| => frame[i]);
    assert data[..] == frame;
    units, crcErrors := [], 0;
    for r := 0 to n
      invariant data[..] == frame && units == GoodUnits(frame, end, r) && |units| + crcErrors == r
    {
      var from, to := starts[r], starts[r + 1];
      StartsBelowEnd(frame, end, r + 1);
      var ok := false;
      if from + 2 <= to {
        ok := C.CRC16(data, from, to - from);
      }
      if ok {
        units := units + [frame[from..to - 2]];
      } else {
        crcErrors := crcErrors + 1;
      }
    }
  }

  // --- the step on the buffer ---

  /** The eleven bytes from at on are a header with a valid fire code. */
  ghost predicate Synced(bytes: seq<Byte>, at: nat) {
    at + 11 <= |bytes| && F.HeaderOk(Octets(bytes[at..at + 11]))
  }

  /** sync tells of each of the n CIFs whether it begins with a header. */
  ghost predicate SyncsOf(sync: seq<bool>, bytes: seq<Byte>, cif: nat, n: nat) {
    n <= |sync| && forall idx: nat :: idx < n ==> (sync[idx] <==> Synced(bytes, idx * cif))
  }

  /** Every column within reach of a codeword is that codeword. */
  ghost predicate ColumnsCorrected(received: seq<Byte>, corrected: seq<Byte>, k: nat)
    requires |received| == |corrected| == CELL_SIZE * k
  {
    forall i, c :: 0 <= i < k && Near(c, Column(received, k, i)) ==> Column(corrected, k, i) == c
  }

  /** What the access units of a corrected superframe tell. */
  ghost predicate UnitsRead(frame: seq<B.Octet>, end: nat, o: Outcome<Byte>, units: seq<seq<B.Octet>>)
    requires |frame| >= HEADER && end <= |frame|
  {
    && o.numAus == UnitCount(frame) && (o.ordered <==> Ordered(frame, end))
    && (o.ordered ==> units == GoodUnits(frame, end, UnitCount(frame)) && |units| + o.crcErrors == o.numAus)
    && (!o.ordered ==> units == [] && o.crcErrors == 0)
  }

  /** What synchronisation, correction and checksums make of n CIFs of 24 k bytes, searched from CIF head on. */
  ghost predicate Evaluated(o: Outcome<Byte>, units: seq<seq<B.Octet>>, bytes: seq<Byte>, k: nat, head: nat, n: nat) {
    && 0 < k && head <= n <= |o.sync| && |o.corrected| == CELL_SIZE * k && SyncsOf(o.sync, bytes, 24 * k, n)
    && var f := FindSync(o.sync, head, n);
       if f + SUPERFRAME_CIFS > n then units == []
       else
         && f * (24 * k) + CELL_SIZE * k <= |bytes|
         && ColumnsCorrected(bytes[f * (24 * k)..f * (24 * k) + CELL_SIZE * k], o.corrected, k)
         && UnitsRead(Octets(o.corrected), 110 * k, o, units)
  }

  method FindHeaders(bytes: seq<Byte>, cif: nat, n: nat, capacity: nat) returns (sync: seq<bool>)
    requires cif >= 11 && |bytes| == n * cif && n <= capacity
    ensures |sync| == capacity && SyncsOf(sync, bytes, cif, n)
  {
    hide F.HeaderOk;
    var table := new F.FirecodeTable();
    sync := [];
    for idx := 0 to n
      invariant table.Valid() && |sync| == idx && SyncsOf(sync, bytes, cif, idx)
    {
      MulGap(idx, n, cif);
      var at: nat := idx * cif;
      var ok := table.FirecodeCheck(Octets(bytes[at..at + 11]));
      assert ok <==> Synced(bytes, idx * cif);
      sync := sync + [ok];
    }
    sync := sync + seq(capacity - n, _ => false);
  }

  /** The superframe corrected. */
  method CorrectedBytes(received: seq<Byte>, k: nat) returns (corrected: seq<Byte>)
    requires k > 0 && |received| == CELL_SIZE * k
    ensures |corrected| == CELL_SIZE * k && ColumnsCorrected(received, corrected, k)
  {
    hide Near, Column;
    var data := new Byte[|received|](i requires 0 <= i < |received| => received[i]);
    assert data[..] == received;
    QuotientUnique(CELL_SIZE * k, k, 0, CELL_SIZE);
    var _ := ReedSolomonCorrection(data, |received|);
    corrected := data[..];
  }

  /** The access units of a corrected superframe. */
  method ReadUnits(frame: seq<B.Octet>, end: nat)
    returns (numAus: nat, ordered: bool, units: seq<seq<B.Octet>>, crcErrors: nat)
    requires |frame| >= HEADER && end <= |frame|
    ensures numAus == UnitCount(frame) && (ordered <==> Ordered(frame, end))
    ensures ordered ==> units == GoodUnits(frame, end, UnitCount(frame)) && |units| + crcErrors == numAus
    ensures !ordered ==> units == [] && crcErrors == 0
  {
    hide UnitStart, Ordered, GoodUnits;
    numAus, units, crcErrors := UnitCount(frame), [], 0;
    var starts;
    starts, ordered := ReadStarts(frame, end);
    if ordered {
      units, crcErrors := CheckUnits(frame, end, starts);
    }
  }

  method Evaluate(bytes: seq<Byte>, k: nat, head: nat, n: nat, capacity: nat)
    returns (o: Outcome<Byte>, units: seq<seq<B.Octet>>)
    requires 0 < k && head <= n <= capacity && |bytes| == n * (24 * k)
    ensures |o.sync| == capacity && Evaluated(o, units, bytes, k, head, n)
  {
    hide SyncsOf, ColumnsCorrected, Ordered, GoodUnits;
    var cif: nat := 24 * k;
    var sync := FindHeaders(bytes, cif, n, capacity);
    var f := FindSync(sync, head, n);
    units := [];
    if f + SUPERFRAME_CIFS > n {
      o := Outcome(sync, seq(CELL_SIZE * k, _ => ZERO), false, 0, 0);
    } else {
      FiveCifs(f, n, k);
      var at: nat := f * cif;
      var corrected := CorrectedBytes(bytes[at..at + CELL_SIZE * k], k);
      var numAus, ordered, crcErrors;
      numAus, ordered, units, crcErrors := ReadUnits(Octets(corrected), 110 * k);
      o := Outcome(sync, corrected, ordered, crcErrors, numAus);
    }
  }

  lemma FiveCifs(f: nat, n: nat, k: nat)
    requires f + SUPERFRAME_CIFS <= n
    ensures f * (24 * k) + CELL_SIZE * k <= n * (24 * k)
  {
    MulMonotone(f + SUPERFRAME_CIFS, n, 24 * k);
    assert (f + SUPERFRAME_CIFS) * (24 * k) == f * (24 * k) + CELL_SIZE * k;
  }

  /** A superframe that was sent as t and hit by errors within reach in every column comes out as it was sent. */
  lemma SuperframeRestored(o: Outcome<Byte>, units: seq<seq<B.Octet>>, bytes: seq<Byte>, k: nat, head: nat, n: nat,
                           at: nat, t: seq<Byte>)
    requires Evaluated(o, units, bytes, k, head, n) && FindSync(o.sync, head, n) + SUPERFRAME_CIFS <= n
    requires at == FindSync(o.sync, head, n) * (24 * k) && Reaches(t, bytes, at, k)
    ensures o.corrected == t && UnitsRead(Octets(t), 110 * k, o, units)
  {
    hide UnitsRead, SyncsOf, Near, Column;
    SameColumns(o.corrected, t, k);
  }

  /** In every column t is a codeword within reach of what was received at byte at. */
  ghost predicate Reaches(t: seq<Byte>, bytes: seq<Byte>, at: nat, k: nat) {
    && |t| == CELL_SIZE * k && at + CELL_SIZE * k <= |bytes|
    && forall i :: 0 <= i < k ==> Near(Column(t, k, i), Column(bytes[at..at + CELL_SIZE * k], k, i))
  }

  lemma SameColumns(a: seq<Byte>, b: seq<Byte>, k: nat)
    requires k > 0 && |a| == |b| == CELL_SIZE * k && forall i :: 0 <= i < k ==> Column(a, k, i) == Column(b, k, i)
    ensures a == b
  {
    hide Column;
    forall p | 0 <= p < |a|
      ensures a[p] == b[p]
    {
      SameByte(a, b, k, p, p % k, p / k);
    }
  }

  lemma SameByte(a: seq<Byte>, b: seq<Byte>, k: nat, p: nat, i: nat, j: nat)
    requires k > 0 && p < |a| == |b| == CELL_SIZE * k && i == p % k && j == p / k && Column(a, k, i) == Column(b, k, i)
    ensures a[p] == b[p]
  {
    assert p == i + j * k;
    if j >= CELL_SIZE {
      MulMonotone(CELL_SIZE, j, k);
    }
    assert Column(a, k, i)[j] == a[i + j * k] && Column(b, k, i)[j] == b[i + j * k];
  }

  /** With a checksum right for every access unit, all of them are handed on. */
  lemma {:induction false} AllGood(frame: seq<B.Octet>, end: nat, n: nat)
    requires |frame| >= HEADER && end <= |frame| && Ordered(frame, end) && n <= UnitCount(frame)
    requires forall r: nat :: r < UnitCount(frame) ==> OwnUnit(frame, end, r)
    ensures |GoodUnits(frame, end, n)| == n
    ensures forall r :: 0 <= r < n ==> IsUnit(GoodUnits(frame, end, n)[r], frame, end, r)
  {
    hide UnitStart, Ordered, C.OwnChecksum;
    if n > 0 {
      AllGood(frame, end, n - 1);
      StartsBelowEnd(frame, end, n);
      assert OwnUnit(frame, end, n - 1);
      hide OwnUnit;
    }
  }

  /** unit is access unit r without its checksum. */
  ghost predicate IsUnit(unit: seq<B.Octet>, frame: seq<B.Octet>, end: nat, r: nat) {
    && |frame| >= HEADER && r < UnitCount(frame) &&
         UnitStart(frame, end, r) + 2 <= UnitStart(frame, end, r + 1) <= |frame|
    && unit == frame[UnitStart(frame, end, r)..UnitStart(frame, end, r + 1) - 2]
  }

  /** So a superframe sent with its addresses in order and a checksum of its own behind every access unit is delivered
      whole, whatever errors within reach it met, and is passed by all its five CIFs. */
  lemma SuperframeDelivered(o: Outcome<Byte>, units: seq<seq<B.Octet>>, bytes: seq<Byte>, k: nat, head: nat, n: nat,
                            at: nat, t: seq<Byte>)
    requires Evaluated(o, units, bytes, k, head, n) && FindSync(o.sync, head, n) + SUPERFRAME_CIFS <= n
    requires at == FindSync(o.sync, head, n) * (24 * k) && Reaches(t, bytes, at, k) && Ordered(Octets(t), 110 * k)
    requires forall r: nat :: r < UnitCount(Octets(t)) ==> OwnUnit(Octets(t), 110 * k, r)
    ensures o.corrected == t && o.ordered && o.crcErrors == 0 < o.numAus == |units| == UnitCount(Octets(t))
    ensures forall r :: 0 <= r < |units| ==> IsUnit(units[r], Octets(t), 110 * k, r)
  {
    SuperframeRestored(o, units, bytes, k, head, n, at, t);
    hide Evaluated, Reaches, Ordered, OwnUnit, IsUnit, GoodUnits;
    AllGood(Octets(t), 110 * k, UnitCount(Octets(t)));
  }

  ghost predicate OwnUnit(frame: seq<B.Octet>, end: nat, r: nat)
    requires |frame| >= HEADER && r < UnitCount(frame)
  {
    UnitStart(frame, end, r) <= UnitStart(frame, end, r + 1) <= |frame| &&
    UnitOk(frame, UnitStart(frame, end, r), UnitStart(frame, end, r + 1))
  }

  /** The next CIFs, on the bytes of the buffer. */
  method OnReceived(sf: SuperFrame<Byte>, cifs: seq<Byte>, k: nat)
    returns (units: seq<seq<B.Octet>>, ghost o: Outcome<Byte>)
    requires sf.Valid() && k > 0 && sf.bytesPerCif == 24 * k && |cifs| == sf.numberOfCif * sf.bytesPerCif
    modifies sf`superframeCifs, sf`adtsHeadIdx, sf`first, sf`stream, sf`received, sf`starts, sf.buffer
    ensures sf.Valid() && sf.received == old(sf.received) + sf.numberOfCif
    ensures old(sf.first * sf.bytesPerCif) <= |old(sf.stream)|
    ensures Evaluated(o, units, (old(sf.stream) + cifs)[old(sf.first * sf.bytesPerCif)..], k, old(sf.adtsHeadIdx),
                      old(sf.superframeCifs) + sf.numberOfCif)
    ensures sf.Handled(old(sf.first), old(sf.adtsHeadIdx), old(sf.superframeCifs) + sf.numberOfCif, old(sf.starts), o)
    ensures if sf.Found(old(sf.adtsHeadIdx), old(sf.superframeCifs) + sf.numberOfCif, o)
            then sf.Corrected(old(sf.stream) + cifs,
                              old(sf.first) + FindSync(o.sync, old(sf.adtsHeadIdx),
                                                       old(sf.superframeCifs) + sf.numberOfCif), o.corrected)
            else sf.stream == old(sf.stream) + cifs
  {
    hide Evaluated, SuperFrame.Handled, SuperFrame.Found, SuperFrame.Corrected;
    var n := sf.superframeCifs + sf.numberOfCif;
    var end: nat := sf.superframeCifs * sf.bytesPerCif;
    BytesReceived(sf, cifs);
    var bytes := sf.buffer[..end] + cifs;
    var outcome;
    outcome, units := Evaluate(bytes, k, sf.adtsHeadIdx, n, sf.capacity);
    o := outcome;
    CorrectedSize(o, units, bytes, k, sf.adtsHeadIdx, n);
    sf.OnCifs(cifs, outcome);
  }

  lemma CorrectedSize(o: Outcome<Byte>, units: seq<seq<B.Octet>>, bytes: seq<Byte>, k: nat, head: nat, n: nat)
    requires Evaluated(o, units, bytes, k, head, n)
    ensures |o.corrected| == CELL_SIZE * k
  {
    hide SyncsOf;
  }

  /** The buffer with the next CIFs behind it is the stream with them, from its first CIF on. */
  lemma BytesReceived(sf: SuperFrame<Byte>, cifs: seq<Byte>)
    requires sf.Valid() && |cifs| == sf.numberOfCif * sf.bytesPerCif
    ensures var end, base := sf.superframeCifs * sf.bytesPerCif, sf.first * sf.bytesPerCif;
            && 0 <= end <= sf.buffer.Length && 0 <= base <= |sf.stream|
            && sf.buffer[..end] + cifs == (sf.stream + cifs)[base..]
            && |sf.buffer[..end] + cifs| == (sf.superframeCifs + sf.numberOfCif) * sf.bytesPerCif
  {
    sf.SumBytes(sf.superframeCifs, sf.numberOfCif);
    sf.SumBytes(sf.first, sf.superframeCifs);
  }
}
