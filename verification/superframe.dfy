/** Assembling superframes of five CIFs in a buffer of sixteen. */
module SuperframeAssembly {
  import opened Division
  import opened SlidingBuffer

  const SUPERFRAME_CIFS: nat := 5

  /** The first index of a synchronised CIF in [from, end), or end. */
  function FindSync(sync: seq<bool>, from: nat, end: nat): (f: nat)
    requires from <= end <= |sync|
    ensures from <= f <= end && (f < end ==> sync[f])
    ensures forall k :: from <= k < f ==> !sync[k]
    decreases end - from
  {
    if from == end || sync[from] then from else FindSync(sync, from + 1, end)
  }

  /** What the checks and the Reed-Solomon decoder make of the bytes. */
  datatype Outcome<T> = Outcome(sync: seq<bool>, corrected: seq<T>, ordered: bool, crcErrors: nat, numAus: nat)

  class SuperFrame<T(0)> {
    const buffer: array<T>
    const capacity: nat
    const bytesPerCif: nat
    const numberOfCif: nat

    var superframeCifs: nat
    var adtsHeadIdx: nat

    /** The CIFs received, as the Reed-Solomon decoder has left them, and how many precede the buffer. */
    ghost var stream: seq<T>
    ghost var received: nat
    ghost var first: nat
    /** Where in the stream the superframes decoded so far start. */
    ghost var starts: seq<nat>

    /** The buffer holds one contiguous run of the stream, up to its end. */
    ghost predicate Consistent()
      reads this, buffer
    {
      && 0 < bytesPerCif && 0 < numberOfCif <= 4 && numberOfCif + SUPERFRAME_CIFS <= capacity + 1
      && buffer.Length == capacity * bytesPerCif
      && adtsHeadIdx <= superframeCifs <= capacity && first + superframeCifs == received
      && |stream| == received * bytesPerCif
      && Holds(buffer[..], superframeCifs * bytesPerCif, first * bytesPerCif, stream)
    }

    /** Superframes are taken in order and overlap by one CIF at most; the search goes on behind them. */
    ghost predicate InOrder()
      reads this
    {
      && (forall k, l :: 0 <= k < l < |starts| ==> starts[k] + 4 <= starts[l])
      && (forall k :: 0 <= k < |starts| ==> starts[k] + 4 <= first + adtsHeadIdx)
    }

    ghost predicate Valid()
      reads this, buffer
    {
      Consistent() && InOrder() && superframeCifs + numberOfCif <= capacity
    }

    constructor (bytesPerCif: nat, numberOfCif: nat, zero: T)
      requires 0 < bytesPerCif && 0 < numberOfCif <= 4
      ensures Valid() && fresh(buffer) && stream == [] && starts == [] && superframeCifs == 0
      ensures this.bytesPerCif == bytesPerCif && this.numberOfCif == numberOfCif && capacity == 16
    {
      buffer := new T[16 * bytesPerCif](_ => zero);
      capacity, this.bytesPerCif, this.numberOfCif := 16, bytesPerCif, numberOfCif;
      superframeCifs, adtsHeadIdx := 0, 0;
      stream, received, first, starts := [], 0, 0, [];
    }

    /** CircshiftBuff: make room for the next CIFs. */
    method CircshiftBuff()
      requires Consistent() && InOrder()
      modifies this`superframeCifs, this`adtsHeadIdx, this`first, buffer
      ensures Valid()
      ensures old(superframeCifs + numberOfCif - adtsHeadIdx) <= capacity ==>
                first + adtsHeadIdx == old(first + adtsHeadIdx) &&
                  superframeCifs - adtsHeadIdx == old(superframeCifs - adtsHeadIdx)
      ensures old(superframeCifs + numberOfCif - adtsHeadIdx) > capacity ==> superframeCifs == 0
      ensures old(superframeCifs + numberOfCif) <= capacity ==>
                unchanged(this) && buffer[..] == old(buffer[..])
      ensures old(superframeCifs + numberOfCif) > capacity ==>
                adtsHeadIdx == 0 && (superframeCifs == 0 || superframeCifs == old(superframeCifs - adtsHeadIdx))
    {
      if superframeCifs + numberOfCif > capacity {
        if superframeCifs + numberOfCif - adtsHeadIdx > capacity {
          Restart();
        } else if adtsHeadIdx < superframeCifs {
          MoveToFront();
        } else {
          Restart();
        }
        adtsHeadIdx := 0;
      }
    }

    /** Empty the buffer: the run goes on with the next CIFs. */
    method Restart()
      requires Consistent()
      modifies this`superframeCifs, this`adtsHeadIdx, this`first
      ensures Consistent() && superframeCifs == adtsHeadIdx == 0 && first == received
    {
      first := received;
      superframeCifs, adtsHeadIdx := 0, 0;
    }

    method MoveToFront()
      requires Consistent()
      modifies this`superframeCifs, this`adtsHeadIdx, this`first, buffer
      ensures Consistent() && adtsHeadIdx == 0 && first == old(first + adtsHeadIdx)
    {
      PartBytes(adtsHeadIdx, superframeCifs, capacity, first);
      var from, n := adtsHeadIdx * bytesPerCif, (superframeCifs - adtsHeadIdx) * bytesPerCif;
      ghost var end, base := superframeCifs * bytesPerCif, first * bytesPerCif;
      MoveBytes(from, n, end, base);
      hide Holds;
      first := first + adtsHeadIdx;
      superframeCifs := superframeCifs - adtsHeadIdx;
      adtsHeadIdx := 0;
    }

    /** memmove of the kept bytes. */
    method MoveBytes(from: nat, n: nat, ghost end: nat, ghost base: nat)
      requires from + n == end <= buffer.Length && Holds(buffer[..], end, base, stream)
      modifies buffer
      ensures Holds(buffer[..], n, base + from, stream)
    {
      hide Holds;
      forall i | 0 <= i < n {
        buffer[i] := buffer[from + i];
      }
      assert buffer[..n] == old(buffer[..])[from..from + n];
      HoldsMoved(old(buffer[..]), buffer[..], end, base, stream, from);
    }

    lemma PartBytes(head: nat, cifs: nat, cap: nat, before: nat)
      requires head <= cifs <= cap
      ensures head * bytesPerCif >= 0 && (cifs - head) * bytesPerCif >= 0
      ensures head * bytesPerCif + (cifs - head) * bytesPerCif == cifs * bytesPerCif <= cap * bytesPerCif
      ensures (before + head) * bytesPerCif == before * bytesPerCif + head * bytesPerCif
    {
      MulMonotone(cifs, cap, bytesPerCif);
    }

    /** The next CIFs are written behind the last ones, which always leaves them room. */
    method OnCifs(cifs: seq<T>, o: Outcome<T>)
      requires Valid() && |cifs| == numberOfCif * bytesPerCif
      requires |o.sync| >= capacity && |o.corrected| == SUPERFRAME_CIFS * bytesPerCif
      modifies this`superframeCifs, this`adtsHeadIdx, this`first, this`stream, this`received, this`starts, buffer
      ensures Valid() && received == old(received) + numberOfCif
      ensures Handled(old(first), old(adtsHeadIdx), old(superframeCifs) + numberOfCif, old(starts), o)
      ensures if Found(old(adtsHeadIdx), old(superframeCifs) + numberOfCif, o)
              then Corrected(old(stream) + cifs,
                             old(first) +
                               FindSync(o.sync, old(adtsHeadIdx), old(superframeCifs) + numberOfCif), o.corrected)
              else stream == old(stream) + cifs
    {
      AppendCifs(cifs);
      SuperFrameHandle(o);
    }

    /** A whole superframe follows the first synchronised CIF. */
    ghost predicate Found(head: nat, cifs: nat, o: Outcome<T>)
      requires head <= cifs <= |o.sync|
    {
      FindSync(o.sync, head, cifs) + SUPERFRAME_CIFS <= cifs
    }

    /** The stream is what it was, with the superframe starting at the given CIF replaced by its correction. */
    ghost predicate Corrected(before: seq<T>, cif: nat, corrected: seq<T>)
      reads this
    {
      cif * bytesPerCif + |corrected| <= |before| && stream == Overwritten(before, cif * bytesPerCif, corrected)
    }

    /** A superframe is decoded where the first synchronised CIF has four more behind it; a synchronised CIF with fewer
        stays at the head of the search. */
    ghost predicate Handled(oldFirst: nat, head: nat, cifs: nat, oldStarts: seq<nat>, o: Outcome<T>)
      reads this
      requires head <= cifs <= |o.sync|
    {
      var f := FindSync(o.sync, head, cifs);
      if Found(head, cifs, o) then starts == oldStarts + [oldFirst + f] && Passed(oldFirst + f, cifs - f, o)
      else
        && starts == oldStarts
        && (f < cifs ==> first + adtsHeadIdx == oldFirst + f && superframeCifs - adtsHeadIdx == cifs - f)
    }

    /** Behind a superframe of a run: by its five CIFs, by four if every checksum in it failed, and with an empty buffer
        if it was none or nothing lies behind it. */
    ghost predicate Passed(start: nat, run: nat, o: Outcome<T>)
      reads this
    {
      if !o.ordered || run == SUPERFRAME_CIFS then superframeCifs == adtsHeadIdx == 0 && first == received
      else
        var passed := if o.crcErrors < o.numAus then SUPERFRAME_CIFS else 4;
        first + adtsHeadIdx == start + passed && superframeCifs - adtsHeadIdx == run - passed
    }

    method Write(at: nat, w: seq<T>)
      requires at + |w| <= buffer.Length
      modifies buffer
      ensures buffer[..] == Overwritten(old(buffer[..]), at, w)
    {
      forall i | 0 <= i < |w| {
        buffer[at + i] := w[i];
      }
    }

    method SuperFrameHandle(o: Outcome<T>)
      requires Consistent() && InOrder()
      requires |o.sync| >= capacity && |o.corrected| == SUPERFRAME_CIFS * bytesPerCif
      modifies this`superframeCifs, this`adtsHeadIdx, this`first, this`stream, this`starts, buffer
      ensures Valid() && received == old(received)
      ensures Handled(old(first), old(adtsHeadIdx), old(superframeCifs), old(starts), o)
      ensures if Found(old(adtsHeadIdx), old(superframeCifs), o)
              then Corrected(old(stream), old(first) + FindSync(o.sync, old(adtsHeadIdx), old(superframeCifs)),
                             o.corrected)
              else stream == old(stream)
    {
      var superframe := false;
      var idx := adtsHeadIdx;
      while idx < superframeCifs
        invariant old(adtsHeadIdx) <= idx <= superframeCifs
        invariant FindSync(o.sync, old(adtsHeadIdx), superframeCifs) == FindSync(o.sync, idx, superframeCifs)
      {
        if o.sync[idx] {
          adtsHeadIdx := idx;
          if superframeCifs - adtsHeadIdx >= SUPERFRAME_CIFS {
            superframe := true;
            break;
          } else {
            CircshiftBuff();
            return;
          }
        }
        idx := idx + 1;
      }
      if !superframe {
        CircshiftBuff();
        return;
      }
      Decode(o);
    }

    /** The superframe at the head: corrected in place, then passed over, unless it turns out to be none. */
    method Decode(o: Outcome<T>)
      requires Consistent() && InOrder() && adtsHeadIdx + SUPERFRAME_CIFS <= superframeCifs
      requires |o.corrected| == SUPERFRAME_CIFS * bytesPerCif
      modifies this`superframeCifs, this`adtsHeadIdx, this`first, this`stream, this`starts, buffer
      ensures Valid() && starts == old(starts) + [old(first + adtsHeadIdx)]
      ensures Corrected(old(stream), old(first + adtsHeadIdx), o.corrected)
      ensures Passed(old(first + adtsHeadIdx), old(superframeCifs - adtsHeadIdx), o)
    {
      Correct(o.corrected);
      starts := starts + [first + adtsHeadIdx];
      if !o.ordered {
        Restart();
        return;
      }
      if adtsHeadIdx + SUPERFRAME_CIFS < superframeCifs {
        if o.crcErrors < o.numAus {
          adtsHeadIdx := adtsHeadIdx + SUPERFRAME_CIFS;
        } else {
          adtsHeadIdx := adtsHeadIdx + 4;
        }
      } else {
        Restart();
        return;
      }
      CircshiftBuff();
    }

    method Correct(corrected: seq<T>)
      requires Consistent() && adtsHeadIdx + SUPERFRAME_CIFS <= superframeCifs &&
                |corrected| == SUPERFRAME_CIFS * bytesPerCif
      modifies this`stream, buffer
      ensures Consistent() && Corrected(old(stream), first + adtsHeadIdx, corrected)
    {
      ghost var before := buffer[..];
      CorrectionFits(|corrected|);
      PartBytes(adtsHeadIdx, superframeCifs, capacity, first);
      ghost var base: nat, end: nat := first * bytesPerCif, superframeCifs * bytesPerCif;
      var at: nat := adtsHeadIdx * bytesPerCif;
      Write(at, corrected);
      HoldsOverwritten(before, buffer[..], end, base, stream, at, corrected);
      hide Holds;
      stream := Overwritten(stream, base + at, corrected);
    }

    lemma CorrectionFits(n: nat)
      requires Consistent() && adtsHeadIdx + SUPERFRAME_CIFS <= superframeCifs && n == SUPERFRAME_CIFS * bytesPerCif
      ensures adtsHeadIdx * bytesPerCif + n <= superframeCifs * bytesPerCif <= buffer.Length
    {
      MulMonotone(adtsHeadIdx + SUPERFRAME_CIFS, superframeCifs, bytesPerCif);
      MulMonotone(superframeCifs, capacity, bytesPerCif);
    }

    lemma SumBytes(a: nat, b: nat)
      ensures (a + b) * bytesPerCif == a * bytesPerCif + b * bytesPerCif
    {}

    method AppendCifs(cifs: seq<T>)
      requires Valid() && |cifs| == numberOfCif * bytesPerCif
      modifies this`superframeCifs, this`stream, this`received, buffer
      ensures Consistent() && InOrder() && stream == old(stream) + cifs && received == old(received) + numberOfCif
      ensures superframeCifs == old(superframeCifs) + numberOfCif
    {
      ghost var before := buffer[..];
      ghost var base: nat := first * bytesPerCif;
      var end: nat := superframeCifs * bytesPerCif;
      MulMonotone(superframeCifs + numberOfCif, capacity, bytesPerCif);
      SumBytes(superframeCifs, numberOfCif);
      SumBytes(received, numberOfCif);
      Write(end, cifs);
      HoldsAppended(before, buffer[..], end, base, stream, cifs);
      hide Holds;
      stream := stream + cifs;
      received := received + numberOfCif;
      superframeCifs := superframeCifs + numberOfCif;
    }
  }
}
