/** Where the demodulator and the data decoder stand in the stream of units. */
module UnitPositions {

  /** The sizes of a unit, of the decoder's window and of the buffer. */
  datatype UnitLayout = UnitLayout(unit: nat, window: nat, size: nat) {

    ghost predicate Valid() {
      0 < unit <= window && size == 4 * window
    }
  }

  /** Stream positions: the buffer's first unit, where the demodulator writes, the decoder's window, and the end of the
      units written. The demodulator is blocked while its last unit has not been made way for. */
  datatype UnitPlace = UnitPlace(base: int, write: int, read: int, last: int, blocked: bool, idle: bool) {

    /** The unit after the next would not fit. */
    predicate NeedsRoom(z: UnitLayout) {
      write + 2 * z.unit > base + z.size
    }

    /** The unread units cannot be moved to the front without overlap and with room to spare. */
    predicate Lagging(z: UnitLayout) {
      NeedsRoom(z) && (read + z.size <= write + 2 * z.unit || write + z.unit - read > read - base)
    }

    /** The demodulator moves on behind its last unit, unless the decoder lags. */
    function Released(z: UnitLayout): UnitPlace {
      if !blocked || Lagging(z) then this
      else this.(base := if NeedsRoom(z) then read else base, write := write + z.unit, blocked := false)
    }

    function Written(z: UnitLayout): UnitPlace {
      this.(last := write + z.unit, blocked := true)
    }

    function UnitHandled(z: UnitLayout): UnitPlace {
      Written(z).Released(z)
    }

    function Read(z: UnitLayout): UnitPlace {
      this.(read := read + z.unit, idle := true)
    }

    function WindowHandled(z: UnitLayout): UnitPlace {
      Read(z).Released(z)
    }

    /** The decoder's window has been written. */
    predicate WindowReady(z: UnitLayout) {
      read + z.window <= last
    }

    function DecoderResumed(z: UnitLayout): UnitPlace {
      this.(idle := idle && !WindowReady(z))
    }

    /** Blocked because the decoder lags: its window is complete and it is at work on it. */
    ghost predicate Waiting(z: UnitLayout) {
      && z.Valid() && blocked && !idle && Lagging(z)
      && base <= read && write + z.unit <= base + z.size && last == write + z.unit
    }

    /** A window done either lifts the block or leaves the decoder the next window to work on. */
    lemma WindowHelps(z: UnitLayout)
      requires Waiting(z)
      ensures read + z.window <= last
      ensures var n := WindowHandled(z).DecoderResumed(z);
              !n.blocked || (n.Waiting(z) && n == this.(read := read + z.unit))
    {}
  }

  /** A clean start: a window of zeros but for its last unit. */
  function StartUnits(z: UnitLayout): UnitPlace {
    UnitPlace(0, z.window - z.unit, 0, 0, false, true)
  }
}
