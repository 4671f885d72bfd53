/** The reader of a device: its transfers, the linked list of completed ones, and the threads that share them. */
module AsyncTransfers {
  import opened AsyncProtocol
  import Pigeonhole

  const DEFAULT_BUF_NUMBER: nat := 15
  const ENOMEM := 12

  /** What other threads may do while the reader does not hold the lock. */
  datatype Event = Completion(i: nat, usb: UsbStatus, length: nat) | CancelCall

  /** libusb calls back for transfer i. */
  ghost predicate CalledBack(events: seq<Event>, i: nat) {
    exists k :: 0 <= k < |events| && events[k].Completion? && events[k].i == i
  }

  ghost predicate SomeCalledBack(events: seq<Event>, transfers: set<nat>) {
    exists i :: i in transfers && CalledBack(events, i)
  }

  ghost predicate AllCalledBack(events: seq<Event>, transfers: set<nat>) {
    forall i :: i in transfers ==> CalledBack(events, i)
  }

  /** Nothing but successful transfers. */
  ghost predicate Quiet(events: seq<Event>) {
    forall k :: 0 <= k < |events| ==> events[k].Completion? && events[k].usb == UsbCompleted
  }

  /** The handling of one transfer: the events while the lock is free, and the code its submission returns. */
  datatype Handling = Handling(events: seq<Event>, code: int) {

    predicate Accepted() { code >= 0 }
  }

  /** What happens to the k-th transfer handled; one the script does not mention is accepted in peace. */
  function At(script: seq<Handling>, k: nat): Handling {
    if k < |script| then script[k] else Handling([], 0)
  }

  lemma AtQuiet(script: seq<Handling>, k: nat)
    ensures Untroubled(script) ==> Quiet(At(script, k).events) && At(script, k).Accepted()
  {}

  ghost predicate Untroubled(script: seq<Handling>) {
    forall k: nat :: k < |script| ==> Quiet(script[k].events) && script[k].Accepted()
  }

  const LIBUSB_ERROR_INTERRUPTED := -10

  /** What happens around one pass of the reader's loop: while it waits and the code the wait returns, as it handles
      transfers, and after a loss. */
  datatype Environment =
    Environment(wait: seq<Event>, code: int, script: seq<Handling>, afterwards: seq<Event>) {

    ghost predicate Peaceful() {
      Quiet(wait) && code >= 0 && Untroubled(script)
    }
  }

  /** The last code libusb returned. */
  function Last(codes: seq<int>): int {
    if codes == [] then 0 else codes[|codes| - 1]
  }

  /** In a cancelled run: the pass does not wait, or its wait succeeds and libusb calls back for some transfer in it. */
  ghost predicate Useful(v: View, p: Environment) {
    v.async != Running && (v.Waits() ==> p.code >= 0 && SomeCalledBack(p.wait, v.pending))
  }

  /** What a pass makes of the protected state. */
  ghost predicate Passed(v: View, p: Environment, w: View) {
    && v.async != Inactive && w.Sound() && w.Ring() && w.Live() && w.Advanced(v)
    && (v.Waits() && CancelCall in p.wait ==> w.async != Running)
    && (w.async == Running && w.queue != [] ==> v.Waits())
    && (v.async != Running ==> w.PassesLeft() <= v.PassesLeft())
    && (Useful(v, p) ==> w.PassesLeft() < v.PassesLeft())
  }

  /** The states between the passes of a run over n transfers. */
  ghost predicate Chain(trace: seq<View>, passes: seq<Environment>, n: nat) {
    && 1 <= |trace| <= |passes| + 1 && |trace[0].status| == n && trace[0].Sound() && trace[0].Live()
    && forall k :: 0 <= k < |trace| - 1 ==> Passed(trace[k], passes[k], trace[k + 1])
  }

  ghost function UsefulPasses(trace: seq<View>, passes: seq<Environment>): nat
    requires |trace| <= |passes| + 1
  {
    if |trace| <= 1 then 0
    else
      var k := |trace| - 2;
      UsefulPasses(trace[..k + 1], passes) + if Useful(trace[k], passes[k]) then 1 else 0
  }

  /** Whatever asked for the cancel, each useful pass of a cancelled run leaves fewer, and 2n + 1 of them end it. */
  lemma {:induction false} CancelledRunEnds(trace: seq<View>, passes: seq<Environment>, n: nat)
    requires Chain(trace, passes, n)
    ensures var v := trace[|trace| - 1];
            && |v.status| == n && v.Sound() && v.Live()
            && (v.async == Running ==> UsefulPasses(trace, passes) == 0)
            && (v.async != Running ==> UsefulPasses(trace, passes) + v.PassesLeft() <= 2 * n + 1)
            && (UsefulPasses(trace, passes) > 2 * n ==> v.async == Inactive)
  {
    hide View.Sound, View.Live, View.PassesLeft, Passed, Useful, Chain;
    FirstOfChain(trace, passes, n);
    if |trace| > 1 {
      var k := |trace| - 2;
      ShorterChain(trace, passes, n);
      CancelledRunEnds(trace[..k + 1], passes, n);
      OnePass(trace[k], passes[k], trace[k + 1]);
    }
    var v := trace[|trace| - 1];
    v.PendingBound();
    if v.async == CancelRequest || v.async == Cancelling {
      v.NotEnded();
    }
  }

  lemma FirstOfChain(trace: seq<View>, passes: seq<Environment>, n: nat)
    requires Chain(trace, passes, n)
    ensures 1 <= |trace| <= |passes| + 1 && |trace[0].status| == n && trace[0].Sound() && trace[0].Live()
  {}

  lemma ShorterChain(trace: seq<View>, passes: seq<Environment>, n: nat)
    requires Chain(trace, passes, n) && |trace| > 1
    ensures var k := |trace| - 2; Chain(trace[..k + 1], passes, n) && Passed(trace[k], passes[k], trace[k + 1])
  {
    hide Passed, View.Sound, View.Live;
  }

  lemma LongerChain(trace: seq<View>, passes: seq<Environment>, n: nat, w: View)
    requires Chain(trace, passes, n) && |trace| <= |passes| && Passed(trace[|trace| - 1], passes[|trace| - 1], w)
    ensures Chain(trace + [w], passes, n)
  {
    hide Passed, View.Sound, View.Live;
  }

  lemma OnePass(v: View, p: Environment, w: View)
    requires Passed(v, p, w)
    ensures w.Sound() && w.Live() && |w.status| == |v.status|
    ensures v.async != Running ==> w.async != Running && w.PassesLeft() <= v.PassesLeft()
    ensures v.async != Inactive && (Useful(v, p) ==> v.async != Running && w.PassesLeft() < v.PassesLeft())
  {
    hide View.Sound, View.Live, View.PassesLeft;
  }

  // --- the same in terms of what goes on around the run ---

  /** The wait succeeds and lasts until libusb has called back for all of n transfers. */
  ghost predicate FullWait(p: Environment, n: nat) {
    p.code >= 0 && forall i: nat :: i < n ==> CalledBack(p.wait, i)
  }

  /** The number of full waits from pass lo up to pass hi. */
  ghost function FullWaits(passes: seq<Environment>, lo: nat, hi: nat, n: nat): nat
    requires hi <= |passes|
  {
    if hi <= lo then 0 else FullWaits(passes, lo, hi - 1, n) + if FullWait(passes[hi - 1], n) then 1 else 0
  }

  /** A cancel is asked for in the waits of pass c and of the next, at least one of which takes place. */
  ghost predicate CancelAsked(passes: seq<Environment>, c: nat) {
    c + 2 <= |passes| && CancelCall in passes[c].wait && CancelCall in passes[c + 1].wait
  }

  /** The passes went on to the last, or up to the end of the run. */
  ghost predicate Complete(trace: seq<View>, passes: seq<Environment>) {
    trace != [] && (|trace| == |passes| + 1 || trace[|trace| - 1].async == Inactive)
  }

  /** A wait that brings back every transfer is useful as long as a cancelled run has not ended. */
  lemma FullWaitIsUseful(v: View, p: Environment, n: nat)
    requires v.Sound() && v.Live() && v.async in {CancelRequest, Cancelling} && |v.status| == n && FullWait(p, n)
    ensures Useful(v, p)
  {
    hide CalledBack;
    if v.Waits() {
      var i :| i in v.pending;
    }
  }

  lemma CancelTakesPlace(trace: seq<View>, passes: seq<Environment>, n: nat, c: nat)
    requires Chain(trace, passes, n) && CancelAsked(passes, c) && c + 2 < |trace|
    ensures trace[c + 2].async != Running
  {
    hide View.Sound, View.Live, View.PassesLeft, View.Advanced, View.Ring, Useful;
    assert Passed(trace[c], passes[c], trace[c + 1]) && Passed(trace[c + 1], passes[c + 1], trace[c + 2]);
    trace[c + 1].AdvancedStopped(trace[c]);
    trace[c + 2].AdvancedStopped(trace[c + 1]);
  }

  /** From a pass on at which the run is cancelled, full waits count as useful passes. */
  lemma {:induction false} FullWaitsAreUseful(trace: seq<View>, passes: seq<Environment>, n: nat, lo: nat)
    requires Chain(trace, passes, n) && (lo < |trace| ==> trace[lo].async != Running)
    ensures UsefulPasses(trace, passes) >= FullWaits(passes, lo, |trace| - 1, n)
    ensures lo < |trace| ==> trace[|trace| - 1].async != Running
  {
    hide View.Sound, View.Live, View.PassesLeft, Passed, Useful, Chain, FullWait;
    FirstOfChain(trace, passes, n);
    if |trace| > 1 && lo < |trace| - 1 {
      var k := |trace| - 2;
      ShorterChain(trace, passes, n);
      FullWaitsAreUseful(trace[..k + 1], passes, n, lo);
      OnePass(trace[k], passes[k], trace[k + 1]);
      StateInChain(trace[..k + 1], passes, n);
      if FullWait(passes[k], n) {
        FullWaitIsUseful(trace[k], passes[k], n);
      }
    }
  }

  lemma StateInChain(trace: seq<View>, passes: seq<Environment>, n: nat)
    requires Chain(trace, passes, n)
    ensures var v := trace[|trace| - 1]; v.Sound() && v.Live() && |v.status| == n
  {
    CancelledRunEnds(trace, passes, n);
  }

  /** A complete run in which a cancel was asked for has ended if more than 2n waits since then brought everything
      back. */
  lemma AskedRunEnds(trace: seq<View>, passes: seq<Environment>, n: nat, c: nat)
    requires Chain(trace, passes, n) && Complete(trace, passes)
    requires CancelAsked(passes, c) && FullWaits(passes, c + 2, |passes|, n) > 2 * n
    ensures trace[|trace| - 1].async == Inactive
  {
    hide Passed, View.Sound, View.Live, View.PassesLeft, UsefulPasses;
    if |trace| == |passes| + 1 {
      CancelTakesPlace(trace, passes, n, c);
      FullWaitsAreUseful(trace, passes, n, c + 2);
      CancelledRunEnds(trace, passes, n);
    }
  }

  /** More than two full waits for each of n transfers, from pass c on. */
  ghost predicate EnoughFull(passes: seq<Environment>, c: nat, n: nat) {
    FullWaits(passes, c, |passes|, n) > 2 * n
  }

  lemma EnoughFullEnds(trace: seq<View>, passes: seq<Environment>, n: nat, c: nat)
    requires Chain(trace, passes, n) && Complete(trace, passes) && CancelAsked(passes, c) &&
              EnoughFull(passes, c + 2, n)
    ensures trace[|trace| - 1].async == Inactive
  {
    hide Chain, CancelAsked, Complete;
    AskedRunEnds(trace, passes, n, c);
  }

  /** The last pass of the trace broke off because its wait failed with code r. */
  ghost predicate FailedWait(trace: seq<View>, passes: seq<Environment>, r: int) {
    && 2 <= |trace| <= |passes| + 1 && trace[|trace| - 2].Waits()
    && r == passes[|trace| - 2].code < 0 && r != LIBUSB_ERROR_INTERRUPTED
  }

  class Xfer {
    const index: nat
    var status: XferStatus
    var actualLength: nat
    var next: Xfer?

    constructor (index: nat)
      ensures this.index == index && status == Idle && next == null
    {
      this.index, status, actualLength, next := index, Idle, 0, null;
    }
  }

  ghost function StatusesOf(nodes: seq<Xfer>): (s: seq<XferStatus>)
    reads nodes`status
    ensures |s| == |nodes| && forall i :: 0 <= i < |s| ==> s[i] == nodes[i].status
  {
    if nodes == [] then [] else StatusesOf(nodes[..|nodes| - 1]) + [nodes[|nodes| - 1].status]
  }

  ghost function LengthsOf(nodes: seq<Xfer>): (s: seq<nat>)
    reads nodes`actualLength
    ensures |s| == |nodes| && forall i :: 0 <= i < |s| ==> s[i] == nodes[i].actualLength
  {
    if nodes == [] then [] else LengthsOf(nodes[..|nodes| - 1]) + [nodes[|nodes| - 1].actualLength]
  }

  class Device {
    var xfer: seq<Xfer>
    var asyncStatus: AsyncStatus
    var xferHead: Xfer?
    var xferTail: Xfer?
    var xferErrors: nat
    var devLost: bool

    /** What libusb has returned for the submissions and waits of the run. */
    ghost var codes: seq<int>

    ghost var queue: seq<Entry>
    ghost var pending: set<nat>
    ghost var successes: seq<Delivery>
    ghost var deliveries: seq<Delivery>
    ghost var resubmitted: nat
    ghost var whenCancelled: nat

    ghost predicate Nodes()
      reads this`xfer, this`queue
    {
      && (forall i :: 0 <= i < |xfer| ==> xfer[i].index == i)
      && (forall k :: 0 <= k < |queue| ==> queue[k].i < |xfer|)
    }

    /** The linked list from head to tail is the queue. */
    ghost predicate Linked()
      reads this`xfer, this`queue, this`xferHead, this`xferTail, xfer`next
      requires Nodes()
    {
      && (forall k, l :: 0 <= k < l < |queue| ==> queue[k].i != queue[l].i)
      && (queue == [] ==> xferHead == null && xferTail == null)
      && (queue != [] ==>
          xferHead == xfer[queue[0].i] && xferTail == xfer[queue[|queue| - 1].i] && xferTail.next == null)
      && (forall k, l :: 0 <= k < |queue| && l == k + 1 && l < |queue| ==> xfer[queue[k].i].next == xfer[queue[l].i])
    }

    /** The protected state as a value. */
    ghost function State(): View
      reads this, xfer
    {
      View(StatusList(), LengthList(), asyncStatus, queue, pending, successes, deliveries, resubmitted, whenCancelled)
    }

    ghost function StatusList(): seq<XferStatus>
      reads this`xfer, xfer`status
    {
      StatusesOf(xfer)
    }

    ghost function LengthList(): seq<nat>
      reads this`xfer, xfer`actualLength
    {
      LengthsOf(xfer)
    }

    ghost predicate Valid()
      reads this, xfer
    {
      Nodes() && Linked() && State().Sound()
    }

    method Append(ctx: Xfer, ghost e: Entry)
      requires Nodes() && Linked() && e.i < |xfer| && ctx == xfer[e.i]
      requires forall k :: 0 <= k < |queue| ==> queue[k].i != e.i
      modifies this`xferHead, this`xferTail, this`queue, xfer`next
      ensures Nodes() && Linked() && queue == old(queue) + [e]
      ensures StatusList() == old(StatusList()) && LengthList() == old(LengthList())
    {
      hide StatusList, LengthList;
      ctx.next := null;
      if xferHead == null {
        xferHead := ctx;
      } else {
        xferTail.next := ctx;
      }
      xferTail := ctx;
      queue := queue + [e];
    }

    /** libusb calls back, exactly once for a submitted transfer. */
    method LibusbCallback(i: nat, usb: UsbStatus, length: nat)
      requires Valid() && i in pending
      modifies this`xferHead, this`xferTail, this`xferErrors, this`asyncStatus, this`queue, this`pending,
               this`successes, this`whenCancelled, xfer
      ensures Valid()
      ensures State() == old(State().Completed(i, Outcome(State().status[i], usb, xferErrors, |xfer|), length))
      ensures xferErrors == old(ErrorsAfter(usb, xferErrors))
      ensures successes == old(successes) + if usb == UsbCompleted then [Delivery(i, length)] else []
    {
      hide View.Sound, View.Completed, Outcome, ErrorsAfter, Reported, Nodes, Linked, StatusList, LengthList;
      ghost var v := State();
      NotQueued(i);
      var ctx := xfer[i];
      ghost var outcome := Outcome(ctx.status, usb, xferErrors, |xfer|);
      v.CompletedSound(i, outcome, length);
      ghost var d := SuccessReported(Entry(i, outcome, length), usb);
      pending := pending - {i};
      successes := successes + d;
      Append(ctx, Entry(i, outcome, length));
      RecordOutcome(ctx, usb, length);
      v.IsCompleted(i, outcome, length, State());
    }

    static lemma SuccessReported(e: Entry, usb: UsbStatus) returns (d: seq<Delivery>)
      requires e.status == CompletedOk <==> usb == UsbCompleted
      ensures d == Reported(e) && d == if usb == UsbCompleted then [Delivery(e.i, e.length)] else []
    {
      d := Reported(e);
    }

    lemma NotQueued(i: nat)
      requires Valid() && i in pending
      ensures i < |xfer| && xfer[i].status == State().status[i] && xfer[i].index == i
      ensures forall k :: 0 <= k < |queue| ==> queue[k].i != i
    {
      var v := State();
      forall k | 0 <= k < |queue|
        ensures queue[k].i != i
      {
        assert v.EntrySound(v.queue[k]);
      }
    }

    /** The status, error count and cancel request a completion leads to. */
    method RecordOutcome(ctx: Xfer, usb: UsbStatus, length: nat)
      requires Nodes() && Linked() && ctx.index < |xfer| && ctx == xfer[ctx.index]
      modifies ctx`status, ctx`actualLength, this`xferErrors, this`asyncStatus, this`whenCancelled
      ensures Nodes() && Linked()
      ensures StatusList() == old(StatusList()[ctx.index := Outcome(ctx.status, usb, xferErrors, |xfer|)])
      ensures LengthList() == old(if usb == UsbCompleted then LengthList()[ctx.index := length] else LengthList())
      ensures xferErrors == old(ErrorsAfter(usb, xferErrors))
      ensures old(Outcome(ctx.status, usb, xferErrors, |xfer|)) == CompletedDevLost && old(asyncStatus) == Running ==>
                asyncStatus == CancelRequest && whenCancelled == resubmitted
      ensures old(Outcome(ctx.status, usb, xferErrors, |xfer|)) != CompletedDevLost || old(asyncStatus) != Running ==>
                asyncStatus == old(asyncStatus) && whenCancelled == old(whenCancelled)
    {
      hide Outcome, ErrorsAfter, StatusesOf, LengthsOf, Linked;
      SetOutcome(ctx, usb, length);
      NodeChanged(ctx);
    }

    /** Only transfer ctx has changed. */
    twostate lemma NodeChanged(ctx: Xfer)
      requires xfer == old(xfer) && Nodes() && ctx.index < |xfer| && ctx == xfer[ctx.index]
      requires forall x: Xfer ::
                x in xfer && x != ctx ==> x.status == old(x.status) && x.actualLength == old(x.actualLength)
      ensures StatusList() == old(StatusList())[ctx.index := ctx.status]
      ensures LengthList() == old(LengthList())[ctx.index := ctx.actualLength]
    {}

    method SetOutcome(ctx: Xfer, usb: UsbStatus, length: nat)
      modifies ctx`status, ctx`actualLength, this`xferErrors, this`asyncStatus, this`whenCancelled
      ensures ctx.status == old(Outcome(ctx.status, usb, xferErrors, |xfer|))
      ensures ctx.actualLength == if usb == UsbCompleted then length else old(ctx.actualLength)
      ensures xferErrors == old(ErrorsAfter(usb, xferErrors))
      ensures ctx.status == CompletedDevLost && old(asyncStatus) == Running ==>
                asyncStatus == CancelRequest && whenCancelled == resubmitted
      ensures ctx.status != CompletedDevLost || old(asyncStatus) != Running ==>
                asyncStatus == old(asyncStatus) && whenCancelled == old(whenCancelled)
    {
      if usb == UsbCompleted {
        ctx.status := CompletedOk;
        ctx.actualLength := length;
        xferErrors := 0;
      } else if usb == UsbCancelled && ctx.status == BeingCancelled {
        ctx.status := CompletedError;
      } else {
        ctx.status := CompletedError;
        if usb == UsbError {
          xferErrors := xferErrors + 1;
        }
        if xferErrors >= |xfer| || usb == UsbNoDevice {
          ctx.status := CompletedDevLost;
          if asyncStatus == Running {
            asyncStatus := CancelRequest;
            whenCancelled := resubmitted;
          }
        }
      }
    }

    /** rtlsdr_cancel_async. */
    method CancelAsync() returns (r: int)
      requires Valid()
      modifies this`asyncStatus, this`whenCancelled
      ensures Valid() && State() == old(State()).WithCancelRequest()
      ensures r == if old(asyncStatus) == Inactive then -2 else 0
    {
      hide View.Sound, Linked, StatusList, LengthList;
      ghost var v := State();
      v.CancelRequested();
      r := 0;
      if asyncStatus == CancelRequest || asyncStatus == Cancelling {
      } else if asyncStatus == Running {
        asyncStatus := CancelRequest;
        whenCancelled := resubmitted;
      } else {
        r := -2;
      }
      assert State() == v.WithCancelRequest();
    }

    /** The lock is free: other threads complete transfers and ask to cancel, in any order. */
    method Unlocked(events: seq<Event>)
      requires Valid()
      modifies this, xfer
      ensures Valid() && xfer == old(xfer) && devLost == old(devLost) && codes == old(codes) &&
                State().Waited(old(State()))
      ensures events == [] ==> State() == old(State())
      ensures forall i: nat :: CalledBack(events, i) ==> i !in pending
      ensures Quiet(events) ==> asyncStatus == old(asyncStatus)
      ensures CancelCall in events ==> asyncStatus != Running
    {
      hide View.Sound, View.Waited, Linked, StatusList, LengthList;
      ghost var v := State();
      v.WaitedReflexive();
      for k := 0 to |events|
        invariant k == 0 ==> State() == v
        invariant Valid() && xfer == old(xfer) && devLost == old(devLost) && codes == old(codes) && State().Waited(v)
        invariant forall l :: 0 <= l < k && events[l].Completion? ==> events[l].i !in pending
        invariant Quiet(events) ==> asyncStatus == v.async
        invariant CancelCall in events[..k] ==> asyncStatus != Running
      {
        ghost var mid := State();
        OneEvent(events[k]);
        State().WaitedTransitive(mid, v);
        State().WaitedAdvanced(mid);
      }
      assert events == events[..|events|];
    }

    method OneEvent(e: Event)
      requires Valid()
      modifies this, xfer
      ensures Valid() && xfer == old(xfer) && devLost == old(devLost) && codes == old(codes) &&
                State().Waited(old(State()))
      ensures e.Completion? ==> e.i !in pending
      ensures e.Completion? && e.usb == UsbCompleted ==> asyncStatus == old(asyncStatus)
      ensures e == CancelCall ==> asyncStatus != Running
    {
      hide View.Sound, View.Waited, Linked, StatusList, LengthList;
      ghost var v := State();
      v.WaitedReflexive();
      match e
      case Completion(i, usb, length) =>
        if i < |xfer| && (xfer[i].status == Submitted || xfer[i].status == BeingCancelled) {
          SubmittedIsPending(i);
          v.CompletedWaited(i, Outcome(xfer[i].status, usb, xferErrors, |xfer|), length);
          LibusbCallback(i, usb, length);
        } else {
          NotSubmitted(i);
        }
      case CancelCall =>
        var r := CancelAsync();
    }

    lemma SubmittedIsPending(i: nat)
      requires Valid() && i < |xfer| && xfer[i].status in {Submitted, BeingCancelled}
      ensures i in pending && State().status[i] == xfer[i].status
    {
      var v := State();
      assert v.Tracked();
    }

    lemma NotSubmitted(i: nat)
      requires Valid() && (i < |xfer| ==> xfer[i].status !in {Submitted, BeingCancelled})
      ensures i !in pending
    {
      var v := State();
      assert v.Tracked() && v.InRange();
    }

    /** The next completed transfer leaves the list; if it succeeded its data goes to the user's callback. */
    method Pop() returns (head: Xfer)
      requires Valid() && xferHead != null
      modifies this`xferHead, this`xferTail, this`queue, this`deliveries
      ensures Valid() && State() == old(State()).Popped()
      ensures head in xfer && head == old(xferHead) && head == xfer[head.index] && State().Handled(head.index)
      ensures head.index == old(queue)[0].i
      ensures head.status == old(queue)[0].status
      ensures deliveries == old(deliveries) +
                if head.status == CompletedOk then [Delivery(head.index, head.actualLength)] else []
    {
      hide View.Sound, StatusList, LengthList;
      ghost var v := State();
      v.PoppedSound();
      head := xferHead;
      HeadStatus(v.queue[0]);
      xferHead := head.next;
      if xferHead == null {
        xferTail := null;
      }
      if head.status == CompletedOk {
        deliveries := deliveries + [Delivery(head.index, head.actualLength)];
      }
      queue := queue[1..];
      assert State() == v.Popped();
    }

    lemma HeadStatus(e: Entry)
      requires Valid() && queue != [] && e == queue[0]
      ensures e.i < |xfer| && xfer[e.i].status == e.status
      ensures e.status == CompletedOk ==> xfer[e.i].actualLength == e.length
    {
      var v := State();
      assert v.EntrySound(v.queue[0]);
    }

    /** The transfer handled goes back to libusb, which accepts it or not. */
    method Resubmit(head: Xfer, code: int) returns (r: int)
      requires Valid() && head.index < |xfer| && head == xfer[head.index]
      requires State().Handled(head.index) && asyncStatus == Running
      modifies head`status, this`pending, this`resubmitted, this`asyncStatus, this`whenCancelled, this`codes
      ensures Valid() && asyncStatus == if code >= 0 then Running else CancelRequest
      ensures State() == old(if code >= 0 then State().SubmittedAgain(head.index) else State().SubmitFailed(head.index))
      ensures r == code && codes == old(codes) + [r]
    {
      hide View.Sound, Linked, StatusList, LengthList;
      ghost var v := State();
      v.SubmittedAgainSound(head.index);
      v.SubmitFailedSound(head.index);
      head.status := Submitted;
      r := code;
      codes := codes + [r];
      if r < 0 {
        head.status := CompletedError;
        asyncStatus := CancelRequest;
        whenCancelled := resubmitted;
        NodeChanged(head);
        assert State() == v.SubmitFailed(head.index);
      } else {
        pending := pending + {head.index};
        resubmitted := resubmitted + 1;
        NodeChanged(head);
        assert State() == v.SubmittedAgain(head.index);
      }
    }

    /** Handle the completed transfers, those included that complete while the user's callback runs. */
    method Drain(script: seq<Handling>, r0: int) returns (lost: bool, r: int)
      requires Valid() && State().Ring() && r0 == Last(codes)
      modifies this, xfer
      ensures Valid() && State().Ring() && xfer == old(xfer) && devLost == old(devLost)
      ensures State().Advanced(old(State())) && queue == []
      ensures old(asyncStatus) != Inactive ==> asyncStatus != Inactive
      ensures lost ==> asyncStatus != Running
      ensures old(LossQueued()) ==> lost
      ensures old(queue != [] && queue[0].status == CompletedOk) && CancelCall in At(script, 0).events ==>
                asyncStatus != Running
      ensures Untroubled(script) ==> asyncStatus == old(asyncStatus)
      ensures r == Last(codes) && old(codes) <= codes
      ensures old(asyncStatus) != Running ==> codes == old(codes)
      ensures codes != old(codes) && r < 0 ==> asyncStatus != Running
      ensures Untroubled(script) && r0 >= 0 ==> r >= 0
    {
      hide View.Sound, View.Waited, View.Advanced, View.Ring, View.RingBut, Linked, StatusList, LengthList, Quiet;
      ghost var v := State();
      v.WaitedReflexive();
      lost, r := false, r0;
      var k := 0;
      while xferHead != null
        invariant Valid() && State().Ring() && xfer == old(xfer) && devLost == old(devLost) && State().Advanced(v)
        invariant v.async != Inactive ==> asyncStatus != Inactive
        invariant lost ==> asyncStatus != Running
        invariant k == 0 ==> State() == v
        invariant k > 0 && v.queue != [] && v.queue[0].status == CompletedOk && CancelCall in At(script, 0).events ==>
                    asyncStatus != Running
        invariant !lost ==> forall e :: e in v.queue && e.status == CompletedDevLost ==> e in queue
        invariant Untroubled(script) ==> asyncStatus == v.async
        invariant r == Last(codes) && old(codes) <= codes
        invariant v.async != Running ==> codes == old(codes) && asyncStatus != Running
        invariant codes != old(codes) && r < 0 ==> asyncStatus != Running
        invariant Untroubled(script) && r0 >= 0 ==> r >= 0
        decreases if k < |script| then |script| - k else 0, |queue|
      {
        QueueNotEmpty();
        ghost var top := State();
        AtQuiet(script, k);
        lost, r := HandleOne(At(script, k), lost, r);
        State().AdvancedTransitive(top, v);
        k := k + 1;
      }
      QueueNotEmpty();
    }

    /** The head of the list handled and, while the run goes on, resubmitted. */
    method HandleOne(h: Handling, lost0: bool, r0: int) returns (lost: bool, r: int)
      requires Valid() && State().Ring() && queue != [] && r0 == Last(codes) && (lost0 ==> asyncStatus != Running)
      modifies this, xfer
      ensures Valid() && State().Ring() && xfer == old(xfer) && devLost == old(devLost) &&
                State().Advanced(old(State()))
      ensures old(asyncStatus) != Inactive ==> asyncStatus != Inactive
      ensures lost <==> lost0 || old(queue)[0].status == CompletedDevLost
      ensures old(asyncStatus) != Running || lost ==> asyncStatus != Running
      ensures old(queue)[0].status == CompletedOk && CancelCall in h.events ==> asyncStatus != Running
      ensures h.events == [] ==> |queue| < |old(queue)|
      ensures forall e :: e in old(queue)[1..] ==> e in queue
      ensures r == Last(codes) && old(codes) <= codes && (old(asyncStatus) != Running ==> codes == old(codes))
      ensures codes != old(codes) && r < 0 ==> asyncStatus != Running
      ensures codes == old(codes) ==> r == r0
      ensures Quiet(h.events) && h.Accepted() ==> asyncStatus == old(asyncStatus) && (r0 >= 0 ==> r >= 0)
    {
      hide View.Sound, View.Waited, View.Advanced, View.Ring, View.RingBut, Linked, StatusList, LengthList, Quiet;
      ghost var v := State();
      QueueNotEmpty();
      var head, dead := HandleHead(h.events);
      State().AdvancedStopped(v);
      lost, r := lost0 || dead, r0;
      ghost var mid := State();
      if asyncStatus == Running && !lost {
        r := Resubmit(head, h.code);
        mid.Resubmitted(head.index, h.Accepted());
        State().AdvancedTransitive(mid, v);
      } else {
        mid.Stopped();
      }
    }

    lemma QueueNotEmpty()
      requires Valid()
      ensures xferHead != null <==> queue != []
    {}

    /** Take the head of the list and, if it succeeded, call back with the lock released. */
    method HandleHead(events: seq<Event>) returns (head: Xfer, dead: bool)
      requires Valid() && xferHead != null
      modifies this, xfer
      ensures Valid() && xfer == old(xfer) && devLost == old(devLost) && codes == old(codes)
      ensures State().Advanced(old(State()))
      ensures head.index < |xfer| && head == xfer[head.index] && State().Handled(head.index)
      ensures events == [] ==> |queue| < |old(queue)|
      ensures old(asyncStatus) != Inactive ==> asyncStatus != Inactive
      ensures old(State().Ring()) ==> State().RingBut(head.index)
      ensures dead <==> old(queue)[0].status == CompletedDevLost
      ensures dead ==> asyncStatus != Running
      ensures old(queue)[0].status == CompletedOk && CancelCall in events ==> asyncStatus != Running
      ensures forall e :: e in old(queue)[1..] ==> e in queue
      ensures Quiet(events) ==> asyncStatus == old(asyncStatus)
    {
      hide View.Sound, View.Waited, View.Advanced, View.Ring, View.RingBut, Linked, StatusList, LengthList, Quiet;
      ghost var v := State();
      QueueNotEmpty();
      v.PoppedSound();
      if v.Ring() {
        v.PoppedRing();
      }
      head := Pop();
      dead := head.status == CompletedDevLost;
      if head.status == CompletedOk {
        ghost var mid := State();
        Unlocked(events);
        State().WaitedAdvanced(mid);
        State().WaitedRing(mid);
        State().AdvancedTransitive(mid, v);
      }
    }

    /** Every transfer still submitted is cancelled. */
    method CancelSubmitted()
      requires Valid() && asyncStatus == CancelRequest
      modifies this`asyncStatus, xfer`status
      ensures Valid() && State() == old(State()).AllCancelled()
    {
      hide View.Sound, Linked, LengthList;
      ghost var v := State();
      v.AllCancelledSound();
      asyncStatus := Cancelling;
      for i := 0 to |xfer|
        invariant Nodes() && asyncStatus == Cancelling
        invariant forall j :: 0 <= j < |xfer| ==>
                    xfer[j].status == if j < i && v.status[j] == Submitted then BeingCancelled else v.status[j]
      {
        if xfer[i].status == Submitted {
          xfer[i].status := BeingCancelled;
        }
      }
      ghost var w := v.AllCancelled();
      assert StatusList() == w.status;
      assert State() == w;
    }

    /** The run is over when no transfer is left to cancel. */
    method CheckEnd()
      requires Valid() && asyncStatus == Cancelling && queue == []
      modifies this`asyncStatus
      ensures Valid() && State() == old(State()).EndChecked()
    {
      hide View.Sound, Linked, LengthList;
      ghost var v := State();
      v.EndCheckedSound();
      var next := Inactive;
      var i := 0;
      while i < |xfer|
        invariant 0 <= i <= |xfer|
        invariant next == Inactive && forall j :: 0 <= j < i ==> xfer[j].status != BeingCancelled
      {
        if xfer[i].status == BeingCancelled {
          next := Cancelling;
          assert v.status[i] == BeingCancelled;
          break;
        }
        i := i + 1;
      }
      asyncStatus := next;
      assert State() == v.EndChecked();
    }

    /** The end of a pass, with the lock held: a cancelled run ends exactly when libusb holds no transfer. */
    method FinishPass()
      requires Valid() && queue == [] && asyncStatus != Inactive
      modifies this`asyncStatus, xfer`status
      ensures Valid() && State().Advanced(old(State())) && queue == []
      ensures old(asyncStatus) == Running ==> State() == old(State())
      ensures old(asyncStatus) != Running ==>
                asyncStatus == (if pending == {} then Inactive else Cancelling) && pending == old(pending)
    {
      hide View.Sound, View.Advanced, Linked, LengthList, StatusList;
      ghost var v := State();
      v.WaitedReflexive();
      if asyncStatus == CancelRequest {
        v.AllCancelledSound();
        CancelSubmitted();
      }
      if asyncStatus == Cancelling {
        ghost var mid := State();
        mid.EndCheckedSound();
        CheckEnd();
        State().AdvancedTransitive(mid, v);
      }
    }

    /** A transfer was queued with the device lost. */
    ghost predicate LossQueued()
      reads this`queue
    {
      exists e :: e in queue && e.status == CompletedDevLost
    }

    /** One pass of the reader's loop, after the code r0. An interrupted wait ends the pass, a failed one the loop. In a
        cancelled run every useful pass leaves fewer, and once libusb holds no transfer the next is the last. */
    method Pass(p: Environment, r0: int) returns (r: int, broken: bool)
      requires Valid() && asyncStatus != Inactive && State().Ring() && State().Live() && r0 == Last(codes)
      modifies this, xfer
      ensures Valid() && xfer == old(xfer) && Passed(old(State()), p, State())
      ensures broken <==> old(State().Waits()) && p.code < 0 && p.code != -10
      ensures broken ==> r == p.code && asyncStatus != Inactive
      ensures r == Last(codes) && old(codes) + (if old(State().Waits()) then [p.code] else []) <= codes
      ensures old(asyncStatus) != Running ==> codes == old(codes) + if old(State().Waits()) then [p.code] else []
      ensures old(asyncStatus == Cancelling && State().Waits()) && p.code >= 0 &&
                SomeCalledBack(p.wait, old(pending)) ==>
                asyncStatus == Inactive || pending < old(pending)
      ensures old(asyncStatus == Cancelling && State().Waits()) && p.code >= 0 &&
                AllCalledBack(p.wait, old(pending)) ==>
                asyncStatus == Inactive
      ensures old(asyncStatus != Running && pending == {}) && (old(State().Waits()) ==> p.code >= 0) ==>
                asyncStatus == Inactive
      ensures old(State().Waits()) && CancelCall in p.wait ==> asyncStatus != Running
      ensures p.Peaceful() && old(asyncStatus) == Running && r0 >= 0 ==> asyncStatus == Running && r >= 0
      ensures old(LossQueued()) ==> devLost
    {
      hide View.Sound, View.Waited, View.Advanced, View.Ring, View.RingBut, View.Live, View.PassesLeft;
      hide Linked, LengthList, StatusList, Quiet, Untroubled, CalledBack;
      ghost var v := State();
      v.WaitedReflexive();
      QueueNotEmpty();
      r, broken := r0, false;
      if xferHead == null && asyncStatus != CancelRequest {
        Unlocked(p.wait);
        r := p.code;
        codes := codes + [r];
        State().WaitedAdvanced(v);
        State().WaitedRing(v);
        if v.async != Running {
          State().WaitedPending(v);
        }
        if r < 0 {
          State().RunningLive();
          broken := r != LIBUSB_ERROR_INTERRUPTED;
          return;
        }
      }
      ghost var woken := State();
      r := HandleCompleted(p.script, p.afterwards, r);
      State().AdvancedTransitive(woken, v);
      if v.async != Running {
        State().Productive(v, woken.pending);
      }
    }

    /** A pass from where the reader is awake: handle what has completed, act on a cancel, note a lost device. */
    method HandleCompleted(script: seq<Handling>, afterwards: seq<Event>, r0: int) returns (r: int)
      requires Valid() && asyncStatus != Inactive && State().Ring() && r0 == Last(codes)
      modifies this, xfer
      ensures Valid() && State().Ring() && State().Live() && xfer == old(xfer) && State().Advanced(old(State()))
      ensures old(asyncStatus) != Running ==> State().PassesLeft() <= 2 * |old(pending)| && pending <= old(pending)
      ensures old(asyncStatus != Running && pending == {}) ==> asyncStatus == Inactive
      ensures asyncStatus == Running ==> queue == [] && old(asyncStatus) == Running
      ensures Untroubled(script) && old(asyncStatus) == Running ==> asyncStatus == Running
      ensures r == Last(codes) && old(codes) <= codes && (old(asyncStatus) != Running ==> codes == old(codes))
      ensures Untroubled(script) && r0 >= 0 ==> r >= 0
      ensures old(LossQueued()) ==> devLost
    {
      hide View.Sound, View.Waited, View.Advanced, View.Ring, View.Live, View.PassesLeft;
      hide Linked, LengthList, StatusList, Quiet, Untroubled;
      ghost var v := State();
      var lost;
      lost, r := Drain(script, r0);
      ghost var drained := State();
      if v.async != Running {
        drained.AdvancedIdle(v);
        Pigeonhole.SubsetSmaller(drained.pending, v.pending);
      }
      FinishPass();
      State().AdvancedTransitive(drained, v);
      ghost var finished := State();
      finished.Finished();
      if v.async != Running {
        finished.HandledPassesLeft();
      }
      if lost {
        Unlocked(afterwards);
        State().WaitedAdvanced(finished);
        State().AdvancedTransitive(finished, v);
        State().WaitedPending(finished);
        devLost := true;
      }
    }

    constructor ()
      ensures Valid() && asyncStatus == Inactive && !devLost && xfer == [] && xferErrors == 0
    {
      xfer, asyncStatus, xferHead, xferTail, xferErrors, devLost := [], Inactive, null, null, 0, false;
      queue, pending, successes, deliveries, resubmitted, whenCancelled, codes := [], {}, [], [], 0, 0, [];
    }

    static method NewTransfers(n: nat) returns (nodes: seq<Xfer>)
      ensures |nodes| == n && fresh(nodes)
      ensures forall j :: 0 <= j < n ==> nodes[j].index == j && nodes[j].status == Idle
    {
      nodes := [];
      for i := 0 to n
        invariant |nodes| == i && fresh(nodes)
        invariant forall j :: 0 <= j < i ==> nodes[j].index == j && nodes[j].status == Idle
      {
        var x := new Xfer(i);
        nodes := nodes + [x];
      }
    }

    /** The transfers of a new run, not yet submitted. */
    method AllocAsyncBuffers(n: nat)
      requires Valid() && xfer == [] && pending == {} && queue == []
      modifies this
      ensures Nodes() && Linked() && State().Fresh(n) && fresh(xfer) && devLost == old(devLost) && codes == []
      ensures xferErrors == old(xferErrors)
    {
      var nodes := NewTransfers(n);
      xfer := nodes;
      asyncStatus := Running;
      successes, deliveries, codes := [], [], [];
    }

    /** Hand every transfer to libusb, up to the first it refuses; other threads run in between. */
    method SubmitAll(script: seq<Handling>) returns (r: int, ghost submitted: nat)
      requires Nodes() && Linked() && State().Fresh(|xfer|) && codes == []
      modifies this, xfer
      ensures Valid() && xfer == old(xfer) && devLost == old(devLost) && asyncStatus in {Running, CancelRequest}
      ensures submitted <= |xfer| && State().SubmittedUpTo(submitted) && State().Ring()
      ensures forall k: nat :: k < submitted ==> At(script, k).Accepted()
      ensures submitted < |xfer| ==> !At(script, submitted).Accepted() && asyncStatus == CancelRequest
      ensures r == Last(codes) && |codes| == if submitted < |xfer| then submitted + 1 else submitted
      ensures forall k: nat :: k < |codes| ==> codes[k] == At(script, k).code
      ensures submitted == 0 < |xfer| ==> pending == {} && queue == []
      ensures Untroubled(script) ==> asyncStatus == Running
    {
      hide View.Sound, View.Waited, View.SubmittedUpTo, View.Fresh, View.Handled, View.Ring, Linked, LengthList,
           StatusList;
      hide Quiet;
      State().FreshSound(|xfer|);
      r := 0;
      var i := 0;
      while i < |xfer|
        invariant 0 <= i <= |xfer|
        invariant Valid() && xfer == old(xfer) && devLost == old(devLost) && asyncStatus in {Running, CancelRequest}
        invariant State().SubmittedUpTo(i) && forall k: nat :: k < i ==> At(script, k).Accepted()
        invariant r == Last(codes) && |codes| == i && forall k: nat :: k < i ==> codes[k] == At(script, k).code
        invariant i == 0 ==> pending == {} && queue == []
        invariant Untroubled(script) ==> asyncStatus == Running
      {
        r := SubmitOne(i, At(script, i).code);
        if r < 0 {
          State().Stopped();
          return r, i;
        }
        ghost var mid := State();
        Unlocked(At(script, i).events);
        i := i + 1;
        State().WaitedAdvanced(mid);
        State().SubmittedKept(mid, i);
      }
      StatusLength();
      State().AllSubmitted();
      return r, i;
    }

    lemma StatusLength()
      ensures |State().status| == |xfer|
    {}

    method SubmitOne(i: nat, code: int) returns (r: int)
      requires Valid() && i < |xfer| && State().SubmittedUpTo(i) && asyncStatus in {Running, CancelRequest}
      modifies this`pending, this`asyncStatus, this`whenCancelled, this`codes, xfer`status
      ensures Valid() && asyncStatus == if code >= 0 then old(asyncStatus) else CancelRequest
      ensures State() == old(if code >= 0 then State().SubmittedFirst(i) else State().SubmitFailed(i))
      ensures State().SubmittedUpTo(if code >= 0 then i + 1 else i)
      ensures r == code && codes == old(codes) + [r]
    {
      hide View.Sound, View.SubmittedUpTo, View.Handled, Linked, LengthList, StatusList;
      ghost var v := State();
      StatusLength();
      v.NextSubmitted(i);
      v.SubmittedFirstSound(i);
      v.SubmitFailedSound(i);
      xfer[i].status := Submitted;
      r := code;
      codes := codes + [r];
      if r < 0 {
        xfer[i].status := CompletedError;
        if asyncStatus == Running {
          whenCancelled := resubmitted;
        }
        asyncStatus := CancelRequest;
        NodeChanged(xfer[i]);
        assert State() == v.SubmitFailed(i);
      } else {
        pending := pending + {i};
        NodeChanged(xfer[i]);
        assert State() == v.SubmittedFirst(i);
      }
    }

    /** Freeing the buffers leaves a valid device exactly when libusb holds none of them and none is queued. */
    method FreeAsyncBuffers()
      requires Valid()
      modifies this`xfer
      ensures xfer == [] && (Valid() <==> pending == {} && queue == [])
    {
      xfer := [];
    }

    /** The reader's loop, for as many passes as are given or until a wait fails. */
    method RunPasses(passes: seq<Environment>, r0: int) returns (r: int, broken: bool, ghost trace: seq<View>)
      requires Valid() && asyncStatus != Inactive && State().Ring() && State().Live() && r0 == Last(codes)
      modifies this, xfer
      ensures Valid() && State().Ring() && State().Live() && xfer == old(xfer)
      ensures Chain(trace, passes, |xfer|) && trace[0] == old(State()) && trace[|trace| - 1] == State()
      ensures UsefulPasses(trace, passes) > 2 * |xfer| ==> asyncStatus == Inactive
      ensures !broken ==> Complete(trace, passes)
      ensures broken ==> FailedWait(trace, passes, r) && r < 0 && asyncStatus != Inactive
      ensures r == Last(codes) && old(codes) <= codes
      ensures old(asyncStatus == CancelRequest && pending == {}) && passes != [] ==> asyncStatus == Inactive && r == r0
      ensures old(asyncStatus) == Running && r0 >= 0 && (forall p :: p in passes ==> p.Peaceful()) ==>
                asyncStatus == Running && r >= 0
    {
      hide View.Sound, View.Advanced, View.Ring, View.Live, View.PassesLeft, Linked, LengthList, StatusList;
      hide Environment.Peaceful, Passed, UsefulPasses, Chain;
      ChainStart(passes);
      r, broken := r0, false;
      trace := [State()];
      StatusLength();
      var p := 0;
      while asyncStatus != Inactive && p < |passes| && !broken
        invariant 0 <= p <= |passes| && Valid() && State().Ring() && State().Live() && xfer == old(xfer)
        invariant |trace| == p + 1 && trace[0] == old(State()) && trace[p] == State() && Chain(trace, passes, |xfer|)
        invariant r == Last(codes) && old(codes) <= codes
        invariant broken ==> FailedWait(trace, passes, r) && r < 0 && asyncStatus != Inactive
        invariant old(asyncStatus == CancelRequest && pending == {}) ==>
                    r == r0 && !broken && if p == 0 then State() == old(State()) else asyncStatus == Inactive
        invariant old(asyncStatus) == Running && r0 >= 0 && (forall q :: q in passes ==> q.Peaceful()) ==>
                    asyncStatus == Running && r >= 0
      {
        r, broken := Pass(passes[p], r);
        PassedParts(trace[p], passes[p], State());
        LongerChain(trace, passes, |xfer|, State());
        trace := trace + [State()];
        p := p + 1;
      }
      CancelledRunEnds(trace, passes, |xfer|);
    }

    lemma ChainStart(passes: seq<Environment>)
      requires Valid() && State().Live()
      ensures Chain([State()], passes, |xfer|)
    {
      hide Linked, View.Sound, View.Live;
      StatusLength();
    }

    lemma PassedParts(v: View, p: Environment, w: View)
      requires Passed(v, p, w)
      ensures w.Ring() && w.Live()
    {}

    static function Transfers(bufNum: nat): (n: nat)
      ensures n > 0 && (n == bufNum || (bufNum == 0 && n == 15))
    {
      if bufNum > 0 then bufNum else DEFAULT_BUF_NUMBER
    }

    /** rtlsdr_read_async, for as many passes as the environment is given for. A run that has started returns the last
        code of libusb. Once cancelled, whatever asked for it, it ends within 2n + 1 useful passes, with every
        success delivered and nothing outstanding. A failed wait ends it at once; the device is then valid exactly when
        nothing was outstanding. */
    method ReadAsync(bufNum: nat, granted: bool, submitting: seq<Handling>, passes: seq<Environment>)
      returns (r: int, started: bool, ended: bool, broken: bool, ghost trace: seq<View>)
      requires Valid() && (asyncStatus == Inactive ==> xfer == [])
      modifies this, xfer
      ensures started <==> !old(devLost) && old(asyncStatus) == Inactive && granted
      ensures old(devLost) ==> r == -1 && State() == old(State())
      ensures !old(devLost) && old(asyncStatus) != Inactive ==> r == -2 && State() == old(State())
      ensures !old(devLost) && old(asyncStatus) == Inactive && !granted ==> r == -12 && asyncStatus == Running
      ensures !started ==> !ended && !broken
      ensures !broken ==> Valid() && (started ==> ended == (asyncStatus == Inactive))
      ensures broken ==> asyncStatus == Inactive && (Valid() <==> pending == {} && queue == [])
      ensures broken ==> FailedWait(trace, passes, r)
      ensures started ==> r == Last(codes)
      ensures ended && !broken ==> xfer == [] && pending == {} && deliveries == successes
      ensures started && !ended && !broken ==> |xfer| == Transfers(bufNum) && State().Ring()
      ensures started ==> Chain(trace, passes, Transfers(bufNum)) && (!broken ==> Complete(trace, passes))
      ensures started && !ended && !broken ==> trace[|trace| - 1] == State()
      ensures ended && !broken ==> trace[|trace| - 1].async == Inactive
      ensures started && UsefulPasses(trace, passes) > 2 * Transfers(bufNum) ==> ended && !broken
      ensures forall c: nat ::
                started && CancelAsked(passes, c) && EnoughFull(passes, c + 2, Transfers(bufNum)) ==> ended || broken
      ensures started && !At(submitting, 0).Accepted() && passes != [] ==>
                ended && !broken && r == At(submitting, 0).code
      ensures started && Untroubled(submitting) && (forall p :: p in passes ==> p.Peaceful()) ==>
                !ended && !broken && r >= 0
    {
      hide Chain, UsefulPasses, FailedWait, Complete, CancelAsked, EnoughFull, View.Fresh, View.Ring, View.PassesLeft;
      hide Environment.Peaceful;
      r, started, ended, broken, trace := 0, false, false, false, [];
      if devLost {
        r := -1;
        return;
      }
      if asyncStatus != Inactive {
        r := -2;
        return;
      }
      NothingPending();
      asyncStatus := Running;
      if !granted {
        r := -ENOMEM;
        return;
      }
      started := true;
      AllocAsyncBuffers(Transfers(bufNum));
      r, ended, broken, trace := RunStarted(submitting, passes);
    }

    /** The run proper: submit, loop, and free the buffers. */
    method RunStarted(submitting: seq<Handling>, passes: seq<Environment>)
      returns (r: int, ended: bool, broken: bool, ghost trace: seq<View>)
      requires Nodes() && Linked() && State().Fresh(|xfer|) && codes == [] && |xfer| > 0
      modifies this, xfer
      ensures !broken ==> Valid() && ended == (asyncStatus == Inactive)
      ensures broken ==> !ended && asyncStatus == Inactive && (Valid() <==> pending == {} && queue == [])
      ensures broken ==> FailedWait(trace, passes, r)
      ensures r == Last(codes)
      ensures ended ==> xfer == [] && pending == {} && deliveries == successes
      ensures !ended && !broken ==> xfer == old(xfer) && State().Ring()
      ensures Chain(trace, passes, old(|xfer|)) && (!broken ==> Complete(trace, passes))
      ensures !ended && !broken ==> trace[|trace| - 1] == State()
      ensures ended ==> trace[|trace| - 1].async == Inactive
      ensures UsefulPasses(trace, passes) > 2 * old(|xfer|) ==> ended
      ensures forall c: nat :: CancelAsked(passes, c) && EnoughFull(passes, c + 2, old(|xfer|)) ==> ended || broken
      ensures !At(submitting, 0).Accepted() && passes != [] ==> ended && r == At(submitting, 0).code
      ensures Untroubled(submitting) && (forall p :: p in passes ==> p.Peaceful()) ==> !ended && !broken && r >= 0
    {
      hide View.Sound, View.Advanced, View.Fresh, View.Ring, View.PassesLeft, Linked, LengthList, StatusList;
      hide Environment.Peaceful, UsefulPasses, Chain, FailedWait, Complete, CancelAsked, EnoughFull;
      ghost var n := |xfer|;
      ghost var submitted;
      r, submitted := SubmitAll(submitting);
      State().RunningLive();
      r, broken, trace := RunPasses(passes, r);
      ended := asyncStatus == Inactive;
      forall c: nat | CancelAsked(passes, c) && EnoughFull(passes, c + 2, n) && !broken
        ensures ended
      {
        EnoughFullEnds(trace, passes, n, c);
      }
      if ended {
        State().EndedRunDelivered();
        NothingPending();
        FreeAsyncBuffers();
      } else if broken {
        FreeAsyncBuffers();
        GiveUp();
      }
    }

    /** The status in the end, whatever it was. */
    method GiveUp()
      requires xfer == [] && (Valid() <==> pending == {} && queue == [])
      modifies this`asyncStatus, this`whenCancelled
      ensures asyncStatus == Inactive && (Valid() <==> pending == {} && queue == [])
    {
      asyncStatus, whenCancelled := Inactive, resubmitted;
    }

    lemma NothingPending()
      requires Valid() && asyncStatus == Inactive
      ensures pending == {} && queue == []
    {}
  }
}
