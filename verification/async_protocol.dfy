/** The life cycle of asynchronous bulk transfers, as transitions on the state the lock protects. */
module AsyncProtocol {
  import Pigeonhole

  datatype XferStatus = Idle | Submitted | BeingCancelled | CompletedOk | CompletedError | CompletedDevLost

  function Cancelled(s: XferStatus): XferStatus {
    if s == Submitted then BeingCancelled else s
  }

  datatype AsyncStatus = Inactive | CancelRequest | Cancelling | Running

  datatype UsbStatus = UsbCompleted | UsbError | UsbTimedOut | UsbCancelled | UsbStall | UsbNoDevice | UsbOverflow

  /** A completed transfer waiting in the queue. */
  datatype Entry = Entry(i: nat, status: XferStatus, length: nat)

  datatype Delivery = Delivery(i: nat, length: nat)

  /** The successful ones among queued transfers, in order. */
  function Undelivered(queue: seq<Entry>): (d: seq<Delivery>) {
    if queue == [] then []
    else Reported(queue[0]) + Undelivered(queue[1..])
  }

  function Reported(e: Entry): (d: seq<Delivery>) {
    if e.status == CompletedOk then [Delivery(e.i, e.length)] else []
  }

  lemma {:induction false} UndeliveredAppend(queue: seq<Entry>, e: Entry)
    ensures Undelivered(queue + [e]) == Undelivered(queue) + Reported(e)
  {
    if queue == [] {
      assert queue + [e] == [e];
    } else {
      assert (queue + [e])[1..] == queue[1..] + [e];
      UndeliveredAppend(queue[1..], e);
    }
  }

  /** The length of the current run of errors after a completion. */
  function ErrorsAfter(usb: UsbStatus, errors: nat): (r: nat)
    ensures r <= errors + 1 && (r > errors <==> usb == UsbError)
    ensures r < errors ==> r == 0 && usb == UsbCompleted
  {
    if usb == UsbCompleted then 0 else if usb == UsbError then errors + 1 else errors
  }

  /** What a completion makes of a transfer: a run of errors as long as there are transfers means the device is gone. */
  function Outcome(was: XferStatus, usb: UsbStatus, errors: nat, transfers: nat): (s: XferStatus)
    ensures s == CompletedOk <==> usb == UsbCompleted
    ensures s == CompletedDevLost <==>
              && !(usb == UsbCancelled && was == BeingCancelled) && usb != UsbCompleted
              && (usb == UsbNoDevice || ErrorsAfter(usb, errors) >= transfers)
    ensures s in {CompletedOk, CompletedError, CompletedDevLost}
  {
    if usb == UsbCompleted then CompletedOk
    else if usb == UsbCancelled && was == BeingCancelled then CompletedError
    else if usb == UsbNoDevice || ErrorsAfter(usb, errors) >= transfers then CompletedDevLost
    else CompletedError
  }

  /** The count of errors after completions with the given codes. */
  function ErrorsOver(codes: seq<UsbStatus>): nat {
    if codes == [] then 0 else ErrorsAfter(codes[|codes| - 1], ErrorsOver(codes[..|codes| - 1]))
  }

  /** From completion k on none succeeded, and n failed with an error. */
  ghost predicate RunOfErrors(codes: seq<UsbStatus>, k: nat, n: nat) {
    k <= |codes| && UsbCompleted !in codes[k..] && multiset(codes[k..])[UsbError] >= n
  }

  /** The count reaches n exactly when the last completions are a run of n errors without a success between. */
  lemma {:induction false} ErrorsOverIsRun(codes: seq<UsbStatus>, n: nat)
    ensures ErrorsOver(codes) >= n <==> exists k: nat :: RunOfErrors(codes, k, n)
  {
    if codes == [] {
      assert n == 0 ==> RunOfErrors(codes, 0, n);
    } else {
      var last := |codes| - 1;
      var m := if codes[last] == UsbError && n > 0 then n - 1 else n;
      ErrorsOverIsRun(codes[..last], m);
      if n == 0 {
        assert RunOfErrors(codes, |codes|, n);
      } else {
        forall k: nat | k <= last
          ensures codes[last] != UsbCompleted ==> (RunOfErrors(codes, k, n) <==> RunOfErrors(codes[..last], k, m))
          ensures codes[last] == UsbCompleted ==> !RunOfErrors(codes, k, n)
        {
          assert codes[k..] == codes[..last][k..] + [codes[last]];
        }
        assert !RunOfErrors(codes, |codes|, n);
      }
    }
  }

  /** So a device is given up for the code that says it is gone or at the end of a run of as many errors as there are
      transfers, and for nothing else. */
  lemma LostIffRun(was: XferStatus, codes: seq<UsbStatus>, transfers: nat)
    requires codes != []
    ensures var usb, before := codes[|codes| - 1], codes[..|codes| - 1];
            Outcome(was, usb, ErrorsOver(before), transfers) == CompletedDevLost <==>
              && usb != UsbCompleted && !(usb == UsbCancelled && was == BeingCancelled)
              && (usb == UsbNoDevice || exists k: nat :: RunOfErrors(codes, k, transfers))
  {
    ErrorsOverIsRun(codes, transfers);
  }

  datatype View = View(
    status: seq<XferStatus>,
    length: seq<nat>,
    async: AsyncStatus,
    queue: seq<Entry>,          // completed, not yet handled
    pending: set<nat>,          // with libusb
    successes: seq<Delivery>,   // successful completions, in order of time
    deliveries: seq<Delivery>,  // calls of the user's callback, in order of time
    resubmitted: nat,           // resubmissions so far
    whenCancelled: nat          // resubmissions when a cancel was first requested
  ) {

    predicate InRange() {
      && |status| == |length|
      && (forall i :: i in pending ==> i < |status|)
      && (forall k :: 0 <= k < |queue| ==> queue[k].i < |status|)
    }

    /** A transfer is with libusb exactly when its status says so. */
    predicate Tracked()
      requires InRange()
    {
      forall i :: 0 <= i < |status| ==> (i in pending <==> status[i] in {Submitted, BeingCancelled})
    }

    /** Queued transfers carry their outcome, and none is queued twice. */
    predicate QueueSound()
      requires InRange()
    {
      && (forall k :: 0 <= k < |queue| ==> EntrySound(queue[k]))
      && (forall k, l :: 0 <= k < l < |queue| ==> queue[k].i != queue[l].i)
    }

    predicate EntrySound(e: Entry)
      requires InRange() && e.i < |status|
    {
      && e.status in {CompletedOk, CompletedError, CompletedDevLost} && status[e.i] == e.status
      && (e.status == CompletedOk ==> length[e.i] == e.length)
    }

    /** Cancelling catches every transfer, and a run ends with none outstanding. */
    predicate CancelSound() {
      && (async == Cancelling ==> Submitted !in status)
      && (async in {Running, CancelRequest} ==> BeingCancelled !in status)
      && (async == Inactive ==> pending == {} && queue == [])
    }

    /** Every success is delivered once and in order, and nothing is resubmitted after a cancel request. */
    predicate DeliverySound() {
      && deliveries + Undelivered(queue) == successes
      && (async != Running ==> resubmitted == whenCancelled)
    }

    /** A transfer queued with the device lost has stopped the run. */
    predicate LossNoticed() {
      async == Running ==> forall k :: 0 <= k < |queue| ==> queue[k].status != CompletedDevLost
    }

    predicate SoundButLoss() {
      InRange() && Tracked() && QueueSound() && CancelSound() && DeliverySound()
    }

    predicate Sound() {
      SoundButLoss() && LossNoticed()
    }

    /** Neither queued nor with libusb: the transfer the reader is handling. */
    predicate Handled(i: nat) {
      i < |status| && i !in pending && forall k :: 0 <= k < |queue| ==> queue[k].i != i
    }

    /** While the run goes on every transfer is with libusb or completed: none is lost from the ring. */
    ghost predicate Ring() {
      async == Running ==> forall i: nat :: i < |status| ==> !Handled(i)
    }

    /** The same while the reader handles transfer i. */
    ghost predicate RingBut(i: nat) {
      async == Running ==> forall j: nat :: j < |status| && j != i ==> !Handled(j)
    }

    /** A run still being cancelled waits for something. */
    predicate Live() {
      async == Cancelling ==> pending != {} || queue != []
    }

    /** The reader waits for libusb in its next pass: nothing is left to handle, and no cancel to act on. */
    predicate Waits() {
      queue == [] && async != CancelRequest
    }

    /** A bound on the productive passes a cancelled run still takes. */
    function PassesLeft(): nat {
      2 * |pending| + if Waits() then 0 else 1
    }

    function WithCancelRequest(): View {
      if async == Running then this.(async := CancelRequest, whenCancelled := resubmitted) else this
    }

    /** libusb's callback for transfer i. */
    function Completed(i: nat, outcome: XferStatus, n: nat): View
      requires InRange() && i < |status|
    {
      var v := Appended(i, outcome, n);
      if outcome == CompletedDevLost then v.WithCancelRequest() else v
    }

    /** A state with the fields of a completion is the completed state. */
    lemma IsCompleted(i: nat, outcome: XferStatus, n: nat, w: View)
      requires InRange() && i < |status|
      requires w.status == status[i := outcome] &&
                w.length == (if outcome == CompletedOk then length[i := n] else length)
      requires w.queue == queue + [Entry(i, outcome, n)] && w.pending == pending - {i}
      requires w.successes == successes + Reported(Entry(i, outcome, n)) && w.deliveries == deliveries &&
                w.resubmitted == resubmitted
      requires outcome == CompletedDevLost && async == Running ==>
                 w.async == CancelRequest && w.whenCancelled == resubmitted
      requires outcome != CompletedDevLost || async != Running ==>
                 w.async == async && w.whenCancelled == whenCancelled
      ensures w == Completed(i, outcome, n)
    {}

    function Appended(i: nat, outcome: XferStatus, n: nat): View
      requires InRange() && i < |status|
    {
      var e := Entry(i, outcome, n);
      this.(status := status[i := outcome], queue := queue + [e], pending := pending - {i},
            successes := successes + Reported(e), length := if outcome == CompletedOk then length[i := n] else length)
    }

    /** Taking the head of the queue, and calling the user's callback if it succeeded. */
    function Popped(): View
      requires queue != []
    {
      this.(queue := queue[1..], deliveries := deliveries + Reported(queue[0]))
    }

    function SubmittedAgain(i: nat): View
      requires i < |status|
    {
      this.(status := status[i := Submitted], pending := pending + {i}, resubmitted := resubmitted + 1)
    }

    function SubmittedFirst(i: nat): View
      requires i < |status|
    {
      this.(status := status[i := Submitted], pending := pending + {i})
    }

    function SubmitFailed(i: nat): View
      requires i < |status|
    {
      this.(status := status[i := CompletedError]).WithCancelRequest()
    }

    /** Acting on a cancel request: every submitted transfer is being cancelled. */
    function AllCancelled(): View {
      this.(status := seq(|status|, i requires 0 <= i < |status| => Cancelled(status[i])), async := Cancelling)
    }

    /** Ending the run once no transfer is being cancelled. */
    function EndChecked(): View {
      this.(async := if BeingCancelled in status then Cancelling else Inactive)
    }

    /** What other threads can do while the reader waits: completions join the queue, a cancel may be requested. */
    ghost predicate Waited(before: View) {
      && |status| == |before.status|
      && before.queue <= queue && before.successes <= successes && deliveries == before.deliveries
      && pending <= before.pending && resubmitted == before.resubmitted
      && (async == before.async || (before.async == Running && async == CancelRequest))
      && |queue| + |pending| == |before.queue| + |before.pending|
      && (forall i: nat :: before.Handled(i) <==> Handled(i))
    }

    lemma WaitedTransitive(mid: View, before: View)
      requires Waited(mid) && mid.Waited(before)
      ensures Waited(before)
    {}

    /** What a stretch of the run can do: successes and deliveries grow, and once a cancel is requested
        libusb only hands transfers back. */
    ghost predicate Advanced(before: View) {
      && |status| == |before.status|
      && before.successes <= successes && before.deliveries <= deliveries
      && (before.async != Running ==>
          pending <= before.pending && resubmitted == before.resubmitted && async != Running)
    }

    lemma AdvancedTransitive(mid: View, before: View)
      requires Advanced(mid) && mid.Advanced(before)
      ensures Advanced(before)
    {}

    lemma WaitedReflexive()
      ensures Waited(this) && WithCancelRequest().Waited(this) && Advanced(this)
    {}

    lemma WaitedAdvanced(before: View)
      requires Waited(before)
      ensures Advanced(before) && forall i: nat :: before.Handled(i) <==> Handled(i)
      ensures async == before.async || (before.async == Running && async == CancelRequest)
      ensures pending <= before.pending && |status| == |before.status| && before.queue <= queue
    {}

    /** Waiting brings the end of a cancelled run no further away, and nearer if a transfer was called back. */
    lemma WaitedPassesLeft(before: View)
      requires Waited(before) && before.Sound() && before.async != Running
      ensures PassesLeft() <= before.PassesLeft() && (before.Live() ==> Live())
    {
      Pigeonhole.SubsetSmaller(pending, before.pending);
    }

    lemma PendingBound()
      requires Sound()
      ensures |pending| <= |status| && PassesLeft() <= 2 * |status| + 1
    {
      Pigeonhole.BelowSize(pending, |status|);
    }

    /** With everything handled, each transfer libusb still holds accounts for two passes. */
    lemma HandledPassesLeft()
      requires queue == [] && async in {Cancelling, Inactive}
      ensures PassesLeft() == 2 * |pending|
    {}

    /** With no more than that left, a pass that did not wait or that saw a transfer called back was productive. */
    lemma Productive(before: View, pending': set<nat>)
      requires pending' <= before.pending
      requires PassesLeft() <= 2 * |pending'|
      ensures PassesLeft() <= before.PassesLeft()
      ensures before.queue != [] || before.async == CancelRequest || pending' != before.pending ==>
                PassesLeft() < before.PassesLeft()
    {
      Pigeonhole.SubsetSmaller(pending', before.pending);
      if pending' != before.pending {
        var i :| i in before.pending && i !in pending';
        Pigeonhole.SubsetSmaller(pending', before.pending - {i});
      }
    }

    /** The same of a state reached while others went on. */
    lemma WaitedPending(before: View)
      requires Waited(before) && before.Sound() && before.async != Running
      ensures Ring() && pending <= before.pending && PassesLeft() <= before.PassesLeft() && (before.Live() ==> Live())
    {
      WaitedPassesLeft(before);
    }

    lemma RunningLive()
      ensures async in {Running, CancelRequest} ==> Live()
    {}

    /** After a pass the run is going on, has ended, or still has transfers to cancel. */
    lemma Finished()
      requires async in {Running, Inactive} || (async == Cancelling && pending != {})
      ensures Live() && (async != Running ==> Ring())
    {}

    /** In a run that has been cancelled but has not ended, some pass is left. */
    lemma NotEnded()
      requires Live() && async in {CancelRequest, Cancelling}
      ensures PassesLeft() > 0
    {}

    lemma WaitedRing(before: View)
      requires Waited(before)
      ensures before.Ring() ==> Ring()
      ensures forall i :: before.RingBut(i) ==> RingBut(i)
    {}

    lemma AdvancedIdle(before: View)
      requires Advanced(before) && before.async != Running
      ensures async != Running && pending <= before.pending && resubmitted == before.resubmitted
    {}

    lemma AdvancedStopped(before: View)
      requires Advanced(before)
      ensures before.async != Running ==> async != Running
    {}

    lemma CompletedWaited(i: nat, outcome: XferStatus, n: nat)
      requires Sound() && i in pending
      ensures Completed(i, outcome, n).Waited(this)
    {
      var v := Completed(i, outcome, n);
      assert v.queue[|queue|].i == i;
      forall j: nat
        ensures Handled(j) <==> v.Handled(j)
      {
        assert forall k :: 0 <= k < |queue| ==> v.queue[k] == queue[k];
      }
    }

    /** The state a run starts from: n transfers, none of them submitted. */
    ghost predicate Fresh(n: nat) {
      && |status| == |length| == n && (forall i :: 0 <= i < n ==> status[i] == Idle)
      && async == Running && queue == [] && pending == {} && successes == [] && deliveries == []
    }

    lemma FreshSound(n: nat)
      requires Fresh(n)
      ensures Sound() && async == Running && SubmittedUpTo(0) && pending == {} && queue == []
    {}

    /** Exactly the transfers before the i-th have been handed to libusb. */
    ghost predicate SubmittedUpTo(i: nat) {
      forall j: nat :: j < |status| ==> (Handled(j) <==> j >= i)
    }

    lemma SubmittedKept(before: View, i: nat)
      requires Waited(before) && before.SubmittedUpTo(i)
      ensures SubmittedUpTo(i)
    {}

    lemma NextSubmitted(i: nat)
      requires Sound() && i < |status| && SubmittedUpTo(i)
      ensures Handled(i) && SubmittedFirst(i).SubmittedUpTo(i + 1) && SubmitFailed(i).SubmittedUpTo(i)
    {
      var v, w := SubmittedFirst(i), SubmitFailed(i);
      forall j: nat | j < |status|
        ensures v.Handled(j) <==> j >= i + 1
        ensures w.Handled(j) <==> j >= i
      {
        assert Handled(j) <==> j >= i;
      }
    }

    /** With every transfer submitted the ring is complete. */
    lemma AllSubmitted()
      requires SubmittedUpTo(|status|)
      ensures Ring()
    {}

    /** An ended run has delivered every success. */
    lemma EndedRunDelivered()
      requires Sound() && async == Inactive
      ensures pending == {} && deliveries == successes
    {}

    lemma CancelRequested()
      requires Sound()
      ensures WithCancelRequest().Sound()
    {
      CancelRequestSound();
    }

    lemma CancelRequestSound()
      requires SoundButLoss()
      ensures WithCancelRequest().Sound()
    {}

    lemma CompletedSound(i: nat, outcome: XferStatus, n: nat)
      requires Sound() && i in pending && outcome in {CompletedOk, CompletedError, CompletedDevLost}
      ensures InRange() && i < |status| && Completed(i, outcome, n).Sound()
      ensures Completed(i, outcome, n).pending == pending - {i} && |Completed(i, outcome, n).pending| == |pending| - 1
    {
      var v := Appended(i, outcome, n);
      UndeliveredAppend(queue, Entry(i, outcome, n));
      assert v.QueueSound() by { AppendedQueue(i, outcome, n); }
      assert outcome != CompletedDevLost ==> v.LossNoticed();
      hide Reported, Undelivered, QueueSound, LossNoticed;
      assert v.SoundButLoss();
      v.CancelRequestSound();
      hide SoundButLoss;
    }

    lemma AppendedQueue(i: nat, outcome: XferStatus, n: nat)
      requires Sound() && i in pending && outcome in {CompletedOk, CompletedError, CompletedDevLost}
      ensures Appended(i, outcome, n).InRange() && Appended(i, outcome, n).QueueSound()
    {
      hide Reported, Undelivered;
      var v := Appended(i, outcome, n);
      forall k | 0 <= k < |v.queue|
        ensures v.EntrySound(v.queue[k])
      {
        if k < |queue| {
          assert EntrySound(queue[k]);
        }
      }
    }

    lemma PoppedSound()
      requires Sound() && queue != []
      ensures Popped().Sound() && Popped().Handled(queue[0].i) && Popped().Advanced(this)
      ensures queue[0].status == CompletedDevLost ==> async != Running
    {}

    lemma PoppedRing()
      requires Ring() && queue != []
      ensures Popped().RingBut(queue[0].i)
    {
      forall j: nat | j < |status| && j != queue[0].i && !Handled(j)
        ensures !Popped().Handled(j)
      {
        if j !in pending {
          var k :| 0 <= k < |queue| && queue[k].i == j;
          assert Popped().queue[k - 1].i == j;
        }
      }
    }

    /** A transfer goes back to libusb only while the run goes on. */
    lemma SubmittedAgainSound(i: nat)
      requires Sound() && Handled(i) && async == Running
      ensures SubmittedAgain(i).Sound() && SubmittedAgain(i).Advanced(this)
      ensures RingBut(i) ==> SubmittedAgain(i).Ring()
    {
      forall j: nat | j < |status| && !Handled(j)
        ensures !SubmittedAgain(i).Handled(j)
      {
        if j !in pending {
          var k :| 0 <= k < |queue| && queue[k].i == j;
          assert SubmittedAgain(i).queue[k].i == j;
        }
      }
    }

    lemma SubmitFailedSound(i: nat)
      requires Sound() && Handled(i) && async != Inactive
      ensures SubmitFailed(i).Sound() && SubmitFailed(i).Advanced(this) && SubmitFailed(i).async != Running
    {}

    lemma Resubmitted(i: nat, accepted: bool)
      requires Sound() && Handled(i) && async == Running
      ensures var v := if accepted then SubmittedAgain(i) else SubmitFailed(i);
              v.Advanced(this) && v.queue == queue && (RingBut(i) ==> v.Ring())
    {
      SubmittedAgainSound(i);
      SubmitFailedSound(i);
    }

    lemma Stopped()
      ensures async != Running ==> Ring()
    {}

    lemma SubmittedFirstSound(i: nat)
      requires Sound() && Handled(i) && async in {Running, CancelRequest}
      ensures SubmittedFirst(i).Sound()
    {}

    lemma AllCancelledSound()
      requires Sound() && async == CancelRequest
      ensures AllCancelled().Sound() && AllCancelled().Advanced(this) && AllCancelled().pending == pending
    {}

    /** A cancelled run ends exactly when libusb holds no transfer. */
    lemma EndCheckedSound()
      requires Sound() && async == Cancelling && queue == []
      ensures EndChecked().Sound() && EndChecked().Advanced(this)
      ensures EndChecked().async == Inactive <==> pending == {}
    {
      if BeingCancelled in status {
        var i: nat :| i < |status| && status[i] == BeingCancelled;
        assert i in pending;
      }
      if pending != {} {
        var i :| i in pending;
        assert status[i] == BeingCancelled;
      }
    }
  }
}
