/** The per-descriptor event handle of the reactor (class `Channel`,
    include/Channel.h): a descriptor that never changes, the mask of events
    the descriptor wants, the events the poller last reported, and the
    poller's registration tag. Every mutator of the mask hands the new mask
    to the owning loop through `update()`; that call is modelled by a ghost
    log of the masks it was given. */
module Channels {
  import opened EventMask

  class Channel {
    const fd: int        // fd_: the descriptor the poller watches
    var events: Mask     // events_: the events the descriptor is interested in
    var revents: int     // revents_: the events the poller reported
    var index: int       // index_: the poller's registration tag (new / added / deleted)

    /** The mutator calls made on this channel so far, in order. */
    ghost var calls: seq<Mutator>
    /** The mask handed to each `update()` call so far, in order. */
    ghost var updates: seq<Mask>

    /** The mask is well-formed and is what the calls made so far produce
        from the empty mask, and `update()` was called once per mutator call,
        each time with the mask that call left behind. */
    ghost predicate Valid()
      reads this
    {
      WellFormed(events) &&
      events == Run(KNone, calls) &&
      updates == Trace(KNone, calls)
    }

    /** Which flags the channel currently wants. */
    ghost function Wanted(): Interest
      reads this
    {
      Abs(events)
    }

    /** A new channel on descriptor `fd`, with no interest and no calls yet. */
    constructor (fd: int)
      ensures Valid()
      ensures Fd() == fd && Events() == KNone && IsNoneEvent()
      ensures calls == [] && updates == []
    {
      this.fd := fd;
      events := KNone;
      calls := [];
      updates := [];
    }

    /** `fd()`: the descriptor given at construction; `fd` is a constant
        field, so no operation can change it. */
    function Fd(): (r: int)
      ensures r == fd
    {
      fd
    }

    /** `events()`: the interest mask, as the set of its 1 bits. In a valid
        channel it is well-formed and is the OR of the wanted flags. */
    function Events(): (m: Mask)
      reads this
      ensures m == events
      ensures Valid() ==> WellFormed(m) && m == Encode(Wanted())
    {
      events
    }

    /** `index()`: the registration tag last stored by `set_index` (or by
        the poller during `update()`). */
    function Index(): (r: int)
      reads this
      ensures r == index
    {
      index
    }

    /** In a valid channel the mask is well-formed and is exactly the OR of
        the flags that the calls made so far leave enabled. */
    lemma MaskIsEnabledFlags()
      requires Valid()
      ensures events == Encode(RunAbstract(NoInterest, calls))
    {
      RunRefines(KNone, calls);
    }

    /** `isReading()`: in a valid channel, true exactly when the read flag is
        enabled. */
    function IsReading(): (b: bool)
      reads this
      ensures Valid() ==> (b <==> Wanted().read)
      ensures b ==> events != KNone
    {
      EventMask.IsReading(events)
    }

    /** `isWriting()`: in a valid channel, true exactly when the write flag is
        enabled. */
    function IsWriting(): (b: bool)
      reads this
      ensures Valid() ==> (b <==> Wanted().write)
      ensures b ==> events != KNone
    {
      EventMask.IsWriting(events)
    }

    /** `isNoneEvent()`: in a valid channel, true exactly when neither flag is
        enabled. */
    function IsNoneEvent(): (b: bool)
      reads this
      ensures Valid() ==> (b <==> Wanted() == NoInterest)
      ensures b ==> !IsReading() && !IsWriting()
    {
      EventMask.IsNoneEvent(events)
    }

    /** `update()` (private): hands the current mask to the owning loop, which
        forwards it to the poller. Only the hand-over is modelled; the poller
        may rewrite the registration tag `index_` while doing so, so `index`
        is in the frame and nothing is promised about it. Called by each
        mutator right after it changed the mask, which completes the log. */
    method Update()
      requires updates + [events] == Trace(KNone, calls)
      modifies this`updates, this`index
      ensures updates == old(updates) + [events]
      ensures updates == Trace(KNone, calls)
    {
      updates := updates + [events];
    }

    /** Records a mutator call that has just changed the mask, keeping the
        history consistent with it. */
    ghost method Record(op: Mutator)
      requires events == Apply(Run(KNone, calls), op)
      requires updates == Trace(KNone, calls)
      requires WellFormed(Run(KNone, calls))
      modifies this`calls
      ensures calls == old(calls) + [op]
      ensures events == Run(KNone, calls)
      ensures updates + [events] == Trace(KNone, calls)
      ensures WellFormed(events)
    {
      RunSnoc(KNone, calls, op);
      TraceSnoc(KNone, calls, op);
      calls := calls + [op];
    }

    /** `enableReading()`: `events_ |= kReadEvent`, then `update()`. */
    method EnableReading()
      requires Valid()
      modifies this`events, this`calls, this`updates, this`index
      ensures Valid()
      ensures events == EventMask.EnableReading(old(events))
      ensures calls == old(calls) + [EnableReadingCall]
      ensures updates == old(updates) + [events]
      ensures Wanted() == old(Wanted()).(read := true)
      ensures IsReading() && IsWriting() == old(IsWriting())
    {
      events := events + KRead;
      Record(EnableReadingCall);
      Update();
    }

    /** `disableReading()`: `events_ &= ~kReadEvent`, then `update()`. */
    method DisableReading()
      requires Valid()
      modifies this`events, this`calls, this`updates, this`index
      ensures Valid()
      ensures events == EventMask.DisableReading(old(events))
      ensures calls == old(calls) + [DisableReadingCall]
      ensures updates == old(updates) + [events]
      ensures Wanted() == old(Wanted()).(read := false)
      ensures !IsReading() && IsWriting() == old(IsWriting())
    {
      events := events - KRead;
      Record(DisableReadingCall);
      Update();
    }

    /** `enableWriting()`: `events_ |= kWriteEvent`, then `update()`. */
    method EnableWriting()
      requires Valid()
      modifies this`events, this`calls, this`updates, this`index
      ensures Valid()
      ensures events == EventMask.EnableWriting(old(events))
      ensures calls == old(calls) + [EnableWritingCall]
      ensures updates == old(updates) + [events]
      ensures Wanted() == old(Wanted()).(write := true)
      ensures IsWriting() && IsReading() == old(IsReading())
    {
      events := events + KWrite;
      Record(EnableWritingCall);
      Update();
    }

    /** `disableWriting()`: `events_ &= ~kWriteEvent`, then `update()`. */
    method DisableWriting()
      requires Valid()
      modifies this`events, this`calls, this`updates, this`index
      ensures Valid()
      ensures events == EventMask.DisableWriting(old(events))
      ensures calls == old(calls) + [DisableWritingCall]
      ensures updates == old(updates) + [events]
      ensures Wanted() == old(Wanted()).(write := false)
      ensures !IsWriting() && IsReading() == old(IsReading())
    {
      events := events - KWrite;
      Record(DisableWritingCall);
      Update();
    }

    /** `disableAll()`: `events_ = kNoneEvent`, then `update()`. */
    method DisableAll()
      requires Valid()
      modifies this`events, this`calls, this`updates, this`index
      ensures Valid()
      ensures events == KNone
      ensures calls == old(calls) + [DisableAllCall]
      ensures updates == old(updates) + [events]
      ensures Wanted() == NoInterest
      ensures IsNoneEvent() && !IsReading() && !IsWriting()
    {
      events := KNone;
      Record(DisableAllCall);
      Update();
    }

    /** `set_revents(revt)`: stores the reported events; nothing else changes. */
    method SetRevents(revt: int)
      modifies this`revents
      ensures revents == revt
      ensures events == old(events) && index == old(index)
      ensures Valid() == old(Valid())
    {
      revents := revt;
    }

    /** `set_index(idx)`: `index()` then returns `idx`; the mask, the
        descriptor and the history are untouched. */
    method SetIndex(idx: int)
      modifies this`index
      ensures Index() == idx
      ensures events == old(events) && revents == old(revents)
      ensures Valid() == old(Valid())
    {
      index := idx;
    }
  }

  /** A client that drives one channel through a typical life: read interest,
      write interest while output is pending, then teardown. The descriptor
      never changes, each call produces exactly one `update()`, and repeated
      calls leave the mask as it was. */
  method Lifecycle(fd: int) returns (c: Channel)
    ensures fresh(c) && c.Valid()
    ensures c.Fd() == fd
    ensures c.updates == [KRead, KRead, KRead + KWrite, KRead, KNone]
    ensures c.IsNoneEvent()
  {
    c := new Channel(fd);
    c.EnableReading();
    assert c.IsReading() && !c.IsWriting();
    c.EnableReading();
    c.EnableWriting();
    assert c.IsReading() && c.IsWriting();
    c.DisableWriting();
    assert c.IsReading() && !c.IsWriting();
    c.SetIndex(1);
    c.SetRevents(1);
    assert c.Index() == 1 && c.Events() == KRead;
    c.DisableAll();
  }
}
