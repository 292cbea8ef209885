/** The interest mask of a Channel (include/Channel.h), as values.

    `events_` is a C++ `int` that the mutators change only with `|=`, `&= ~`
    and `=`, and that the predicates test with `&` and `==`. The model keeps
    the mask as the set of positions of its 1 bits (0 to 31 for a 32-bit
    `int`): `|=` is union, `&= ~` is set difference, `x & k` is intersection
    and "nonzero" is "non-empty". Besides the operations on one mask, this
    module folds a whole sequence of mutator calls over a mask (`Run`), lists
    the masks that `update()` is handed along the way (`Trace`), and relates
    both to an abstract view that only says which flags are enabled. */
module EventMask {

  /** A bit position of a 32-bit `int`. */
  type Bit = b: int | 0 <= b < 32

  /** A bit pattern of a 32-bit `int`, as the set of its 1 bits. */
  type Mask = set<Bit>

  // epoll's readiness bits that the two interest constants are made of
  const EPOLLIN: Mask := {0}   // 0x001
  const EPOLLPRI: Mask := {1}  // 0x002
  const EPOLLOUT: Mask := {2}  // 0x004

  const KNone: Mask := {}
  const KRead: Mask := EPOLLIN + EPOLLPRI
  const KWrite: Mask := EPOLLOUT

  /** The abstract view of a mask: which of the two flags are enabled. */
  datatype Interest = Interest(read: bool, write: bool)

  const NoInterest := Interest(false, false)

  /** A mask the mutators can produce from the empty mask: no bit outside
      kReadEvent | kWriteEvent, and each flag's bits all set or all clear. */
  predicate WellFormed(m: Mask) {
    m <= KRead + KWrite &&
    (KRead <= m || m !! KRead) &&
    (KWrite <= m || m !! KWrite)
  }

  /** A flag counts as enabled when every one of its bits is set. */
  function Abs(m: Mask): Interest {
    Interest(KRead <= m, KWrite <= m)
  }

  /** The mask that holds exactly the enabled flags: the OR of their bits. */
  function Encode(i: Interest): (m: Mask)
    ensures WellFormed(m)
    ensures Abs(m) == i
    ensures m == KNone <==> i == NoInterest
  {
    (if i.read then KRead else KNone) + (if i.write then KWrite else KNone)
  }

  /** A well-formed mask is determined by its abstract view. */
  lemma EncodeAbs(m: Mask)
    requires WellFormed(m)
    ensures Encode(Abs(m)) == m
  {
  }

  /** `enableReading`: `events_ |= kReadEvent`. Every read bit is set
      afterwards, every other bit is as it was; on an already-reading mask
      nothing changes. */
  function EnableReading(m: Mask): (r: Mask)
    ensures KRead <= r
    ensures r - KRead == m - KRead
    ensures KRead <= m ==> r == m
    ensures IsReading(r)
    ensures IsWriting(r) == IsWriting(m)
    ensures WellFormed(m) ==> WellFormed(r) && Abs(r) == Abs(m).(read := true)
  {
    m + KRead
  }

  /** `disableReading`: `events_ &= ~kReadEvent`. Every read bit is clear
      afterwards, every other bit is as it was. */
  function DisableReading(m: Mask): (r: Mask)
    ensures r !! KRead
    ensures r - KRead == m - KRead
    ensures m !! KRead ==> r == m
    ensures !IsReading(r)
    ensures IsWriting(r) == IsWriting(m)
    ensures WellFormed(m) ==> WellFormed(r) && Abs(r) == Abs(m).(read := false)
  {
    m - KRead
  }

  /** `enableWriting`: `events_ |= kWriteEvent`. */
  function EnableWriting(m: Mask): (r: Mask)
    ensures KWrite <= r
    ensures r - KWrite == m - KWrite
    ensures KWrite <= m ==> r == m
    ensures IsWriting(r)
    ensures IsReading(r) == IsReading(m)
    ensures WellFormed(m) ==> WellFormed(r) && Abs(r) == Abs(m).(write := true)
  {
    m + KWrite
  }

  /** `disableWriting`: `events_ &= ~kWriteEvent`. */
  function DisableWriting(m: Mask): (r: Mask)
    ensures r !! KWrite
    ensures r - KWrite == m - KWrite
    ensures m !! KWrite ==> r == m
    ensures !IsWriting(r)
    ensures IsReading(r) == IsReading(m)
    ensures WellFormed(m) ==> WellFormed(r) && Abs(r) == Abs(m).(write := false)
  {
    m - KWrite
  }

  /** `disableAll`: `events_ = kNoneEvent`, whatever the mask was. */
  function DisableAll(m: Mask): (r: Mask)
    ensures IsNoneEvent(r) && !IsReading(r) && !IsWriting(r)
    ensures WellFormed(r) && Abs(r) == NoInterest
  {
    KNone
  }

  /** `isReading`: `events_ & kReadEvent` is nonzero. On a well-formed mask
      this is exactly "the read flag is enabled"; on others a lone EPOLLIN
      also counts. */
  function IsReading(m: Mask): (b: bool)
    ensures WellFormed(m) ==> (b <==> Abs(m).read)
    ensures b ==> m != KNone
  {
    m * KRead != KNone
  }

  /** `isWriting`: `events_ & kWriteEvent` is nonzero. */
  function IsWriting(m: Mask): (b: bool)
    ensures WellFormed(m) ==> (b <==> Abs(m).write)
    ensures b ==> m != KNone
  {
    m * KWrite != KNone
  }

  /** `isNoneEvent`: `events_ == kNoneEvent`. On a well-formed mask that is
      the same as neither of the other two predicates holding. */
  function IsNoneEvent(m: Mask): (b: bool)
    ensures b ==> !IsReading(m) && !IsWriting(m)
    ensures WellFormed(m) ==> (b <==> !IsReading(m) && !IsWriting(m))
    ensures b <==> WellFormed(m) && Abs(m) == NoInterest
  {
    m == KNone
  }

  /** The five mutators of Channel, as data, so that call sequences can be
      reasoned about. */
  datatype Mutator =
    | EnableReadingCall
    | DisableReadingCall
    | EnableWritingCall
    | DisableWritingCall
    | DisableAllCall
  {
    predicate TouchesReadOnly() { EnableReadingCall? || DisableReadingCall? }
    predicate TouchesWriteOnly() { EnableWritingCall? || DisableWritingCall? }
  }

  /** The new mask after one mutator call. */
  function Apply(m: Mask, op: Mutator): (r: Mask)
    ensures WellFormed(m) ==> WellFormed(r) && Abs(r) == Step(Abs(m), op)
  {
    match op
    case EnableReadingCall => EnableReading(m)
    case DisableReadingCall => DisableReading(m)
    case EnableWritingCall => EnableWriting(m)
    case DisableWritingCall => DisableWriting(m)
    case DisableAllCall => DisableAll(m)
  }

  /** The reference meaning of a mutator call on the abstract view. */
  function Step(i: Interest, op: Mutator): Interest {
    match op
    case EnableReadingCall => i.(read := true)
    case DisableReadingCall => i.(read := false)
    case EnableWritingCall => i.(write := true)
    case DisableWritingCall => i.(write := false)
    case DisableAllCall => NoInterest
  }

  /** The mask after the calls `ops`, made in order, starting from `m`. */
  function Run(m: Mask, ops: seq<Mutator>): Mask
    decreases |ops|
  {
    if ops == [] then m else Run(Apply(m, ops[0]), ops[1..])
  }

  /** The abstract view after the calls `ops`. */
  function RunAbstract(i: Interest, ops: seq<Mutator>): Interest
    decreases |ops|
  {
    if ops == [] then i else RunAbstract(Step(i, ops[0]), ops[1..])
  }

  /** The masks handed to `update()` by the calls `ops`: every mutator calls
      it once, right after changing the mask. */
  function Trace(m: Mask, ops: seq<Mutator>): seq<Mask>
    decreases |ops|
  {
    if ops == [] then [] else [Apply(m, ops[0])] + Trace(Apply(m, ops[0]), ops[1..])
  }

  /** One more call at the end of a sequence applies to the mask the sequence
      left behind. */
  lemma {:induction false} RunSnoc(m: Mask, ops: seq<Mutator>, op: Mutator)
    ensures Run(m, ops + [op]) == Apply(Run(m, ops), op)
    decreases |ops|
  {
    if ops == [] {
      assert [] + [op] == [op];
    } else {
      assert (ops + [op])[1..] == ops[1..] + [op];
      RunSnoc(Apply(m, ops[0]), ops[1..], op);
    }
  }

  /** One more call at the end of a sequence adds exactly one `update()`,
      carrying the mask that call produced. */
  lemma {:induction false} TraceSnoc(m: Mask, ops: seq<Mutator>, op: Mutator)
    ensures Trace(m, ops + [op]) == Trace(m, ops) + [Run(m, ops + [op])]
    decreases |ops|
  {
    if ops == [] {
      assert [] + [op] == [op];
    } else {
      assert (ops + [op])[1..] == ops[1..] + [op];
      TraceSnoc(Apply(m, ops[0]), ops[1..], op);
    }
  }

  /** Every call of a sequence triggers exactly one `update()`, and the k-th
      one carries the mask as it stands right after the k-th call. */
  lemma {:induction false} TraceIsPostMasks(m: Mask, ops: seq<Mutator>)
    ensures |Trace(m, ops)| == |ops|
    ensures forall k :: 0 <= k < |ops| ==> Trace(m, ops)[k] == Run(m, ops[..k + 1])
    decreases |ops|
  {
    if ops != [] {
      var m' := Apply(m, ops[0]);
      TraceIsPostMasks(m', ops[1..]);
      forall k | 0 <= k < |ops|
        ensures Trace(m, ops)[k] == Run(m, ops[..k + 1])
      {
        if k == 0 {
          assert ops[..1][1..] == [];
        } else {
          assert ops[..k + 1][1..] == ops[1..][..k];
        }
      }
    }
  }

  /** For any sequence of calls from a well-formed mask, the mask stays
      well-formed and is exactly the OR of the flags the reference semantics
      says are enabled. */
  lemma {:induction false} RunRefines(m: Mask, ops: seq<Mutator>)
    requires WellFormed(m)
    ensures WellFormed(Run(m, ops))
    ensures Run(m, ops) == Encode(RunAbstract(Abs(m), ops))
    decreases |ops|
  {
    if ops == [] {
      EncodeAbs(m);
    } else {
      RunRefines(Apply(m, ops[0]), ops[1..]);
    }
  }

  /** Whatever came before, the flag a sequence last enabled or disabled
      decides whether the channel is reading after it. */
  lemma {:induction false} LastReadCallDecides(m: Mask, ops: seq<Mutator>, op: Mutator, rest: seq<Mutator>)
    requires op.TouchesReadOnly() || op.DisableAllCall?
    requires forall k :: 0 <= k < |rest| ==> rest[k].TouchesWriteOnly()
    ensures IsReading(Run(m, ops + [op] + rest)) <==> op.EnableReadingCall?
    decreases |rest|
  {
    if rest == [] {
      assert ops + [op] + rest == ops + [op];
      RunSnoc(m, ops, op);
    } else {
      var init := rest[..|rest| - 1];
      var last := rest[|rest| - 1];
      assert ops + [op] + rest == (ops + [op] + init) + [last];
      LastReadCallDecides(m, ops, op, init);
      RunSnoc(m, ops + [op] + init, last);
    }
  }

  /** A call on the read flag and a call on the write flag commute. */
  lemma CrossFlagCommute(m: Mask, a: Mutator, b: Mutator)
    requires a.TouchesReadOnly() && b.TouchesWriteOnly()
    ensures Apply(Apply(m, a), b) == Apply(Apply(m, b), a)
  {
  }

  /** Repeating a call on one flag changes nothing more. */
  lemma RepeatIsIdempotent(m: Mask, op: Mutator)
    ensures Apply(Apply(m, op), op) == Apply(m, op)
  {
  }
}
