# Channel interest-mask model

This project models `Channel`, the per-file-descriptor event handle of a muduo-style multi-reactor (include/Channel.h). A channel has:

- a descriptor `fd_` that never changes;
- an interest mask `events_` (the epoll events the descriptor wants);
- the events the poller reported (`revents_`);
- the poller's registration tag (`index_`).

Five mutators change the mask: `enableReading`, `disableReading`, `enableWriting`, `disableWriting` and `disableAll`. Each one follows the change with exactly one `update()`, which asks the owning loop to pass the new mask to the poller. Three predicates read the mask: `isReading`, `isWriting` and `isNoneEvent`.

The project has two modules.

- `EventMask` (event_mask.dfy) holds the mask as a value. The C++ `int` mask is represented by the set of positions of its 1 bits (0 to 31). The constants are:
  - kReadEvent = EPOLLIN | EPOLLPRI = bits {0, 1} (0x003);
  - kWriteEvent = EPOLLOUT = bit {2} (0x004);
  - kNoneEvent = the empty set (0).

  In this representation `|=` is union, `&= ~` is set difference, `&` is intersection and "nonzero" means "non-empty". The module also gives:
  - an abstract view `Interest(read, write)` of which flags are enabled, with `Abs` and `Encode` between masks and views;
  - the mutators as data (`Mutator`);
  - `Run`, which folds a sequence of calls over a mask;
  - `RunAbstract`, which folds the same calls over the abstract view (the reference semantics);
  - `Trace`, the list of masks that `update()` receives along the way.
- `Channels` (channel.dfy) holds the class `Channel`. Its fields are `const fd`, `events`, `revents` and `index`, and the mutators change them in place. Two ghost fields record history: `calls` is the list of mutator calls so far, and `updates` is the mask that each `update()` was given. `Valid()` ties the mask and the update log to that history. The getters `fd()`, `events()` and `index()` are the functions `Fd`, `Events` and `Index`.

## Model

| member | source | states |
|---|---|---|
| `EventMask.Encode` | include/Channel.h:76-80 | the mask that holds exactly the enabled flags is well-formed, has those flags as its abstract view, and is kNoneEvent exactly when no flag is enabled |
| `EventMask.EncodeAbs` | include/Channel.h:76-80 | a well-formed mask is the OR of the flags it has enabled (the two views are inverse on well-formed masks) |
| `EventMask.EnableReading` | include/Channel.h:36-39 | every kReadEvent bit is set afterwards; every other bit, including the write bits, is as before; an already-enabled read flag leaves the mask unchanged; `isReading` holds and `isWriting` is as before; a well-formed mask stays well-formed, with only the read flag switched on |
| `EventMask.DisableReading` | include/Channel.h:40-43 | every kReadEvent bit is clear afterwards; all other bits are as before; an already-disabled read flag leaves the mask unchanged; `isReading` is false and `isWriting` is as before; well-formedness is kept, with only the read flag switched off |
| `EventMask.EnableWriting` | include/Channel.h:44-47 | the same as enableReading, for the kWriteEvent bits; the read bits and `isReading` are untouched |
| `EventMask.DisableWriting` | include/Channel.h:48-51 | the same as disableReading, for the kWriteEvent bits; afterwards `isWriting` is false and `isReading` is as before |
| `EventMask.DisableAll` | include/Channel.h:52-55 | whatever the mask was, afterwards `isNoneEvent` holds, `isReading` and `isWriting` are both false, and no flag is enabled |
| `EventMask.IsReading` | include/Channel.h:59-61 | on a well-formed mask, true exactly when the read flag is enabled; when true, the mask is not kNoneEvent |
| `EventMask.IsWriting` | include/Channel.h:56-58 | on a well-formed mask, true exactly when the write flag is enabled; when true, the mask is not kNoneEvent |
| `EventMask.IsNoneEvent` | include/Channel.h:62 | true exactly when the mask is well-formed with no flag enabled; it then excludes `isReading` and `isWriting`, and on well-formed masks it is equivalent to both being false |
| `EventMask.Apply` | include/Channel.h:36-55 | each mutator keeps a well-formed mask well-formed and acts on its abstract view as the reference semantics `Step` says |
| `EventMask.RunSnoc` | include/Channel.h:36-55 | one more call after a sequence of calls acts on the mask that the sequence left behind |
| `EventMask.TraceSnoc` | include/Channel.h:36-55 | one more mutator call adds exactly one `update()`, which carries the mask after that call |
| `EventMask.TraceIsPostMasks` | include/Channel.h:36-55 | any sequence of mutator calls makes exactly as many `update()` calls, and the k-th update carries the mask as it is right after the k-th call |
| `EventMask.RunRefines` | include/Channel.h:36-55 | from a well-formed mask, any sequence of calls leaves a well-formed mask that is exactly the OR of the flags the reference semantics says are enabled |
| `EventMask.LastReadCallDecides` | include/Channel.h:36-61 | after any history, whether the channel is reading depends only on the last call that touched the read flag (enableReading, disableReading or disableAll), whatever write calls follow it |
| `EventMask.CrossFlagCommute` | include/Channel.h:36-51 | a call on the read flag and a call on the write flag commute |
| `EventMask.RepeatIsIdempotent` | include/Channel.h:36-55 | repeating any mutator call leaves the mask as the first call left it |
| `Channels.Channel.constructor` | include/Channel.h:15 | a new channel keeps the descriptor it was given, has no interest, and has made no calls and no updates |
| `Channels.Channel.Fd` | include/Channel.h:29 | `fd()` returns the constant field `fd`, which the constructor sets to the descriptor it was given and which no operation can change, so it is always the descriptor given at construction |
| `Channels.Channel.Events` | include/Channel.h:30 | `events()` returns the interest mask as the set of its 1 bits rather than as an `int`; in a valid channel it is well-formed and is the OR of the wanted flags |
| `Channels.Channel.Index` | include/Channel.h:64 | `index()` returns the registration tag as last stored, by `set_index` or by the poller during `update()` |
| `Channels.Channel.MaskIsEnabledFlags` | include/Channel.h:84 | in a valid channel, the mask is exactly the OR of the flags that the calls so far leave enabled |
| `Channels.Channel.IsReading` | include/Channel.h:59-61 | in a valid channel, true exactly when the read flag is wanted |
| `Channels.Channel.IsWriting` | include/Channel.h:56-58 | in a valid channel, true exactly when the write flag is wanted |
| `Channels.Channel.IsNoneEvent` | include/Channel.h:62 | in a valid channel, true exactly when neither flag is wanted; it excludes `isReading` and `isWriting` |
| `Channels.Channel.Update` | include/Channel.h:72 | called only right after a mutator changed the mask, it appends the current mask to the log of masks handed to the loop, which completes the log for the call history; the registration tag may change (the poller rewrites it), and nothing is promised about its new value |
| `Channels.Channel.EnableReading` | include/Channel.h:36-39 | the mask becomes `EventMask.EnableReading` of the old mask; exactly one update is logged, carrying the new mask; only the read flag changes; `isReading` holds afterwards; the channel stays valid; `index_` may be rewritten by the `update()` call |
| `Channels.Channel.DisableReading` | include/Channel.h:40-43 | the mask becomes `EventMask.DisableReading` of the old mask, with exactly one update carrying it; `isReading` is false and `isWriting` is as before; `index_` may be rewritten by the `update()` call |
| `Channels.Channel.EnableWriting` | include/Channel.h:44-47 | the mask becomes `EventMask.EnableWriting` of the old mask, with exactly one update carrying it; `isWriting` holds and `isReading` is as before; `index_` may be rewritten by the `update()` call |
| `Channels.Channel.DisableWriting` | include/Channel.h:48-51 | the mask becomes `EventMask.DisableWriting` of the old mask, with exactly one update carrying it; `isWriting` is false and `isReading` is as before; `index_` may be rewritten by the `update()` call |
| `Channels.Channel.DisableAll` | include/Channel.h:52-55 | the mask becomes kNoneEvent, with exactly one update carrying it; `isNoneEvent` holds and both other predicates are false; `index_` may be rewritten by the `update()` call |
| `Channels.Channel.SetRevents` | include/Channel.h:32-34 | `revents_` becomes the given value; the mask, the index and the history are unchanged |
| `Channels.Channel.SetIndex` | include/Channel.h:64-65 | `index()` then returns the given tag; the mask, the reported events and the history are unchanged |
| `Channels.Lifecycle` | include/Channel.h:29-65 | a typical call sequence (enable reading twice, enable then disable writing, set the index and the reported events, disable all): the descriptor is the one given at construction; the updates are exactly the successive masks, one per call; the channel ends with no interest |

## Left out

- `HandlerEvent` and `HandleEventWithGuard` (dispatch by reported event) are only declared in the header. Their bodies are not part of this model, so no dispatch order is modelled.
- `tie` and the `weak_ptr` lifetime guard (`tie_`, `tied_`) are ownership machinery, and the body of `tie` is not part of this model.
- `update()` and `remove()` forward to the owning `EventLoop` and its epoll poller, which are not part of this model. `remove()` is not modelled.
- Channels.Channel.Update: models `update()` as an append to the ghost log `updates`. The poller's rewrite of `index_` during `update()` (new to added, added to deleted) is not modelled. `index` is in the frame of `Update` and of the five mutators, so the model promises nothing about `index_` after a mutator call.
- The callback slots, `setReadCallback` and the callback types are opaque closures with no behaviour to state.
- `ownerLoop()`, the `loop_` back-pointer and the one-loop-per-thread discipline are concurrency rules, not sequential logic, so they are left out. The constructor's `EventLoop` parameter, which the header takes by value, is dropped.
- `TimeStamp` is only passed through, to the callbacks and the dispatch routine.
- Channels.Channel.constructor: the constructor's body is not part of this model. The model assumes the usual initial state of an empty interest mask, and it says nothing about the initial `revents_` and `index_`.
- Channels.Channel.SetRevents: `set_revents` is declared to return `int` but has no return statement. In C++, flowing off the end of a value-returning function is undefined behaviour on every call, whether or not the result is used. The model assumes that the store happens and that the call returns normally, with no result.
- Channels.Channel.SetIndex: `index_` is kept as the plain `int` the header stores. The meaning of its values (new / added / deleted) is defined by the poller, which is not part of this model.
- The mask is represented as the set of its 1 bits, not as an integer. The numeric values of the constants appear only in comments. The mutators only OR in and mask out bits within positions 0 to 31, so no arithmetic on the integer value arises.
- The masks that the mutators handle are all a subset of kReadEvent | kWriteEvent. For those masks, `isReading()` means "the read flag is enabled". The code's test, however, is "some kReadEvent bit is set", and `EventMask.IsReading` models that test, so a mask holding EPOLLIN alone would count as reading. This is stated under the well-formedness hypothesis rather than as an unconditional fact.
