# sqlalchemy-media: the dictionary-backed attachment, in Dafny

This project models `MutableDictAttachment`, the attachment type of
sqlalchemy-media. It is stored as a mutable dictionary column on an ORM record.
The model covers three parts:

- the six metadata properties (`store_id`, `key`, `extension`, `content_type`,
  `original_filename`, `length`). Each reads or writes one fixed dictionary key:
  `storeId`, `key`, `extension`, `contentType`, `originalFilename`, `length`.
- `copy()`, a deep snapshot of the record.
- the `set` listener that the class installs on every attachment column. When
  a column that held an attachment is cleared, the listener registers a copy of
  the current value with the store manager. The backing file is then deleted
  once the transaction commits.

Files:

- `values.dfy` (module `Values`): holds the dictionary's values. `Null` stands
  for `None`, and the other values are immutable scalars. It also defines
  dictionary `get`.
- `dict_attachment.dfy` (module `DictAttachment`): has the record as a class
  `MutableDictAttachment` over a `map<string, Value>`. The store manager's
  pending-delete queue is a `seq` field of class `StoreManager`. The owning
  record is class `Owner`. It also has the listener `OnSet`, the host's
  assignment `Assign`, and `AssignAll` for a whole history of assignments.
- `set_history.dfy` (module `SetHistory`): the listener as a pure state machine
  over the value a column holds. `SetEffect` covers one event and `Replay` a
  whole history of assignments. Lemmas state which values end up queued.

The listener does not look up the current store manager. The manager is passed
to it as an argument.

This listener (`dict_attachment.py:74-80`) queues only when a held value is
cleared: it tests `value is None` and does nothing else. It does not act when
one attachment replaces another. `SetHistory.ReplayWithoutClears` proves that a
history with no clears gets nothing queued by this listener. Registrations made
by the change interception that `StoreManager.observe_attribute` installs
(`dict_attachment.py:70`) are not part of this model.

`AssignAll` connects the class model to the pure history. Assigning a whole
sequence of values, each through this listener, appends exactly
`SetHistory.Replay` of that history to the queue. So the soundness,
completeness and bound lemmas about `Replay` hold of the queue the listener
builds.

## Model

| member | source | states |
|---|---|---|
| `Values.Get` | sqlalchemy_media/dict_attachment.py:14-15 | dictionary `get`: a present key yields its value and an absent key yields `Null` instead of failing |
| `DictAttachment.MutableDictAttachment.constructor` | sqlalchemy_media/dict_attachment.py:62 | wrapping a dictionary yields a record holding exactly that dictionary |
| `DictAttachment.MutableDictAttachment.StoreId` | sqlalchemy_media/dict_attachment.py:13-15 | reads key `storeId`; `Null` when the key is absent |
| `DictAttachment.MutableDictAttachment.SetStoreId` | sqlalchemy_media/dict_attachment.py:17-19 | stores the value under `storeId` and nothing else changes; `store_id` then reads back the value; every other property reads as before |
| `DictAttachment.MutableDictAttachment.Key` | sqlalchemy_media/dict_attachment.py:21-23 | reads key `key`; `Null` when the key is absent |
| `DictAttachment.MutableDictAttachment.SetKey` | sqlalchemy_media/dict_attachment.py:25-27 | stores under `key` only; reads back; every other property unchanged |
| `DictAttachment.MutableDictAttachment.Extension` | sqlalchemy_media/dict_attachment.py:29-31 | reads key `extension`; `Null` when the key is absent |
| `DictAttachment.MutableDictAttachment.SetExtension` | sqlalchemy_media/dict_attachment.py:33-35 | stores under `extension` only; reads back; every other property unchanged |
| `DictAttachment.MutableDictAttachment.ContentType` | sqlalchemy_media/dict_attachment.py:37-39 | reads key `contentType`; `Null` when the key is absent |
| `DictAttachment.MutableDictAttachment.SetContentType` | sqlalchemy_media/dict_attachment.py:41-43 | stores under `contentType` only; reads back; every other property unchanged |
| `DictAttachment.MutableDictAttachment.OriginalFilename` | sqlalchemy_media/dict_attachment.py:45-47 | reads key `originalFilename`; `Null` when the key is absent |
| `DictAttachment.MutableDictAttachment.SetOriginalFilename` | sqlalchemy_media/dict_attachment.py:49-51 | stores under `originalFilename` only; reads back; every other property unchanged |
| `DictAttachment.MutableDictAttachment.Length` | sqlalchemy_media/dict_attachment.py:53-55 | reads key `length`; `Null` when the key is absent |
| `DictAttachment.MutableDictAttachment.SetLength` | sqlalchemy_media/dict_attachment.py:57-59 | stores under `length` only; reads back; every other property unchanged |
| `DictAttachment.MutableDictAttachment.Write` | sqlalchemy_media/dict_attachment.py:17-59 | assigning any property through its setter changes only that property's key, and the property reads back the value |
| `DictAttachment.MutableDictAttachment.Copy` | sqlalchemy_media/dict_attachment.py:61-62 | the copy is a new record, distinct from the original, whose dictionary equals the original's |
| `DictAttachment.WriteOriginalAfterCopy` | sqlalchemy_media/dict_attachment.py:61-62 | after a copy, writing the original leaves the copy equal to the original's earlier contents |
| `DictAttachment.WriteCopyAfterCopy` | sqlalchemy_media/dict_attachment.py:61-62 | after a copy, writing the copy leaves the original untouched |
| `DictAttachment.StoreManager.RegisterToDeleteAfterCommit` | sqlalchemy_media/dict_attachment.py:80 | appends the given attachment to the pending-delete queue and keeps the earlier entries |
| `DictAttachment.OnSet` | sqlalchemy_media/dict_attachment.py:74-80 | if the old value is `None`, nothing is queued. If both values are non-`None`, nothing is queued. If a non-`None` value is cleared, exactly one entry is appended: a fresh copy equal to the column's current value. If the column then holds nothing, the listener fails and queues nothing. The queue grows by `SetEffect` of the three values, and earlier entries keep their contents |
| `DictAttachment.Assign` | sqlalchemy_media/dict_attachment.py:74-82 | with this listener firing before the column is updated, each assignment appends exactly `SetHistory.Step(previous, new)` to the queue; earlier entries stay and every appended entry is a fresh copy |
| `DictAttachment.AssignAll` | sqlalchemy_media/dict_attachment.py:74-82 | assigning every value of a history in turn, each through `Assign`, appends exactly `SetHistory.Replay` of the history to the queue, and leaves the column holding the last assigned record itself (the starting one for an empty history), whose contents are `SetHistory.Final` of the history; earlier entries stay and every appended entry is a fresh copy |
| `DictAttachment.AssignReplaceClear` | sqlalchemy_media/dict_attachment.py:74-80 | assign `a`, replace it with `b`, then clear: this listener queues only `b`'s contents |
| `SetHistory.StepIsSetEffect` | sqlalchemy_media/dict_attachment.py:74-80 | when the value read back is the previous one, the listener never fails and registers exactly `Step`: nothing from an unset column, nothing on replacement, and the previous value on a clear |
| `SetHistory.ReplayExtend` | sqlalchemy_media/dict_attachment.py:74-80 | one more assignment appends exactly that assignment's registrations to the queue built so far |
| `SetHistory.ReplayWithoutClears` | sqlalchemy_media/dict_attachment.py:78-80 | a history with no clears gets nothing queued by this listener |
| `SetHistory.ReplayBoundedByClears` | sqlalchemy_media/dict_attachment.py:78-80 | the number of queued entries is at most the number of clears |
| `SetHistory.ReplayBoundedByLiveValues` | sqlalchemy_media/dict_attachment.py:75-80 | the number of queued entries is at most the number of assigned values, plus one when the column held a value at the start |
| `SetHistory.ReplayEntriesWereCleared` | sqlalchemy_media/dict_attachment.py:78-80 | every queued entry is the value the column held just before some clear |
| `SetHistory.ReplayCoversEveryClear` | sqlalchemy_media/dict_attachment.py:78-80 | clearing a column that holds a value always queues that value |

## Left out

- The `parent` property (`dict_attachment.py:64-66`) is not modelled. It reads the weak-reference parent bookkeeping of SQLAlchemy's `MutableDict`, which is not part of this model.
- Registering the listener is not modelled: `event.listen(..., propagate=True)`, `StoreManager.observe_attribute` and the call to the superclass's `_listen_on_attribute` (`dict_attachment.py:70`, `82-83`) are calls into the ORM framework. `Assign` stands for the framework firing the listener before it stores the new value.
- `StoreManager.get_current_store_manager()` (`dict_attachment.py:79`) is a lookup of context-scoped state. The manager is an explicit argument of `OnSet` instead.
- Registrations made by the change interception that `StoreManager.observe_attribute` installs (`dict_attachment.py:70`) are not modelled. `Assign`, `AssignAll`, `AssignReplaceClear` and `SetHistory.Replay` count this listener's registrations only.
- Assign: assumes that the host passes as `old_value` the value the record holds, or `None` when it holds none. If the host passes a non-`None` `old_value` while the record holds nothing, the source raises on `None.copy()` (`dict_attachment.py:80`). `OnSet` models that case as `CurrentMissing`, but `Assign` never reaches it.
- Copy: `self.__class__(...)` (`dict_attachment.py:62`) keeps the receiver's subclass. The model has a single class, so keeping the subclass is not modelled.
- `StoreManager` is not part of this model beyond its pending-delete queue. Commit, rollback and store resolution are not modelled, and `RegisterToDeleteAfterCommit` is modelled as a plain append.
- The `Attachment` base class is not part of this model. `MutableDict`'s change notifications are not modelled either.
- Values are immutable scalars. A dictionary holding nested mutable containers is not modelled, so copying the map is the whole of the deep copy.
- The S3 store tests (`tests/test_s3_store.py`) are not modelled. They drive a network store through a mock HTTP server, which is I/O with no logic of this component.
