/**
 A dictionary-backed attachment record (`MutableDictAttachment`), the
 pending-delete queue of the store manager it reports to, and the `set`
 listener installed on every attachment column.
 */
module DictAttachment {
  import opened Values
  import SetHistory

  /** The metadata fields an attachment exposes as properties. */
  datatype Field = StoreId | Key | Extension | ContentType | OriginalFilename | Length

  const StoreIdKey: string := "storeId"
  const KeyKey: string := "key"
  const ExtensionKey: string := "extension"
  const ContentTypeKey: string := "contentType"
  const OriginalFilenameKey: string := "originalFilename"
  const LengthKey: string := "length"

  /** The dictionary key behind each property. */
  function DictKey(f: Field): string
  {
    match f
    case StoreId => StoreIdKey
    case Key => KeyKey
    case Extension => ExtensionKey
    case ContentType => ContentTypeKey
    case OriginalFilename => OriginalFilenameKey
    case Length => LengthKey
  }

  /** What reading property `f` of a record holding `m` yields. */
  function FieldValue(m: Entries, f: Field): Value
  {
    Get(m, DictKey(f))
  }

  class MutableDictAttachment {
    var entries: Entries

    /** Wraps a dictionary, as the class's own constructor does. */
    constructor (entries: Entries)
      ensures this.entries == entries
    {
      this.entries := entries;
    }

    function StoreId(): (v: Value)
      reads this
      ensures StoreIdKey in entries ==> v == entries[StoreIdKey]
      ensures StoreIdKey !in entries ==> v == Null
    {
      Get(entries, StoreIdKey)
    }

    method SetStoreId(value: Value)
      modifies this
      ensures entries == old(entries)[StoreIdKey := value]
      ensures StoreId() == value
      ensures forall f :: f != Field.StoreId ==> FieldValue(entries, f) == FieldValue(old(entries), f)
    {
      entries := entries[StoreIdKey := value];
    }

    function Key(): (v: Value)
      reads this
      ensures KeyKey in entries ==> v == entries[KeyKey]
      ensures KeyKey !in entries ==> v == Null
    {
      Get(entries, KeyKey)
    }

    method SetKey(value: Value)
      modifies this
      ensures entries == old(entries)[KeyKey := value]
      ensures Key() == value
      ensures forall f :: f != Field.Key ==> FieldValue(entries, f) == FieldValue(old(entries), f)
    {
      entries := entries[KeyKey := value];
    }

    function Extension(): (v: Value)
      reads this
      ensures ExtensionKey in entries ==> v == entries[ExtensionKey]
      ensures ExtensionKey !in entries ==> v == Null
    {
      Get(entries, ExtensionKey)
    }

    method SetExtension(value: Value)
      modifies this
      ensures entries == old(entries)[ExtensionKey := value]
      ensures Extension() == value
      ensures forall f :: f != Field.Extension ==> FieldValue(entries, f) == FieldValue(old(entries), f)
    {
      entries := entries[ExtensionKey := value];
    }

    function ContentType(): (v: Value)
      reads this
      ensures ContentTypeKey in entries ==> v == entries[ContentTypeKey]
      ensures ContentTypeKey !in entries ==> v == Null
    {
      Get(entries, ContentTypeKey)
    }

    method SetContentType(value: Value)
      modifies this
      ensures entries == old(entries)[ContentTypeKey := value]
      ensures ContentType() == value
      ensures forall f :: f != Field.ContentType ==> FieldValue(entries, f) == FieldValue(old(entries), f)
    {
      entries := entries[ContentTypeKey := value];
    }

    function OriginalFilename(): (v: Value)
      reads this
      ensures OriginalFilenameKey in entries ==> v == entries[OriginalFilenameKey]
      ensures OriginalFilenameKey !in entries ==> v == Null
    {
      Get(entries, OriginalFilenameKey)
    }

    method SetOriginalFilename(value: Value)
      modifies this
      ensures entries == old(entries)[OriginalFilenameKey := value]
      ensures OriginalFilename() == value
      ensures forall f :: f != Field.OriginalFilename ==> FieldValue(entries, f) == FieldValue(old(entries), f)
    {
      entries := entries[OriginalFilenameKey := value];
    }

    function Length(): (v: Value)
      reads this
      ensures LengthKey in entries ==> v == entries[LengthKey]
      ensures LengthKey !in entries ==> v == Null
    {
      Get(entries, LengthKey)
    }

    method SetLength(value: Value)
      modifies this
      ensures entries == old(entries)[LengthKey := value]
      ensures Length() == value
      ensures forall f :: f != Field.Length ==> FieldValue(entries, f) == FieldValue(old(entries), f)
    {
      entries := entries[LengthKey := value];
    }

    /** Assignment to property `f` through its setter. */
    method Write(f: Field, value: Value)
      modifies this
      ensures entries == old(entries)[DictKey(f) := value]
      ensures FieldValue(entries, f) == value
      ensures forall g :: g != f ==> FieldValue(entries, g) == FieldValue(old(entries), g)
    {
      match f
      case StoreId => SetStoreId(value);
      case Key => SetKey(value);
      case Extension => SetExtension(value);
      case ContentType => SetContentType(value);
      case OriginalFilename => SetOriginalFilename(value);
      case Length => SetLength(value);
    }

    /** A deep snapshot: a new record holding an equal dictionary and
        sharing nothing mutable with this one. */
    method Copy() returns (c: MutableDictAttachment)
      ensures fresh(c) && c.entries == entries
    {
      c := new MutableDictAttachment(entries);
    }
  }

  /** Writing the original after copying it leaves the copy as it was. */
  method WriteOriginalAfterCopy(a: MutableDictAttachment, f: Field, value: Value) returns (c: MutableDictAttachment)
    modifies a
    ensures fresh(c) && c.entries == old(a.entries)
    ensures a.entries == old(a.entries)[DictKey(f) := value]
  {
    c := a.Copy();
    a.Write(f, value);
  }

  /** Writing the copy leaves the original as it was. */
  method WriteCopyAfterCopy(a: MutableDictAttachment, f: Field, value: Value) returns (c: MutableDictAttachment)
    ensures fresh(c) && c.entries == a.entries[DictKey(f) := value]
    ensures unchanged(a)
  {
    c := a.Copy();
    c.Write(f, value);
  }

  /** The dictionaries of the records in `q`, in queue order. */
  ghost function EntriesOf(q: seq<MutableDictAttachment>): (r: seq<Entries>)
    reads q
    ensures |r| == |q|
    ensures forall i :: 0 <= i < |q| ==> r[i] == q[i].entries
  {
    if q == [] then [] else EntriesOf(q[..|q| - 1]) + [q[|q| - 1].entries]
  }

  /** What a column holds, as a value: `None` for an unset column. */
  ghost function Snapshot(a: MutableDictAttachment?): Option<Entries>
    reads a
  {
    if a == null then None else Some(a.entries)
  }

  /** The part of the store manager the listener uses: its queue of
      attachments whose files are deleted once the transaction commits. */
  class StoreManager {
    var pendingDelete: seq<MutableDictAttachment>

    constructor ()
      ensures pendingDelete == []
    {
      pendingDelete := [];
    }

    method RegisterToDeleteAfterCommit(a: MutableDictAttachment)
      modifies this
      ensures pendingDelete == old(pendingDelete) + [a]
    {
      pendingDelete := pendingDelete + [a];
    }
  }

  /** The record that owns an attachment column; `attachment` is what
      reading the column returns. */
  class Owner {
    var attachment: MutableDictAttachment?

    constructor (attachment: MutableDictAttachment?)
      ensures this.attachment == attachment
    {
      this.attachment := attachment;
    }
  }

  /** Which way the listener went. `CurrentMissing` is the case where it
      must copy the column's current value and finds none there: the
      listener raises and queues nothing. */
  datatype SetOutcome = WasUnset | Replaced | Queued | CurrentMissing

  /** The `set` listener: `oldValue` is the value being replaced, `value`
      the one being assigned, `target` the owning record. The manager is
      passed in rather than looked up as the current one. */
  method OnSet(manager: StoreManager, target: Owner, value: MutableDictAttachment?, oldValue: MutableDictAttachment?)
    returns (outcome: SetOutcome)
    modifies manager
    ensures outcome == WasUnset <==> oldValue == null
    ensures outcome == Replaced <==> oldValue != null && value != null
    ensures outcome == CurrentMissing <==> oldValue != null && value == null && target.attachment == null
    ensures outcome != Queued ==> manager.pendingDelete == old(manager.pendingDelete)
    ensures outcome == Queued ==>
      && |manager.pendingDelete| == |old(manager.pendingDelete)| + 1
      && manager.pendingDelete[..|old(manager.pendingDelete)|] == old(manager.pendingDelete)
      && fresh(manager.pendingDelete[|old(manager.pendingDelete)|])
      && target.attachment != null
      && manager.pendingDelete[|old(manager.pendingDelete)|].entries == target.attachment.entries
    ensures SetHistory.SetEffect(Snapshot(oldValue), Snapshot(value), Snapshot(target.attachment))
            == if outcome == CurrentMissing then None
               else Some(EntriesOf(manager.pendingDelete)[|old(manager.pendingDelete)|..])
    ensures EntriesOf(manager.pendingDelete)[..|old(manager.pendingDelete)|] == old(EntriesOf(manager.pendingDelete))
  {
    if oldValue == null {
      return WasUnset;
    }
    if value == null {
      var current := target.attachment;
      if current == null {
        return CurrentMissing;
      }
      var snapshot := current.Copy();
      manager.RegisterToDeleteAfterCommit(snapshot);
      return Queued;
    }
    assert EntriesOf(manager.pendingDelete)[|manager.pendingDelete|..] == [];
    return Replaced;
  }

  /** An assignment to the column, with this listener wired as the host
      wires it: the listener fires while the record still holds the previous
      value, then the new value is stored. This listener's registrations grow
      the queue by exactly one `SetHistory.Step`; earlier entries stay, and
      every appended entry is a fresh copy. */
  method Assign(manager: StoreManager, target: Owner, value: MutableDictAttachment?)
    modifies manager, target
    ensures target.attachment == value
    ensures old(manager.pendingDelete) <= manager.pendingDelete
    ensures forall i :: |old(manager.pendingDelete)| <= i < |manager.pendingDelete| ==> fresh(manager.pendingDelete[i])
    ensures EntriesOf(manager.pendingDelete)
            == old(EntriesOf(manager.pendingDelete)) + SetHistory.Step(old(Snapshot(target.attachment)), Snapshot(value))
  {
    ghost var before := Snapshot(target.attachment);
    ghost var queued := EntriesOf(manager.pendingDelete);
    var outcome := OnSet(manager, target, value, target.attachment);
    SetHistory.StepIsSetEffect(before, Snapshot(value));
    assert EntriesOf(manager.pendingDelete)
           == EntriesOf(manager.pendingDelete)[..|queued|] + EntriesOf(manager.pendingDelete)[|queued|..];
    target.attachment := value;
  }

  /** The values the records of `hs` hold, `None` for an unset column. */
  ghost function Snapshots(hs: seq<MutableDictAttachment?>): (r: seq<Option<Entries>>)
    reads hs
    ensures |r| == |hs|
    ensures forall i :: 0 <= i < |hs| ==> r[i] == Snapshot(hs[i])
  {
    if hs == [] then [] else Snapshots(hs[..|hs| - 1]) + [Snapshot(hs[|hs| - 1])]
  }

  /** Assigning every value of `hs` in turn: this listener's registrations
      are exactly `SetHistory.Replay` of the history, so the lemmas about
      `Replay` hold of the queue the class model builds. Earlier entries
      stay, every appended entry is a fresh copy, and the column holds the
      last record assigned. */
  method AssignAll(manager: StoreManager, target: Owner, hs: seq<MutableDictAttachment?>)
    modifies manager, target
    ensures target.attachment == if hs == [] then old(target.attachment) else hs[|hs| - 1]
    ensures Snapshot(target.attachment) == old(SetHistory.Final(Snapshot(target.attachment), Snapshots(hs)))
    ensures old(manager.pendingDelete) <= manager.pendingDelete
    ensures forall i :: |old(manager.pendingDelete)| <= i < |manager.pendingDelete| ==> fresh(manager.pendingDelete[i])
    ensures EntriesOf(manager.pendingDelete)
            == old(EntriesOf(manager.pendingDelete) + SetHistory.Replay(Snapshot(target.attachment), Snapshots(hs)))
    decreases |hs|
  {
    if hs != [] {
      ghost var live := Snapshot(target.attachment);
      ghost var history := Snapshots(hs);
      ghost var q0 := EntriesOf(manager.pendingDelete);
      ghost var first := SetHistory.Step(live, history[0]);
      ghost var rest := SetHistory.Replay(history[0], history[1..]);
      assert SetHistory.Replay(live, history) == first + rest;
      assert (q0 + first) + rest == q0 + (first + rest);
      Assign(manager, target, hs[0]);
      assert EntriesOf(manager.pendingDelete) == q0 + first;
      assert Snapshot(target.attachment) == history[0];
      assert Snapshots(hs[1..]) == history[1..];
      AssignAll(manager, target, hs[1..]);
      assert target.attachment == hs[|hs| - 1] by {
        if hs[1..] != [] {
          assert hs[1..][|hs[1..]| - 1] == hs[|hs| - 1];
        }
      }
      assert EntriesOf(manager.pendingDelete) == (q0 + first) + rest;
      assert SetHistory.Final(history[0], history[1..]) == SetHistory.Final(live, history);
    }
  }

  /** Assigning `a`, replacing it by `b` and clearing the column: this
      listener queues a copy of `b` alone, since it does not act on the
      replacement of `a`. */
  method AssignReplaceClear(manager: StoreManager, target: Owner, a: MutableDictAttachment, b: MutableDictAttachment)
    requires target.attachment == null
    modifies manager, target
    ensures target.attachment == null
    ensures EntriesOf(manager.pendingDelete) == old(EntriesOf(manager.pendingDelete)) + [b.entries]
  {
    ghost var q0 := EntriesOf(manager.pendingDelete);
    Assign(manager, target, a);
    assert EntriesOf(manager.pendingDelete) == q0;
    Assign(manager, target, b);
    assert EntriesOf(manager.pendingDelete) == q0;
    Assign(manager, target, null);
  }
}
