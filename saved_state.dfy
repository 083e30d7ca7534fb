/**
 * RandomSavedState: the animation state chained onto the parent view state, and its parcel
 * form (the parent state, then an int 1/0 for "finished", a long delay and the draw text).
 */
module SavedState {

  /** Java's int and long. */
  type Int = x: int | -0x8000_0000 <= x < 0x8000_0000
  type Long = x: int | -0x8000_0000_0000_0000 <= x < 0x8000_0000_0000_0000

  /** A state handed along the save/restore chain of a view hierarchy. */
  datatype Parcelable =
    | Empty                 // the framework's EMPTY_STATE, read back for a missing parent
    | Foreign(id: nat)      // any state that is not a RandomSavedState; opaque here
    | RandomSaved(superState: Parcelable, drawText: string, isFinish: bool, delayMillis: Long)

  /** One entry of a parcel; the parcel's byte layout is abstracted to typed entries. */
  datatype ParcelValue =
    | ParcelableValue(p: Parcelable)
    | IntValue(i: Int)
    | LongValue(l: Long)
    | StringValue(s: string)

  /** The entries writeToParcel appends for a RandomSavedState, in the order it writes them. */
  function Encoding(state: Parcelable): (vs: seq<ParcelValue>)
    requires state.RandomSaved?
    ensures |vs| == 4
  {
    [ParcelableValue(state.superState),
     IntValue(if state.isFinish then 1 else 0),
     LongValue(state.delayMillis),
     StringValue(state.drawText)]
  }

  /** A read moves past the entry under the cursor; at the end of the data it stays put. */
  function Next(vs: seq<ParcelValue>, pos: nat): nat
  {
    if pos < |vs| then pos + 1 else pos
  }

  // Each read yields the framework's default (EMPTY_STATE, 0, "") when the entry under the
  // cursor is missing or of another kind.

  function ParcelableAt(vs: seq<ParcelValue>, pos: nat): Parcelable
  {
    if pos < |vs| && vs[pos].ParcelableValue? then vs[pos].p else Empty
  }

  function IntAt(vs: seq<ParcelValue>, pos: nat): Int
  {
    if pos < |vs| && vs[pos].IntValue? then vs[pos].i else 0
  }

  function LongAt(vs: seq<ParcelValue>, pos: nat): Long
  {
    if pos < |vs| && vs[pos].LongValue? then vs[pos].l else 0
  }

  function StringAt(vs: seq<ParcelValue>, pos: nat): string
  {
    if pos < |vs| && vs[pos].StringValue? then vs[pos].s else ""
  }

  /**
   * What the parcel constructor of RandomSavedState reads from `pos` on: the parent state, an
   * int that means "finished" exactly when it is 1, a long and a string; and the new cursor.
   */
  function Decoding(vs: seq<ParcelValue>, pos: nat): (r: (Parcelable, nat))
    ensures r.0.RandomSaved?
    ensures pos <= r.1 <= pos + 4 && (pos + 4 <= |vs| ==> r.1 == pos + 4)
  {
    var p1 := Next(vs, pos);
    var p2 := Next(vs, p1);
    var p3 := Next(vs, p2);
    (RandomSaved(ParcelableAt(vs, pos), StringAt(vs, p3), 1 == IntAt(vs, p1), LongAt(vs, p2)),
     Next(vs, p3))
  }

  /** Reading back, at the same position, what was written gives the same state. */
  lemma DecodingEncoding(prefix: seq<ParcelValue>, state: Parcelable, suffix: seq<ParcelValue>)
    requires state.RandomSaved?
    ensures Decoding(prefix + Encoding(state) + suffix, |prefix|) == (state, |prefix| + 4)
  {
    var vs := prefix + Encoding(state) + suffix;
    var n := |prefix|;
    assert vs[n] == ParcelableValue(state.superState);
    assert vs[n + 1] == IntValue(if state.isFinish then 1 else 0);
    assert vs[n + 2] == LongValue(state.delayMillis);
    assert vs[n + 3] == StringValue(state.drawText);
  }

  /** A parcel: entries appended by writes, consumed by reads at a cursor. */
  class Parcel {
    var values: seq<ParcelValue>
    var position: nat

    constructor ()
      ensures values == [] && position == 0
    {
      values, position := [], 0;
    }

    method WriteParcelable(p: Parcelable)
      modifies this`values
      ensures values == old(values) + [ParcelableValue(p)]
    {
      values := values + [ParcelableValue(p)];
    }

    method WriteInt(i: Int)
      modifies this`values
      ensures values == old(values) + [IntValue(i)]
    {
      values := values + [IntValue(i)];
    }

    method WriteLong(l: Long)
      modifies this`values
      ensures values == old(values) + [LongValue(l)]
    {
      values := values + [LongValue(l)];
    }

    method WriteString(s: string)
      modifies this`values
      ensures values == old(values) + [StringValue(s)]
    {
      values := values + [StringValue(s)];
    }

    method ReadParcelable() returns (p: Parcelable)
      modifies this`position
      ensures p == ParcelableAt(values, old(position)) && position == Next(values, old(position))
    {
      p := ParcelableAt(values, position);
      position := Next(values, position);
    }

    method ReadInt() returns (i: Int)
      modifies this`position
      ensures i == IntAt(values, old(position)) && position == Next(values, old(position))
    {
      i := IntAt(values, position);
      position := Next(values, position);
    }

    method ReadLong() returns (l: Long)
      modifies this`position
      ensures l == LongAt(values, old(position)) && position == Next(values, old(position))
    {
      l := LongAt(values, position);
      position := Next(values, position);
    }

    method ReadString() returns (s: string)
      modifies this`position
      ensures s == StringAt(values, old(position)) && position == Next(values, old(position))
    {
      s := StringAt(values, position);
      position := Next(values, position);
    }
  }

  /** RandomSavedState.writeToParcel: the parent state first, then the three fields. */
  method WriteToParcel(state: Parcelable, out: Parcel)
    requires state.RandomSaved?
    modifies out`values
    ensures out.values == old(out.values) + Encoding(state)
  {
    out.WriteParcelable(state.superState);
    out.WriteInt(if state.isFinish then 1 else 0);
    out.WriteLong(state.delayMillis);
    out.WriteString(state.drawText);
  }

  /** CREATOR.createFromParcel: reads the fields back in the order they were written. */
  method CreateFromParcel(source: Parcel) returns (state: Parcelable)
    modifies source`position
    ensures (state, source.position) == Decoding(source.values, old(source.position))
  {
    var superState := source.ReadParcelable();
    var finished := source.ReadInt();
    var delay := source.ReadLong();
    var text := source.ReadString();
    state := RandomSaved(superState, text, 1 == finished, delay);
  }

  /** Marshalling a RandomSavedState into a new parcel and unmarshalling it gives it back. */
  method ParcelRoundTrip(state: Parcelable) returns (copy: Parcelable)
    requires state.RandomSaved?
    ensures copy == state
  {
    var parcel := new Parcel();
    WriteToParcel(state, parcel);
    copy := CreateFromParcel(parcel);
    DecodingEncoding([], state, []);
    assert [] + Encoding(state) + [] == parcel.values;
  }
}
