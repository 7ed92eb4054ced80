/** The numbered markers of the editor page: the marker list together with
    the running counter `currentMarkNumber`. */
module Markers {

  import opened Geometry

  /** One annotation: a position in image-pixel space and its number. */
  datatype Marker = Marker(position: Point, number: int)

  /** The marker list and the number given to the most recent marker. */
  datatype Store = Store(markers: seq<Marker>, counter: int)

  /** The numbering discipline: the counter is the number of markers, and
      the marker at index i carries the number i + 1. */
  predicate Numbered(st: Store) {
    && st.counter == |st.markers|
    && forall i :: 0 <= i < |st.markers| ==> st.markers[i].number == i + 1
  }

  /** The store after a photo is picked: no markers, counter zero. */
  function Empty(): (st: Store)
    ensures Numbered(st)
    ensures |st.markers| == 0
  {
    Store([], 0)
  }

  /** AddMarker's bookkeeping: increment the counter, then append one
      marker at `position` numbered with the new counter value. */
  function Append(st: Store, position: Point): (r: Store)
    ensures r.counter == st.counter + 1
    ensures |r.markers| == |st.markers| + 1
    ensures r.markers[..|st.markers|] == st.markers
    ensures r.markers[|st.markers|] == Marker(position, r.counter)
  {
    var counter := st.counter + 1;
    Store(st.markers + [Marker(position, counter)], counter)
  }

  /** The undo button: on an empty list nothing changes; otherwise the last
      marker is removed and the counter goes down by one unless it is
      already zero. */
  function UndoLast(st: Store): (r: Store)
    ensures |st.markers| == 0 ==> r == st
    ensures |st.markers| > 0 ==> r.markers == st.markers[..|st.markers| - 1]
    ensures |st.markers| > 0 && st.counter > 0 ==> r.counter == st.counter - 1
    ensures |st.markers| > 0 && st.counter <= 0 ==> r.counter == st.counter
  {
    if |st.markers| > 0 then
      Store(st.markers[..|st.markers| - 1], if st.counter > 0 then st.counter - 1 else st.counter)
    else
      st
  }

  /** Appending keeps the numbering discipline. */
  lemma AppendKeepsNumbered(st: Store, position: Point)
    requires Numbered(st)
    ensures Numbered(Append(st, position))
  {
    var r := Append(st, position);
    forall i | 0 <= i < |r.markers|
      ensures r.markers[i].number == i + 1
    {
      if i < |st.markers| {
        assert r.markers[i] == r.markers[..|st.markers|][i];
      }
    }
  }

  /** Undoing keeps the numbering discipline. */
  lemma UndoKeepsNumbered(st: Store)
    requires Numbered(st)
    ensures Numbered(UndoLast(st))
  {
  }

  /** Undo after an append restores the store exactly, for any counter
      that is not negative. */
  lemma UndoCancelsAppend(st: Store, position: Point)
    requires st.counter >= 0
    ensures UndoLast(Append(st, position)) == st
  {
    var r := Append(st, position);
    assert r.markers[..|r.markers| - 1] == st.markers;
  }

  /** Under the numbering discipline undo is the exact inverse of append:
      appending the removed marker's position gives the store back. */
  lemma AppendCancelsUndo(st: Store)
    requires Numbered(st)
    requires |st.markers| > 0
    ensures Append(UndoLast(st), st.markers[|st.markers| - 1].position) == st
  {
    var n := |st.markers|;
    var r := Append(UndoLast(st), st.markers[n - 1].position);
    assert r.markers == st.markers[..n - 1] + [st.markers[n - 1]];
    assert st.markers[..n - 1] + [st.markers[n - 1]] == st.markers;
  }
}
