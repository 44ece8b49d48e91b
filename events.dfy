/**
 * The two annotation notifications of the event bus: a change event and a
 * selection event. Each carries the token of the object that caused it and an
 * immutable copy of the annotations, made with `ImmutableList.copyOf`.
 */
module Events {
  import opened Wrappers

  /** The discriminator between `UIChangeEvent` and `UISelectionEvent`. */
  datatype EventKind = Change | Selection

  /** An event: its kind, its source token and its payload, a value no one can modify. */
  datatype UIEvent<S, A> = UIEvent(kind: EventKind, source: S, payload: seq<A>)

  /** The `NullPointerException`s `ImmutableList.copyOf` throws. */
  datatype CopyError = NullCollection | NullElement(index: nat)

  /** `payload` holds exactly the non-null elements `items`, in order and with the same count. */
  ghost predicate HoldsExactly<A>(payload: seq<A>, items: seq<Option<A>>) {
    |payload| == |items| && forall i :: 0 <= i < |items| ==> items[i] == Some(payload[i])
  }

  /**
   * `ImmutableList.copyOf(annotations)`: copies the caller's collection, in its
   * iteration order, into a new sequence; a null collection or a null element
   * (the first one, by index) makes it throw.
   */
  method CopyOf<A>(items: array?<Option<A>>) returns (r: Result<seq<A>, CopyError>)
    ensures items == null ==> r == Failure(NullCollection)
    ensures items != null && r.Success? ==> HoldsExactly(r.value, items[..])
    ensures items != null && r.Failure? ==>
      && r.error.NullElement? && r.error.index < items.Length && items[r.error.index].None?
      && forall j :: 0 <= j < r.error.index ==> items[j].Some?
  {
    if items == null {
      return Failure(NullCollection);
    }
    var copy: seq<A> := [];
    var i := 0;
    while i < items.Length
      invariant 0 <= i <= items.Length
      invariant HoldsExactly(copy, items[..i])
    {
      match items[i]
      case None =>
        return Failure(NullElement(i));
      case Some(a) =>
        copy := copy + [a];
      i := i + 1;
    }
    assert items[..i] == items[..];
    r := Success(copy);
  }

  /** `new AnnotationsChangedEvent(changeSource, annotations)`. */
  method NewAnnotationsChangedEvent<S, A>(changeSource: S, annotations: array?<Option<A>>)
    returns (r: Result<UIEvent<S, A>, CopyError>)
    ensures r.Success? ==> r.value.kind == Change && r.value.source == changeSource
    ensures r.Success? ==> annotations != null && HoldsExactly(r.value.payload, annotations[..])
    ensures r.Failure? ==> annotations == null || exists i :: 0 <= i < annotations.Length && annotations[i].None?
  {
    var copy := CopyOf(annotations);
    match copy
    case Failure(e) => r := Failure(e);
    case Success(payload) => r := Success(UIEvent(Change, changeSource, payload));
  }

  /** `new AnnotationsSelectedEvent(selectionSource, annotations)`. */
  method NewAnnotationsSelectedEvent<S, A>(selectionSource: S, annotations: array?<Option<A>>)
    returns (r: Result<UIEvent<S, A>, CopyError>)
    ensures r.Success? ==> r.value.kind == Selection && r.value.source == selectionSource
    ensures r.Success? ==> annotations != null && HoldsExactly(r.value.payload, annotations[..])
    ensures r.Failure? ==> annotations == null || exists i :: 0 <= i < annotations.Length && annotations[i].None?
  {
    var copy := CopyOf(annotations);
    match copy
    case Failure(e) => r := Failure(e);
    case Success(payload) => r := Success(UIEvent(Selection, selectionSource, payload));
  }

  /**
   * A change event is a snapshot: after it is made, the caller overwrites an
   * element of its collection, and the event still holds the old contents.
   */
  method ChangedEventIsSnapshot<S, A>(changeSource: S, annotations: array<Option<A>>, i: int, x: Option<A>)
    returns (r: Result<UIEvent<S, A>, CopyError>)
    requires 0 <= i < annotations.Length
    modifies annotations
    ensures annotations[i] == x
    ensures r.Success? ==> HoldsExactly(r.value.payload, old(annotations[..]))
  {
    r := NewAnnotationsChangedEvent(changeSource, annotations);
    annotations[i] := x;
  }

  /** The same for a selection event. */
  method SelectedEventIsSnapshot<S, A>(selectionSource: S, annotations: array<Option<A>>, i: int, x: Option<A>)
    returns (r: Result<UIEvent<S, A>, CopyError>)
    requires 0 <= i < annotations.Length
    modifies annotations
    ensures annotations[i] == x
    ensures r.Success? ==> HoldsExactly(r.value.payload, old(annotations[..]))
  {
    r := NewAnnotationsSelectedEvent(selectionSource, annotations);
    annotations[i] := x;
  }
}
