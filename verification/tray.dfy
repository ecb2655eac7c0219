/**
 * The paging of the history tray's fan, components/image-history-tray.tsx:
 * at most seven saved versions are fanned out, starting at a start index
 * into the newest-first log, shown oldest first. Layout, rotation and hover
 * effects are not modelled. The tray works on any log, so items are generic.
 */
module Tray {

  import opened Wrappers
  import opened Seqs

  const MaxFanItems: nat := 7

  datatype Fan = Fan(expanded: bool, start: nat)

  /** `Math.max(0, x)`. */
  function NonNeg(x: int): nat
  {
    if x > 0 then x else 0
  }

  /** `Math.max(0, length - 7)`: the last start index that fills the fan. */
  function MaxStart(n: nat): nat
  {
    NonNeg(n - MaxFanItems)
  }

  function MinNat(a: nat, b: nat): nat
  {
    if a <= b then a else b
  }

  /** `log.slice(start, start + 7).reverse()`; `slice` clamps both ends to the length. */
  function Window<T>(log: seq<T>, start: nat): seq<T>
  {
    var lo := MinNat(start, |log|);
    var hi := MinNat(start + MaxFanItems, |log|);
    Reverse(log[lo..hi])
  }

  /**
   * The fan shows the logged items with index in `[start, start + 7)`, each
   * once, the highest index first.
   */
  lemma WindowSpec<T>(log: seq<T>, start: nat)
    ensures var w := Window(log, start);
      && |w| == (if start >= |log| then 0 else MinNat(MaxFanItems, |log| - start))
      && (forall i :: 0 <= i < |w| ==> start <= start + |w| - 1 - i < |log| && w[i] == log[start + |w| - 1 - i])
      && (forall j :: start <= j < |log| && j < start + MaxFanItems ==> w[start + |w| - 1 - j] == log[j])
  {
  }

  predicate CanGoPrev(f: Fan)
  {
    f.start > 0
  }

  predicate CanGoNext(f: Fan, n: nat)
  {
    f.start + MaxFanItems < n
  }

  function Prev(f: Fan): Fan
  {
    if CanGoPrev(f) then f.(start := NonNeg(f.start - 1)) else f
  }

  function Next(f: Fan, n: nat): Fan
  {
    if CanGoNext(f, n) then f.(start := f.start + 1) else f
  }

  /** The effect that pulls the start back when the log shrinks under an expanded fan. */
  function Clamp(f: Fan, n: nat): Fan
  {
    if f.expanded && f.start > MaxStart(n) then f.(start := MaxStart(n)) else f
  }

  /** Collapsing resets the start. */
  function SetExpanded(f: Fan, expanded: bool): Fan
  {
    if expanded then f.(expanded := true) else Fan(false, 0)
  }

  /** The start stays in range under paging, and paging moves by exactly one. */
  lemma PagingInRange(f: Fan, n: nat)
    requires f.start <= MaxStart(n)
    ensures Next(f, n).start <= MaxStart(n) && Prev(f).start <= MaxStart(n)
    ensures CanGoNext(f, n) <==> f.start < MaxStart(n)
    ensures CanGoNext(f, n) ==> Next(f, n).start == f.start + 1
    ensures CanGoPrev(f) ==> Prev(f).start + 1 == f.start
  {
  }

  /** Next and Prev undo each other wherever they are enabled. */
  lemma PagingInverse(f: Fan, n: nat)
    requires f.start <= MaxStart(n)
    ensures CanGoNext(f, n) ==> Prev(Next(f, n)) == f
    ensures CanGoPrev(f) ==> Next(Prev(f), n) == f
  {
  }

  /** With the start in range the fan is full: seven items, or the whole log when shorter. */
  lemma WindowFull<T>(log: seq<T>, f: Fan)
    requires f.start <= MaxStart(|log|)
    ensures |Window(log, f.start)| == MinNat(MaxFanItems, |log|)
  {
    WindowSpec(log, f.start);
  }

  /** Clamping brings an expanded fan's start into range and changes nothing else. */
  lemma ClampSpec(f: Fan, n: nat)
    ensures var c := Clamp(f, n);
      && c.expanded == f.expanded
      && (f.expanded ==> c.start <= MaxStart(n))
      && (f.start <= MaxStart(n) || !f.expanded ==> c == f)
      && Clamp(c, n) == c
  {
  }

  /** A collapsed fan starts again at the newest version. */
  lemma CollapseResets(f: Fan)
    ensures SetExpanded(f, false).start == 0 && !SetExpanded(f, false).expanded
    ensures SetExpanded(f, true).start == f.start
  {
  }

  /** The "first-last of n" label, shown only when the log overflows the fan. */
  datatype Label = Label(first: nat, last: nat, total: nat)

  function PageLabel(f: Fan, n: nat): Option<Label>
  {
    if n > MaxFanItems then Some(Label(f.start + 1, MinNat(f.start + MaxFanItems, n), n)) else None
  }

  /** With the start in range, the label counts exactly the items in the fan. */
  lemma LabelCountsWindow<T>(log: seq<T>, f: Fan)
    requires f.start <= MaxStart(|log|)
    ensures var l := PageLabel(f, |log|);
      && (l.Some? <==> |log| > MaxFanItems)
      && (l.Some? ==> l.value.first <= l.value.last <= l.value.total
                      && l.value.last - l.value.first + 1 == |Window(log, f.start)|)
  {
    WindowSpec(log, f.start);
  }
}
