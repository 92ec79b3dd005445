/** The browser's selection state (`state` in app.js) and the event handlers
    that change it. What the drawing shows is recorded in ghost fields: the
    subset the heatmap draws, the details panel, the highlighted cell and
    the TF of the bar chart. */
module Interaction {
  import opened Seqs
  import opened Records
  import opened View

  /** How the details panel presents a record. */
  datatype Mode = Hover | Pin

  /** The details panel: the empty placeholder, or one record. */
  datatype Details = NoSelection | Showing(cell: Cell, mode: Mode)

  /** The number of TFs shown before the selector is touched. */
  const InitialTfCount: nat := 40

  class State {
    /** The loaded summary document (`state.data`). */
    const data: Dataset
    var tfCount: nat
    var pinned: Option<Key>
    var hovered: Option<Cell>

    /** The subset last drawn, which the cell handlers see. */
    ghost var view: Dataset
    ghost var details: Details
    /** The cell drawn with the `pinned` class, if any. */
    ghost var highlighted: Option<Key>
    /** The TF of the bar chart; none when drawn for an empty TF list. */
    ghost var bars: Option<string>

    /** The drawing agrees with the state: the heatmap shows the current
        subset, a cell is highlighted exactly when one is pinned, and then
        the details show that cell as pinned and the bars show its TF; the
        details show a pinned record only while one is pinned. */
    ghost predicate Valid()
      reads this
    {
      && view == Subset(data, tfCount)
      && highlighted == pinned
      && (pinned.Some? ==>
            details.Showing? && details.mode == Pin && KeyOf(details.cell) == pinned.value
            && bars == Some(pinned.value.1))
      && (details.Showing? && details.mode == Pin ==> pinned.Some?)
    }

    /** Loading the document, then `wireUI` and the first `render`. */
    constructor(loaded: Dataset)
      ensures data == loaded && tfCount == InitialTfCount && pinned.None? && hovered.None?
      ensures view == Subset(loaded, InitialTfCount) && details == NoSelection
      ensures highlighted.None? && bars == FirstTf(view)
      ensures Valid()
    {
      data := loaded;
      tfCount := InitialTfCount;
      pinned := None;
      hovered := None;
      view := Subset(loaded, InitialTfCount);
      details := NoSelection;
      highlighted := None;
      bars := FirstTf(Subset(loaded, InitialTfCount));
    }

    /** `render`: redraw from a fresh subset, bars on its first TF, details
        emptied; no cell carries the `pinned` class after the redraw. The
        selection fields are left as they are. */
    method Render()
      modifies this
      ensures view == Subset(data, tfCount) && bars == FirstTf(view)
      ensures details == NoSelection && highlighted.None?
      ensures tfCount == old(tfCount) && pinned == old(pinned) && hovered == old(hovered)
    {
      view := Subset(data, tfCount);
      bars := FirstTf(view);
      details := NoSelection;
      highlighted := None;
    }

    /** Pointer over cell `d`: it becomes the hovered record; the details
        follow it only while nothing is pinned. */
    method MouseMove(d: Cell)
      modifies this
      ensures hovered == Some(d)
      ensures details == (if old(pinned).None? then Showing(d, Hover) else old(details))
      ensures pinned == old(pinned) && tfCount == old(tfCount) && view == old(view)
      ensures highlighted == old(highlighted) && bars == old(bars)
      ensures old(Valid()) ==> Valid()
    {
      hovered := Some(d);
      if pinned.None? {
        details := Showing(d, Hover);
      }
    }

    /** Pointer leaving a cell: nothing is hovered; the details empty only
        while nothing is pinned. */
    method MouseLeave()
      modifies this
      ensures hovered.None?
      ensures details == (if old(pinned).None? then NoSelection else old(details))
      ensures pinned == old(pinned) && tfCount == old(tfCount) && view == old(view)
      ensures highlighted == old(highlighted) && bars == old(bars)
      ensures old(Valid()) ==> Valid()
    {
      hovered := None;
      if pinned.None? {
        details := NoSelection;
      }
    }

    /** Click on cell `d`: on the pinned cell it unpins, shows the hovered
        record (or nothing) and puts the bars back on the first TF; on any
        other cell it pins that pair, highlights only it, shows it as pinned
        and puts its TF on the bars. */
    method Click(d: Cell)
      modifies this
      ensures old(pinned) == Some(KeyOf(d)) ==>
                && pinned.None? && highlighted.None? && bars == FirstTf(view)
                && details == (if hovered.Some? then Showing(hovered.value, Hover) else NoSelection)
      ensures old(pinned) != Some(KeyOf(d)) ==>
                pinned == Some(KeyOf(d)) && highlighted == Some(KeyOf(d)) && details == Showing(d, Pin) && bars == Some(d.tf)
      ensures hovered == old(hovered) && tfCount == old(tfCount) && view == old(view)
      ensures old(Valid()) ==> Valid()
    {
      if pinned.Some? && pinned.value.0 == d.tissue && pinned.value.1 == d.tf {
        pinned := None;
        highlighted := None;
        details := if hovered.Some? then Showing(hovered.value, Hover) else NoSelection;
        bars := FirstTf(view);
      } else {
        pinned := Some((d.tissue, d.tf));
        highlighted := Some((d.tissue, d.tf));
        details := Showing(d, Pin);
        bars := Some(d.tf);
      }
    }

    /** Clicking the same cell twice, starting from it not being pinned,
        leaves nothing pinned and the bars on the first TF. */
    method ClickTwice(d: Cell)
      modifies this
      requires pinned != Some(KeyOf(d))
      ensures pinned.None? && highlighted.None? && bars == FirstTf(view)
      ensures details == (if hovered.Some? then Showing(hovered.value, Hover) else NoSelection)
      ensures hovered == old(hovered) && tfCount == old(tfCount) && view == old(view)
      ensures old(Valid()) ==> Valid()
    {
      Click(d);
      Click(d);
    }

    /** A new value of the TF-count selector: unpin, then render. */
    method ChangeTfCount(n: nat)
      modifies this
      ensures tfCount == n && pinned.None? && hovered == old(hovered)
      ensures view == Subset(data, n) && bars == FirstTf(view) && details == NoSelection && highlighted.None?
      ensures Valid()
    {
      tfCount := n;
      pinned := None;
      Render();
    }

    /** The clear-pin button: unpin, remove the highlight, empty the details;
        the TF count and the bars stay as they are. */
    method ClearPin()
      modifies this
      ensures pinned.None? && highlighted.None? && details == NoSelection
      ensures tfCount == old(tfCount) && hovered == old(hovered) && view == old(view) && bars == old(bars)
      ensures old(Valid()) ==> Valid()
    {
      pinned := None;
      highlighted := None;
      details := NoSelection;
    }

    /** The window resize listener as written: render only, so a pin
        survives the redraw that removed its highlight and details. */
    method Resize()
      modifies this
      ensures pinned == old(pinned) && tfCount == old(tfCount) && hovered == old(hovered)
      ensures view == Subset(data, tfCount) && bars == FirstTf(view) && details == NoSelection && highlighted.None?
      ensures Valid() <==> pinned.None?
    {
      Render();
    }

    /** The resize listener as the design describes it: the pin is cleared
        along with the redraw, so the state stays consistent. */
    method ResizeClearingPin()
      modifies this
      ensures pinned.None? && tfCount == old(tfCount) && hovered == old(hovered)
      ensures view == Subset(data, tfCount) && bars == FirstTf(view) && details == NoSelection && highlighted.None?
      ensures Valid()
    {
      pinned := None;
      Render();
    }
  }

  /** A one-cell document. */
  function OneCellDocument(c: Cell): Dataset {
    Dataset([c.tissue], [c.tf], [c], [], [], Some(c.total))
  }

  /** Pin a cell, resize, hover it: the pin is still set but nothing shows
      it, and the hover is ignored, so the details stay empty. */
  method StalePinAfterResize(c: Cell) returns (s: State)
    ensures s.pinned == Some(KeyOf(c)) && s.highlighted.None?
    ensures s.hovered == Some(c) && s.details == NoSelection
    ensures !s.Valid()
  {
    s := new State(OneCellDocument(c));
    s.Click(c);
    s.Resize();
    s.MouseMove(c);
  }

  /** The same steps with the corrected listener: the hover shows the cell. */
  method HoverAfterResizeClearingPin(c: Cell) returns (s: State)
    ensures s.pinned.None? && s.highlighted.None?
    ensures s.hovered == Some(c) && s.details == Showing(c, Hover)
    ensures s.Valid()
  {
    s := new State(OneCellDocument(c));
    s.Click(c);
    s.ResizeClearingPin();
    s.MouseMove(c);
  }
}
