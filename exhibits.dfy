/** The exhibits page: a fixed catalogue of eight exhibits, each card
    coloured by its status; clicking a card opens a detail panel for that
    exhibit, and the panel's Close button dismisses it. */
module Exhibits {
  import opened Selection

  datatype Status = Operational | Maintenance | Defective

  /** A catalogue entry; its icon is presentation only and not modelled. */
  datatype Exhibit = Exhibit(name: string, status: Status)

  /** The `exhibits` catalogue, in grid order. */
  const Catalogue: seq<Exhibit> := [
    Exhibit("Physics and Mechanics", Operational),
    Exhibit("Space and Astronomy", Maintenance),
    Exhibit("Biology and Human Body", Operational),
    Exhibit("Chemistry", Operational),
    Exhibit("Robotics and Technology", Defective),
    Exhibit("Energy and Environment", Operational),
    Exhibit("Mathematics", Operational),
    Exhibit("History of Science", Operational)]

  /** The text colour class of a status line: green when operational, yellow
      under maintenance, red otherwise. */
  function StatusColour(s: Status): (colour: string)
    ensures colour == "text-green-400" <==> s == Operational
    ensures colour == "text-yellow-400" <==> s == Maintenance
    ensures colour == "text-red-400" <==> s == Defective
  {
    assert "text-green-400"[5] == 'g' && "text-yellow-400"[5] == 'y' && "text-red-400"[5] == 'r';
    match s
    case Operational => "text-green-400"
    case Maintenance => "text-yellow-400"
    case Defective => "text-red-400"
  }

  /** Each colour class belongs to exactly one status, so the colour tells
      the status apart. */
  lemma StatusColourIdentifiesStatus(s: Status, t: Status)
    ensures StatusColour(s) == StatusColour(t) <==> s == t
    ensures StatusColour(s) == "text-red-400" <==> s == Defective
  {
  }

  /** What the detail panel shows. */
  datatype Detail = Detail(title: string, status: Status)

  class ExhibitsPage {
    var selectedExhibit: Option<Exhibit>

    constructor ()
      ensures selectedExhibit == None
    {
      selectedExhibit := None;
    }

    /** Clicking the card of `Catalogue[i]` selects exactly that exhibit,
        replacing any earlier selection. */
    method Select(i: nat)
      requires i < |Catalogue|
      modifies this
      // One `Selection.Step`, so a run of clicks on this page is a
      // `Selection.Replay` session and the lemmas there apply to it.
      ensures selectedExhibit == Step(old(selectedExhibit), Pick(Catalogue[i]))
      ensures selectedExhibit == Some(Catalogue[i])
    {
      selectedExhibit := Step(selectedExhibit, Pick(Catalogue[i]));
    }

    /** The panel's Close button clears the selection. */
    method Close()
      modifies this
      // One `Selection.Step`, as for Select.
      ensures selectedExhibit == Step(old(selectedExhibit), Clear)
      ensures selectedExhibit == None
    {
      selectedExhibit := Step(selectedExhibit, Clear);
    }

    /** The detail panel is rendered exactly while an exhibit is selected and
        shows that exhibit's name and status. */
    function DetailPanel(): (panel: Option<Detail>)
      reads this
      ensures panel.Some? <==> selectedExhibit.Some?
      ensures panel.Some? ==> panel.value.title == selectedExhibit.value.name
      ensures panel.Some? ==> panel.value.status == selectedExhibit.value.status
    {
      match selectedExhibit
      case None => None
      case Some(e) => Some(Detail(e.name, e.status))
    }
  }
}
