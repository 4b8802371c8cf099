/** A vertex with its social attributes and layout position (Models/Node.cs).
    Doubles are modelled as reals; a null optional argument is `None`. */
module Nodes {
  import opened Wrappers

  /** The attributes `Update` may change. */
  datatype Attributes = Attributes(Label: string, Activity: real, Interaction: real)

  /** The effect of `Update(label, activity, interaction)` on the attributes:
      every provided value replaces the old one, every omitted one is kept. */
  function ApplyUpdate(a: Attributes, newLabel: Option<string>, newActivity: Option<real>,
                       newInteraction: Option<real>): (r: Attributes)
    ensures newLabel.Some? ==> r.Label == newLabel.value
    ensures newLabel.None? ==> r.Label == a.Label
    ensures newActivity.Some? ==> r.Activity == newActivity.value
    ensures newActivity.None? ==> r.Activity == a.Activity
    ensures newInteraction.Some? ==> r.Interaction == newInteraction.value
    ensures newInteraction.None? ==> r.Interaction == a.Interaction
  {
    Attributes(
      if newLabel.Some? then newLabel.value else a.Label,
      if newActivity.Some? then newActivity.value else a.Activity,
      if newInteraction.Some? then newInteraction.value else a.Interaction)
  }

  /** An update with every argument omitted changes nothing. */
  lemma UpdateNothing(a: Attributes)
    ensures ApplyUpdate(a, None, None, None) == a
  {
  }

  /** Applying the same update twice is the same as applying it once. */
  lemma UpdateIdempotent(a: Attributes, newLabel: Option<string>, newActivity: Option<real>,
                         newInteraction: Option<real>)
    ensures var once := ApplyUpdate(a, newLabel, newActivity, newInteraction);
            ApplyUpdate(once, newLabel, newActivity, newInteraction) == once
  {
  }

  class Node {
    const Id: int
    var Label: string
    var Activity: real
    var Interaction: real
    var X: real
    var Y: real

    /** `new Node(id, label, activity, interaction, x = 0, y = 0)`. */
    constructor (id: int, labelText: string, activity: real, interaction: real,
                 x: real := 0.0, y: real := 0.0)
      ensures Id == id && Label == labelText
      ensures Activity == activity && Interaction == interaction
      ensures X == x && Y == y
    {
      Id := id;
      Label := labelText;
      Activity := activity;
      Interaction := interaction;
      X := x;
      Y := y;
    }

    ghost function Attrs(): Attributes
      reads this
    {
      Attributes(Label, Activity, Interaction)
    }

    /** Partial update of label, activity and interaction; the id and the position
        are never touched. */
    method Update(newLabel: Option<string>, newActivity: Option<real>, newInteraction: Option<real>)
      modifies this
      ensures Attrs() == ApplyUpdate(old(Attrs()), newLabel, newActivity, newInteraction)
      ensures X == old(X) && Y == old(Y)
    {
      if newLabel.Some? { Label := newLabel.value; }
      if newActivity.Some? { Activity := newActivity.value; }
      if newInteraction.Some? { Interaction := newInteraction.value; }
    }
  }
}
