/** The performance page's legend colours: one colour per legend label, handed
    out round-robin from a fixed palette in the order labels first appear. */
module LegendColors {
  import opened Seqs
  import opened Folders

  /** The ten colours, in the order they are handed out. */
  const Palette: seq<string> := ["#0000FF", "#FF0000", "#FFA500", "#008000", "#800080",
                                 "#A52A2A", "#FFC0CB", "#808080", "#808000", "#00FFFF"]

  /** The palette holds ten different colours. */
  lemma PaletteDistinct()
    ensures |Palette| == 10 && Distinct(Palette)
  {
  }

  /** The label a log's line carries: model, variant, model year, battery,
      rear motor and acceleration mode of its folder, separated by spaces. */
  function LegendLabel(f: Folder): string {
    f.info.model + " " + f.info.variant + " " + f.info.modelYear + " " + f.info.battery
      + " " + f.info.rearMotor + " " + f.info.accelerationMode
  }

  /** The labels in the order they first appear. */
  function FirstSeen(labels: seq<string>): (r: seq<string>)
    ensures Distinct(r)
    ensures forall x :: x in r <==> x in labels
  {
    if labels == [] then []
    else
      var init := labels[..|labels| - 1];
      var last := labels[|labels| - 1];
      var p := FirstSeen(init);
      assert forall x :: x in labels <==> x in init || x == last;
      if last in p then p else p + [last]
  }

  /** The map after colouring `order` one label at a time: the label at
      position i gets palette colour i mod 10. */
  function ColorsFor(order: seq<string>): map<string, string> {
    if order == [] then map[]
    else ColorsFor(order[..|order| - 1])[order[|order| - 1] := Palette[(|order| - 1) % |Palette|]]
  }

  /** The map has the labels of `order` as keys, gives the label at position i
      colour i mod 10, and has as many entries as labels. */
  lemma {:induction false} ColorsForSpec(order: seq<string>)
    requires Distinct(order)
    ensures ColorsFor(order).Keys == set x | x in order
    ensures |ColorsFor(order)| == |order|
    ensures forall i :: 0 <= i < |order| ==> ColorsFor(order)[order[i]] == Palette[i % 10]
  {
    if order != [] {
      var init := order[..|order| - 1];
      ColorsForSpec(init);
      assert order[|order| - 1] !in init;
      assert (set x | x in order) == (set x | x in init) + {order[|order| - 1]};
      forall i | 0 <= i < |order| - 1
        ensures ColorsFor(order)[order[i]] == Palette[i % 10]
      {
        assert order[i] == init[i];
      }
    }
  }

  /** Two labels share a colour exactly when their positions in first-seen
      order differ by a multiple of ten. */
  lemma SameColorIff(order: seq<string>, i: nat, j: nat)
    requires Distinct(order) && i < |order| && j < |order|
    ensures order[i] in ColorsFor(order) && order[j] in ColorsFor(order)
      && (ColorsFor(order)[order[i]] == ColorsFor(order)[order[j]] <==> i % 10 == j % 10)
  {
    ColorsForSpec(order);
    PaletteDistinct();
  }

  /** One more label extends the first-seen order when it is new. */
  lemma FirstSeenStep(labels: seq<string>, i: nat)
    requires i < |labels|
    ensures FirstSeen(labels[..i + 1]) ==
      if labels[i] in FirstSeen(labels[..i]) then FirstSeen(labels[..i]) else FirstSeen(labels[..i]) + [labels[i]]
  {
    assert labels[..i + 1][..i] == labels[..i];
  }

  /** `folder_colors`, a dictionary the page fills as it meets labels. */
  class ColorMap {
    var colors: map<string, string>
    /** The labels in the order they were given colours. */
    ghost var order: seq<string>

    ghost predicate Valid()
      reads this
    {
      Distinct(order) && colors == ColorsFor(order)
    }

    constructor()
      ensures Valid() && colors == map[] && order == []
    {
      colors := map[];
      order := [];
    }

    /** A label not seen before gets palette colour n mod 10, n being the
        number of labels coloured so far; a label seen before keeps its
        colour. */
    method Assign(name: string) returns (color: string)
      requires Valid()
      modifies this
      ensures Valid()
      ensures name in old(colors) ==> colors == old(colors) && order == old(order)
      ensures name !in old(colors) ==>
        && order == old(order) + [name]
        && colors == old(colors)[name := Palette[|old(colors)| % 10]]
      ensures name in colors && color == colors[name]
      ensures name in old(colors) <==> name in old(order)
      ensures forall k :: k in old(colors) ==> k in colors && colors[k] == old(colors)[k]
    {
      ColorsForSpec(order);
      if name !in colors {
        colors := colors[name := Palette[|colors| % |Palette|]];
        order := order + [name];
        assert order[..|order| - 1] == old(order);
      }
      color := colors[name];
    }
  }

  /** The colours handed to the first `i` files are their labels' entries. */
  predicate Colored(colors: map<string, string>, labels: seq<string>, used: seq<string>, i: nat)
    requires i <= |labels|
  {
    |used| == i && forall j :: 0 <= j < i ==> labels[j] in colors && used[j] == colors[labels[j]]
  }

  /** Colouring one more file keeps the earlier files' colours, since no
      entry of the map changes. */
  lemma ColoredStep(before: map<string, string>, after: map<string, string>,
                    labels: seq<string>, used: seq<string>, i: nat, c: string)
    requires i < |labels| && Colored(before, labels, used, i)
    requires forall k :: k in before ==> k in after && after[k] == before[k]
    requires labels[i] in after && c == after[labels[i]]
    ensures Colored(after, labels, used + [c], i + 1)
  {
  }

  /** The colouring loop over the files to plot, from an empty map: one label
      per file. The map ends as the colouring of the labels in first-seen
      order, and each file's colour is its label's entry. */
  method AssignEach(cm: ColorMap, labels: seq<string>) returns (used: seq<string>)
    requires cm.Valid() && cm.order == []
    modifies cm
    ensures cm.Valid() && cm.order == FirstSeen(labels)
    ensures Colored(cm.colors, labels, used, |labels|)
  {
    used := [];
    for i := 0 to |labels|
      invariant cm.Valid() && cm.order == FirstSeen(labels[..i])
      invariant Colored(cm.colors, labels, used, i)
    {
      FirstSeenStep(labels, i);
      ghost var before := cm.colors;
      var c := cm.Assign(labels[i]);
      ColoredStep(before, cm.colors, labels, used, i, c);
      used := used + [c];
    }
    assert labels[..|labels|] == labels;
  }

  /** `folder_colors = {}` followed by the colouring loop. */
  method AssignAll(labels: seq<string>) returns (cm: ColorMap, used: seq<string>)
    ensures fresh(cm) && cm.Valid()
    ensures cm.order == FirstSeen(labels) && cm.colors == ColorsFor(FirstSeen(labels))
    ensures Colored(cm.colors, labels, used, |labels|)
  {
    cm := new ColorMap();
    used := AssignEach(cm, labels);
  }
}
