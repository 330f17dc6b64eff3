/** The ten preset list colours and the colour picker's view of them. */
module Palette {
  import opened Wrappers
  import opened Records

  /** presetColors, in picker order. */
  const Colours: seq<Colour> := [
    "#ff4d6d", "#ffb84d", "#4dff4d", "#4db8ff", "#b84dff",
    "#ff4dff", "#ffff4d", "#b8ff4d", "#4dffff", "#ff944d"
  ]

  /** The colours held by some list. */
  function UsedColours(ls: seq<TaskList>): (used: set<Colour>)
    ensures forall i :: 0 <= i < |ls| ==> ls[i].color in used
    ensures forall c :: c in used ==> exists i :: 0 <= i < |ls| && ls[i].color == c
  {
    set i | 0 <= i < |ls| :: ls[i].color
  }

  /** The swatches the picker leaves enabled, in palette order. */
  function AvailableColours(ls: seq<TaskList>): (avail: seq<Colour>)
    ensures forall c :: c in avail <==> c in Colours && c !in UsedColours(ls)
  {
    FilterUnused(Colours, UsedColours(ls))
  }

  function FilterUnused(cs: seq<Colour>, used: set<Colour>): (r: seq<Colour>)
    ensures forall c :: c in r <==> c in cs && c !in used
    ensures |r| <= |cs|
  {
    if cs == [] then []
    else (if cs[0] in used then [] else [cs[0]]) + FilterUnused(cs[1..], used)
  }

  /** The swatch the picker pre-selects: the first palette colour, and only
      when no list holds it; otherwise the user must click one. */
  function PreselectedColour(ls: seq<TaskList>): (r: Option<Colour>)
    ensures r.Some? ==> r.value == Colours[0] && r.value in AvailableColours(ls)
    ensures r.None? <==> Colours[0] in UsedColours(ls)
  {
    if Colours[0] in UsedColours(ls) then None else Some(Colours[0])
  }

  /** No two lists share a colour, and every colour is a preset one. */
  ghost predicate DistinctPaletteColours(ls: seq<TaskList>)
  {
    && (forall i :: 0 <= i < |ls| ==> ls[i].color in Colours)
    && (forall i, j :: 0 <= i < j < |ls| ==> ls[i].color != ls[j].color)
  }

  /** Adding a list whose colour the picker offered keeps colours distinct
      and inside the palette. */
  lemma AddAvailableKeepsDistinct(ls: seq<TaskList>, l: TaskList)
    requires DistinctPaletteColours(ls)
    requires l.color in AvailableColours(ls)
    ensures DistinctPaletteColours(ls + [l])
  {
  }

  /** Once a list holds a colour, the picker no longer offers it, and every
      other colour keeps its availability. */
  lemma ColourTakenAfterAdd(ls: seq<TaskList>, l: TaskList, c: Colour)
    ensures l.color !in AvailableColours(ls + [l])
    ensures c != l.color ==> (c in AvailableColours(ls + [l]) <==> c in AvailableColours(ls))
  {
    assert (ls + [l])[|ls|] == l;
    if c != l.color && c in UsedColours(ls) {
      var i :| 0 <= i < |ls| && ls[i].color == c;
      assert (ls + [l])[i] == ls[i];
    }
  }

  /** Distinct palette colours bound the number of lists by the palette size. */
  lemma {:induction false} ListCountBounded(ls: seq<TaskList>)
    requires DistinctPaletteColours(ls)
    ensures |ls| <= |Colours|
  {
    DistinctColourCount(ls);
    var pal := set c | c in Colours;
    assert UsedColours(ls) <= pal;
    PaletteSetSize(Colours);
    SubsetSize(UsedColours(ls), pal);
  }

  lemma {:induction false} DistinctColourCount(ls: seq<TaskList>)
    requires forall i, j :: 0 <= i < j < |ls| ==> ls[i].color != ls[j].color
    ensures |UsedColours(ls)| == |ls|
  {
    if ls != [] {
      var init := ls[..|ls| - 1];
      DistinctColourCount(init);
      assert UsedColours(ls) == UsedColours(init) + {ls[|ls| - 1].color};
      assert ls[|ls| - 1].color !in UsedColours(init);
    }
  }

  lemma {:induction false} PaletteSetSize(cs: seq<Colour>)
    ensures |set c | c in cs| <= |cs|
  {
    if cs != [] {
      PaletteSetSize(cs[1..]);
      assert (set c | c in cs) == (set c | c in cs[1..]) + {cs[0]};
    }
  }

  lemma {:induction false} SubsetSize<T>(a: set<T>, b: set<T>)
    requires a <= b
    ensures |a| <= |b|
  {
    if a != {} {
      var x :| x in a;
      SubsetSize(a - {x}, b - {x});
    }
  }
}
