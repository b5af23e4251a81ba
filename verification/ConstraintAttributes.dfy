/** SnapKit's attribute sets: a bit set, its decoding, the guard of `relatedTo`, and the pairing of the attributes of
    the two sides in `Constraint.init`. */
module ConstraintAttributes {
  import opened Options

  datatype LayoutAttribute =
    | Left | Top | Right | Bottom | Leading | Trailing | Width | Height | CenterX | CenterY
    | LastBaseline | FirstBaseline
    | LeftMargin | RightMargin | TopMargin | BottomMargin | LeadingMargin | TrailingMargin
    | CenterXWithinMargins | CenterYWithinMargins
    | NotAnAttribute

  // ---------- The bit set ----------

  type Attributes = bv64

  const NONE: Attributes := 0
  const EDGES: Attributes := 15
  const MARGINS: Attributes := 61440
  const ALL_BITS: Attributes := 0xF_FFFF

  /** The set of one attribute. */
  function Mask(a: LayoutAttribute): Attributes {
    match a
    case Left => 1
    case Top => 2
    case Right => 4
    case Bottom => 8
    case Leading => 16
    case Trailing => 32
    case Width => 64
    case Height => 128
    case CenterX => 256
    case CenterY => 512
    case LastBaseline => 1024
    case FirstBaseline => 2048
    case LeftMargin => 4096
    case RightMargin => 8192
    case TopMargin => 16384
    case BottomMargin => 32768
    case LeadingMargin => 65536
    case TrailingMargin => 131072
    case CenterXWithinMargins => 262144
    case CenterYWithinMargins => 524288
    case NotAnAttribute => 0
  }

  predicate Contains(raw: Attributes, mask: Attributes) {
    raw & mask == mask
  }

  function Union(a: Attributes, b: Attributes): Attributes {
    a | b
  }

  // The order in which the source tests them, in four groups.
  const GROUP1: seq<LayoutAttribute> := [Left, Top, Right, Bottom, Leading]
  const GROUP2: seq<LayoutAttribute> := [Trailing, Width, Height, CenterX, CenterY]
  const GROUP3: seq<LayoutAttribute> := [LastBaseline, FirstBaseline, LeftMargin, RightMargin, TopMargin]
  const GROUP4: seq<LayoutAttribute> :=
    [BottomMargin, LeadingMargin, TrailingMargin, CenterXWithinMargins, CenterYWithinMargins]
  const DECODING_ORDER: seq<LayoutAttribute> := (GROUP1 + GROUP2) + (GROUP3 + GROUP4)

  /** The attributes of `order` that pass a test, in order. */
  function Filtered(order: seq<LayoutAttribute>, test: LayoutAttribute -> bool): seq<LayoutAttribute> {
    if order == [] then []
    else (if test(order[0]) then [order[0]] else []) + Filtered(order[1..], test)
  }

  function LayoutAttributes(raw: Attributes): seq<LayoutAttribute> {
    Filtered(DECODING_ORDER, a => Contains(raw, Mask(a)))
  }

  /** Only the twenty known bits: what the named constants and their unions are made of. */
  predicate Known(raw: Attributes) {
    raw | ALL_BITS == ALL_BITS
  }

  ghost predicate NoDuplicates(s: seq<LayoutAttribute>) {
    forall i, j :: 0 <= i < j < |s| ==> s[i] != s[j]
  }

  lemma {:induction false} FilteredExactly(order: seq<LayoutAttribute>, test: LayoutAttribute -> bool)
    ensures forall a :: a in Filtered(order, test) <==> a in order && test(a)
    ensures NoDuplicates(order) ==> NoDuplicates(Filtered(order, test))
  {
    if order != [] {
      FilteredExactly(order[1..], test);
    }
  }

  lemma InGroup1(a: LayoutAttribute)
    ensures a in GROUP1 <==> a == Left || a == Top || a == Right || a == Bottom || a == Leading
    ensures NoDuplicates(GROUP1)
  {}

  lemma InGroup2(a: LayoutAttribute)
    ensures a in GROUP2 <==> a == Trailing || a == Width || a == Height || a == CenterX || a == CenterY
    ensures NoDuplicates(GROUP2)
  {}

  lemma InGroup3(a: LayoutAttribute)
    ensures a in GROUP3 <==>
      a == LastBaseline || a == FirstBaseline || a == LeftMargin || a == RightMargin || a == TopMargin
    ensures NoDuplicates(GROUP3)
  {}

  lemma InGroup4(a: LayoutAttribute)
    ensures a in GROUP4 <==>
      a == BottomMargin || a == LeadingMargin || a == TrailingMargin || a == CenterXWithinMargins
      || a == CenterYWithinMargins
    ensures NoDuplicates(GROUP4)
  {}

  lemma NoDuplicatesConcat(s: seq<LayoutAttribute>, t: seq<LayoutAttribute>)
    requires NoDuplicates(s) && NoDuplicates(t) && forall a :: a in s ==> a !in t
    ensures NoDuplicates(s + t)
    ensures forall a :: a in s + t <==> a in s || a in t
  {
    forall i, j | 0 <= i < j < |s + t| ensures (s + t)[i] != (s + t)[j] {
      if i < |s| <= j {
        assert s[i] in s && t[j - |s|] in t;
      }
    }
  }

  lemma GroupsApart(a: LayoutAttribute)
    ensures a in GROUP1 ==> a !in GROUP2 && a !in GROUP3 && a !in GROUP4
    ensures a in GROUP2 ==> a !in GROUP3 && a !in GROUP4
    ensures a in GROUP3 ==> a !in GROUP4
    ensures a in GROUP1 || a in GROUP2 || a in GROUP3 || a in GROUP4 <==> a != NotAnAttribute
  {
    InGroup1(a);
    InGroup2(a);
    InGroup3(a);
    InGroup4(a);
  }

  lemma FourGroups(g1: seq<LayoutAttribute>, g2: seq<LayoutAttribute>,
                   g3: seq<LayoutAttribute>, g4: seq<LayoutAttribute>)
    requires NoDuplicates(g1) && NoDuplicates(g2) && NoDuplicates(g3) && NoDuplicates(g4)
    requires forall a :: a in g1 ==> a !in g2 && a !in g3 && a !in g4
    requires forall a :: a in g2 ==> a !in g3 && a !in g4
    requires forall a :: a in g3 ==> a !in g4
    ensures NoDuplicates((g1 + g2) + (g3 + g4))
    ensures forall a :: a in (g1 + g2) + (g3 + g4) <==> a in g1 || a in g2 || a in g3 || a in g4
  {
    NoDuplicatesConcat(g1, g2);
    NoDuplicatesConcat(g3, g4);
    NoDuplicatesConcat(g1 + g2, g3 + g4);
  }

  lemma DecodingOrderIsComplete(a: LayoutAttribute)
    ensures a in DECODING_ORDER <==> a != NotAnAttribute
    ensures NoDuplicates(DECODING_ORDER)
  {
    InGroup1(a);
    InGroup2(a);
    InGroup3(a);
    InGroup4(a);
    forall b: LayoutAttribute
      ensures b in GROUP1 ==> b !in GROUP2 && b !in GROUP3 && b !in GROUP4
      ensures b in GROUP2 ==> b !in GROUP3 && b !in GROUP4
      ensures b in GROUP3 ==> b !in GROUP4
    {
      GroupsApart(b);
    }
    FourGroups(GROUP1, GROUP2, GROUP3, GROUP4);
    GroupsApart(a);
  }

  /** Decoding lists each attribute of the set, once. */
  lemma LayoutAttributesExactly(raw: Attributes, a: LayoutAttribute)
    ensures a in LayoutAttributes(raw) <==> a != NotAnAttribute && Contains(raw, Mask(a))
    ensures NoDuplicates(LayoutAttributes(raw))
  {
    FilteredExactly(DECODING_ORDER, b => Contains(raw, Mask(b)));
    DecodingOrderIsComplete(a);
  }

  /** A union decodes to the attributes of both sets. */
  lemma UnionExactly(x: Attributes, y: Attributes, a: LayoutAttribute)
    ensures a in LayoutAttributes(Union(x, y)) <==> a in LayoutAttributes(x) || a in LayoutAttributes(y)
    ensures Known(x) && Known(y) ==> Known(Union(x, y))
  {
    LayoutAttributesExactly(x, a);
    LayoutAttributesExactly(y, a);
    LayoutAttributesExactly(Union(x, y), a);
    if a != NotAnAttribute {
      SingleBit(x, y, a);
    }
  }

  lemma SingleBit(x: Attributes, y: Attributes, a: LayoutAttribute)
    requires a != NotAnAttribute
    ensures Contains(x | y, Mask(a)) <==> Contains(x, Mask(a)) || Contains(y, Mask(a))
  {}

  ghost predicate Agree(x: Attributes, y: Attributes, a: LayoutAttribute) {
    Contains(x, Mask(a)) <==> Contains(y, Mask(a))
  }

  /** On known bits decoding loses nothing. */
  lemma DecodingIsInjective(x: Attributes, y: Attributes)
    requires Known(x) && Known(y)
    ensures LayoutAttributes(x) == LayoutAttributes(y) <==> x == y
  {
    if LayoutAttributes(x) == LayoutAttributes(y) {
      forall a | a != NotAnAttribute ensures Agree(x, y, a) {
        LayoutAttributesExactly(x, a);
        LayoutAttributesExactly(y, a);
      }
      SameBits(x, y);
    }
  }

  lemma SameBits(x: Attributes, y: Attributes)
    requires Known(x) && Known(y) && forall a :: a != NotAnAttribute ==> Agree(x, y, a)
    ensures x == y
  {
    assert Agree(x, y, Left) && Agree(x, y, Top) && Agree(x, y, Right);
    assert Agree(x, y, Bottom) && Agree(x, y, Leading);
    assert Agree(x, y, Trailing) && Agree(x, y, Width) && Agree(x, y, Height);
    assert Agree(x, y, CenterX) && Agree(x, y, CenterY);
    assert Agree(x, y, LastBaseline) && Agree(x, y, FirstBaseline) && Agree(x, y, LeftMargin);
    assert Agree(x, y, RightMargin) && Agree(x, y, TopMargin);
    assert Agree(x, y, BottomMargin) && Agree(x, y, LeadingMargin) && Agree(x, y, TrailingMargin);
    assert Agree(x, y, CenterXWithinMargins) && Agree(x, y, CenterYWithinMargins);
    SameTwentyBits(x, y);
  }

  lemma SameTwentyBits(x: Attributes, y: Attributes)
    requires Known(x) && Known(y)
    requires Agree(x, y, Left) && Agree(x, y, Top) && Agree(x, y, Right)
    requires Agree(x, y, Bottom) && Agree(x, y, Leading)
    requires Agree(x, y, Trailing) && Agree(x, y, Width) && Agree(x, y, Height)
    requires Agree(x, y, CenterX) && Agree(x, y, CenterY)
    requires Agree(x, y, LastBaseline) && Agree(x, y, FirstBaseline) && Agree(x, y, LeftMargin)
    requires Agree(x, y, RightMargin) && Agree(x, y, TopMargin)
    requires Agree(x, y, BottomMargin) && Agree(x, y, LeadingMargin) && Agree(x, y, TrailingMargin)
    requires Agree(x, y, CenterXWithinMargins) && Agree(x, y, CenterYWithinMargins)
    ensures x == y
  {}

  // ---------- Relating two sides ----------

  /** What `relatedTo` accepts as the attributes of the other side; anything else is a fatal error. */
  predicate Relatable(from: Attributes, to: Attributes) {
    || to == NONE
    || |LayoutAttributes(to)| <= 1
    || LayoutAttributes(to) == LayoutAttributes(from)
    || (to == EDGES && from == MARGINS)
    || (to == MARGINS && from == EDGES)
  }

  /** The attribute of the other side that is paired with `attribute`; `None` is a fatal error. `others` are the
      attributes of the other side. */
  function PairedWith(from: Attributes, to: Attributes, others: seq<LayoutAttribute>, hasTarget: bool,
                      attribute: LayoutAttribute): Option<LayoutAttribute>
  {
    if |others| > 0 then
      if from == EDGES && to == MARGINS then
        match attribute
        case Left => Some(LeftMargin)
        case Right => Some(RightMargin)
        case Top => Some(TopMargin)
        case Bottom => Some(BottomMargin)
        case _ => None
      else if from == MARGINS && to == EDGES then
        match attribute
        case LeftMargin => Some(Left)
        case RightMargin => Some(Right)
        case TopMargin => Some(Top)
        case BottomMargin => Some(Bottom)
        case _ => None
      else if from == to then Some(attribute)
      else Some(others[0])
    else if !hasTarget && (attribute == CenterX || attribute == CenterY) then
      Some(if attribute == CenterX then Left else Top)
    else Some(attribute)
  }

  function Paired(from: Attributes, to: Attributes, hasTarget: bool,
                  attribute: LayoutAttribute): Option<LayoutAttribute>
  {
    PairedWith(from, to, LayoutAttributes(to), hasTarget, attribute)
  }

  lemma EdgesExactly(raw: Attributes, a: LayoutAttribute)
    requires raw == EDGES
    ensures a in LayoutAttributes(raw) <==> a == Left || a == Top || a == Right || a == Bottom
  {
    LayoutAttributesExactly(raw, a);
  }

  lemma MarginsExactly(raw: Attributes, a: LayoutAttribute)
    requires raw == MARGINS
    ensures a in LayoutAttributes(raw) <==> a == LeftMargin || a == TopMargin || a == RightMargin || a == BottomMargin
  {
    LayoutAttributesExactly(raw, a);
  }

  /** Pairing an attribute of the source set never reaches a fatal error, whatever the sets are. */
  lemma PairingNeverFails(from: Attributes, to: Attributes, hasTarget: bool, attribute: LayoutAttribute)
    requires attribute in LayoutAttributes(from)
    ensures Paired(from, to, hasTarget, attribute).Some?
    ensures Paired(from, to, hasTarget, attribute) != Some(NotAnAttribute)
  {
    LayoutAttributesExactly(from, attribute);
    if from == EDGES {
      EdgesExactly(from, attribute);
    }
    if from == MARGINS {
      MarginsExactly(from, attribute);
    }
    FirstIsAttribute(to);
    PairingTotal(from, to, LayoutAttributes(to), hasTarget, attribute);
  }

  lemma FirstIsAttribute(raw: Attributes)
    ensures LayoutAttributes(raw) != [] ==> LayoutAttributes(raw)[0] != NotAnAttribute
  {
    var s := LayoutAttributes(raw);
    if s != [] {
      LayoutAttributesExactly(raw, s[0]);
    }
  }

  lemma PairingTotal(from: Attributes, to: Attributes, others: seq<LayoutAttribute>, hasTarget: bool,
                     a: LayoutAttribute)
    requires a != NotAnAttribute && (others != [] ==> others[0] != NotAnAttribute)
    requires from == EDGES ==> a == Left || a == Top || a == Right || a == Bottom
    requires from == MARGINS ==> a == LeftMargin || a == TopMargin || a == RightMargin || a == BottomMargin
    ensures var r := PairedWith(from, to, others, hasTarget, a); r.Some? && r.value != NotAnAttribute
  {}

  lemma PairedBack(others: seq<LayoutAttribute>, others': seq<LayoutAttribute>, hasTarget: bool, edge: LayoutAttribute)
    requires others != [] && others' != []
    requires edge == Left || edge == Top || edge == Right || edge == Bottom
    ensures var m := PairedWith(EDGES, MARGINS, others, hasTarget, edge);
      && m.Some? && (m.value == LeftMargin || m.value == TopMargin || m.value == RightMargin || m.value == BottomMargin)
      && PairedWith(MARGINS, EDGES, others', hasTarget, m.value) == Some(edge)
  {}

  /** Pairing edges with margins and pairing back gives the edge again. */
  lemma EdgesPairWithTheirMargins(edges: Attributes, margins: Attributes, edge: LayoutAttribute, hasTarget: bool)
    requires edges == EDGES && margins == MARGINS && edge in LayoutAttributes(edges)
    ensures var margin := Paired(edges, margins, hasTarget, edge);
      && margin.Some? && margin.value in LayoutAttributes(margins)
      && Paired(margins, edges, hasTarget, margin.value) == Some(edge)
  {
    EdgesExactly(edges, edge);
    SeveralAttributes(edges);
    SeveralAttributes(margins);
    PairedBack(LayoutAttributes(margins), LayoutAttributes(edges), hasTarget, edge);
    MarginsExactly(margins, Paired(edges, margins, hasTarget, edge).value);
  }

  /** By name: each edge is paired with its margin, and each margin with its edge. */
  lemma EdgesAndMarginsByName(edges: Attributes, margins: Attributes, hasTarget: bool)
    requires edges == EDGES && margins == MARGINS
    ensures Paired(edges, margins, hasTarget, Left) == Some(LeftMargin)
    ensures Paired(edges, margins, hasTarget, Top) == Some(TopMargin)
    ensures Paired(edges, margins, hasTarget, Right) == Some(RightMargin)
    ensures Paired(edges, margins, hasTarget, Bottom) == Some(BottomMargin)
    ensures Paired(margins, edges, hasTarget, LeftMargin) == Some(Left)
    ensures Paired(margins, edges, hasTarget, TopMargin) == Some(Top)
    ensures Paired(margins, edges, hasTarget, RightMargin) == Some(Right)
    ensures Paired(margins, edges, hasTarget, BottomMargin) == Some(Bottom)
  {
    SeveralAttributes(edges);
    SeveralAttributes(margins);
    forall a { PairedByName(LayoutAttributes(margins), LayoutAttributes(edges), hasTarget, a); }
  }

  lemma PairedByName(margins: seq<LayoutAttribute>, edges: seq<LayoutAttribute>, hasTarget: bool, a: LayoutAttribute)
    requires margins != [] && edges != []
    ensures a == Left || a == Top || a == Right || a == Bottom ==>
      PairedWith(EDGES, MARGINS, margins, hasTarget, a) == Some(Counterpart(a))
    ensures a == LeftMargin || a == TopMargin || a == RightMargin || a == BottomMargin ==>
      PairedWith(MARGINS, EDGES, edges, hasTarget, a) == Some(Counterpart(a))
  {}

  /** Edge to margin and margin to edge. */
  function Counterpart(a: LayoutAttribute): LayoutAttribute {
    match a
    case Left => LeftMargin
    case Top => TopMargin
    case Right => RightMargin
    case Bottom => BottomMargin
    case LeftMargin => Left
    case TopMargin => Top
    case RightMargin => Right
    case BottomMargin => Bottom
    case _ => a
  }

  /** Without attributes on the other side an attribute is paired with itself, but a center without target with the left
      or top. */
  lemma PairedWithNothing(from: Attributes, to: Attributes, hasTarget: bool, attribute: LayoutAttribute)
    requires LayoutAttributes(to) == []
    ensures Paired(from, to, hasTarget, attribute) ==
      if !hasTarget && attribute == CenterX then Some(Left)
      else if !hasTarget && attribute == CenterY then Some(Top)
      else Some(attribute)
  {}

  /** With attributes that the guard accepts: the same attribute for the same set, edge and margin for each other, and
      else the only one there is. */
  lemma PairedExactly(from: Attributes, to: Attributes, hasTarget: bool, a: LayoutAttribute)
    requires Known(from) && Known(to) && Relatable(from, to)
    requires a in LayoutAttributes(from) && LayoutAttributes(to) != []
    ensures
      if to == from then Paired(from, to, hasTarget, a) == Some(a)
      else if (from == EDGES && to == MARGINS) || (from == MARGINS && to == EDGES) then
        Paired(from, to, hasTarget, a) == Some(Counterpart(a))
      else |LayoutAttributes(to)| == 1 && Paired(from, to, hasTarget, a) == Some(LayoutAttributes(to)[0])
  {
    FirstTakenOnlyWhenAlone(from, to, hasTarget, a);
    if from == EDGES && to == MARGINS {
      EdgesExactly(from, a);
      PairedByName(LayoutAttributes(to), LayoutAttributes(from), hasTarget, a);
    } else if from == MARGINS && to == EDGES {
      MarginsExactly(from, a);
      PairedByName(LayoutAttributes(from), LayoutAttributes(to), hasTarget, a);
    }
  }

  /** The set of one attribute decodes to that attribute. */
  lemma MaskDecodesToItself(a: LayoutAttribute, b: LayoutAttribute)
    requires a != NotAnAttribute
    ensures b in LayoutAttributes(Mask(a)) <==> b == a
  {
    LayoutAttributesExactly(Mask(a), b);
    MasksDiffer(a, b);
  }

  lemma MasksDiffer(a: LayoutAttribute, b: LayoutAttribute)
    ensures a != NotAnAttribute && b != NotAnAttribute ==> (Contains(Mask(a), Mask(b)) <==> a == b)
  {}

  /** What the guard accepts, exactly: nothing or one attribute, the same attributes, or edges and margins. */
  lemma RelatableExactly(from: Attributes, to: Attributes)
    requires Known(from) && Known(to)
    ensures Relatable(from, to) <==>
      || |LayoutAttributes(to)| <= 1 || to == from
      || (to == EDGES && from == MARGINS) || (to == MARGINS && from == EDGES)
  {
    if to == NONE {
      NothingDecodesToNothing(to);
    }
    DecodingIsInjective(to, from);
  }

  /** What the guard buys: with several attributes on the other side, each one of them is paired with its counterpart
      and never with just the first; the first is taken only when it is the only one. */
  lemma FirstTakenOnlyWhenAlone(from: Attributes, to: Attributes, hasTarget: bool, attribute: LayoutAttribute)
    requires Known(from) && Known(to) && Relatable(from, to)
    ensures |LayoutAttributes(to)| >= 2 ==>
      from == to || (from == EDGES && to == MARGINS) || (from == MARGINS && to == EDGES)
    ensures |LayoutAttributes(to)| >= 2 && from == to ==> Paired(from, to, hasTarget, attribute) == Some(attribute)
    ensures |LayoutAttributes(to)| == 1 && from != to ==>
      Paired(from, to, hasTarget, attribute) == Some(LayoutAttributes(to)[0])
  {
    if to == NONE {
      NothingDecodesToNothing(to);
    }
    DecodingIsInjective(to, from);
    if to == EDGES || to == MARGINS {
      SeveralAttributes(to);
    }
  }

  lemma NothingDecodesToNothing(raw: Attributes)
    requires raw == NONE
    ensures LayoutAttributes(raw) == []
  {
    var s := LayoutAttributes(raw);
    if s != [] {
      LayoutAttributesExactly(raw, s[0]);
      NoMaskIsEmpty(s[0]);
    }
  }

  lemma NoMaskIsEmpty(a: LayoutAttribute)
    requires a != NotAnAttribute
    ensures !Contains(NONE, Mask(a))
  {}

  lemma SeveralAttributes(raw: Attributes)
    requires raw == EDGES || raw == MARGINS
    ensures |LayoutAttributes(raw)| >= 2
  {
    if raw == EDGES {
      EdgesExactly(raw, Left);
      EdgesExactly(raw, Top);
      TwoMembers(LayoutAttributes(raw), Left, Top);
    } else {
      MarginsExactly(raw, LeftMargin);
      MarginsExactly(raw, TopMargin);
      TwoMembers(LayoutAttributes(raw), LeftMargin, TopMargin);
    }
  }

  lemma TwoMembers(s: seq<LayoutAttribute>, a: LayoutAttribute, b: LayoutAttribute)
    requires a in s && b in s && a != b
    ensures |s| >= 2
  {}
}
