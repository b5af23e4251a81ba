/** SnapKit's constraints: what a description builds, the registry of each item, and `make`, `update`, `remake` and
    `remove`, with activation as a flag. Items and other targets stay alive. */
module SnapConstraints {
  import opened Options
  import opened ConstraintAttributes

  // ---------- Constants ----------

  /** `ConstraintConstantTarget`. */
  datatype Constant =
    | Scalar(value: real)
    | Size(width: real, height: real)
    | Point(x: real, y: real)
    | Insets(top: real, left: real, bottom: real, right: real)

  /** The constant for one attribute. */
  function ValueFor(c: Constant, a: LayoutAttribute, leftToRight: bool): real {
    match c
    case Scalar(value) => value
    case Size(width, height) => if a == Width then width else if a == Height then height else 0.0
    case Point(x, y) =>
      (match a
       case Left | Right | Leading | Trailing | CenterX | LeftMargin | RightMargin | LeadingMargin | TrailingMargin
            | CenterXWithinMargins => x
       case Top | Bottom | CenterY | TopMargin | BottomMargin | CenterYWithinMargins | LastBaseline | FirstBaseline => y
       case Width | Height | NotAnAttribute => 0.0)
    case Insets(top, left, bottom, right) =>
      (match a
       case Left | LeftMargin | CenterX | CenterXWithinMargins => left
       case Top | TopMargin | CenterY | CenterYWithinMargins | LastBaseline | FirstBaseline => top
       case Right | RightMargin => -right
       case Bottom | BottomMargin => -bottom
       case Leading | LeadingMargin => if leftToRight then left else right
       case Trailing | TrailingMargin => if leftToRight then -right else -left
       case Width => -(left + right)
       case Height => -(top + bottom)
       case NotAnAttribute => 0.0)
  }

  // ---------- What a description builds ----------

  datatype Relation = LessThanOrEqual | Equal | GreaterThanOrEqual

  datatype Target = Target(item: LayoutItem?, attributes: Attributes)

  /** The fields of a finished `ConstraintDescription`. */
  datatype Description = Description(
    attributes: Attributes,
    relation: Option<Relation>,
    related: Option<Target>,
    multiplier: real,
    constant: Constant,
    priority: real)

  /** The layout direction, and whether the platform forgets the second attribute of a constraint without second item.
      */
  datatype Platform = Platform(leftToRight: bool, clearsAttributeOfNil: bool)

  /** All that `==` on layout constraints compares. */
  datatype Key = Key(
    firstItem: LayoutItem,
    firstAttribute: LayoutAttribute,
    relation: Relation,
    secondItem: LayoutItem?,
    secondAttribute: LayoutAttribute,
    multiplier: real,
    priority: real)

  datatype Spec = Spec(key: Key, constant: real)

  /** A description without relation or related item builds nothing. */
  predicate Complete(d: Description) {
    d.relation.Some? && d.related.Some?
  }

  /** A size counts for width and height alone. */
  lemma SizeExactly(width: real, height: real, a: LayoutAttribute, leftToRight: bool)
    ensures var v := ValueFor(Size(width, height), a, leftToRight);
      v == if a == Width then width else if a == Height then height else 0.0
  {}

  /** A point moves sideways what lies sideways, up or down what lies so, and leaves width and height. */
  lemma PointExactly(x: real, y: real, a: LayoutAttribute, leftToRight: bool)
    ensures var v := ValueFor(Point(x, y), a, leftToRight);
      && (a in SIDEWAYS ==> v == x)
      && (a in UPRIGHT ==> v == y)
      && (a == Width || a == Height || a == NotAnAttribute ==> v == 0.0)
  {}

  const SIDEWAYS: set<LayoutAttribute> :=
    {Left, Right, Leading, Trailing, CenterX, LeftMargin, RightMargin, LeadingMargin, TrailingMargin,
     CenterXWithinMargins}
  const UPRIGHT: set<LayoutAttribute> :=
    {Top, Bottom, CenterY, TopMargin, BottomMargin, CenterYWithinMargins, LastBaseline, FirstBaseline}

  /** Insets move every edge inwards: left and top by their inset, right and bottom by minus theirs, margins alike.
      Width and height shrink by as much as the edges move. */
  lemma InsetsExactly(c: Constant, leftToRight: bool)
    requires c.Insets?
    ensures ValueFor(c, Left, leftToRight) == ValueFor(c, LeftMargin, leftToRight) == c.left
    ensures ValueFor(c, Top, leftToRight) == ValueFor(c, TopMargin, leftToRight) == c.top
    ensures ValueFor(c, Right, leftToRight) == ValueFor(c, RightMargin, leftToRight) == -c.right
    ensures ValueFor(c, Bottom, leftToRight) == ValueFor(c, BottomMargin, leftToRight) == -c.bottom
    ensures ValueFor(c, Width, leftToRight) == ValueFor(c, Right, leftToRight) - ValueFor(c, Left, leftToRight)
    ensures ValueFor(c, Height, leftToRight) == ValueFor(c, Bottom, leftToRight) - ValueFor(c, Top, leftToRight)
  {}

  /** From left to right leading is left and trailing is right; from right to left they are mirrored. */
  lemma InsetsMirrored(c: Constant)
    requires c.Insets?
    ensures ValueFor(c, Leading, true) == ValueFor(c, LeadingMargin, true) == ValueFor(c, Left, true)
    ensures ValueFor(c, Trailing, true) == ValueFor(c, TrailingMargin, true) == ValueFor(c, Right, true)
    ensures ValueFor(c, Leading, false) == ValueFor(c, LeadingMargin, false) == -ValueFor(c, Right, false)
    ensures ValueFor(c, Trailing, false) == ValueFor(c, TrailingMargin, false) == -ValueFor(c, Left, false)
  {}

  /** The layout constraint for one attribute of the description. */
  function SpecFor(item: LayoutItem, d: Description, platform: Platform, a: LayoutAttribute): Spec
    requires Complete(d) && a in LayoutAttributes(d.attributes)
  {
    var target := d.related.value;
    PairingNeverFails(d.attributes, target.attributes, target.item != null, a);
    var to := Paired(d.attributes, target.attributes, target.item != null, a).value;
    var second := if target.item == null && to != Width && to != Height then item.superview else target.item;
    Spec(Key(item, a, d.relation.value, second,
             if second == null && platform.clearsAttributeOfNil then NotAnAttribute else to,
             d.multiplier, d.priority),
         ValueFor(d.constant, to, platform.leftToRight))
  }

  /** One layout constraint per attribute of the source set, in decoding order. */
  function SpecsFor(item: LayoutItem, d: Description, platform: Platform): (specs: seq<Spec>)
    requires Complete(d)
    ensures |specs| == |LayoutAttributes(d.attributes)|
    ensures forall i :: 0 <= i < |specs| ==> specs[i] == SpecFor(item, d, platform, LayoutAttributes(d.attributes)[i])
  {
    var attributes := LayoutAttributes(d.attributes);
    seq(|attributes|, i requires 0 <= i < |attributes| => SpecFor(item, d, platform, attributes[i]))
  }

  /** All that a list of descriptions builds. */
  function Built(item: LayoutItem, ds: seq<Description>, platform: Platform): seq<Spec> {
    if ds == [] then []
    else
      var last := ds[|ds| - 1];
      Built(item, ds[..|ds| - 1], platform) + (if Complete(last) then SpecsFor(item, last, platform) else [])
  }

  // ---------- Updating, as values ----------

  ghost function FirstIndex(specs: seq<Spec>, key: Key): (r: Option<nat>)
    ensures r.Some? ==> r.value < |specs| && specs[r.value].key == key
    ensures r.Some? ==> forall i :: 0 <= i < r.value ==> specs[i].key != key
    ensures r.None? ==> forall i :: 0 <= i < |specs| ==> specs[i].key != key
  {
    if specs == [] then None
    else if specs[0].key == key then Some(0)
    else
      var r := FirstIndex(specs[1..], key);
      if r.None? then None else Some(r.value + 1)
  }

  /** Each new constraint in turn gives its constant to the first existing one that is `==`; without one it is a fatal
      error. */
  ghost function Updated(existing: seq<Spec>, news: seq<Spec>): (r: Option<seq<Spec>>)
    ensures r.Some? ==> |r.value| == |existing| && forall i :: 0 <= i < |existing| ==> r.value[i].key == existing[i].key
    decreases |news|
  {
    if news == [] then Some(existing)
    else
      var last := news[|news| - 1];
      match Updated(existing, news[..|news| - 1])
      case None => None
      case Some(specs) =>
        match FirstIndex(specs, last.key)
        case None => None
        case Some(i) => Some(specs[i := Spec(last.key, last.constant)])
  }

  /** Once it is a fatal error, it stays one. */
  lemma {:induction false} UpdatedPrefix(existing: seq<Spec>, news: seq<Spec>, i: nat)
    requires i <= |news| && Updated(existing, news).Some?
    ensures Updated(existing, news[..i]).Some?
    decreases |news|
  {
    if i < |news| {
      assert news[..|news| - 1][..i] == news[..i];
      UpdatedPrefix(existing, news[..|news| - 1], i);
    } else {
      assert news[..i] == news;
    }
  }

  lemma UpdatedStep(existing: seq<Spec>, news: seq<Spec>, i: nat)
    requires i < |news| && Updated(existing, news[..i]).Some?
    ensures var specs := Updated(existing, news[..i]).value;
      var k := FirstIndex(specs, news[i].key);
      && (k.Some? ==> Updated(existing, news[..i + 1]) == Some(specs[k.value := news[i]]))
      && (k.None? ==> Updated(existing, news).None?)
  {
    assert news[..i + 1][..i] == news[..i];
    if Updated(existing, news).Some? {
      UpdatedPrefix(existing, news, i + 1);
    }
  }

  lemma {:induction false} UpdatedConcat(existing: seq<Spec>, first: seq<Spec>, second: seq<Spec>)
    requires Updated(existing, first).Some?
    ensures Updated(existing, first + second) == Updated(Updated(existing, first).value, second)
    decreases |second|
  {
    if second == [] {
      assert first + second == first;
    } else {
      var init := second[..|second| - 1];
      assert (first + second)[..|first + second| - 1] == first + init;
      UpdatedConcat(existing, first, init);
    }
  }

  lemma UpdatedChunk(existing: seq<Spec>, news: seq<Spec>, n: nat, k: nat)
    requires n <= k <= |news| && Updated(existing, news[..n]).Some?
    ensures Updated(existing, news[..k]) == Updated(Updated(existing, news[..n]).value, news[n..k])
  {
    assert news[..n] + news[n..k] == news[..k];
    UpdatedConcat(existing, news[..n], news[n..k]);
  }

  ghost predicate DistinctKeys(specs: seq<Spec>) {
    forall i, j :: 0 <= i < j < |specs| ==> specs[i].key != specs[j].key
  }

  ghost predicate SameKeys(specs: seq<Spec>, specs': seq<Spec>) {
    |specs| == |specs'| && forall i :: 0 <= i < |specs| ==> specs[i].key == specs'[i].key
  }

  /** Every new constraint is `==` to an existing one. */
  ghost predicate AllHaveKey(existing: seq<Spec>, news: seq<Spec>) {
    forall j :: 0 <= j < |news| ==> HasKey(existing, news[j].key)
  }

  ghost predicate HasKey(specs: seq<Spec>, key: Key) {
    exists i :: 0 <= i < |specs| && specs[i].key == key
  }

  lemma HasKeyOneMore(specs: seq<Spec>, last: Spec, key: Key)
    ensures HasKey(specs + [last], key) <==> HasKey(specs, key) || last.key == key
  {
    var all := specs + [last];
    assert all[|specs|] == last;
    if HasKey(specs, key) {
      var i :| 0 <= i < |specs| && specs[i].key == key;
      assert all[i].key == key;
    }
  }

  /** With distinct keys, every existing constraint gets the constant of the new one with its key, if there is one. */
  lemma {:induction false} UpdatedByKey(existing: seq<Spec>, news: seq<Spec>)
    requires DistinctKeys(existing) && DistinctKeys(news)
    requires forall j :: 0 <= j < |news| ==> HasKey(existing, news[j].key)
    ensures Updated(existing, news).Some?
    ensures var r := Updated(existing, news).value;
      && (forall i, j :: 0 <= i < |r| && 0 <= j < |news| && r[i].key == news[j].key ==> r[i] == news[j])
      && (forall i :: 0 <= i < |r| && !HasKey(news, r[i].key) ==> r[i] == existing[i])
    decreases |news|
  {
    if news != [] {
      var init, last := news[..|news| - 1], news[|news| - 1];
      assert news == init + [last];
      UpdatedByKey(existing, init);
      var r := Updated(existing, init).value;
      assert HasKey(existing, news[|news| - 1].key);
      var k := IndexOfKey(r, last.key, existing);
      assert Updated(existing, news) == Some(r[k := last]);
      forall i | 0 <= i < |r| ensures HasKey(news, r[i].key) <==> HasKey(init, r[i].key) || i == k {
        HasKeyOneMore(init, last, r[i].key);
      }
    }
  }

  /** The fatal error, exactly: some new constraint is `==` to none of the existing ones. */
  lemma {:induction false} UpdatedExactly(existing: seq<Spec>, news: seq<Spec>)
    ensures Updated(existing, news).Some? <==> AllHaveKey(existing, news)
    decreases |news|
  {
    if news != [] {
      var init, last := news[..|news| - 1], news[|news| - 1];
      assert news == init + [last];
      UpdatedExactly(existing, init);
      assert AllHaveKey(existing, news) <==> AllHaveKey(existing, init) && HasKey(existing, last.key) by {
        assert news[|news| - 1] == last && forall j :: 0 <= j < |init| ==> news[j] == init[j];
      }
      if Updated(existing, init).Some? {
        SameKeysHaveKey(Updated(existing, init).value, existing, last.key);
      }
    }
  }

  lemma SameKeysHaveKey(specs: seq<Spec>, existing: seq<Spec>, key: Key)
    requires SameKeys(specs, existing)
    ensures FirstIndex(specs, key).Some? <==> HasKey(existing, key)
  {
    if HasKey(existing, key) {
      var i :| 0 <= i < |existing| && existing[i].key == key;
      assert specs[i].key == key;
    }
  }

  lemma IndexOfKey(specs: seq<Spec>, key: Key, like: seq<Spec>) returns (k: nat)
    requires |specs| == |like| && forall i :: 0 <= i < |specs| ==> specs[i].key == like[i].key
    requires DistinctKeys(like) && HasKey(like, key)
    ensures k < |specs| && FirstIndex(specs, key) == Some(k)
    ensures forall i :: 0 <= i < |specs| ==> (specs[i].key == key <==> i == k)
  {
    k :| 0 <= k < |like| && like[k].key == key;
    assert specs[k].key == key;
  }

  /** An existing constraint behind one with the same key is never updated. */
  lemma {:induction false} ShadowedIsNotUpdated(existing: seq<Spec>, news: seq<Spec>, i: nat, j: nat)
    requires i < j < |existing| && existing[i].key == existing[j].key && Updated(existing, news).Some?
    ensures Updated(existing, news).value[j] == existing[j]
    decreases |news|
  {
    if news != [] {
      ShadowedIsNotUpdated(existing, news[..|news| - 1], i, j);
    }
  }

  function Zipped(keys: seq<Key>, constants: seq<real>): (specs: seq<Spec>)
    requires |keys| == |constants|
    ensures |specs| == |keys|
  {
    seq(|keys|, i requires 0 <= i < |keys| => Spec(keys[i], constants[i]))
  }

  /** Whatever the constants were and are to be, updating constraints with these keys leaves what a fresh build gives.
      */
  ghost predicate UpdateIsExact(keys: seq<Key>) {
    forall old': seq<real>, new': seq<real> :: |old'| == |new'| == |keys| ==>
      Updated(Zipped(keys, old'), Zipped(keys, new')) == Some(Zipped(keys, new'))
  }

  ghost predicate Distinct(keys: seq<Key>) {
    forall i, j :: 0 <= i < j < |keys| ==> keys[i] != keys[j]
  }

  /** The exact condition: updating refines building afresh if and only if no two of the constraints are `==`. */
  lemma UpdateIsExactlyFresh(keys: seq<Key>)
    ensures UpdateIsExact(keys) <==> Distinct(keys)
  {
    if Distinct(keys) {
      forall old': seq<real>, new': seq<real> | |old'| == |new'| == |keys|
        ensures Updated(Zipped(keys, old'), Zipped(keys, new')) == Some(Zipped(keys, new'))
      {
        DistinctUpdate(keys, old', new');
      }
    } else {
      var i, j :| 0 <= i < j < |keys| && keys[i] == keys[j];
      var zeros, ones := seq(|keys|, _ => 0.0), seq(|keys|, _ => 1.0);
      if Updated(Zipped(keys, zeros), Zipped(keys, ones)).Some? {
        ShadowedIsNotUpdated(Zipped(keys, zeros), Zipped(keys, ones), i, j);
        assert Zipped(keys, zeros)[j].constant != Zipped(keys, ones)[j].constant;
      }
    }
  }

  lemma DistinctUpdate(keys: seq<Key>, old': seq<real>, new': seq<real>)
    requires Distinct(keys) && |old'| == |new'| == |keys|
    ensures Updated(Zipped(keys, old'), Zipped(keys, new')) == Some(Zipped(keys, new'))
  {
    var existing, news := Zipped(keys, old'), Zipped(keys, new');
    forall j | 0 <= j < |news| ensures HasKey(existing, news[j].key) {
      assert existing[j].key == news[j].key;
    }
    UpdatedByKey(existing, news);
    var r := Updated(existing, news).value;
    forall i | 0 <= i < |r| ensures r[i] == news[i] {
      assert r[i].key == keys[i] == news[i].key;
    }
    assert r == news;
  }

  // ---------- Descriptions of the same shape ----------

  /** Equal but for the constants. */
  predicate SameShape(ds: seq<Description>, ds': seq<Description>) {
    |ds| == |ds'| && forall i :: 0 <= i < |ds| ==> ds[i].(constant := ds'[i].constant) == ds'[i]
  }

  lemma SameDescriptionSameKeys(item: LayoutItem, d: Description, d': Description, platform: Platform)
    requires d.(constant := d'.constant) == d' && Complete(d)
    ensures Complete(d')
    ensures SameKeys(SpecsFor(item, d, platform), SpecsFor(item, d', platform))
  {}

  lemma {:induction false} SameShapeSameKeys(item: LayoutItem, ds: seq<Description>, ds': seq<Description>,
                                             platform: Platform)
    requires SameShape(ds, ds')
    ensures SameKeys(Built(item, ds, platform), Built(item, ds', platform))
    decreases |ds|
  {
    if ds != [] {
      var d, d' := ds[|ds| - 1], ds'[|ds'| - 1];
      SameShapeSameKeys(item, ds[..|ds| - 1], ds'[..|ds'| - 1], platform);
      assert d.(constant := d'.constant) == d';
      if Complete(d) {
        SameDescriptionSameKeys(item, d, d', platform);
      }
    }
  }

  /** Without a target the other side has no attributes: the only such target `relatedTo` makes. */
  predicate WellRelated(d: Description) {
    Complete(d) && (d.related.value.item == null ==> d.related.value.attributes == NONE)
  }

  predicate AllWellRelated(ds: seq<Description>) {
    forall d :: d in ds && Complete(d) ==> WellRelated(d)
  }

  /** The attribute from which an update chooses the constant of an existing constraint. */
  function UpdateAttribute(key: Key): LayoutAttribute {
    if key.secondAttribute == NotAnAttribute then key.firstAttribute else key.secondAttribute
  }

  /** It chooses the constant that building chose, even when the platform has forgotten the second attribute. */
  lemma UpdateChoosesTheSameConstant(item: LayoutItem, d: Description, platform: Platform, a: LayoutAttribute)
    requires WellRelated(d) && a in LayoutAttributes(d.attributes)
    ensures var spec := SpecFor(item, d, platform, a);
      ValueFor(d.constant, UpdateAttribute(spec.key), platform.leftToRight) == spec.constant
  {
    var target, spec := d.related.value, SpecFor(item, d, platform, a);
    if target.item == null {
      NothingDecodesToNothing(target.attributes);
      PairedWithoutTarget(d.attributes, target.attributes, a, d.constant, platform.leftToRight);
    } else {
      assert spec.key.secondItem != null && spec.key.secondAttribute != NotAnAttribute by {
        PairingNeverFails(d.attributes, target.attributes, true, a);
      }
    }
  }

  lemma SameConstants(item: LayoutItem, d: Description, platform: Platform)
    requires WellRelated(d)
    ensures forall i :: 0 <= i < |SpecsFor(item, d, platform)| ==>
      var spec := SpecsFor(item, d, platform)[i];
      spec.constant == ValueFor(d.constant, UpdateAttribute(spec.key), platform.leftToRight)
  {
    forall i | 0 <= i < |SpecsFor(item, d, platform)|
      ensures var spec := SpecsFor(item, d, platform)[i];
        spec.constant == ValueFor(d.constant, UpdateAttribute(spec.key), platform.leftToRight)
    {
      UpdateChoosesTheSameConstant(item, d, platform, LayoutAttributes(d.attributes)[i]);
    }
  }

  /** The priority of required constraints, and of descriptions that name none. */
  const REQUIRED: real := 1000.0

  /** A priority below required gives way to another one that is not required. */
  function UpdatedPriority(old': real, new': real): real {
    if old' < REQUIRED && new' != REQUIRED then new' else old'
  }

  /** A required priority stays, no priority becomes required, and every other change takes effect. */
  lemma PriorityExactly(old': real, new': real)
    ensures old' >= 1000.0 || new' == 1000.0 ==> UpdatedPriority(old', new') == old'
    ensures old' < 1000.0 && new' != 1000.0 ==> UpdatedPriority(old', new') == new'
  {}

  lemma SpecsWith(item: LayoutItem, d: Description, platform: Platform, c: Constant, p: real,
                  was: seq<Spec>, specs: seq<Spec>)
    requires WellRelated(d) && was == SpecsFor(item, d, platform) && |specs| == |was|
    requires forall k :: 0 <= k < |specs| ==>
      specs[k] == Spec(was[k].key.(priority := UpdatedPriority(was[k].key.priority, p)),
                       ValueFor(c, UpdateAttribute(was[k].key), platform.leftToRight))
    ensures specs == SpecsFor(item, d.(constant := c, priority := UpdatedPriority(d.priority, p)), platform)
  {
    var d' := d.(constant := c, priority := UpdatedPriority(d.priority, p));
    forall k | 0 <= k < |specs| ensures specs[k] == SpecsFor(item, d', platform)[k] {
      SpecWith(item, d, platform, c, d'.priority, LayoutAttributes(d.attributes)[k]);
    }
  }

  lemma SpecWith(item: LayoutItem, d: Description, platform: Platform, c: Constant, priority: real, a: LayoutAttribute)
    requires WellRelated(d) && a in LayoutAttributes(d.attributes)
    ensures var key := SpecFor(item, d, platform, a).key;
      SpecFor(item, d.(constant := c, priority := priority), platform, a)
      == Spec(key.(priority := priority), ValueFor(c, UpdateAttribute(key), platform.leftToRight))
  {
    var d' := d.(constant := c, priority := priority);
    var key, spec := SpecFor(item, d, platform, a).key, SpecFor(item, d', platform, a);
    assert spec.key == key.(priority := priority);
    assert spec.constant == ValueFor(c, UpdateAttribute(spec.key), platform.leftToRight) by {
      UpdateChoosesTheSameConstant(item, d', platform, a);
    }
  }

  /** One layout constraint for each attribute of the set and no other, each once. */
  lemma {:induction false} SpecsExactly(item: LayoutItem, d: Description, platform: Platform, a: LayoutAttribute)
    requires Complete(d)
    ensures var specs := SpecsFor(item, d, platform);
      (exists i :: 0 <= i < |specs| && specs[i].key.firstAttribute == a) <==>
        a != NotAnAttribute && Contains(d.attributes, Mask(a))
    ensures DistinctKeys(SpecsFor(item, d, platform))
  {
    LayoutAttributesExactly(d.attributes, a);
    var specs, attributes := SpecsFor(item, d, platform), LayoutAttributes(d.attributes);
    assert forall i :: 0 <= i < |specs| ==> specs[i].key.firstAttribute == attributes[i];
    FirstAttributesExactly(specs, attributes, a);
  }

  /** The key tells the item, the relation, the multiplier and the priority of the description. */
  lemma SpecsTell(item: LayoutItem, d: Description, platform: Platform, i: nat)
    requires Complete(d) && i < |SpecsFor(item, d, platform)|
    ensures var key := SpecsFor(item, d, platform)[i].key;
      && key.firstItem == item && key.relation == d.relation.value
      && key.multiplier == d.multiplier && key.priority == d.priority
  {}

  /** What a layout constraint relates its item to: the target; without one, nothing for a width or height, and the
      superview for every other attribute. */
  lemma SecondItemExactly(item: LayoutItem, d: Description, platform: Platform, a: LayoutAttribute)
    requires WellRelated(d) && a in LayoutAttributes(d.attributes)
    ensures var (key, target) := (SpecFor(item, d, platform, a).key, d.related.value.item);
      && (target != null ==> key.secondItem == target)
      && (target == null && (a == Width || a == Height) ==> key.secondItem == null)
      && (target == null && a != Width && a != Height ==> key.secondItem == item.superview)
  {
    var target := d.related.value;
    if target.item == null {
      NothingDecodesToNothing(target.attributes);
      PairedWithNothing(d.attributes, target.attributes, false, a);
    }
  }

  /** And to which attribute of it. `to` are the attributes that were named for the target, if any. */
  lemma SecondAttributeExactly(item: LayoutItem, d: Description, platform: Platform, a: LayoutAttribute)
    requires WellRelated(d) && a in LayoutAttributes(d.attributes)
    requires var to := d.related.value.attributes; Known(d.attributes) && Known(to) && Relatable(d.attributes, to)
    ensures var (spec, target, from) := (SpecFor(item, d, platform, a), d.related.value.item, d.attributes);
      var (second, to) := (spec.key.secondAttribute, d.related.value.attributes);
      if spec.key.secondItem == null && platform.clearsAttributeOfNil then second == NotAnAttribute
      else if target == null then second == (if a == CenterX then Left else if a == CenterY then Top else a)
      else if LayoutAttributes(to) == [] || to == from then second == a
      else if (from == EDGES && to == MARGINS) || (from == MARGINS && to == EDGES) then second == Counterpart(a)
      else LayoutAttributes(to) == [second]
  {
    var from, target := d.attributes, d.related.value;
    var to := target.attributes;
    if target.item == null {
      NothingDecodesToNothing(to);
    }
    if LayoutAttributes(to) == [] {
      PairedWithNothing(from, to, target.item != null, a);
    } else {
      PairedExactly(from, to, target.item != null, a);
    }
  }

  /** What is built for a list of descriptions: what each complete one asks for, and nothing else. */
  lemma {:induction false} BuiltExactly(item: LayoutItem, ds: seq<Description>, platform: Platform, spec: Spec)
    ensures spec in Built(item, ds, platform) <==>
      exists d :: d in ds && Complete(d) && spec in SpecsFor(item, d, platform)
    decreases |ds|
  {
    if ds != [] {
      var init, last := ds[..|ds| - 1], ds[|ds| - 1];
      BuiltExactly(item, init, platform, spec);
      assert ds == init + [last];
      assert forall d :: d in ds <==> d in init || d == last;
    }
  }

  lemma BuiltOne(item: LayoutItem, d: Description, platform: Platform)
    requires Complete(d)
    ensures Built(item, [d], platform) == SpecsFor(item, d, platform)
  {
    assert [d][..0] == [] && [] + SpecsFor(item, d, platform) == SpecsFor(item, d, platform);
  }

  /** A description given twice, with whatever constants, builds constraints that are `==`. */
  lemma TwiceDescribed(item: LayoutItem, d: Description, c: Constant, platform: Platform)
    requires Complete(d) && LayoutAttributes(d.attributes) != []
    ensures !DistinctKeys(Built(item, [d, d.(constant := c)], platform))
  {
    var d' := d.(constant := c);
    var first, second := SpecsFor(item, d, platform), SpecsFor(item, d', platform);
    var all := Built(item, [d, d'], platform);
    assert all == first + second by {
      assert [d, d'][..1] == [d];
      BuiltOne(item, d, platform);
    }
    SameDescriptionSameKeys(item, d, d', platform);
    assert all[0].key == all[|first|].key;
  }

  /** Updating with another priority is a fatal error. */
  lemma OtherPriorityIsFatal(item: LayoutItem, d: Description, priority: real, platform: Platform)
    requires Complete(d) && LayoutAttributes(d.attributes) != [] && priority != d.priority
    ensures Updated(Built(item, [d], platform), Built(item, [d.(priority := priority)], platform)).None?
  {
    var d' := d.(priority := priority);
    var existing, news := SpecsFor(item, d, platform), SpecsFor(item, d', platform);
    BuiltOne(item, d, platform);
    BuiltOne(item, d', platform);
    SpecsTell(item, d', platform, 0);
    forall i | 0 <= i < |existing| ensures existing[i].key != news[0].key {
      SpecsTell(item, d, platform, i);
    }
    UpdatedExactly(existing, news);
    assert !HasKey(existing, news[0].key);
  }

  lemma FirstAttributesExactly(specs: seq<Spec>, attributes: seq<LayoutAttribute>, a: LayoutAttribute)
    requires |specs| == |attributes| && NoDuplicates(attributes)
    requires forall i :: 0 <= i < |specs| ==> specs[i].key.firstAttribute == attributes[i]
    ensures (exists i :: 0 <= i < |specs| && specs[i].key.firstAttribute == a) <==> a in attributes
    ensures DistinctKeys(specs)
  {
    if a in attributes {
      var i :| 0 <= i < |attributes| && attributes[i] == a;
      assert specs[i].key.firstAttribute == a;
    }
  }

  lemma PairedWithoutTarget(from: Attributes, to: Attributes, a: LayoutAttribute, c: Constant, leftToRight: bool)
    ensures var paired := PairedWith(from, to, [], false, a);
      paired.Some? && ValueFor(c, paired.value, leftToRight) == ValueFor(c, a, leftToRight)
  {}

  // ---------- relatedTo ----------

  /** What a description can be related to: attributes of an item, a view or layout guide as such, or a constant. */
  datatype RelatableTarget =
    | AttributesOf(item: LayoutItem, attributes: Attributes)
    | ItemItself(item: LayoutItem)
    | ConstantTarget(constant: Constant)

  /** The description that a maker, its extendables and its editables share. */
  class ConstraintDescription {
    var fields: Description

    constructor (attributes: Attributes)
      ensures fields == Description(attributes, None, None, 1.0, Scalar(0.0), REQUIRED)
    {
      fields := Description(attributes, None, None, 1.0, Scalar(0.0), REQUIRED);
    }

    /** Relates the description, or changes nothing and is a fatal error. */
    method RelatedTo(other: RelatableTarget, relation: Relation) returns (ok: bool)
      modifies this
      ensures ok <==> (other.AttributesOf? ==> Relatable(old(fields).attributes, other.attributes))
      ensures !ok ==> fields == old(fields)
      ensures ok ==> WellRelated(fields) && Relatable(fields.attributes, fields.related.value.attributes)
      ensures ok ==>
        fields == old(fields).(
          relation := Some(relation),
          related := Some(if other.AttributesOf? then Target(other.item, other.attributes)
                          else if other.ItemItself? then Target(other.item, NONE) else Target(null, NONE)),
          constant := if other.ConstantTarget? then other.constant else Scalar(0.0))
    {
      var related, constant;
      match other {
        case AttributesOf(item, attributes) =>
          if !Relatable(fields.attributes, attributes) {
            return false;
          }
          related, constant := Target(item, attributes), Scalar(0.0);
        case ItemItself(item) =>
          related, constant := Target(item, NONE), Scalar(0.0);
        case ConstantTarget(c) =>
          related, constant := Target(null, NONE), c;
      }
      fields := fields.(relation := Some(relation), related := Some(related), constant := constant);
      ok := true;
    }
  }

  // ---------- The classes ----------

  /** A view or layout guide, with the set of constraints registered on it. */
  class LayoutItem {
    const superview: LayoutItem?
    var constraints: set<Constraint>

    constructor (superview: LayoutItem?)
      ensures this.superview == superview && constraints == {}
    {
      this.superview := superview;
      constraints := {};
    }

    ghost function AllParts(): set<LayoutConstraint>
      reads this`constraints, constraints`layoutConstraints
    {
      PartsOf(constraints)
    }

    /** `allObjects`: every registered constraint once, in no particular order. */
    method AllObjects() returns (all: seq<Constraint>)
      ensures forall c :: c in all <==> c in constraints
      ensures forall i, j :: 0 <= i < j < |all| ==> all[i] != all[j]
    {
      all := [];
      var rest := constraints;
      while rest != {}
        invariant rest <= constraints
        invariant forall c :: c in constraints <==> c in all || c in rest
        invariant forall c :: c in all ==> c in constraints && c !in rest
        invariant forall i, j :: 0 <= i < j < |all| ==> all[i] != all[j]
        decreases rest
      {
        var c :| c in rest;
        all, rest := all + [c], rest - {c};
      }
    }
  }

  /** `NSLayoutConstraint` with SnapKit's back reference; items, attributes, relation and multiplier are read-only. */
  class LayoutConstraint {
    const firstItem: LayoutItem
    const firstAttribute: LayoutAttribute
    const relation: Relation
    const secondItem: LayoutItem?
    const secondAttribute: LayoutAttribute
    const multiplier: real
    var constant: real
    var priority: real
    var isActive: bool
    var constraint: Constraint?

    constructor (spec: Spec, owner: Constraint)
      ensures ToSpec() == spec && !isActive && constraint == owner
    {
      firstItem, firstAttribute, relation := spec.key.firstItem, spec.key.firstAttribute, spec.key.relation;
      secondItem, secondAttribute, multiplier := spec.key.secondItem, spec.key.secondAttribute, spec.key.multiplier;
      constant, priority, isActive, constraint := spec.constant, spec.key.priority, false, owner;
    }

    function ToSpec(): Spec
      reads this`constant, this`priority
    {
      Spec(Key(firstItem, firstAttribute, relation, secondItem, secondAttribute, multiplier, priority), constant)
    }
  }

  function Specs(lcs: seq<LayoutConstraint>): (specs: seq<Spec>)
    reads lcs
    ensures |specs| == |lcs| && forall i :: 0 <= i < |lcs| ==> specs[i] == lcs[i].ToSpec()
  {
    seq(|lcs|, i requires 0 <= i < |lcs| reads lcs => lcs[i].ToSpec())
  }

  /** `first { $0 == layoutConstraint }`; the length when there is none. */
  method FirstEqual(existing: seq<LayoutConstraint>, lc: LayoutConstraint) returns (k: nat)
    ensures k <= |existing|
    ensures k < |existing| ==> FirstIndex(Specs(existing), lc.ToSpec().key) == Some(k)
    ensures k == |existing| ==> FirstIndex(Specs(existing), lc.ToSpec().key) == None
  {
    k := 0;
    while k < |existing| && existing[k].ToSpec().key != lc.ToSpec().key
      invariant k <= |existing|
      invariant forall i :: 0 <= i < k ==> existing[i].ToSpec().key != lc.ToSpec().key
    {
      k := k + 1;
    }
  }

  class Constraint {
    const from: LayoutItem
    var layoutConstraints: seq<LayoutConstraint>
    var constant: Constant
    var priority: real

    /** `init`: one inactive layout constraint per attribute. */
    constructor (from: LayoutItem, d: Description, platform: Platform)
      requires WellRelated(d)
      ensures this.from == from && BuiltFrom(d, platform)
      ensures Owned() && Chosen(platform.leftToRight)
      ensures forall lc :: lc in layoutConstraints ==> fresh(lc) && !lc.isActive
    {
      this.from := from;
      constant, priority := d.constant, d.priority;
      layoutConstraints := [];
      new;
      CreateLayoutConstraints(SpecsFor(from, d, platform));
      SameConstants(from, d, platform);
    }

    method CreateLayoutConstraints(specs: seq<Spec>)
      requires layoutConstraints == []
      modifies this`layoutConstraints
      ensures Owned() && (forall lc :: lc in layoutConstraints ==> fresh(lc) && !lc.isActive)
      ensures Specs(layoutConstraints) == specs
    {
      for i := 0 to |specs|
        invariant |layoutConstraints| == i && Owned()
        invariant forall lc :: lc in layoutConstraints ==> fresh(lc) && !lc.isActive
        invariant forall k :: 0 <= k < i ==> layoutConstraints[k].ToSpec() == specs[k]
      {
        var lc := new LayoutConstraint(specs[i], this);
        layoutConstraints := layoutConstraints + [lc];
      }
    }

    /** The layout constraints are this constraint's own, and different from each other. */
    ghost predicate Owned()
      reads this`layoutConstraints, Parts()`constraint
    {
      && (forall i :: 0 <= i < |layoutConstraints| ==> layoutConstraints[i].constraint == this)
      && (forall i, j :: 0 <= i < j < |layoutConstraints| ==> layoutConstraints[i] != layoutConstraints[j])
    }

    ghost function Parts(): set<LayoutConstraint>
      reads this`layoutConstraints
    {
      set lc | lc in layoutConstraints
    }

    /** Every constant is what an update with this constraint's constant would choose. */
    ghost predicate Chosen(leftToRight: bool)
      reads this`layoutConstraints, this`constant, Parts()`constant, Parts()`priority
    {
      forall lc :: lc in layoutConstraints ==>
        lc.constant == ValueFor(constant, UpdateAttribute(lc.ToSpec().key), leftToRight)
    }

    /** Registered and all active, or not registered and all inactive. */
    ghost predicate Consistent()
      reads this`layoutConstraints, from`constraints, Parts()`isActive
    {
      forall lc :: lc in layoutConstraints ==> (lc.isActive <==> this in from.constraints)
    }

    /** `NSLayoutConstraint.activate` and `deactivate`. */
    method SetActive(active: bool)
      modifies Parts()`isActive
      ensures forall lc :: lc in layoutConstraints ==> lc.isActive == active
    {
      for i := 0 to |layoutConstraints|
        invariant forall k :: 0 <= k < i ==> layoutConstraints[k].isActive == active
      {
        layoutConstraints[i].isActive := active;
      }
    }

    /** What building from the description gives; the stored priority may only differ where required priorities keep it
        from reaching the layout constraints. */
    ghost predicate BuiltFrom(d: Description, platform: Platform)
      reads this, Parts()
    {
      && WellRelated(d) && constant == d.constant
      && (priority == d.priority || priority == REQUIRED || d.priority >= REQUIRED)
      && Specs(layoutConstraints) == SpecsFor(from, d, platform)
    }

    /** `updateConstantAndPriorityIfNeeded`. */
    method UpdateConstantAndPriority(leftToRight: bool)
      requires Owned()
      modifies Parts()`constant, Parts()`priority
      ensures forall k :: 0 <= k < |layoutConstraints| ==>
        var (was, lc) := (old(layoutConstraints[k].ToSpec()), layoutConstraints[k]);
        lc.ToSpec() == Spec(was.key.(priority := UpdatedPriority(was.key.priority, priority)),
                            ValueFor(constant, UpdateAttribute(was.key), leftToRight))
    {
      for i := 0 to |layoutConstraints|
        invariant forall k :: i <= k < |layoutConstraints| ==>
          layoutConstraints[k].ToSpec() == old(layoutConstraints[k].ToSpec())
        invariant forall k :: 0 <= k < i ==>
          var (was, lc) := (old(layoutConstraints[k].ToSpec()), layoutConstraints[k]);
          lc.ToSpec() == Spec(was.key.(priority := UpdatedPriority(was.key.priority, priority)),
                              ValueFor(constant, UpdateAttribute(was.key), leftToRight))
      {
        var lc := layoutConstraints[i];
        lc.constant := ValueFor(constant, UpdateAttribute(lc.ToSpec().key), leftToRight);
        if lc.priority < REQUIRED && priority != REQUIRED {
          lc.priority := priority;
        }
      }
    }

    /** Setting the constant gives what building with that constant gives. */
    method SetConstant(c: Constant, ghost d: Description, platform: Platform)
      requires Owned() && BuiltFrom(d, platform)
      modifies this`constant, Parts()`constant, Parts()`priority
      ensures Owned() && BuiltFrom(d.(constant := c), platform)
    {
      ghost var was := Specs(layoutConstraints);
      constant := c;
      UpdateConstantAndPriority(platform.leftToRight);
      SpecsWith(from, d, platform, c, priority, was, Specs(layoutConstraints));
      assert d.(constant := c, priority := d.priority) == d.(constant := c);
    }

    /** Setting the priority gives what building with that priority gives, except that nothing becomes required and
        nothing required changes. */
    method SetPriority(p: real, ghost d: Description, platform: Platform)
      requires Owned() && BuiltFrom(d, platform)
      modifies this`priority, Parts()`constant, Parts()`priority
      ensures Owned() && BuiltFrom(d.(priority := UpdatedPriority(d.priority, p)), platform)
    {
      ghost var was := Specs(layoutConstraints);
      priority := p;
      UpdateConstantAndPriority(platform.leftToRight);
      SpecsWith(from, d, platform, d.constant, p, was, Specs(layoutConstraints));
      var updated := UpdatedPriority(d.priority, p);
      assert d.(constant := d.constant, priority := updated) == d.(priority := updated);
    }

    /** The updating half of `activateIfNeeded`; false is its fatal error. */
    method UpdateExisting(existing: seq<LayoutConstraint>, leftToRight: bool,
                          ghost world: set<Constraint>, ghost items: set<LayoutItem>) returns (ok: bool)
      requires Good(world, items)
      requires Chosen(leftToRight) && (forall lc :: lc in layoutConstraints ==> lc !in existing)
      requires forall i, j :: 0 <= i < j < |existing| ==> existing[i] != existing[j]
      modifies (set lc | lc in existing)`constant
      ensures Good(world, items)
      ensures ok <==> AllHaveKey(old(Specs(existing)), old(Specs(layoutConstraints)))
      ensures ok ==> Updated(old(Specs(existing)), old(Specs(layoutConstraints))) == Some(Specs(existing))
    {
      ghost var was, news := Specs(existing), Specs(layoutConstraints);
      for i := 0 to |layoutConstraints|
        invariant forall k :: 0 <= k < |layoutConstraints| ==> layoutConstraints[k].ToSpec() == news[k]
        invariant Good(world, items) && Updated(was, news[..i]) == Some(Specs(existing))
      {
        UpdatedStep(was, news, i);
        var found := UpdateOne(existing, layoutConstraints[i], leftToRight, world, items);
        if !found {
          UpdatedExactly(was, news);
          return false;
        }
      }
      assert news[..|news|] == news;
      UpdatedExactly(was, news);
      ok := true;
    }

    method UpdateOne(existing: seq<LayoutConstraint>, lc: LayoutConstraint, leftToRight: bool,
                     ghost world: set<Constraint>, ghost items: set<LayoutItem>) returns (found: bool)
      requires Good(world, items)
      requires lc.constant == ValueFor(constant, UpdateAttribute(lc.ToSpec().key), leftToRight)
      requires forall i, j :: 0 <= i < j < |existing| ==> existing[i] != existing[j]
      modifies (set lc | lc in existing)`constant
      ensures Good(world, items)
      ensures var k := FirstIndex(old(Specs(existing)), old(lc.ToSpec()).key);
        && (found <==> k.Some?)
        && (found ==> Specs(existing) == old(Specs(existing))[k.value := old(lc.ToSpec())])
    {
      var k := FirstEqual(existing, lc);
      found := k < |existing|;
      if found {
        var updated := existing[k];
        var attribute := UpdateAttribute(updated.ToSpec().key);
        ghost var was, news := Specs(existing), lc.ToSpec();
        updated.constant := ValueFor(constant, attribute, leftToRight);
        assert updated.ToSpec() == news;
        assert Specs(existing) == was[k := news];
      }
    }

    /** `activateIfNeeded` without an update. */
    method Activate(ghost world: set<Constraint>, ghost items: set<LayoutItem>)
      requires Good(world, items) && this in world
      modifies Parts()`isActive, from`constraints
      ensures Good(world, items)
      ensures from.constraints == old(from.constraints) + {this}
    {
      SetActive(true);
      from.constraints := from.constraints + {this};
      forall c | c in world ensures c.Owned() && c.Consistent() {
        assert old(c.Owned() && c.Consistent());
      }
    }

    method Deactivate(ghost world: set<Constraint>, ghost items: set<LayoutItem>)
      requires Good(world, items) && this in world
      modifies Parts()`isActive, from`constraints
      ensures Good(world, items)
      ensures from.constraints == old(from.constraints) - {this}
    {
      SetActive(false);
      from.constraints := from.constraints - {this};
      forall c | c in world ensures c.Owned() && c.Consistent() {
        assert old(c.Owned() && c.Consistent());
      }
    }
  }

  // ---------- The world ----------

  ghost function PartsOf(cs: set<Constraint>): set<LayoutConstraint>
    reads cs`layoutConstraints
  {
    set c, lc | c in cs && lc in c.layoutConstraints :: lc
  }

  /** All constraints ever made and not forgotten, and the items they are for: constraints own their layout constraints,
      items register only their own constraints, and each constraint is registered and active, or neither. */
  ghost predicate Good(world: set<Constraint>, items: set<LayoutItem>)
    reads world`layoutConstraints, items`constraints, PartsOf(world)`constraint, PartsOf(world)`isActive
  {
    && (forall c :: c in world ==> c.from in items && c.Owned() && c.Consistent())
    && (forall item, c :: item in items && c in item.constraints ==> c in world && c.from == item)
  }

  /** A new item joins with nothing registered. */
  lemma GoodWithNewItem(world: set<Constraint>, items: set<LayoutItem>, item: LayoutItem)
    requires Good(world, items) && item.constraints == {}
    ensures Good(world, items + {item}) && Good({}, {item})
  {}

  ghost function FlatParts(cs: seq<Constraint>): seq<LayoutConstraint>
    reads cs`layoutConstraints
  {
    if cs == [] then [] else FlatParts(cs[..|cs| - 1]) + cs[|cs| - 1].layoutConstraints
  }

  lemma PartsAreFlat(cs: seq<Constraint>, i: nat)
    requires i < |cs|
    ensures forall lc :: lc in cs[i].layoutConstraints ==> lc in FlatParts(cs)
  {}

  lemma {:induction false} FlatMembers(cs: seq<Constraint>)
    ensures forall lc :: lc in FlatParts(cs) <==> exists c :: c in cs && lc in c.layoutConstraints
  {
    if cs != [] {
      var init, last := cs[..|cs| - 1], cs[|cs| - 1];
      FlatMembers(init);
      assert forall c :: c in cs <==> c in init || c == last;
    }
  }

  lemma OneMoreFlat(cs: seq<Constraint>, i: nat)
    requires i < |cs|
    ensures FlatParts(cs[..i + 1]) == FlatParts(cs[..i]) + cs[i].layoutConstraints
    ensures Specs(FlatParts(cs[..i + 1])) == Specs(FlatParts(cs[..i])) + Specs(cs[i].layoutConstraints)
  {
    FlatWithOneMore(cs[..i], cs[i]);
    assert cs[..i + 1] == cs[..i] + [cs[i]];
  }

  lemma {:induction false} FlatPrefix(cs: seq<Constraint>, i: nat)
    requires i <= |cs|
    ensures FlatParts(cs[..i]) <= FlatParts(cs)
  {
    if i < |cs| {
      assert cs[..|cs| - 1][..i] == cs[..i];
      FlatPrefix(cs[..|cs| - 1], i);
    } else {
      assert cs[..i] == cs;
    }
  }

  /** Where the layout constraints of one constraint are in the flat list. */
  lemma NextChunk(cs: seq<Constraint>, i: nat)
    requires i < |cs|
    ensures var (n, k) := (|FlatParts(cs[..i])|, |FlatParts(cs[..i + 1])|);
      && n + |cs[i].layoutConstraints| == k <= |FlatParts(cs)|
      && Specs(FlatParts(cs))[n..k] == Specs(cs[i].layoutConstraints)
  {
    OneMoreFlat(cs, i);
    FlatPrefix(cs, i + 1);
    SpecsSlice(FlatParts(cs), |FlatParts(cs[..i])|, cs[i].layoutConstraints);
  }

  lemma SpecsSlice(lcs: seq<LayoutConstraint>, n: nat, slice: seq<LayoutConstraint>)
    requires n + |slice| <= |lcs| && lcs[n..n + |slice|] == slice
    ensures Specs(lcs)[n..n + |slice|] == Specs(slice)
  {}

  lemma {:induction false} FlatDistinct(cs: seq<Constraint>)
    requires forall c :: c in cs ==> c.Owned()
    requires forall i, j :: 0 <= i < j < |cs| ==> cs[i] != cs[j]
    ensures forall i :: 0 <= i < |FlatParts(cs)| ==> FlatParts(cs)[i].constraint in cs
    ensures forall i, j :: 0 <= i < j < |FlatParts(cs)| ==> FlatParts(cs)[i] != FlatParts(cs)[j]
  {
    if cs != [] {
      var init, last := cs[..|cs| - 1], cs[|cs| - 1];
      assert forall c :: c in cs <==> c in init || c == last;
      FlatDistinct(init);
      assert last !in init;
    }
  }

  ghost function Members(cs: seq<Constraint>): set<Constraint> {
    set c | c in cs
  }

  /** A constraint of the item, neither active nor registered. */
  ghost predicate Unused(c: Constraint, item: LayoutItem)
    reads c, c.Parts(), item
  {
    c.from == item && c.Owned() && c !in item.constraints && forall lc :: lc in c.layoutConstraints ==> !lc.isActive
  }

  /** Unused constraints change nothing. */
  lemma GoodWithUnused(world: set<Constraint>, cs: set<Constraint>, item: LayoutItem, items: set<LayoutItem>)
    requires Good(world, items) && item in items
    requires forall c :: c in cs ==> Unused(c, item)
    ensures Good(world + cs, items)
  {}

  lemma FlatWithOneMore(cs: seq<Constraint>, c: Constraint)
    ensures FlatParts(cs + [c]) == FlatParts(cs) + c.layoutConstraints
    ensures Specs(FlatParts(cs + [c])) == Specs(FlatParts(cs)) + Specs(c.layoutConstraints)
  {}

  // ---------- ConstraintMaker ----------

  lemma BuiltWithOneMore(item: LayoutItem, ds: seq<Description>, i: nat, platform: Platform)
    requires i < |ds|
    ensures Built(item, ds[..i + 1], platform)
         == Built(item, ds[..i], platform) + (if Complete(ds[i]) then SpecsFor(item, ds[i], platform) else [])
  {
    assert ds[..i + 1][..i] == ds[..i];
  }

  /** New constraints of the item, different from each other, neither active nor registered. */
  ghost predicate Prepared(cs: seq<Constraint>, item: LayoutItem, leftToRight: bool)
    reads cs, set c, lc | c in cs && lc in c.layoutConstraints :: lc
  {
    && (forall c :: c in cs ==>
          c.from == item && c.Owned() && c.Chosen(leftToRight)
          && forall lc :: lc in c.layoutConstraints ==> !lc.isActive)
    && (forall i, j :: 0 <= i < j < |cs| ==> cs[i] != cs[j])
  }

  lemma PreparedWithOneMore(cs: seq<Constraint>, c: Constraint, item: LayoutItem, leftToRight: bool)
    requires Prepared(cs, item, leftToRight) && c !in cs
    requires c.from == item && c.Owned() && c.Chosen(leftToRight)
    requires forall lc :: lc in c.layoutConstraints ==> !lc.isActive
    ensures Prepared(cs + [c], item, leftToRight)
  {}

  /** New, unused constraints for the complete descriptions. */
  method BuildConstraints(item: LayoutItem, descriptions: seq<Description>, platform: Platform)
    returns (constraints: seq<Constraint>)
    requires AllWellRelated(descriptions)
    ensures Prepared(constraints, item, platform.leftToRight)
    ensures (forall c :: c in constraints ==> fresh(c)) && (forall lc :: lc in FlatParts(constraints) ==> fresh(lc))
    ensures Specs(FlatParts(constraints)) == Built(item, descriptions, platform)
  {
    constraints := [];
    ghost var parts: seq<LayoutConstraint> := [];
    for i := 0 to |descriptions|
      invariant Prepared(constraints, item, platform.leftToRight)
      invariant (forall c :: c in constraints ==> fresh(c)) && (forall lc :: lc in parts ==> fresh(lc))
      invariant parts == FlatParts(constraints)
      invariant Specs(parts) == Built(item, descriptions[..i], platform)
    {
      BuiltWithOneMore(item, descriptions, i, platform);
      if Complete(descriptions[i]) {
        ghost var specs := Specs(parts);
        var c := new Constraint(item, descriptions[i], platform);
        assert Specs(parts) == specs;
        assert Prepared(constraints, item, platform.leftToRight);
        PreparedWithOneMore(constraints, c, item, platform.leftToRight);
        FlatWithOneMore(constraints, c);
        constraints, parts := constraints + [c], parts + c.layoutConstraints;
      }
    }
    assert descriptions[..|descriptions|] == descriptions;
  }

  /** They change nothing. */
  method PrepareConstraints(item: LayoutItem, descriptions: seq<Description>, platform: Platform,
                            ghost world: set<Constraint>, ghost items: set<LayoutItem>)
    returns (constraints: seq<Constraint>)
    requires Good(world, items) && item in items && AllWellRelated(descriptions)
    ensures Good(world, items) && Good(world + Members(constraints), items)
    ensures Prepared(constraints, item, platform.leftToRight)
    ensures (forall c :: c in constraints ==> fresh(c)) && (forall lc :: lc in FlatParts(constraints) ==> fresh(lc))
    ensures Specs(FlatParts(constraints)) == Built(item, descriptions, platform)
  {
    constraints := BuildConstraints(item, descriptions, platform);
    assert Good(world, items);
    GoodWithUnused(world, Members(constraints), item, items);
  }

  method ActivateAll(cs: seq<Constraint>, item: LayoutItem, ghost world: set<Constraint>, ghost items: set<LayoutItem>)
    requires Good(world, items) && forall c :: c in cs ==> c in world && c.from == item
    modifies item`constraints, (set lc | lc in FlatParts(cs))`isActive
    ensures Good(world, items)
    ensures item.constraints == old(item.constraints) + Members(cs)
  {
    for i := 0 to |cs|
      invariant Good(world, items)
      invariant item.constraints == old(item.constraints) + Members(cs[..i])
    {
      PartsAreFlat(cs, i);
      cs[i].Activate(world, items);
    }
    assert cs[..|cs|] == cs;
  }

  method DeactivateAll(cs: seq<Constraint>, item: LayoutItem,
                       ghost world: set<Constraint>, ghost items: set<LayoutItem>)
    requires Good(world, items) && forall c :: c in cs ==> c in world && c.from == item
    modifies item`constraints, (set lc | lc in FlatParts(cs))`isActive
    ensures Good(world, items)
    ensures item.constraints == old(item.constraints) - Members(cs)
  {
    for i := 0 to |cs|
      invariant Good(world, items)
      invariant item.constraints == old(item.constraints) - Members(cs[..i])
    {
      PartsAreFlat(cs, i);
      cs[i].Deactivate(world, items);
    }
    assert cs[..|cs|] == cs;
  }

  /** `make`: all of the new constraints, and no others, become registered and active. */
  method MakeConstraints(item: LayoutItem, descriptions: seq<Description>, platform: Platform,
                         ghost world: set<Constraint>, ghost items: set<LayoutItem>) returns (made: seq<Constraint>)
    requires Good(world, items) && item in items && AllWellRelated(descriptions)
    modifies item`constraints
    ensures Good(world + Members(made), items)
    ensures (forall c :: c in made ==> fresh(c)) && (forall lc :: lc in FlatParts(made) ==> fresh(lc))
    ensures item.constraints == old(item.constraints) + Members(made)
    ensures Specs(FlatParts(made)) == Built(item, descriptions, platform)
  {
    made := PrepareConstraints(item, descriptions, platform, world, items);
    ghost var parts, specs := FlatParts(made), Specs(FlatParts(made));
    ActivateAll(made, item, world + Members(made), items);
    assert FlatParts(made) == parts;
    assert forall k :: 0 <= k < |parts| ==> parts[k].ToSpec() == specs[k];
  }

  /** `remove`: nothing stays registered. */
  method RemoveConstraints(item: LayoutItem, ghost world: set<Constraint>, ghost items: set<LayoutItem>)
    requires Good(world, items) && item in items
    modifies item`constraints, item.AllParts()`isActive
    ensures Good(world, items) && item.constraints == {}
  {
    var all := item.AllObjects();
    FlatMembers(all);
    assert forall lc :: lc in FlatParts(all) <==> lc in item.AllParts();
    DeactivateAll(all, item, world, items);
  }

  /** `remake`: only the new constraints stay registered. */
  method RemakeConstraints(item: LayoutItem, descriptions: seq<Description>, platform: Platform,
                           ghost world: set<Constraint>, ghost items: set<LayoutItem>) returns (made: seq<Constraint>)
    requires Good(world, items) && item in items && AllWellRelated(descriptions)
    modifies item`constraints, item.AllParts()`isActive
    ensures Good(world + Members(made), items)
    ensures (forall c :: c in made ==> fresh(c)) && (forall lc :: lc in FlatParts(made) ==> fresh(lc))
    ensures item.constraints == Members(made)
    ensures Specs(FlatParts(made)) == Built(item, descriptions, platform)
  {
    RemoveConstraints(item, world, items);
    made := MakeConstraints(item, descriptions, platform, world, items);
  }

  /** Every prepared constraint in turn updates the existing ones; false is the fatal error. */
  method UpdateAll(prepared: seq<Constraint>, existing: seq<LayoutConstraint>, leftToRight: bool,
                   ghost world: set<Constraint>, ghost items: set<LayoutItem>) returns (ok: bool)
    requires Good(world, items)
    requires forall c :: c in prepared ==> c.Chosen(leftToRight)
    requires forall lc :: lc in FlatParts(prepared) ==> lc !in existing
    requires forall i, j :: 0 <= i < j < |existing| ==> existing[i] != existing[j]
    modifies (set lc | lc in existing)`constant
    ensures Good(world, items)
    ensures ok <==> Updated(old(Specs(existing)), old(Specs(FlatParts(prepared)))).Some?
    ensures ok ==> Updated(old(Specs(existing)), old(Specs(FlatParts(prepared)))) == Some(Specs(existing))
  {
    ghost var was, news, n := Specs(existing), Specs(FlatParts(prepared)), 0;
    ghost var parts := FlatParts(prepared);
    for i := 0 to |prepared|
      invariant n == |FlatParts(prepared[..i])| <= |parts|
      invariant forall lc :: lc in parts ==> lc.constant == old(lc.constant)
      invariant Good(world, items) && Updated(was, news[..n]) == Some(Specs(existing))
    {
      var c := prepared[i];
      ghost var here, k := Specs(c.layoutConstraints), n + |c.layoutConstraints|;
      assert k == |FlatParts(prepared[..i + 1])| <= |parts| && news[n..k] == here by {
        assert FlatParts(prepared) == parts;
        assert Specs(parts) == news by {
          assert forall j :: 0 <= j < |parts| ==> parts[j].ToSpec() == news[j];
        }
        NextChunk(prepared, i);
      }
      assert c.Chosen(leftToRight) && forall lc :: lc in c.layoutConstraints ==> lc !in existing by {
        PartsAreFlat(prepared, i);
        assert old(c.Chosen(leftToRight));
      }
      UpdatedChunk(was, news, n, k);
      UpdatedExactly(Specs(existing), here);
      var done := c.UpdateExisting(existing, leftToRight, world, items);
      if !done {
        assert Updated(was, news).None? by {
          if Updated(was, news).Some? {
            UpdatedPrefix(was, news, k);
          }
        }
        return false;
      }
      n := k;
    }
    assert prepared[..|prepared|] == prepared && news[..|news|] == news;
    ok := true;
  }

  /** `update`: makes, when nothing is registered; otherwise gives the constants of the descriptions to the existing
      layout constraints that are `==`, and changes nothing else. False is the fatal error. */
  method UpdateConstraints(item: LayoutItem, descriptions: seq<Description>, platform: Platform,
                           ghost world: set<Constraint>, ghost items: set<LayoutItem>)
    returns (ok: bool, made: seq<Constraint>, existing: seq<LayoutConstraint>)
    requires Good(world, items) && item in items && AllWellRelated(descriptions)
    modifies item`constraints, item.AllParts()`constant
    ensures Good(world + Members(made), items)
    ensures item.constraints == old(item.constraints) + Members(made)
    ensures old(item.constraints) == {} ==>
      && ok && existing == [] && (forall c :: c in made ==> fresh(c))
      && Specs(FlatParts(made)) == Built(item, descriptions, platform)
    ensures forall lc :: lc in existing <==> lc in old(item.AllParts())
    ensures forall i, j :: 0 <= i < j < |existing| ==> existing[i] != existing[j]
    ensures forall i :: 0 <= i < |existing| ==> old(allocated(existing[i]))
    ensures old(item.constraints) != {} ==>
      var news := Built(item, descriptions, platform);
      && made == []
      && (ok <==> AllHaveKey(old(Specs(existing)), news))
      && (ok ==> Updated(old(Specs(existing)), news) == Some(Specs(existing)))
  {
    if item.constraints == {} {
      made := MakeConstraints(item, descriptions, platform, world, items);
      return true, made, [];
    }
    made := [];
    ok, existing := UpdateRegistered(item, descriptions, platform, world, items);
    UpdatedExactly(old(Specs(existing)), Built(item, descriptions, platform));
    assert world + Members(made) == world;
  }

  method UpdateRegistered(item: LayoutItem, descriptions: seq<Description>, platform: Platform,
                          ghost world: set<Constraint>, ghost items: set<LayoutItem>)
    returns (ok: bool, existing: seq<LayoutConstraint>)
    requires Good(world, items) && item in items && AllWellRelated(descriptions)
    modifies item.AllParts()`constant
    ensures Good(world, items)
    ensures forall lc :: lc in existing <==> lc in old(item.AllParts())
    ensures forall i, j :: 0 <= i < j < |existing| ==> existing[i] != existing[j]
    ensures forall i :: 0 <= i < |existing| ==> old(allocated(existing[i]))
    ensures var news := Built(item, descriptions, platform);
      && (ok <==> Updated(old(Specs(existing)), news).Some?)
      && (ok ==> Updated(old(Specs(existing)), news) == Some(Specs(existing)))
  {
    ghost var parts := item.AllParts();
    assert forall lc :: lc in parts ==> allocated(lc);
    existing := ExistingLayoutConstraints(item, world, items);
    forall i | 0 <= i < |existing| ensures old(allocated(existing[i])) {
      assert existing[i] in existing && existing[i] in parts;
    }
    ghost var was := Specs(existing);
    var prepared := PrepareConstraints(item, descriptions, platform, world, items);
    assert Specs(existing) == was;
    assert forall lc :: lc in FlatParts(prepared) ==> lc !in existing;
    ok := UpdateAll(prepared, existing, platform.leftToRight, world, items);
  }

  method ExistingLayoutConstraints(item: LayoutItem, ghost world: set<Constraint>, ghost items: set<LayoutItem>)
    returns (existing: seq<LayoutConstraint>)
    requires Good(world, items) && item in items
    ensures forall lc :: lc in existing <==> lc in item.AllParts()
    ensures forall i, j :: 0 <= i < j < |existing| ==> existing[i] != existing[j]
  {
    var all := item.AllObjects();
    existing := [];
    for i := 0 to |all|
      invariant existing == FlatParts(all[..i])
    {
      OneMoreFlat(all, i);
      existing := existing + all[i].layoutConstraints;
    }
    assert all[..|all|] == all;
    FlatMembers(all);
    forall c | c in all ensures c.Owned() {
      assert c in world;
    }
    FlatDistinct(all);
  }

  // ---------- Make, then update ----------

  /** No two of the layout constraints and of the constraints still to be built are `==`. */
  ghost predicate Apart(lcs: set<LayoutConstraint>, specs: seq<Spec>)
    reads lcs
  {
    && (forall a, b :: a in lcs && b in lcs && a != b ==> a.ToSpec().key != b.ToSpec().key)
    && DistinctKeys(specs)
    && (forall lc, k :: lc in lcs && 0 <= k < |specs| ==> lc.ToSpec().key != specs[k].key)
  }

  lemma ExistingApart(existing: seq<LayoutConstraint>, before: set<LayoutConstraint>, parts: seq<LayoutConstraint>)
    requires Apart(before, Specs(parts))
    requires forall lc :: lc in existing ==> lc in before || lc in parts
    requires forall i, j :: 0 <= i < j < |existing| ==> existing[i] != existing[j]
    ensures DistinctKeys(Specs(existing))
  {}

  /** The new constraints that the parts have the keys of reach exactly those parts. */
  lemma OnlyPartsUpdated(existing: seq<LayoutConstraint>, was: seq<Spec>, before: set<LayoutConstraint>,
                         parts: seq<LayoutConstraint>, news: seq<Spec>)
    requires Apart(before, Specs(parts)) && DistinctKeys(Specs(existing))
    requires forall lc :: lc in existing <==> lc in before || lc in parts
    requires SameKeys(was, Specs(existing)) && SameKeys(news, Specs(parts))
    ensures var r := Updated(was, news);
      && r.Some?
      && (r == Some(Specs(existing)) ==> Specs(parts) == news)
      && (r == Some(Specs(existing)) ==>
            forall i :: 0 <= i < |existing| && existing[i] in before ==> was[i] == Specs(existing)[i])
  {
    forall k | 0 <= k < |news| ensures HasKey(was, news[k].key) {
      var i :| 0 <= i < |existing| && existing[i] == parts[k];
      assert was[i].key == news[k].key;
    }
    UpdatedByKey(was, news);
    if Updated(was, news) == Some(Specs(existing)) {
      forall k | 0 <= k < |parts| ensures Specs(parts)[k] == news[k] {
        var i :| 0 <= i < |existing| && existing[i] == parts[k];
        assert Specs(existing)[i].key == news[k].key;
      }
      forall i | 0 <= i < |existing| && existing[i] in before ensures was[i] == Specs(existing)[i] {
        assert !HasKey(news, existing[i].ToSpec().key);
      }
    }
  }

  /** `update` with descriptions that build the keys of some registered layout constraints, the others being `before`:
      exactly those become what the descriptions build. */
  method UpdateMatching(item: LayoutItem, ds: seq<Description>, platform: Platform,
                        ghost before: set<LayoutConstraint>, ghost parts: seq<LayoutConstraint>,
                        ghost world: set<Constraint>, ghost items: set<LayoutItem>) returns (ok: bool)
    requires Good(world, items) && item in items && AllWellRelated(ds) && item.constraints != {}
    requires forall lc :: lc in item.AllParts() <==> lc in before || lc in parts
    requires Apart(before, Specs(parts)) && SameKeys(Built(item, ds, platform), Specs(parts))
    modifies item`constraints, item.AllParts()`constant
    ensures ok && Good(world, items) && item.constraints == old(item.constraints)
    ensures Specs(parts) == Built(item, ds, platform)
    ensures forall lc :: lc in before ==> lc.constant == old(lc.constant)
  {
    var news := Built(item, ds, platform);
    ghost var keys := Specs(parts);
    var done, made, existing := UpdateConstraints(item, ds, platform, world, items);
    ghost var was := old(Specs(existing));
    assert SameKeys(was, Specs(existing)) && SameKeys(keys, Specs(parts));
    assert Apart(before, Specs(parts));
    ExistingApart(existing, before, parts);
    OnlyPartsUpdated(existing, was, before, parts, news);
    assert world + Members(made) == world;
    ok := done;
  }

  /** `make` followed by `update` with the same shape: the constraints made have exactly what making them with the new
      descriptions gives, they alone are registered and activated, and no other constant changes. */
  method MakeThenUpdate(item: LayoutItem, ds: seq<Description>, ds': seq<Description>, platform: Platform,
                        ghost world: set<Constraint>, ghost items: set<LayoutItem>)
    returns (ok: bool, made: seq<Constraint>)
    requires Good(world, items) && item in items && AllWellRelated(ds) && AllWellRelated(ds') && SameShape(ds, ds')
    requires Apart(item.AllParts(), Built(item, ds, platform))
    modifies item`constraints, item.AllParts()`constant
    ensures ok && Good(world + Members(made), items)
    ensures item.constraints == old(item.constraints) + Members(made)
    ensures Specs(FlatParts(made)) == Built(item, ds', platform)
    ensures forall lc :: lc in old(item.AllParts()) ==> lc.constant == old(lc.constant)
  {
    SameShapeSameKeys(item, ds, ds', platform);
    ghost var before := item.AllParts();
    made := MakeConstraints(item, ds, platform, world, items);
    ghost var parts := FlatParts(made);
    if item.constraints == {} {
      var _, again, _ := UpdateConstraints(item, ds', platform, world, items);
      return true, again;
    }
    PartsAfterMake(item, made, old(item.constraints));
    ok := UpdateMatching(item, ds', platform, before, parts, world + Members(made), items);
    assert FlatParts(made) == parts;
  }

  lemma PartsAfterMake(item: LayoutItem, made: seq<Constraint>, before: set<Constraint>)
    requires item.constraints == before + Members(made)
    ensures forall lc :: lc in item.AllParts() <==> lc in PartsOf(before) || lc in FlatParts(made)
  {
    FlatMembers(made);
  }
}
