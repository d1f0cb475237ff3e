/**
 The closed field list of a disclosure package (ts/src/disclosure.ts): a walk over an untrusted value
 that refuses whatever the list does not name.
 */
module ListedFields {
  import opened Wrappers

  /**
   A value handed to the verifier. An object may have a prototype of its own, and a field may be an
   accessor. An array may answer forEach by a property of its own or of a prototype of its own; it then
   hands the walk whatever it likes. What the walk does not enumerate is hidden: properties of an array
   that are not elements, properties of an object that are not enumerable or named by a symbol, and any
   property of a function, which the walk takes for a scalar.
   */
  datatype Value =
    | Scalar(hidden: seq<Field>)
    | Array(elements: seq<Element>, ownForEach: bool, handed: seq<Value>, hidden: seq<Field>)
    | Object(plain: bool, fields: seq<Field>, hidden: seq<Field>)

  /** What the walk saw in a place of an array, and what a later reader sees: the same, unless it is an accessor. */
  datatype Element = Element(seen: Value, later: Value)

  datatype Field = Field(name: string, accessor: bool, value: Value)

  datatype Shape =
    | One
    | Many
    | Each(inner: Shape)
    | Record(listed: seq<Listed>)

  datatype Listed = Listed(name: string, shape: Shape)

  datatype Refused = UnlistedField | MalformedPackage

  function Ones(names: seq<string>): (r: seq<Listed>)
    ensures |r| == |names| && forall i :: 0 <= i < |r| ==> r[i] == Listed(names[i], One)
  {
    seq(|names|, i requires 0 <= i < |names| => Listed(names[i], One))
  }

  const RECORD_FIELDS: seq<string> := [
    "seq", "category", "effective_at", "change_identified_at", "payload_digest", "assessment_digest", "qp_key",
    "payload_uri", "flags"]
  const SEGMENT_FIELDS: seq<string> := ["leaf", "head"]
  const INCLUSION_FIELDS: seq<string> := ["epoch", "height", "slot_index"]
  const ANCHOR_FIELDS: seq<string> := ["solana_tx", "solana_slot", "ots_receipt_digest"]

  const CHAIN_SHAPE: Shape := Record([
    Listed("prev_head", One), Listed("head", One), Listed("genesis", One),
    Listed("segment", Each(Record(Ones(SEGMENT_FIELDS))))])

  const PACKAGE_SHAPE: Shape := Record([
    Listed("schema", One), Listed("record", Record(Ones(RECORD_FIELDS))), Listed("preimage_borsh", One),
    Listed("chain", CHAIN_SHAPE), Listed("qp_signature", One),
    Listed("inclusion", Record(Ones(INCLUSION_FIELDS) + [Listed("siblings", Many)])),
    Listed("anchor", Record(Ones(ANCHOR_FIELDS)))])

  function Lookup(listed: seq<Listed>, name: string): Option<Shape> {
    if listed == [] then None
    else if listed[0].name == name then Some(listed[0].shape)
    else Lookup(listed[1..], name)
  }

  // The walk

  /** How many values an array hands the walk: its elements, unless it has a forEach of its own. */
  function Visits(v: Value): nat
    requires v.Array?
  {
    if v.ownForEach then |v.handed| else |v.elements|
  }

  function Visited(v: Value, i: nat): (r: Value)
    requires v.Array? && i < Visits(v)
    ensures r < v
  {
    if v.ownForEach then v.handed[i] else v.elements[i].seen
  }

  function CheckOnlyListedFields(v: Value, s: Shape): Result<(), Refused>
    decreases v, 1, 0
  {
    match s
    case One => if v.Scalar? then Ok(()) else Err(UnlistedField)
    case Many => if v.Array? then CheckElements(v, One, 0) else Err(MalformedPackage)
    case Each(inner) => if v.Array? then CheckElements(v, inner, 0) else Err(MalformedPackage)
    case Record(listed) => if v.Object? && v.plain then CheckFields(v, listed, 0) else Err(MalformedPackage)
  }

  function CheckElements(v: Value, s: Shape, i: nat): Result<(), Refused>
    requires v.Array? && i <= Visits(v)
    decreases v, 0, Visits(v) - i
  {
    if i == Visits(v) then Ok(())
    else
      var first :- CheckOnlyListedFields(Visited(v, i), s);
      CheckElements(v, s, i + 1)
  }

  function CheckFields(v: Value, listed: seq<Listed>, i: nat): Result<(), Refused>
    requires v.Object? && i <= |v.fields|
    decreases v, 0, |v.fields| - i
  {
    if i == |v.fields| then Ok(())
    else
      var shape := Lookup(listed, v.fields[i].name);
      if shape.None? then Err(UnlistedField)
      else if v.fields[i].accessor then Err(MalformedPackage)
      else
        var first :- CheckOnlyListedFields(v.fields[i].value, shape.value);
        CheckFields(v, listed, i + 1)
  }

  // What it accepts, place by place

  /** A place the walk comes to: which element or field to take at each level. */
  type Place = seq<nat>

  function Children(v: Value): (r: seq<Value>)
    ensures v.Array? ==> |r| == Visits(v) && forall i :: 0 <= i < |r| ==> r[i] == Visited(v, i)
    ensures v.Object? ==> |r| == |v.fields| && forall i :: 0 <= i < |r| ==> r[i] == v.fields[i].value
    ensures v.Scalar? ==> r == []
  {
    match v
    case Scalar(_) => []
    case Array(_, _, _, _) => seq(Visits(v), i requires 0 <= i < Visits(v) => Visited(v, i))
    case Object(_, fields, _) => seq(|fields|, i requires 0 <= i < |fields| => fields[i].value)
  }

  predicate IsPlace(v: Value, p: Place)
    decreases |p|
  {
    p == [] || (p[0] < |Children(v)| && IsPlace(Children(v)[p[0]], p[1..]))
  }

  function Sub(v: Value, p: Place): Value
    requires IsPlace(v, p)
    decreases |p|
  {
    if p == [] then v else Sub(Children(v)[p[0]], p[1..])
  }

  /** The shape the list gives a child, if it lists it at all. */
  function ChildShape(v: Value, s: Shape, i: nat): Option<Shape>
    requires i < |Children(v)|
  {
    if v.Array? && s.Many? then Some(One)
    else if v.Array? && s.Each? then Some(s.inner)
    else if v.Object? && s.Record? && !v.fields[i].accessor then Lookup(s.listed, v.fields[i].name)
    else None
  }

  function ShapeOf(v: Value, s: Shape, p: Place): Option<Shape>
    requires IsPlace(v, p)
    decreases |p|
  {
    if p == [] then Some(s)
    else
      match ChildShape(v, s, p[0])
      case None => None
      case Some(shape) => ShapeOf(Children(v)[p[0]], shape, p[1..])
  }

  /** The kind of value a shape calls for. */
  predicate IsKind(v: Value, s: Shape) {
    match s
    case One => v.Scalar?
    case Many => v.Array?
    case Each(_) => v.Array?
    case Record(_) => v.Object? && v.plain
  }

  /** The list names this place, by data fields all the way, and what is there is what it calls for. */
  predicate ListedAt(v: Value, s: Shape, p: Place)
    requires IsPlace(v, p)
  {
    ShapeOf(v, s, p).Some? && IsKind(Sub(v, p), ShapeOf(v, s, p).value)
  }

  predicate ChildrenPass(v: Value, s: Shape) {
    IsKind(v, s)
    && forall i :: 0 <= i < |Children(v)| ==>
         (ChildShape(v, s, i).Some? && CheckOnlyListedFields(Children(v)[i], ChildShape(v, s, i).value).Ok?)
  }

  lemma {:induction false} ElementsPass(v: Value, s: Shape, i: nat)
    requires v.Array? && i <= Visits(v)
    ensures CheckElements(v, s, i).Ok? <==>
      forall k :: i <= k < Visits(v) ==> CheckOnlyListedFields(Visited(v, k), s).Ok?
    decreases Visits(v) - i
  {
    hide CheckOnlyListedFields, Visits, Visited;
    if i < Visits(v) { ElementsPass(v, s, i + 1); }
  }

  predicate FieldPasses(f: Field, listed: seq<Listed>) {
    Lookup(listed, f.name).Some? && !f.accessor && CheckOnlyListedFields(f.value, Lookup(listed, f.name).value).Ok?
  }

  lemma {:induction false} FieldsPass(v: Value, listed: seq<Listed>, i: nat)
    requires v.Object? && i <= |v.fields|
    ensures CheckFields(v, listed, i).Ok? <==> forall k :: i <= k < |v.fields| ==> FieldPasses(v.fields[k], listed)
    decreases |v.fields| - i
  {
    hide CheckOnlyListedFields, Lookup;
    if i < |v.fields| { FieldsPass(v, listed, i + 1); }
  }

  /** The walk passes a value exactly when it is of the kind called for and every child passes as listed. */
  lemma PassesByChildren(v: Value, s: Shape)
    ensures CheckOnlyListedFields(v, s).Ok? <==> ChildrenPass(v, s)
  {
    hide Lookup;
    if v.Array? && (s.Many? || s.Each?) {
      var inner := if s.Each? then s.inner else One;
      ElementsPass(v, inner, 0);
      assert CheckOnlyListedFields(v, s) == CheckElements(v, inner, 0);
      assert forall i :: 0 <= i < Visits(v) ==> Children(v)[i] == Visited(v, i) && ChildShape(v, s, i) == Some(inner);
    } else if v.Object? && s.Record? {
      FieldsPass(v, s.listed, 0);
      assert forall i :: 0 <= i < |v.fields| ==> Children(v)[i] == v.fields[i].value;
    }
  }

  lemma {:induction false} PassedIsListed(v: Value, s: Shape, p: Place)
    requires CheckOnlyListedFields(v, s).Ok? && IsPlace(v, p)
    ensures ListedAt(v, s, p)
    decreases |p|
  {
    hide CheckOnlyListedFields, ChildShape, IsKind;
    PassesByChildren(v, s);
    if p != [] { PassedIsListed(Children(v)[p[0]], ChildShape(v, s, p[0]).value, p[1..]); }
  }

  /** A refused value has a place the list does not allow. */
  lemma {:induction false} RefusedIsUnlisted(v: Value, s: Shape) returns (p: Place)
    requires CheckOnlyListedFields(v, s).Err?
    ensures IsPlace(v, p) && !ListedAt(v, s, p)
    decreases v
  {
    hide CheckOnlyListedFields, IsKind, ChildShape;
    PassesByChildren(v, s);
    if !IsKind(v, s) { return []; }
    var i :| 0 <= i < |Children(v)|
      && !(ChildShape(v, s, i).Some? && CheckOnlyListedFields(Children(v)[i], ChildShape(v, s, i).value).Ok?);
    ChildIsSmaller(v, i);
    if ChildShape(v, s, i).None? {
      p := [i];
    } else {
      var rest := RefusedIsUnlisted(Children(v)[i], ChildShape(v, s, i).value);
      p := [i] + rest;
      assert p[1..] == rest;
    }
  }

  lemma ChildIsSmaller(v: Value, i: nat)
    requires i < |Children(v)|
    ensures Children(v)[i] < v
  {
    if v.Object? { assert v.fields[i] in v.fields; }
  }

  /** The walk passes exactly the values every place of which, as it came to it, the list allows, however deep. */
  lemma PassesExactlyTheListed(v: Value, s: Shape)
    ensures CheckOnlyListedFields(v, s).Ok? <==> forall p: Place :: IsPlace(v, p) ==> ListedAt(v, s, p)
  {
    hide CheckOnlyListedFields, ListedAt, IsPlace;
    if CheckOnlyListedFields(v, s).Ok? {
      forall p: Place | IsPlace(v, p) ensures ListedAt(v, s, p) { PassedIsListed(v, s, p); }
    } else {
      var p := RefusedIsUnlisted(v, s);
    }
  }

  // No name can hide

  /** Every field name a shape lists, at any depth. */
  function Names(s: Shape): set<string>
    decreases s, 0
  {
    match s
    case One => {}
    case Many => {}
    case Each(inner) => Names(inner)
    case Record(listed) => NamesFrom(s, 0)
  }

  function NamesFrom(s: Shape, i: nat): set<string>
    requires s.Record? && i <= |s.listed|
    decreases s, 0, |s.listed| - i
  {
    if i == |s.listed| then {} else {s.listed[i].name} + Names(s.listed[i].shape) + NamesFrom(s, i + 1)
  }

  lemma {:induction false} ListedNames(s: Shape, i: nat, k: nat)
    requires s.Record? && i <= k < |s.listed|
    ensures s.listed[k].name in NamesFrom(s, i) && Names(s.listed[k].shape) <= NamesFrom(s, i)
    decreases k - i
  {
    hide Names;
    if i < k { ListedNames(s, i + 1, k); }
  }

  lemma {:induction false} LookupIsListed(listed: seq<Listed>, name: string) returns (k: nat)
    requires Lookup(listed, name).Some?
    ensures k < |listed| && listed[k].name == name && Some(listed[k].shape) == Lookup(listed, name)
  {
    if listed[0].name == name { return 0; }
    k := LookupIsListed(listed[1..], name);
    k := k + 1;
  }

  lemma {:induction false} PlacesStayInNames(v: Value, s: Shape, p: Place)
    requires IsPlace(v, p) && ShapeOf(v, s, p).Some?
    ensures Names(ShapeOf(v, s, p).value) <= Names(s)
    decreases |p|
  {
    hide Lookup;
    if p != [] {
      PlacesStayInNames(Children(v)[p[0]], ChildShape(v, s, p[0]).value, p[1..]);
      if v.Object? {
        var k := LookupIsListed(s.listed, v.fields[p[0]].name);
        ListedNames(s, 0, k);
      }
    }
  }

  /** In a value that passes, a field the walk comes to at any depth bears a listed name. */
  lemma NoNameHides(v: Value, s: Shape, p: Place, i: nat)
    requires CheckOnlyListedFields(v, s).Ok? && IsPlace(v, p)
    requires Sub(v, p).Object? && i < |Sub(v, p).fields|
    ensures Sub(v, p).fields[i].name in Names(s)
  {
    hide CheckOnlyListedFields, Lookup, Names, NamesFrom;
    PassedIsListed(v, s, p);
    var here, shape := Sub(v, p), ShapeOf(v, s, p).value;
    PlacesStayInNames(v, s, p);
    StepPasses(v, s, p, i);
    var k := LookupIsListed(shape.listed, here.fields[i].name);
    ListedNames(shape, 0, k);
    NamesOfRecord(shape);
  }

  lemma NamesOfRecord(s: Shape)
    requires s.Record?
    ensures Names(s) == NamesFrom(s, 0)
  {
  }

  /** Every field at a place of a passed value is listed there. */
  lemma {:induction false} StepPasses(v: Value, s: Shape, p: Place, i: nat)
    requires CheckOnlyListedFields(v, s).Ok? && IsPlace(v, p)
    requires Sub(v, p).Object? && i < |Sub(v, p).fields|
    ensures ShapeOf(v, s, p).Some? && ShapeOf(v, s, p).value.Record?
    ensures Lookup(ShapeOf(v, s, p).value.listed, Sub(v, p).fields[i].name).Some?
    decreases |p|
  {
    hide CheckOnlyListedFields, Lookup;
    PassesByChildren(v, s);
    if p == [] {
      assert ChildShape(v, s, i).Some?;
    } else {
      StepPasses(Children(v)[p[0]], ChildShape(v, s, p[0]).value, p[1..], i);
    }
  }

  /** No listed name of a shape is this one. */
  predicate Without(s: Shape, name: string)
    decreases s
  {
    match s
    case One => true
    case Many => true
    case Each(inner) => Without(inner, name)
    case Record(listed) => forall k :: 0 <= k < |listed| ==> listed[k].name != name && Without(listed[k].shape, name)
  }

  lemma {:induction false} WithoutIsUnnamed(s: Shape, name: string)
    requires Without(s, name)
    ensures name !in Names(s)
    decreases s, 0
  {
    match s
    case One =>
    case Many =>
    case Each(inner) => WithoutIsUnnamed(inner, name);
    case Record(_) => WithoutFrom(s, name, 0);
  }

  lemma {:induction false} WithoutFrom(s: Shape, name: string, i: nat)
    requires s.Record? && i <= |s.listed| && Without(s, name)
    ensures name !in NamesFrom(s, i)
    decreases s, 0, |s.listed| - i
  {
    hide Names;
    if i < |s.listed| {
      WithoutIsUnnamed(s.listed[i].shape, name);
      WithoutFrom(s, name, i + 1);
    }
  }

  lemma PackageListsNoEpochKey()
    ensures Without(PACKAGE_SHAPE, "epoch_key")
  {
    var record, segment, anchor := Record(Ones(RECORD_FIELDS)), Record(Ones(SEGMENT_FIELDS)), Record(Ones(ANCHOR_FIELDS));
    assert Without(record, "epoch_key") && Without(segment, "epoch_key") && Without(anchor, "epoch_key");
    assert Without(Each(segment), "epoch_key");
    assert Without(CHAIN_SHAPE, "epoch_key");
    assert Without(Record(Ones(INCLUSION_FIELDS) + [Listed("siblings", Many)]), "epoch_key");
  }

  // What a passed value carries all the same

  /** A field of this name is somewhere in the value, hidden or not, as any reader may come to it. */
  ghost predicate Carries(v: Value, name: string)
    decreases v, 1
  {
    HiddenCarries(v, name)
    || (v.Array? && exists k :: 0 <= k < |v.handed| && v.ownForEach && Carries(v.handed[k], name))
    || (v.Array? && exists k :: 0 <= k < |v.elements| && (Carries(v.elements[k].seen, name) || Carries(v.elements[k].later, name)))
    || (v.Object? && exists k :: 0 <= k < |v.fields| && (v.fields[k].name == name || Carries(v.fields[k].value, name)))
  }

  ghost predicate HiddenCarries(v: Value, name: string)
    decreases v, 0
  {
    exists k :: 0 <= k < |v.hidden| && (v.hidden[k].name == name || Carries(v.hidden[k].value, name))
  }

  /**
   It is carried where the walk does not look: by a hidden property, by what an accessor element turns
   into, or by any element of an array with a forEach of its own.
   */
  ghost predicate HidesHere(v: Value, name: string) {
    HiddenCarries(v, name)
    || (v.Array? && v.ownForEach && exists k :: 0 <= k < |v.elements| && (Carries(v.elements[k].seen, name) || Carries(v.elements[k].later, name)))
    || (v.Array? && exists k :: 0 <= k < |v.elements| && v.elements[k].later != v.elements[k].seen && Carries(v.elements[k].later, name))
  }

  ghost predicate Hides(v: Value, name: string) {
    exists p: Place :: IsPlace(v, p) && HidesHere(Sub(v, p), name)
  }

  lemma {:induction false} HiddenIsCarried(v: Value, p: Place, name: string)
    requires IsPlace(v, p) && HidesHere(Sub(v, p), name)
    ensures Carries(v, name)
    decreases |p|
  {
    hide HiddenCarries;
    if p != [] {
      HiddenIsCarried(Children(v)[p[0]], p[1..], name);
      if v.Array? {
        assert Carries(Visited(v, p[0]), name);
        if !v.ownForEach { assert Carries(v.elements[p[0]].seen, name); }
      }
    }
  }

  lemma ChildNames(v: Value, s: Shape, i: nat)
    requires CheckOnlyListedFields(v, s).Ok? && i < |Children(v)|
    ensures ChildShape(v, s, i).Some? && CheckOnlyListedFields(Children(v)[i], ChildShape(v, s, i).value).Ok?
    ensures Names(ChildShape(v, s, i).value) <= Names(s)
    ensures v.Object? ==> v.fields[i].name in Names(s)
  {
    hide CheckOnlyListedFields, Names, NamesFrom, Lookup;
    PassesByChildren(v, s);
    assert IsPlace(v, [i]) && [i][1..] == [];
    PlacesStayInNames(v, s, [i]);
    if v.Object? { NoNameHides(v, s, [], i); }
  }

  lemma {:induction false} CarriedIsHidden(v: Value, s: Shape, name: string) returns (p: Place)
    requires CheckOnlyListedFields(v, s).Ok? && name !in Names(s) && Carries(v, name)
    ensures IsPlace(v, p) && HidesHere(Sub(v, p), name)
    decreases v
  {
    hide CheckOnlyListedFields, Names, ChildShape, HiddenCarries;
    if HidesHere(v, name) { return []; }
    var i := VisibleCarrier(v, s, name);
    ChildNames(v, s, i);
    ChildIsSmaller(v, i);
    var rest := CarriedIsHidden(Children(v)[i], ChildShape(v, s, i).value, name);
    p := [i] + rest;
    assert p[1..] == rest;
  }

  /** What is carried and not hidden here is carried by a child the walk comes to. */
  lemma VisibleCarrier(v: Value, s: Shape, name: string) returns (i: nat)
    requires CheckOnlyListedFields(v, s).Ok? && name !in Names(s) && Carries(v, name) && !HidesHere(v, name)
    ensures i < |Children(v)| && Carries(Children(v)[i], name)
  {
    hide CheckOnlyListedFields, Names, ChildShape, HiddenCarries;
    if v.Array? && v.ownForEach {
      var k :| 0 <= k < |v.handed| && Carries(v.handed[k], name);
      return k;
    } else if v.Array? {
      var k :| 0 <= k < |v.elements| && (Carries(v.elements[k].seen, name) || Carries(v.elements[k].later, name));
      return k;
    } else if v.Object? {
      var k :| 0 <= k < |v.fields| && (v.fields[k].name == name || Carries(v.fields[k].value, name));
      ChildNames(v, s, k);
      return k;
    } else {
      assert false;
    }
  }

  /** A passed value carries a name the list does not have exactly when it hides it from the walk. */
  lemma CarriesOnlyWhatItHides(v: Value, s: Shape, name: string)
    requires CheckOnlyListedFields(v, s).Ok? && name !in Names(s)
    ensures Carries(v, name) <==> Hides(v, name)
  {
    hide CheckOnlyListedFields, Names, HidesHere, Carries;
    if Carries(v, name) { var p := CarriedIsHidden(v, s, name); }
    if p: Place :| IsPlace(v, p) && HidesHere(Sub(v, p), name) { HiddenIsCarried(v, p, name); }
  }

  /** Nothing hidden, no accessor among elements and no forEach but the library's: what parsing JSON text gives. */
  ghost predicate FromJson(v: Value) {
    forall p: Place :: IsPlace(v, p) ==> NothingHidden(Sub(v, p))
  }

  predicate NothingHidden(v: Value) {
    v.hidden == []
    && (v.Array? ==> !v.ownForEach && forall k :: 0 <= k < |v.elements| ==> v.elements[k].later == v.elements[k].seen)
  }

  /** A package that passes carries an epoch key exactly when it hides one; parsed from JSON it carries none. */
  lemma NoEpochKey(v: Value)
    requires CheckOnlyListedFields(v, PACKAGE_SHAPE).Ok?
    ensures Carries(v, "epoch_key") <==> Hides(v, "epoch_key")
    ensures FromJson(v) ==> !Carries(v, "epoch_key")
  {
    hide CheckOnlyListedFields, PACKAGE_SHAPE, Carries, Names;
    PackageListsNoEpochKey();
    WithoutIsUnnamed(PACKAGE_SHAPE, "epoch_key");
    CarriesOnlyWhatItHides(v, PACKAGE_SHAPE, "epoch_key");
  }

  /** Not parsed from JSON, a passing package can carry one: beside the elements of its own siblings. */
  lemma HiddenEpochKeyPasses()
    ensures var siblings := Array([], false, [], [Field("epoch_key", false, Scalar([]))]);
      var v := Object(true, [Field("inclusion", false, Object(true, [Field("siblings", false, siblings)], []))], []);
      CheckOnlyListedFields(v, PACKAGE_SHAPE).Ok? && Carries(v, "epoch_key")
  {
    var siblings := Array([], false, [], [Field("epoch_key", false, Scalar([]))]);
    var inner := Object(true, [Field("siblings", false, siblings)], []);
    var v := Object(true, [Field("inclusion", false, inner)], []);
    assert siblings.hidden[0].name == "epoch_key";
    assert HiddenCarries(siblings, "epoch_key");
    assert inner.fields[0].value == siblings && v.fields[0].value == inner;
    assert Carries(inner, "epoch_key");
    var listed := Ones(INCLUSION_FIELDS) + [Listed("siblings", Many)];
    assert CheckOnlyListedFields(siblings, Many) == CheckElements(siblings, One, 0) == Ok(());
    LookupSkips(listed, "siblings", 3);
    assert CheckFields(inner, listed, 1) == Ok(());
    assert CheckOnlyListedFields(inner, Record(listed)).Ok?;
    LookupSkips(PACKAGE_SHAPE.listed, "inclusion", 5);
    assert CheckFields(v, PACKAGE_SHAPE.listed, 1) == Ok(());
  }

  /** Nor need it be hidden beside anything: a segment's own elements are not walked if its forEach is its own. */
  lemma UnwalkedEpochKeyPasses()
    ensures var entry := Object(true, [
        Field("leaf", false, Scalar([])), Field("head", false, Scalar([])), Field("epoch_key", false, Scalar([]))], []);
      var segment := Array([Element(entry, entry)], true, [], []);
      var v := Object(true, [Field("chain", false, Object(true, [Field("segment", false, segment)], []))], []);
      CheckOnlyListedFields(v, PACKAGE_SHAPE).Ok? && Carries(v, "epoch_key")
  {
    var entry := Object(true, [
      Field("leaf", false, Scalar([])), Field("head", false, Scalar([])), Field("epoch_key", false, Scalar([]))], []);
    var segment := Array([Element(entry, entry)], true, [], []);
    var chain := Object(true, [Field("segment", false, segment)], []);
    var v := Object(true, [Field("chain", false, chain)], []);
    assert entry.fields[2].name == "epoch_key" && Carries(entry, "epoch_key");
    assert Carries(segment.elements[0].seen, "epoch_key") && Carries(segment, "epoch_key");
    assert Carries(chain.fields[0].value, "epoch_key") && Carries(v.fields[0].value, "epoch_key");
    var shape := Each(Record(Ones(SEGMENT_FIELDS)));
    assert CheckOnlyListedFields(segment, shape) == CheckElements(segment, shape.inner, 0) == Ok(());
    LookupSkips(CHAIN_SHAPE.listed, "segment", 3);
    assert CheckFields(chain, CHAIN_SHAPE.listed, 1) == Ok(());
    assert CheckOnlyListedFields(chain, CHAIN_SHAPE).Ok?;
    LookupSkips(PACKAGE_SHAPE.listed, "chain", 3);
    assert CheckFields(v, PACKAGE_SHAPE.listed, 1) == Ok(());
  }

  lemma {:induction false} LookupSkips(listed: seq<Listed>, name: string, k: nat)
    requires k < |listed| && listed[k].name == name && forall i :: 0 <= i < k ==> listed[i].name != name
    ensures Lookup(listed, name) == Some(listed[k].shape)
  {
    if k > 0 { LookupSkips(listed[1..], name, k - 1); }
  }

  // What the list is

  lemma {:induction false} LookupAppend(a: seq<Listed>, b: seq<Listed>, name: string)
    ensures Lookup(a + b, name) == if Lookup(a, name).Some? then Lookup(a, name) else Lookup(b, name)
  {
    if a == [] {
      assert a + b == b;
    } else {
      assert (a + b)[1..] == a[1..] + b;
      LookupAppend(a[1..], b, name);
    }
  }

  lemma {:induction false} LookupOnes(names: seq<string>, name: string)
    ensures Lookup(Ones(names), name) == if name in names then Some(One) else None
  {
    if names != [] {
      assert Ones(names)[1..] == Ones(names[1..]) && names == [names[0]] + names[1..];
      LookupOnes(names[1..], name);
    }
  }

  /** The fields a package may carry at the top, and what each may hold. */
  lemma PackageLists(name: string)
    ensures Lookup(PACKAGE_SHAPE.listed, name) ==
      if name in {"schema", "preimage_borsh", "qp_signature"} then Some(One)
      else if name == "record" then Some(Record(Ones(RECORD_FIELDS)))
      else if name == "chain" then Some(CHAIN_SHAPE)
      else if name == "inclusion" then Some(Record(Ones(INCLUSION_FIELDS) + [Listed("siblings", Many)]))
      else if name == "anchor" then Some(Record(Ones(ANCHOR_FIELDS))) else None
  {
    hide Lookup, CHAIN_SHAPE, RECORD_FIELDS, INCLUSION_FIELDS, ANCHOR_FIELDS, Ones;
    LookupShort(PACKAGE_SHAPE.listed, name);
  }

  /** And those under its chain, down to a segment's links. */
  lemma ChainLists(name: string)
    ensures CHAIN_SHAPE.Record? && Lookup(CHAIN_SHAPE.listed, name) ==
      if name in {"prev_head", "head", "genesis"} then Some(One)
      else if name == "segment" then Some(Each(Record(Ones(SEGMENT_FIELDS)))) else None
    ensures Lookup(Ones(SEGMENT_FIELDS), name) == if name in {"leaf", "head"} then Some(One) else None
  {
    hide Lookup;
    LookupShort(CHAIN_SHAPE.listed, name);
    LookupOnes(SEGMENT_FIELDS, name);
  }

  /** And those under its record, its inclusion proof and its anchor. */
  lemma PartsList(name: string)
    ensures Lookup(Ones(RECORD_FIELDS), name) ==
      if name in {"seq", "category", "effective_at", "change_identified_at", "payload_digest", "assessment_digest", "qp_key",
                  "payload_uri", "flags"} then Some(One) else None
    ensures Lookup(Ones(INCLUSION_FIELDS) + [Listed("siblings", Many)], name) ==
      if name in {"epoch", "height", "slot_index"} then Some(One) else if name == "siblings" then Some(Many) else None
    ensures Lookup(Ones(ANCHOR_FIELDS), name) ==
      if name in {"solana_tx", "solana_slot", "ots_receipt_digest"} then Some(One) else None
  {
    hide Ones;
    LookupOnes(RECORD_FIELDS, name);
    LookupOnes(INCLUSION_FIELDS, name);
    LookupOnes(ANCHOR_FIELDS, name);
    LookupAppend(Ones(INCLUSION_FIELDS), [Listed("siblings", Many)], name);
  }

  /** Looking through at most seven names, one by one. */
  lemma LookupShort(listed: seq<Listed>, name: string)
    requires |listed| <= 7
    ensures Lookup(listed, name) ==
      if |listed| > 0 && listed[0].name == name then Some(listed[0].shape)
      else if |listed| > 1 && listed[1].name == name then Some(listed[1].shape)
      else if |listed| > 2 && listed[2].name == name then Some(listed[2].shape)
      else if |listed| > 3 && listed[3].name == name then Some(listed[3].shape)
      else if |listed| > 4 && listed[4].name == name then Some(listed[4].shape)
      else if |listed| > 5 && listed[5].name == name then Some(listed[5].shape)
      else if |listed| > 6 && listed[6].name == name then Some(listed[6].shape) else None
  {
    if listed != [] { LookupShort(listed[1..], name); }
  }

  // What a value is refused for

  /** What is wrong with a value at a place the list names. */
  ghost predicate Offends(v: Value, s: Shape, e: Refused) {
    match s
    case One => !v.Scalar? && e == UnlistedField
    case Many => !v.Array? && e == MalformedPackage
    case Each(_) => !v.Array? && e == MalformedPackage
    case Record(listed) =>
      if !v.Object? || !v.plain then e == MalformedPackage
      else exists i :: 0 <= i < |v.fields| && FieldOffends(v.fields[i], listed, e)
  }

  predicate FieldOffends(f: Field, listed: seq<Listed>, e: Refused) {
    if Lookup(listed, f.name).None? then e == UnlistedField else f.accessor && e == MalformedPackage
  }

  lemma {:induction false} ElementRefused(v: Value, s: Shape, i: nat) returns (k: nat)
    requires v.Array? && i <= Visits(v) && CheckElements(v, s, i).Err?
    ensures k < Visits(v) && CheckOnlyListedFields(Visited(v, k), s) == CheckElements(v, s, i)
    decreases Visits(v) - i
  {
    hide CheckOnlyListedFields, Visits, Visited;
    if CheckOnlyListedFields(Visited(v, i), s).Err? { return i; }
    k := ElementRefused(v, s, i + 1);
  }

  lemma {:induction false} FieldRefused(v: Value, listed: seq<Listed>, i: nat) returns (k: nat)
    requires v.Object? && i <= |v.fields| && CheckFields(v, listed, i).Err?
    ensures k < |v.fields|
    ensures var e, f := CheckFields(v, listed, i).error, v.fields[k];
      FieldOffends(f, listed, e)
      || (!f.accessor && Lookup(listed, f.name).Some? && CheckOnlyListedFields(f.value, Lookup(listed, f.name).value) == Err(e))
    decreases |v.fields| - i
  {
    hide CheckOnlyListedFields, Lookup;
    var shape := Lookup(listed, v.fields[i].name);
    if shape.None? || v.fields[i].accessor || CheckOnlyListedFields(v.fields[i].value, shape.value).Err? { return i; }
    k := FieldRefused(v, listed, i + 1);
  }

  /** A refusal names what is wrong somewhere the walk came to: a structure or a field not listed, or a malformed part. */
  lemma {:induction false} RefusedFor(v: Value, s: Shape) returns (p: Place)
    requires CheckOnlyListedFields(v, s).Err?
    ensures IsPlace(v, p) && ShapeOf(v, s, p).Some?
    ensures Offends(Sub(v, p), ShapeOf(v, s, p).value, CheckOnlyListedFields(v, s).error)
    decreases v
  {
    hide Lookup, FieldOffends;
    if !IsKind(v, s) { return []; }
    var i: nat;
    if v.Array? {
      i := ElementRefused(v, if s.Each? then s.inner else One, 0);
    } else {
      i := FieldRefused(v, s.listed, 0);
      if FieldOffends(v.fields[i], s.listed, CheckOnlyListedFields(v, s).error) { return []; }
    }
    ChildIsSmaller(v, i);
    var rest := RefusedFor(Children(v)[i], ChildShape(v, s, i).value);
    p := [i] + rest;
    assert p[1..] == rest;
  }
}
