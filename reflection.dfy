/** What `Component` does to its props and attributes, as functions of
    values: the attribute a prop value is written as (`updateAttribute`), and
    the three phases of `initializeProps`, each a left-to-right pass over an
    ordered dictionary. */
module Reflection {
  import opened Dicts
  import opened JsValues
  import opened CaseConversion

  /** `IGNORED_PROPS`: the base class's own bookkeeping fields. */
  const IGNORED_PROPS: seq<string> := ["_initialChildNodes", "_initialized", "props"]

  /** `this.props[k]`, which is `undefined` when there is no such prop. */
  function Lookup(props: Dict<Value>, k: string): (v: Value)
    ensures Has(props, k) ==> Get(props, k) == Some(v)
    ensures !Has(props, k) ==> v == Undefined
  {
    match Get(props, k)
    case Some(v) => v
    case None => Undefined
  }

  /** The attribute an element carries for a prop value: a boolean by
      presence (empty text) or absence, anything else as its string form. */
  function AttributeForm(h: Host, v: Value): (r: Option<string>)
    ensures r.None? <==> v == Bool(false)
    ensures v == Bool(true) ==> r == Some("")
    ensures !v.Bool? ==> r == Some(ToStr(h, v))
  {
    match v
    case Bool(b) => if b then Some("") else None
    case _ => Some(ToStr(h, v))
  }

  /** `updateAttribute(name, value)`: writes `name` as `AttributeForm` says
      and no other attribute. */
  function WriteAttribute(h: Host, attrs: Dict<string>, name: string, v: Value): (r: Dict<string>)
    ensures Get(r, name) == AttributeForm(h, v)
    ensures forall n :: n != name ==> Get(r, n) == Get(attrs, n)
    ensures Distinct(attrs) ==> Distinct(r)
  {
    if v.Bool? then
      (if v.b then Put(attrs, name, "") else Remove(attrs, name))
    else
      Put(attrs, name, ToStr(h, v))
  }

  // ---------------------------------------------------------------------
  // Phase 1: own fields become props

  /** The filter of the first loop of `initializeProps`: not in
      `IGNORED_PROPS`, not starting with `_`, and not a function. */
  predicate Tracked(e: Entry<Value>) {
    && e.key !in IGNORED_PROPS
    && !(|e.key| > 0 && e.key[0] == '_')
    && TypeOf(e.val) != "function"
  }

  /** `this.props[key] = value` for every tracked own entry, in order. */
  function ScanFields(props: Dict<Value>, entries: Dict<Value>): Dict<Value>
    decreases |entries|
  {
    if entries == [] then props
    else
      var e := entries[0];
      ScanFields(if Tracked(e) then Put(props, e.key, e.val) else props, entries[1..])
  }

  /** One step of the scan, taken at position `i`. */
  lemma ScanFieldsStep(props: Dict<Value>, entries: Dict<Value>, i: int)
    requires 0 <= i < |entries|
    ensures ScanFields(props, entries[i..])
         == ScanFields(if Tracked(entries[i]) then Put(props, entries[i].key, entries[i].val) else props, entries[i + 1..])
  {
    assert entries[i..][1..] == entries[i + 1..];
  }

  lemma {:induction false} ScanFieldsOther(props: Dict<Value>, entries: Dict<Value>, k: string)
    requires forall i :: 0 <= i < |entries| && entries[i].key == k ==> !Tracked(entries[i])
    ensures Get(ScanFields(props, entries), k) == Get(props, k)
    decreases |entries|
  {
    if entries != [] {
      var e := entries[0];
      ScanFieldsOther(if Tracked(e) then Put(props, e.key, e.val) else props, entries[1..], k);
    }
  }

  /** Scanning `a + b` is scanning `a` and then `b`. */
  lemma {:induction false} ScanFieldsConcat(props: Dict<Value>, a: Dict<Value>, b: Dict<Value>)
    ensures ScanFields(props, a + b) == ScanFields(ScanFields(props, a), b)
    decreases |a|
  {
    if a == [] {
      assert a + b == b;
    } else {
      var e := a[0];
      assert (a + b)[0] == e;
      assert (a + b)[1..] == a[1..] + b;
      ScanFieldsConcat(if Tracked(e) then Put(props, e.key, e.val) else props, a[1..], b);
    }
  }

  /** In a dictionary without repeated keys, a tracked entry becomes that
      prop, and no later entry touches it again. */
  lemma {:induction false} ScanFieldsTracked(props: Dict<Value>, entries: Dict<Value>, i: nat)
    requires Distinct(entries) && i < |entries| && Tracked(entries[i])
    ensures Get(ScanFields(props, entries), entries[i].key) == Some(entries[i].val)
  {
    var e, rest := entries[i], entries[i + 1..];
    assert entries == entries[..i] + ([e] + rest);
    ScanFieldsConcat(props, entries[..i], [e] + rest);
    var before := ScanFields(props, entries[..i]);
    assert ([e] + rest)[1..] == rest;
    assert ScanFields(before, [e] + rest) == ScanFields(Put(before, e.key, e.val), rest);
    forall j | 0 <= j < |rest| ensures rest[j].key != e.key {
      assert rest[j] == entries[i + 1 + j];
    }
    ScanFieldsOther(Put(before, e.key, e.val), rest, e.key);
  }

  lemma {:induction false} ScanFieldsDistinct(props: Dict<Value>, entries: Dict<Value>)
    requires Distinct(props)
    ensures Distinct(ScanFields(props, entries))
    decreases |entries|
  {
    if entries != [] {
      var e := entries[0];
      ScanFieldsDistinct(if Tracked(e) then Put(props, e.key, e.val) else props, entries[1..]);
    }
  }

  /** The first phase adds exactly the tracked own fields with their values;
      every other prop keeps what it had. */
  lemma ScanFieldsSpec(props: Dict<Value>, entries: Dict<Value>)
    requires Distinct(entries)
    ensures forall i :: 0 <= i < |entries| && Tracked(entries[i]) ==>
      Get(ScanFields(props, entries), entries[i].key) == Some(entries[i].val)
    ensures forall k :: (forall i :: 0 <= i < |entries| && entries[i].key == k ==> !Tracked(entries[i])) ==>
      Get(ScanFields(props, entries), k) == Get(props, k)
    ensures Distinct(props) ==> Distinct(ScanFields(props, entries))
  {
    forall i | 0 <= i < |entries| && Tracked(entries[i])
      ensures Get(ScanFields(props, entries), entries[i].key) == Some(entries[i].val)
    {
      ScanFieldsTracked(props, entries, i);
    }
    forall k | forall i :: 0 <= i < |entries| && entries[i].key == k ==> !Tracked(entries[i])
      ensures Get(ScanFields(props, entries), k) == Get(props, k)
    {
      ScanFieldsOther(props, entries, k);
    }
    if Distinct(props) {
      ScanFieldsDistinct(props, entries);
    }
  }

  /** The first phase, looked up by key. */
  lemma ScanFieldsGet(props: Dict<Value>, entries: Dict<Value>, k: string, v: Value)
    requires Distinct(entries) && Get(entries, k) == Some(v) && Tracked(Entry(k, v))
    ensures Get(ScanFields(props, entries), k) == Some(v)
  {
    var i :| 0 <= i < |entries| && entries[i] == Entry(k, v);
    ScanFieldsTracked(props, entries, i);
  }

  /** Entries the filter refuses can be dropped from the front of a scan. */
  lemma {:induction false} ScanFieldsSkips(props: Dict<Value>, skipped: Dict<Value>, rest: Dict<Value>)
    requires forall i :: 0 <= i < |skipped| ==> !Tracked(skipped[i])
    ensures ScanFields(props, skipped + rest) == ScanFields(props, rest)
    decreases |skipped|
  {
    if skipped == [] {
      assert skipped + rest == rest;
    } else {
      assert (skipped + rest)[0] == skipped[0];
      assert (skipped + rest)[1..] == skipped[1..] + rest;
      ScanFieldsSkips(props, skipped[1..], rest);
    }
  }

  // ---------------------------------------------------------------------
  // Phase 1, second half: accessor methods `getX` / `setX`

  function GetterName(key: string): string { "get" + Capitalize(key) }

  function SetterName(key: string): string { "set" + Capitalize(key) }

  /** The closures the first loop stores on the element. Their identity plays
      no part in the model. */
  const Accessor: Value := Func(0)

  /** `this['get' + suffix] = ...; this['set' + suffix] = ...` for every
      tracked entry, in order. */
  function InstallAccessors(own: Dict<Value>, entries: Dict<Value>): Dict<Value>
    decreases |entries|
  {
    if entries == [] then own
    else
      var e := entries[0];
      InstallAccessors(
        if Tracked(e) then Put(Put(own, GetterName(e.key), Accessor), SetterName(e.key), Accessor) else own,
        entries[1..])
  }

  /** One step of installing accessors, taken at position `i`. */
  lemma InstallAccessorsStep(own: Dict<Value>, entries: Dict<Value>, i: int)
    requires 0 <= i < |entries|
    ensures InstallAccessors(own, entries[i..])
         == InstallAccessors(
              if Tracked(entries[i]) then Put(Put(own, GetterName(entries[i].key), Accessor), SetterName(entries[i].key), Accessor) else own,
              entries[i + 1..])
  {
    assert entries[i..][1..] == entries[i + 1..];
  }

  lemma {:induction false} InstallAccessorsSkips(own: Dict<Value>, skipped: Dict<Value>, rest: Dict<Value>)
    requires forall i :: 0 <= i < |skipped| ==> !Tracked(skipped[i])
    ensures InstallAccessors(own, skipped + rest) == InstallAccessors(own, rest)
    decreases |skipped|
  {
    if skipped == [] {
      assert skipped + rest == rest;
    } else {
      assert (skipped + rest)[0] == skipped[0];
      assert (skipped + rest)[1..] == skipped[1..] + rest;
      InstallAccessorsSkips(own, skipped[1..], rest);
    }
  }

  /** An own property that already holds an accessor still holds one. */
  lemma {:induction false} InstallAccessorsKeeps(own: Dict<Value>, entries: Dict<Value>, k: string)
    requires Get(own, k) == Some(Accessor)
    ensures Get(InstallAccessors(own, entries), k) == Some(Accessor)
    decreases |entries|
  {
    if entries != [] {
      var e := entries[0];
      InstallAccessorsKeeps(
        if Tracked(e) then Put(Put(own, GetterName(e.key), Accessor), SetterName(e.key), Accessor) else own,
        entries[1..], k);
    }
  }

  /** After the first loop every tracked field has its getter and setter. */
  lemma {:induction false} AccessorsInstalled(own: Dict<Value>, entries: Dict<Value>, i: nat)
    requires i < |entries| && Tracked(entries[i])
    ensures Get(InstallAccessors(own, entries), GetterName(entries[i].key)) == Some(Accessor)
    ensures Get(InstallAccessors(own, entries), SetterName(entries[i].key)) == Some(Accessor)
  {
    assert entries == entries[..i] + entries[i..];
    InstallAccessorsConcat(own, entries[..i], entries[i..]);
    AccessorsInstalledFirst(InstallAccessors(own, entries[..i]), entries[i..]);
  }

  /** Installing over `a + b` is installing over `a` and then over `b`. */
  lemma {:induction false} InstallAccessorsConcat(own: Dict<Value>, a: Dict<Value>, b: Dict<Value>)
    ensures InstallAccessors(own, a + b) == InstallAccessors(InstallAccessors(own, a), b)
    decreases |a|
  {
    if a == [] {
      assert a + b == b;
    } else {
      var e := a[0];
      var next := if Tracked(e) then Put(Put(own, GetterName(e.key), Accessor), SetterName(e.key), Accessor) else own;
      assert (a + b)[0] == e;
      assert (a + b)[1..] == a[1..] + b;
      InstallAccessorsConcat(next, a[1..], b);
    }
  }

  /** The first entry's accessors, once written, are never taken away. */
  lemma AccessorsInstalledFirst(own: Dict<Value>, entries: Dict<Value>)
    requires entries != [] && Tracked(entries[0])
    ensures Get(InstallAccessors(own, entries), GetterName(entries[0].key)) == Some(Accessor)
    ensures Get(InstallAccessors(own, entries), SetterName(entries[0].key)) == Some(Accessor)
  {
    var getter, setter := GetterName(entries[0].key), SetterName(entries[0].key);
    var once := Put(own, getter, Accessor);
    var next := Put(once, setter, Accessor);
    assert InstallAccessors(own, entries) == InstallAccessors(next, entries[1..]);
    AccessorNamesDiffer(entries[0].key);
    assert Get(next, getter) == Get(once, getter) == Some(Accessor);
    InstallAccessorsKeeps(next, entries[1..], getter);
    InstallAccessorsKeeps(next, entries[1..], setter);
  }

  lemma AccessorNamesDiffer(key: string)
    ensures GetterName(key) != SetterName(key)
  {
    assert GetterName(key)[0] == 'g' && SetterName(key)[0] == 's';
  }

  /** Own properties that are neither an accessor name nor anything else
      the first loop writes keep their values; the base class's field names
      are never written. */
  lemma {:induction false} InstallAccessorsOther(own: Dict<Value>, entries: Dict<Value>, k: string)
    requires forall i :: 0 <= i < |entries| && Tracked(entries[i]) ==>
      k != GetterName(entries[i].key) && k != SetterName(entries[i].key)
    ensures Get(InstallAccessors(own, entries), k) == Get(own, k)
    decreases |entries|
  {
    if entries != [] {
      var e := entries[0];
      InstallAccessorsOther(
        if Tracked(e) then Put(Put(own, GetterName(e.key), Accessor), SetterName(e.key), Accessor) else own,
        entries[1..], k);
    }
  }

  lemma {:induction false} InstallAccessorsDistinct(own: Dict<Value>, entries: Dict<Value>)
    requires Distinct(own)
    ensures Distinct(InstallAccessors(own, entries))
    decreases |entries|
  {
    if entries != [] {
      var e := entries[0];
      InstallAccessorsDistinct(
        if Tracked(e) then Put(Put(own, GetterName(e.key), Accessor), SetterName(e.key), Accessor) else own,
        entries[1..]);
    }
  }

  /** Accessor names start with `get` or `set`, so none of them is a field of
      the base class (`_initialChildNodes`, `_initialized`, `props`,
      `updateProp`). */
  lemma AccessorNamesAreNotBaseFields(key: string)
    ensures GetterName(key) !in BaseFieldNames && SetterName(key) !in BaseFieldNames
  {
    assert GetterName(key)[0] == 'g' && SetterName(key)[0] == 's';
  }

  /** The own fields every component has from its base class, in
      declaration order. */
  const BaseFieldNames: seq<string> := ["_initialChildNodes", "_initialized", "props", "updateProp"]

  /** Two fields whose names differ only in the case of the first letter
      share their accessor names, so the later one's accessors replace the
      earlier one's. */
  lemma AccessorNamesCollide()
    ensures GetterName("foo") == GetterName("Foo") && SetterName("foo") == SetterName("Foo")
  {
    assert Capitalize("foo") == "Foo";
  }

  // ---------------------------------------------------------------------
  // Phase 2: attributes present at mount override props

  /** `this.props[attrToPropName(name)] = castToPropType(..., value)` for
      every attribute, in attribute order. */
  function ApplyAttributes(h: Host, props: Dict<Value>, attrs: Dict<string>): Dict<Value>
    decreases |attrs|
  {
    if attrs == [] then props
    else
      var p := h.attrToPropName(attrs[0].key);
      ApplyAttributes(h, Put(props, p, CastToPropType(h, Lookup(props, p), Str(attrs[0].val))), attrs[1..])
  }

  /** Applying `attrs` is applying its first attribute and then the rest. */
  lemma ApplyAttributesSplit(h: Host, props: Dict<Value>, attrs: Dict<string>)
    requires attrs != []
    ensures ApplyAttributes(h, props, attrs) == ApplyAttributes(h, ApplyAttributes(h, props, attrs[..1]), attrs[1..])
    ensures var p := h.attrToPropName(attrs[0].key);
      ApplyAttributes(h, props, attrs[..1]) == Put(props, p, CastToPropType(h, Lookup(props, p), Str(attrs[0].val)))
  {
    assert attrs[..1][1..] == [];
  }

  /** Attribute `i` is the last one whose name converts to its prop name. */
  predicate LastFor(h: Host, attrs: Dict<string>, i: int) {
    && 0 <= i < |attrs|
    && forall j :: i < j < |attrs| ==> h.attrToPropName(attrs[j].key) != h.attrToPropName(attrs[i].key)
  }

  lemma {:induction false} ApplyAttributesOther(h: Host, props: Dict<Value>, attrs: Dict<string>, k: string)
    requires forall i :: 0 <= i < |attrs| ==> h.attrToPropName(attrs[i].key) != k
    ensures Get(ApplyAttributes(h, props, attrs), k) == Get(props, k)
    decreases |attrs|
  {
    if attrs != [] {
      var p := h.attrToPropName(attrs[0].key);
      ApplyAttributesOther(h, Put(props, p, CastToPropType(h, Lookup(props, p), Str(attrs[0].val))), attrs[1..], k);
    }
  }

  /** A prop that some attribute names ends up as the last such attribute's
      value cast by the prop's type before the phase: casts in between do not
      matter (`CastAbsorbs`). An attribute without a matching prop finds
      `undefined` and so is stored as its raw string. */
  lemma {:induction false} ApplyAttributesLast(h: Host, props: Dict<Value>, attrs: Dict<string>, i: int)
    requires LastFor(h, attrs, i)
    ensures var p := h.attrToPropName(attrs[i].key);
      Get(ApplyAttributes(h, props, attrs), p) == Some(CastToPropType(h, Lookup(props, p), Str(attrs[i].val)))
    decreases |attrs|
  {
    var p0 := h.attrToPropName(attrs[0].key);
    var next := ApplyAttributes(h, props, attrs[..1]);
    ApplyAttributesSplit(h, props, attrs);
    var p := h.attrToPropName(attrs[i].key);
    if i == 0 {
      ApplyAttributesOther(h, next, attrs[1..], p);
    } else {
      LastForTail(h, attrs, i);
      ApplyAttributesLast(h, next, attrs[1..], i - 1);
      if p0 == p {
        assert Lookup(next, p) == CastToPropType(h, Lookup(props, p), Str(attrs[0].val));
        CastAbsorbs(h, Lookup(props, p), attrs[0].val, attrs[i].val);
      } else {
        assert Lookup(next, p) == Lookup(props, p);
      }
    }
  }

  lemma LastForTail(h: Host, attrs: Dict<string>, i: int)
    requires LastFor(h, attrs, i) && i > 0
    ensures LastFor(h, attrs[1..], i - 1) && attrs[1..][i - 1] == attrs[i]
  {
    forall j | i - 1 < j < |attrs| - 1
      ensures h.attrToPropName(attrs[1..][j].key) != h.attrToPropName(attrs[1..][i - 1].key)
    {
      assert attrs[1..][j] == attrs[j + 1];
    }
  }

  lemma {:induction false} ApplyAttributesDistinct(h: Host, props: Dict<Value>, attrs: Dict<string>)
    requires Distinct(props)
    ensures Distinct(ApplyAttributes(h, props, attrs))
    decreases |attrs|
  {
    if attrs != [] {
      var p := h.attrToPropName(attrs[0].key);
      ApplyAttributesDistinct(h, Put(props, p, CastToPropType(h, Lookup(props, p), Str(attrs[0].val))), attrs[1..]);
    }
  }

  /** The second phase: props named by an attribute take that attribute's
      cast value, and every other prop keeps what it had. */
  lemma ApplyAttributesSpec(h: Host, props: Dict<Value>, attrs: Dict<string>)
    ensures forall i :: LastFor(h, attrs, i) ==>
      Get(ApplyAttributes(h, props, attrs), h.attrToPropName(attrs[i].key))
        == Some(CastToPropType(h, Lookup(props, h.attrToPropName(attrs[i].key)), Str(attrs[i].val)))
    ensures forall k :: (forall i :: 0 <= i < |attrs| ==> h.attrToPropName(attrs[i].key) != k) ==>
      Get(ApplyAttributes(h, props, attrs), k) == Get(props, k)
    ensures Distinct(props) ==> Distinct(ApplyAttributes(h, props, attrs))
  {
    forall i | LastFor(h, attrs, i)
      ensures Get(ApplyAttributes(h, props, attrs), h.attrToPropName(attrs[i].key))
        == Some(CastToPropType(h, Lookup(props, h.attrToPropName(attrs[i].key)), Str(attrs[i].val)))
    {
      ApplyAttributesLast(h, props, attrs, i);
    }
    forall k | forall i :: 0 <= i < |attrs| ==> h.attrToPropName(attrs[i].key) != k
      ensures Get(ApplyAttributes(h, props, attrs), k) == Get(props, k)
    {
      ApplyAttributesOther(h, props, attrs, k);
    }
    if Distinct(props) {
      ApplyAttributesDistinct(h, props, attrs);
    }
  }

  /** A boolean prop mounted with its attribute present but empty, as
      `updateAttribute` writes `true`, becomes `false`: `Boolean('')` is
      `false`. */
  lemma EmptyBooleanAttributeReadsFalse(h: Host, props: Dict<Value>, attrs: Dict<string>, i: int)
    requires LastFor(h, attrs, i) && attrs[i].val == ""
    requires Lookup(props, h.attrToPropName(attrs[i].key)).Bool?
    ensures Get(ApplyAttributes(h, props, attrs), h.attrToPropName(attrs[i].key)) == Some(Bool(false))
  {
    ApplyAttributesLast(h, props, attrs, i);
  }

  // ---------------------------------------------------------------------
  // Phase 3: props are reflected to attributes that are not there yet

  /** For every prop in order, `updateAttribute(propToAttrName(key), value)`
      unless the element already has that attribute. */
  function ReflectProps(h: Host, attrs: Dict<string>, props: Dict<Value>): Dict<string>
    decreases |props|
  {
    if props == [] then attrs
    else
      var name := PropToAttrName(props[0].key);
      ReflectProps(h, if Has(attrs, name) then attrs else WriteAttribute(h, attrs, name, props[0].val), props[1..])
  }

  lemma {:induction false} ReflectKeepsPresent(h: Host, attrs: Dict<string>, props: Dict<Value>, n: string)
    requires Has(attrs, n)
    ensures Get(ReflectProps(h, attrs, props), n) == Get(attrs, n)
    decreases |props|
  {
    if props != [] {
      var name := PropToAttrName(props[0].key);
      ReflectKeepsPresent(h, if Has(attrs, name) then attrs else WriteAttribute(h, attrs, name, props[0].val), props[1..], n);
    }
  }

  lemma {:induction false} ReflectOther(h: Host, attrs: Dict<string>, props: Dict<Value>, n: string)
    requires forall i :: 0 <= i < |props| ==> PropToAttrName(props[i].key) != n
    ensures Get(ReflectProps(h, attrs, props), n) == Get(attrs, n)
    decreases |props|
  {
    if props != [] {
      var name := PropToAttrName(props[0].key);
      ReflectOther(h, if Has(attrs, name) then attrs else WriteAttribute(h, attrs, name, props[0].val), props[1..], n);
    }
  }

  /** Reflecting `props` is reflecting its first prop and then the rest. */
  lemma ReflectPropsSplit(h: Host, attrs: Dict<string>, props: Dict<Value>)
    requires props != []
    ensures ReflectProps(h, attrs, props) == ReflectProps(h, ReflectProps(h, attrs, props[..1]), props[1..])
  {
    assert props[..1][1..] == [];
  }

  lemma {:induction false} ReflectCovers(h: Host, attrs: Dict<string>, props: Dict<Value>, i: nat)
    requires i < |props| && props[i].val != Bool(false)
    ensures Has(ReflectProps(h, attrs, props), PropToAttrName(props[i].key))
    decreases |props|
  {
    var name := PropToAttrName(props[0].key);
    var next := ReflectProps(h, attrs, props[..1]);
    ReflectPropsSplit(h, attrs, props);
    if i == 0 {
      assert next == if Has(attrs, name) then attrs else WriteAttribute(h, attrs, name, props[0].val);
      ReflectKeepsPresent(h, next, props[1..], name);
    } else {
      assert props[1..][i - 1] == props[i];
      ReflectCovers(h, next, props[1..], i - 1);
    }
  }

  lemma {:induction false} ReflectWritesAbsent(h: Host, attrs: Dict<string>, props: Dict<Value>, i: nat)
    requires i < |props| && !Has(attrs, PropToAttrName(props[i].key))
    requires forall j :: 0 <= j < |props| && j != i ==> PropToAttrName(props[j].key) != PropToAttrName(props[i].key)
    ensures Get(ReflectProps(h, attrs, props), PropToAttrName(props[i].key)) == AttributeForm(h, props[i].val)
    decreases |props|
  {
    var name := PropToAttrName(props[0].key);
    var next := if Has(attrs, name) then attrs else WriteAttribute(h, attrs, name, props[0].val);
    var n := PropToAttrName(props[i].key);
    if i == 0 {
      if Has(next, n) {
        ReflectKeepsPresent(h, next, props[1..], n);
      } else {
        ReflectOther(h, next, props[1..], n);
      }
    } else {
      ReflectWritesAbsent(h, next, props[1..], i - 1);
    }
  }

  lemma {:induction false} ReflectDistinct(h: Host, attrs: Dict<string>, props: Dict<Value>)
    requires Distinct(attrs)
    ensures Distinct(ReflectProps(h, attrs, props))
    decreases |props|
  {
    if props != [] {
      var name := PropToAttrName(props[0].key);
      ReflectDistinct(h, if Has(attrs, name) then attrs else WriteAttribute(h, attrs, name, props[0].val), props[1..]);
    }
  }

  /** The third phase: attributes that were there are never overwritten;
      afterwards every prop's attribute is present unless the prop is
      `false`; a prop whose attribute was missing, and whose attribute name
      no other prop shares, gets exactly `AttributeForm` of its value; and
      attributes no prop names are untouched. */
  lemma ReflectPropsSpec(h: Host, attrs: Dict<string>, props: Dict<Value>)
    ensures forall n :: Has(attrs, n) ==> Get(ReflectProps(h, attrs, props), n) == Get(attrs, n)
    ensures forall i :: 0 <= i < |props| && props[i].val != Bool(false) ==>
      Has(ReflectProps(h, attrs, props), PropToAttrName(props[i].key))
    ensures forall i ::
      (&& 0 <= i < |props|
       && !Has(attrs, PropToAttrName(props[i].key))
       && forall j :: 0 <= j < |props| && j != i ==> PropToAttrName(props[j].key) != PropToAttrName(props[i].key))
      ==> Get(ReflectProps(h, attrs, props), PropToAttrName(props[i].key)) == AttributeForm(h, props[i].val)
    ensures forall n :: (forall i :: 0 <= i < |props| ==> PropToAttrName(props[i].key) != n) ==>
      Get(ReflectProps(h, attrs, props), n) == Get(attrs, n)
    ensures Distinct(attrs) ==> Distinct(ReflectProps(h, attrs, props))
  {
    forall n | Has(attrs, n) ensures Get(ReflectProps(h, attrs, props), n) == Get(attrs, n) {
      ReflectKeepsPresent(h, attrs, props, n);
    }
    forall i | 0 <= i < |props| && props[i].val != Bool(false)
      ensures Has(ReflectProps(h, attrs, props), PropToAttrName(props[i].key))
    {
      ReflectCovers(h, attrs, props, i);
    }
    forall i | 0 <= i < |props| && !Has(attrs, PropToAttrName(props[i].key)) &&
      (forall j :: 0 <= j < |props| && j != i ==> PropToAttrName(props[j].key) != PropToAttrName(props[i].key))
      ensures Get(ReflectProps(h, attrs, props), PropToAttrName(props[i].key)) == AttributeForm(h, props[i].val)
    {
      ReflectWritesAbsent(h, attrs, props, i);
    }
    forall n | forall i :: 0 <= i < |props| ==> PropToAttrName(props[i].key) != n
      ensures Get(ReflectProps(h, attrs, props), n) == Get(attrs, n)
    {
      ReflectOther(h, attrs, props, n);
    }
    if Distinct(attrs) {
      ReflectDistinct(h, attrs, props);
    }
  }
}
