/** The `Component` base class of src/Component.js: an element whose props
    are discovered from its own fields when it connects, kept in step with
    its attributes, and re-rendered on every change. */
module Elements {
  import opened Dicts
  import opened JsValues
  import opened CaseConversion
  import opened Reflection

  /** An attribute value as the attribute callback receives it: the text,
      or `null` for an attribute that is absent. */
  function AttrValue(a: Option<string>): (v: Value)
    ensures a.Some? ==> v == Str(a.value)
    ensures a.None? ==> v == Null
  {
    match a
    case Some(s) => Str(s)
    case None => Null
  }

  /** No own property shadows a field of the base class. */
  ghost predicate NoBaseFields(own: Dict<Value>) {
    forall i :: 0 <= i < |own| ==> own[i].key !in BaseFieldNames
  }

  /** When the attribute callback finds that the cast value differs from the
      stored one, the raw value differs from it too, so the `updateProp` it
      calls never stops at its own equality test. */
  lemma CallbackUpdateIsNeverShortCircuited(h: Host, stored: Value, a: Option<string>)
    requires !StrictEquals(stored, CastToPropType(h, stored, AttrValue(a)))
    ensures !StrictEquals(AttrValue(a), stored)
  {
  }

  class Component {
    /** The host's converters; see `JsValues.Host`. */
    const host: Host
    /** The element's own enumerable properties besides the base class's
        fields: the subclass's declared fields, then installed accessors. */
    var own: Dict<Value>
    /** The element's child nodes, as the DOM holds them. */
    var childNodes: seq<nat>
    /** `_initialChildNodes`: `null` until the element connects. */
    var initialChildNodes: Option<seq<nat>>
    /** `_initialized`. */
    var initialized: bool
    /** `props`. */
    var props: Dict<Value>
    /** The element's attributes. */
    var attrs: Dict<string>
    /** How often `updateDom` has rendered. */
    var renders: nat

    ghost predicate Valid()
      reads this`own, this`props, this`attrs
    {
      Distinct(own) && NoBaseFields(own) && Distinct(props) && Distinct(attrs)
    }

    /** A component as class-field initialisation leaves it: the subclass's
        declared fields and the attributes the parser gave it. */
    constructor (host: Host, fields: Dict<Value>, attributes: Dict<string>, children: seq<nat>)
      requires Distinct(fields) && NoBaseFields(fields) && Distinct(attributes)
      ensures Valid()
      ensures this.host == host && own == fields && attrs == attributes && childNodes == children
      ensures initialChildNodes == None && !initialized && props == [] && renders == 0
    {
      this.host := host;
      own := fields;
      attrs := attributes;
      childNodes := children;
      initialChildNodes := None;
      initialized := false;
      props := [];
      renders := 0;
    }

    /** The base class's own fields with their current values, in
        declaration order (the object and function references are arbitrary). */
    function BaseEntries(): Dict<Value>
      reads this`initialChildNodes, this`initialized
    {
      [ Entry("_initialChildNodes", if initialChildNodes.Some? then Obj(0) else Null),
        Entry("_initialized", Bool(initialized)),
        Entry("props", Obj(1)),
        Entry("updateProp", Func(2)) ]
    }

    /** The base class's fields are exactly the names it declares, and the
        first loop of `initializeProps` passes over every one of them. */
    lemma BaseEntriesUntracked()
      ensures Keys(BaseEntries()) == BaseFieldNames
      ensures forall i :: 0 <= i < |BaseEntries()| ==> !Tracked(BaseEntries()[i])
    {
    }

    /** `Object.entries(this)`. */
    function OwnEntries(): Dict<Value>
      reads this`initialChildNodes, this`initialized, this`own
    {
      BaseEntries() + own
    }

    /** `{ ...this, ...this.props }`, the argument of the `connected` and
        `disconnected` hooks. */
    function Snapshot(): map<string, Value>
      reads this`initialChildNodes, this`initialized, this`own, this`props
    {
      Spread(OwnEntries(), props)
    }

    /** `updateDom`: one render. The renderer replaces the element's child
        nodes with whatever the subclass's template produces, which the model
        does not see; so the contract leaves `childNodes` free. */
    method UpdateDom()
      modifies this`renders, this`childNodes
      ensures renders == old(renders) + 1
    {
      renders := renders + 1;
    }

    /** `setAttribute(name, value)`, whose value is already a string. */
    method SetAttribute(name: string, value: string)
      requires Valid()
      modifies this`attrs
      ensures Valid()
      ensures Get(attrs, name) == Some(value)
      ensures forall n :: n != name ==> Get(attrs, n) == Get(old(attrs), n)
      ensures attrs == Put(old(attrs), name, value)
    {
      attrs := Put(attrs, name, value);
    }

    /** `removeAttribute(name)`. */
    method RemoveAttribute(name: string)
      requires Valid()
      modifies this`attrs
      ensures Valid()
      ensures !Has(attrs, name)
      ensures forall n :: n != name ==> Get(attrs, n) == Get(old(attrs), n)
      ensures attrs == Remove(old(attrs), name)
    {
      attrs := Remove(attrs, name);
    }

    /** `updateAttribute(name, value)`: `true` as an empty attribute, `false`
        as no attribute, anything else as its string form; no other attribute
        changes. */
    method UpdateAttribute(name: string, value: Value)
      requires Valid()
      modifies this`attrs
      ensures Valid()
      ensures Get(attrs, name) == AttributeForm(host, value)
      ensures forall n :: n != name ==> Get(attrs, n) == Get(old(attrs), n)
      ensures attrs == WriteAttribute(host, old(attrs), name, value)
    {
      if value.Bool? {
        if value.b {
          SetAttribute(name, "");
        } else {
          RemoveAttribute(name);
        }
      } else {
        SetAttribute(name, ToStr(host, value));
      }
    }

    /** The state `updateProp(propName, value)` leaves: nothing changes when
        `value` is `===` to the stored prop; otherwise the prop takes the cast
        value, its attribute is rewritten, and one render happens. */
    twostate predicate PropUpdated(propName: string, value: Value)
      reads this
    {
      var stored := Lookup(old(props), propName);
      if StrictEquals(value, stored) then
        props == old(props) && attrs == old(attrs) && renders == old(renders) && childNodes == old(childNodes)
      else
        var newValue := CastToPropType(host, stored, value);
        && props == Put(old(props), propName, newValue)
        && attrs == WriteAttribute(host, old(attrs), PropToAttrName(propName), newValue)
        && renders == old(renders) + 1
    }

    /** `updateProp`, the one path by which props change after connection. */
    method UpdateProp(propName: string, value: Value)
      requires Valid()
      modifies this`props, this`attrs, this`renders, this`childNodes
      ensures Valid()
      ensures PropUpdated(propName, value)
      ensures StrictEquals(value, Lookup(old(props), propName)) ==>
        props == old(props) && attrs == old(attrs) && renders == old(renders) && childNodes == old(childNodes)
      ensures !StrictEquals(value, Lookup(old(props), propName)) ==>
        && Lookup(props, propName) == CastToPropType(host, Lookup(old(props), propName), value)
        && (forall k :: k != propName ==> Get(props, k) == Get(old(props), k))
        && Get(attrs, PropToAttrName(propName)) == AttributeForm(host, Lookup(props, propName))
        && (forall n :: n != PropToAttrName(propName) ==> Get(attrs, n) == Get(old(attrs), n))
        && renders == old(renders) + 1
      ensures IsPrimitiveType(TypeOf(Lookup(old(props), propName))) ==>
        TypeOf(Lookup(props, propName)) == TypeOf(Lookup(old(props), propName))
    {
      if StrictEquals(value, Lookup(props, propName)) {
        return;
      }
      var newValue := CastToPropType(host, Lookup(props, propName), value);
      var attrName := PropToAttrName(propName);
      props := Put(props, propName, newValue);
      UpdateAttribute(attrName, newValue);
      UpdateDom();
    }

    /** `attributeChangedCallback(name, oldValue, newValue)`. */
    method AttributeChangedCallback(name: string, oldValue: Option<string>, newValue: Option<string>)
      requires Valid()
      modifies this`props, this`attrs, this`renders, this`childNodes
      ensures Valid()
      ensures !old(initialized) || oldValue == newValue ==>
        props == old(props) && attrs == old(attrs) && renders == old(renders) && childNodes == old(childNodes)
      ensures old(initialized) && oldValue != newValue ==>
        var propName := host.attrToPropName(name);
        var stored := Lookup(old(props), propName);
        if StrictEquals(stored, CastToPropType(host, stored, AttrValue(newValue))) then
          props == old(props) && attrs == old(attrs) && renders == old(renders) && childNodes == old(childNodes)
        else
          PropUpdated(propName, AttrValue(newValue)) && renders == old(renders) + 1
    {
      if !initialized || oldValue == newValue {
        return;
      }
      var propName := host.attrToPropName(name);
      var value := CastToPropType(host, Lookup(props, propName), AttrValue(newValue));
      if !StrictEquals(Lookup(props, propName), value) {
        CallbackUpdateIsNeverShortCircuited(host, Lookup(props, propName), newValue);
        UpdateProp(host.attrToPropName(name), AttrValue(newValue));
      }
    }

    /** `initializeProps`: props from the tracked own fields (and accessors
        for them), then overridden by the attributes present, then written
        back to every attribute that is missing. */
    method InitializeProps()
      requires Valid()
      modifies this`own, this`props, this`attrs
      ensures Valid()
      ensures own == InstallAccessors(old(own), old(own))
      ensures props == ApplyAttributes(host, ScanFields(old(props), old(own)), old(attrs))
      ensures attrs == ReflectProps(host, old(attrs), props)
    {
      ScanOwnFields();
      ApplyMountAttributes();
      ReflectToAttributes();
    }

    /** The first loop of `initializeProps`: every tracked entry of
        `Object.entries(this)` is copied into the props and given a getter
        and a setter. The base class's own fields come first and are never
        tracked, so only the subclass's declared fields count. */
    method ScanOwnFields()
      requires Valid()
      modifies this`own, this`props
      ensures Valid()
      ensures own == InstallAccessors(old(own), old(own))
      ensures props == ScanFields(old(props), old(own))
    {
      ghost var own0, props0, base0 := own, props, BaseEntries();
      var entries := OwnEntries();
      var i := 0;
      while i < |entries|
        invariant 0 <= i <= |entries|
        invariant ScanFields(props, entries[i..]) == ScanFields(props0, entries)
        invariant InstallAccessors(own, entries[i..]) == InstallAccessors(own0, entries)
        invariant Valid()
      {
        ScanFieldsStep(props, entries, i);
        InstallAccessorsStep(own, entries, i);
        TrackEntry(entries[i].key, entries[i].val);
        i := i + 1;
      }
      BaseEntriesUntracked();
      ScanFieldsSkips(props0, base0, own0);
      InstallAccessorsSkips(own0, base0, own0);
    }

    /** The body of the first loop for one entry `[key, value]`: a tracked
        entry becomes a prop and gets a getter and a setter; any other entry
        is passed over. */
    method TrackEntry(key: string, value: Value)
      requires Valid()
      modifies this`own, this`props
      ensures Valid()
      ensures props == if Tracked(Entry(key, value)) then Put(old(props), key, value) else old(props)
      ensures own == if Tracked(Entry(key, value))
        then Put(Put(old(own), GetterName(key), Accessor), SetterName(key), Accessor)
        else old(own)
    {
      // `Object.hasOwnProperty.call(this, key)` holds of every own entry.
      if key !in IGNORED_PROPS && !(|key| > 0 && key[0] == '_') && TypeOf(value) != "function" {
        props := Put(props, key, value);
        var functionSuffix := Capitalize(key);
        AccessorNamesAreNotBaseFields(key);
        PutKeepsNoBaseFields(own, "get" + functionSuffix, Accessor);
        own := Put(own, "get" + functionSuffix, Accessor);
        PutKeepsNoBaseFields(own, "set" + functionSuffix, Accessor);
        own := Put(own, "set" + functionSuffix, Accessor);
      }
    }

    /** The second loop of `initializeProps`: each attribute present, in
        order, is cast to its prop's type and overrides the prop. */
    method ApplyMountAttributes()
      requires Valid()
      modifies this`props
      ensures Valid()
      ensures props == ApplyAttributes(host, old(props), attrs)
    {
      ghost var props0 := props;
      if |attrs| > 0 {
        var j := 0;
        while j < |attrs|
          invariant 0 <= j <= |attrs|
          invariant ApplyAttributes(host, props, attrs[j..]) == ApplyAttributes(host, props0, attrs)
          invariant Valid()
        {
          var name, value := attrs[j].key, attrs[j].val;
          var propName := host.attrToPropName(name);
          props := Put(props, propName, CastToPropType(host, Lookup(props, propName), Str(value)));
          assert attrs[j..][1..] == attrs[j + 1..];
          j := j + 1;
        }
      }
    }

    /** The third loop of `initializeProps`: each prop, in order, whose
        attribute is missing has that attribute written. */
    method ReflectToAttributes()
      requires Valid()
      modifies this`attrs
      ensures Valid()
      ensures attrs == ReflectProps(host, old(attrs), props)
    {
      ghost var attrs0 := attrs;
      var propEntries := props;
      var k := 0;
      while k < |propEntries|
        invariant 0 <= k <= |propEntries|
        invariant ReflectProps(host, attrs, propEntries[k..]) == ReflectProps(host, attrs0, propEntries)
        invariant Valid() && props == propEntries
      {
        var key, value := propEntries[k].key, propEntries[k].val;
        var attrName := PropToAttrName(key);
        if !Has(attrs, attrName) {
          UpdateAttribute(attrName, value);
        }
        assert propEntries[k..][1..] == propEntries[k + 1..];
        k := k + 1;
      }
    }

    /** `connectedCallback`: runs on every connection, with no test of
        `_initialized`, so each connection captures the current children
        (on a reconnection, those the last render left) and runs
        `initializeProps` again before it renders once. Returns the snapshot
        handed to the `connected` hook. */
    method ConnectedCallback() returns (snapshot: map<string, Value>)
      requires Valid()
      modifies this`initialChildNodes, this`initialized, this`own, this`props, this`attrs, this`renders,
        this`childNodes
      ensures Valid()
      ensures initialChildNodes == Some(old(childNodes))
      ensures initialized
      ensures own == InstallAccessors(old(own), old(own))
      ensures props == ApplyAttributes(host, ScanFields(old(props), old(own)), old(attrs))
      ensures attrs == ReflectProps(host, old(attrs), props)
      ensures renders == old(renders) + 1
      ensures snapshot == Snapshot()
    {
      initialChildNodes := Some(childNodes);
      InitializeProps();
      initialized := true;
      snapshot := Snapshot();
      UpdateDom();
    }

    /** `disconnectedCallback`: hands the snapshot to the `disconnected`
        hook; it may modify nothing, so every field keeps its value. */
    method DisconnectedCallback() returns (snapshot: map<string, Value>)
      ensures snapshot == Snapshot()
    {
      snapshot := Snapshot();
    }
  }

  /** `{ ...entries, ...props }`: every key of either, with `props` taking
      precedence. */
  function Spread(entries: Dict<Value>, props: Dict<Value>): map<string, Value>
  {
    ToMap(entries) + ToMap(props)
  }

  /** The spread holds every prop and every own property, and a prop wins
      over an own property of the same name. */
  lemma SpreadContents(entries: Dict<Value>, props: Dict<Value>)
    ensures forall k :: k in Spread(entries, props) <==> Has(props, k) || Has(entries, k)
    ensures forall k :: Has(props, k) ==> Some(Spread(entries, props)[k]) == Get(props, k)
    ensures forall k :: !Has(props, k) && Has(entries, k) ==> Some(Spread(entries, props)[k]) == Get(entries, k)
  {
    ToMapContents(entries);
    ToMapContents(props);
  }

  /** A prop name the scenarios below use: a tracked name that no accessor
      or base field takes, with no capital to hyphenate (`enabled`, `count`). */
  predicate PlainPropName(name: string) {
    && |name| > 0 && name[0] !in {'_', 'g', 's'}
    && name !in IGNORED_PROPS && name !in BaseFieldNames
    && PropToAttrName(name) == name
  }

  /** A component declaring the single field `name = value`, with no
      attributes, connects: the field becomes the only prop, keeps its place
      among the own properties, and its attribute is written as
      `updateAttribute` writes the value. */
  method MountSingleField(h: Host, name: string, value: Value) returns (c: Component)
    requires PlainPropName(name) && TypeOf(value) != "function"
    ensures fresh(c) && c.Valid() && c.host == h && c.initialized && c.renders == 1
    ensures Get(c.own, name) == Some(value)
    ensures c.props == [Entry(name, value)]
    ensures c.attrs == WriteAttribute(h, [], name, value)
  {
    var fields := [Entry(name, value)];
    c := new Component(h, fields, [], []);
    var snapshot := c.ConnectedCallback();
    assert c.props == [Entry(name, value)];
    assert Get(c.own, name) == Some(value) by {
      AccessorNameStartsLower(name);
      InstallAccessorsOther(fields, fields, name);
    }
  }

  /** A component declaring `name = false` connects, is set to `true`,
      disconnects and connects again. It ends with the prop `false` while its
      attribute is still present: the second connection scans the declared
      field again, and the empty attribute written for `true` casts back to
      `false`. */
  method ReconnectForgetsTrue(h: Host, name: string) returns (c: Component)
    requires PlainPropName(name) && h.attrToPropName(name) == name
    ensures c.initialized && c.renders == 3
    ensures Lookup(c.props, name) == Bool(false)
    ensures Get(c.attrs, name) == Some("")
  {
    c := MountSingleField(h, name, Bool(false));
    assert c.attrs == [];
    c.UpdateProp(name, Bool(true));
    assert c.attrs == [Entry(name, "")];
    var snapshot := c.DisconnectedCallback();
    ghost var own1, props1, attrs1 := c.own, c.props, c.attrs;
    snapshot := c.ConnectedCallback();
    ScanFieldsGet(props1, own1, name, Bool(false));
    assert LastFor(h, attrs1, 0);
    EmptyBooleanAttributeReadsFalse(h, ScanFields(props1, own1), attrs1, 0);
    ReflectKeepsPresent(h, attrs1, c.props, name);
  }

  /** A component declaring the number prop `name = 0`, with no attribute at
      mount, writes `"0"` when it connects. Setting the string `"5"` stores
      the number 5 and writes `"5"`; setting `"5"` once more renders again,
      because `updateProp` compares the raw value with the stored number. */
  method CountExample(h: Host, name: string) returns (c: Component)
    requires PlainPropName(name)
    requires h.formatNumber(0.0) == "0" && h.formatNumber(5.0) == "5"
    requires h.parseNumber("5") == Finite(5.0)
    ensures Lookup(c.props, name) == Num(Finite(5.0))
    ensures Get(c.attrs, name) == Some("5")
    ensures c.renders == 3
  {
    c := MountSingleField(h, name, Num(Finite(0.0)));
    assert c.attrs == [Entry(name, "0")];
    c.UpdateProp(name, Str("5"));
    assert Lookup(c.props, name) == Num(Finite(5.0));
    c.UpdateProp(name, Str("5"));
  }

  /** `enabled`, the prop of the boolean worked example, qualifies. */
  lemma EnabledIsPlain()
    ensures PlainPropName("enabled")
  {
    NoCapitalsUnchanged("enabled");
  }

  /** `count`, the prop of the number worked example, qualifies. */
  lemma CountIsPlain()
    ensures PlainPropName("count")
  {
    NoCapitalsUnchanged("count");
  }

  /** An accessor name never equals a name that starts with a lower-case
      letter other than `g` or `s`. */
  lemma AccessorNameStartsLower(k: string)
    requires |k| > 0 && k[0] != 'g' && k[0] != 's'
    ensures forall key :: GetterName(key) != k && SetterName(key) != k
  {
    forall key ensures GetterName(key) != k && SetterName(key) != k {
      assert GetterName(key)[0] == 'g' && SetterName(key)[0] == 's';
    }
  }

  lemma PutKeepsNoBaseFields(own: Dict<Value>, k: string, v: Value)
    requires NoBaseFields(own) && k !in BaseFieldNames
    ensures NoBaseFields(Put(own, k, v))
  {
    var r := Put(own, k, v);
    forall i | 0 <= i < |r| ensures r[i].key !in BaseFieldNames {
      if r[i].key != k {
        assert Get(r, r[i].key).Some?;
        assert Get(own, r[i].key).Some?;
      }
    }
  }
}
