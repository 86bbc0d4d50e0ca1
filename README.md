# nwc-tools `Component`, modelled in Dafny

This project models the `Component` base class of nwc-tools, a small layer
over browser custom elements. The class keeps a component's *props* and its
HTML *attributes* in step:

- When the element connects, `initializeProps` does three things in order.
  It copies the subclass's own fields into `props` and installs a
  `getX`/`setX` pair for each of them. It lets each attribute that is present
  override its prop, cast to the prop's type. It then writes every prop whose
  attribute is missing back as an attribute.
- `updateProp` is the one path by which a prop changes later. It stores the
  cast value, rewrites the attribute and re-renders.
- `attributeChangedCallback` feeds attribute changes into `updateProp`.
- `castToPropType` picks `Boolean`, `Number` or `String` by the `typeof` of
  the stored prop and leaves any other value unchanged.
- `propToAttrName` turns a prop name into an attribute name. It puts a hyphen
  before every capital that is followed by a lower-case letter and lowers
  that capital.

The files:

- `dicts.dfy` (module `Dicts`): insertion-ordered dictionaries with string
  keys. A JavaScript object's own properties (apart from integer-like keys)
  and an element's attribute list both behave this way: writing a new key
  appends it, writing an existing key updates it where it stands.
- `js_values.dfy` (module `JsValues`): JavaScript values, `typeof`,
  truthiness, `===`, `Number(...)`, `String(...)` and `castToPropType`.
- `case_conversion.dfy` (module `CaseConversion`): `propToAttrName`, the
  capitalisation behind the accessor names, and the properties of both.
- `reflection.dfy` (module `Reflection`): `updateAttribute` and the three
  phases of `initializeProps`, as functions over values, with their lemmas.
- `component.dfy` (module `Elements`): the class `Component`. Its fields
  are updated in place by methods whose loops are proved against the
  functions of `Reflection`. Three worked scenarios connect, update,
  disconnect and reconnect components.

Some behaviours of the code are easy to miss, and the model keeps them:

- An empty boolean attribute reads as `false`. `Boolean('')` is `false`, so
  a boolean prop mounted with an empty attribute becomes `false`
  (`Reflection.EmptyBooleanAttributeReadsFalse`), and the `''` that
  `updateAttribute` writes for `true` reads back as `false`
  (`JsValues.BooleanCastOfString`).
- `connectedCallback` never tests `_initialized`, so every connection runs
  `initializeProps` again. After a disconnect and reconnect, a boolean prop
  that was set to `true` is back at its declared `false` while its attribute
  stays present (`Elements.ReconnectForgetsTrue`).
- `updateProp` compares the raw incoming value with the stored, already cast
  value. Setting the string `"5"` on a number prop that already holds `5`
  therefore renders again (`Elements.CountExample`). `NaN` is never `===` to
  itself, so it is never short-circuited either (`JsValues.StrictEqualsProperties`).
- Props are not fixed after the first connection. `updateProp` adds any prop
  name it is given, as a plain object write does (`Dicts.Put`).

## Model

| member | source | states |
|---|---|---|
| JsValues.TypeOf | src/Component.js:44 | `typeof` gives one of the six type names a component's values can have |
| JsValues.CastToPropType | src/Component.js:38-47 | a boolean, number or string stored prop makes the result that type; a boolean cast is `true` exactly when the value is truthy; a string passes unchanged into a string prop; any other stored type passes the value through unchanged |
| JsValues.CastAbsorbs | src/Component.js:38-47 | casting an attribute string twice in a row gives what the second cast alone gives: a boolean or number result selects its own cast again, and a string result selects `String`, which returns the string itself |
| JsValues.BooleanCastOfString | src/Component.js:38-47 | a boolean prop reads an attribute string as `false` exactly when it is empty |
| JsValues.StrictEqualsProperties | src/Component.js:106 | `===` is symmetric and fails to be reflexive only on `NaN` |
| JsValues.Truthy | src/Component.js:40 | `Boolean(v)`: `false` for `false`, `0`, `NaN`, `''`, `null` and `undefined`, `true` otherwise; characterised by `JsValues.CastToPropType` and `JsValues.BooleanCastOfString` |
| JsValues.ToNumber | src/Component.js:41 | `Number(v)`: booleans become 1 or 0, `null` 0, `undefined` `NaN`, strings and objects through the host's parser; used by `JsValues.CastToPropType` for number props |
| JsValues.ToStr | src/Component.js:42 | `String(v)`: a string is itself, booleans `"true"`/`"false"`, `null`/`undefined`/`NaN`/infinities their names, finite numbers and objects through the host; characterised by `JsValues.CastToPropType` (string into string prop) and `JsValues.CastAbsorbs` |
| JsValues.StrictEquals | src/Component.js:106 | `a === b`: the same value, except that `NaN` equals nothing; characterised by `JsValues.StrictEqualsProperties` |
| Dicts.Get | src/Component.js:44 | a found value is stored under the key at some position; a missing key occurs at no position |
| Dicts.Keys | src/Component.js:80 | the keys of the entries, in iteration order |
| Dicts.Put | src/Component.js:113 | after `props[k] = v` the key finds `v`, every other key finds what it found before, and no key is repeated |
| Dicts.PutOrder | src/Component.js:62 | writing an existing key keeps the key order; writing a new key appends it |
| Dicts.Remove | src/Component.js:94 | after `removeAttribute(k)` the key finds nothing, every other key is unchanged, and an absent key leaves the list as it was |
| Dicts.GetEntry | src/Component.js:55 | in a dictionary without repeated keys each entry is what its key finds |
| Dicts.ToMapContents | src/Component.js:30 | the object that `{ ...d }` builds has exactly `d`'s keys, each with the value looking it up in `d` finds |
| CaseConversion.PropToAttrName | src/propToAttrName.js:1-3 | the regex replacement, scanning left to right: at a capital followed by a lower-case letter it emits `-`, the lowered capital and the letter, and continues after both; characterised by `PropToAttrNameAtMatch` (every match replaced where it stands), `PropToAttrNameSplit`, `PropToAttrNameLength`, `PropToAttrNameFixedPoint`, `PropToAttrNameHasNoPair`, `PropToAttrNameIdempotent` and `PropToAttrNameLowersPairs` |
| CaseConversion.ToLower | src/propToAttrName.js:2 | `toLowerCase` maps an ASCII capital to the matching lower-case letter |
| CaseConversion.ToUpper | src/Component.js:63 | `toUpperCase` maps an ASCII lower-case letter to the matching capital |
| CaseConversion.Capitalize | src/Component.js:63 | the accessor suffix keeps the length and all but the first character, never starts with a lower-case letter, and leaves a name that does not start with one unchanged |
| CaseConversion.HasPairIffCount | src/propToAttrName.js:2 | the pattern matches somewhere exactly when the count of match positions is positive |
| CaseConversion.PropToAttrNameLength | src/propToAttrName.js:2 | each match adds exactly one character |
| CaseConversion.PropToAttrNameFixedPoint | src/propToAttrName.js:2 | a name is its own attribute name exactly when the pattern matches nowhere in it |
| CaseConversion.UnchangedWithoutPair | src/propToAttrName.js:2 | a name in which the pattern matches nowhere is unchanged |
| CaseConversion.NoCapitalsUnchanged | src/propToAttrName.js:2 | a name without capitals is unchanged |
| CaseConversion.PropToAttrNameHead | src/propToAttrName.js:2 | the first output character is the hyphen of a leading match, or else the first input character |
| CaseConversion.PropToAttrNameHasNoPair | src/propToAttrName.js:2 | the output contains no capital followed by a lower-case letter |
| CaseConversion.PropToAttrNameIdempotent | src/propToAttrName.js:2 | converting an attribute name again changes nothing |
| CaseConversion.PropToAttrNameLowersPairs | src/propToAttrName.js:2 | with hyphens removed, the output is the input with exactly the capitals that start a match lowered |
| CaseConversion.PropToAttrNameInsertsOnlyHyphens | src/propToAttrName.js:2 | for a name without hyphens, removing the hyphens from its attribute name gives the name with the matched capitals lowered |
| CaseConversion.PropToAttrNameSplit | src/propToAttrName.js:2 | the global replacement can be cut wherever no match straddles the cut: converting the two parts separately and joining them gives the whole |
| CaseConversion.PropToAttrNameAtMatch | src/propToAttrName.js:2 | every match, the first or any later one, becomes `-` followed by the match lower-cased, exactly where it stands, with the text on either side converted on its own |
| CaseConversion.CopiesPrefixWithoutMatch | src/propToAttrName.js:2 | a prefix in which no match starts is copied unchanged in front of the converted rest |
| CaseConversion.ExampleFooBar | src/propToAttrName.js:1-3 | `fooBar` becomes `foo-bar` |
| CaseConversion.CapitalsThenWord | src/propToAttrName.js:2 | in a run of capitals followed by a lower-case letter and a word without capitals, only the last capital starts a match: the run is kept, and `-`, that capital lowered and the letter are put before the word |
| CaseConversion.NoMatchAmongCapitals | src/propToAttrName.js:2 | no match starts inside a run of capitals that is followed by another capital |
| CaseConversion.ExampleHtmlParser | src/propToAttrName.js:1-3 | `HTMLParser` becomes `HTML-parser`: only a capital followed by a lower-case letter matches |
| CaseConversion.ExamplesUnchanged | src/propToAttrName.js:1-3 | `count` and `isX` stay as they are |
| Reflection.Lookup | src/Component.js:44 | `this.props[k]` is the stored value, or `undefined` when there is no such prop |
| Reflection.AttributeForm | src/Component.js:89-99 | the attribute a value is written as: none exactly for `false`, empty text for `true`, `String(v)` for every other value |
| Reflection.IGNORED_PROPS | src/Component.js:6 | the three bookkeeping names the first loop refuses; used by `Reflection.Tracked` and `Elements.Component.BaseEntriesUntracked` |
| Reflection.BaseFieldNames | src/Component.js:9-11 | the base class's own fields, `_initialChildNodes`, `_initialized`, `props` and the `updateProp` field of src/Component.js:105; characterised by `Elements.Component.BaseEntriesUntracked` and `Reflection.AccessorNamesAreNotBaseFields` |
| Reflection.GetterName | src/Component.js:63-64 | `get` followed by the key with its first letter upper-cased; characterised by `Reflection.AccessorNamesDiffer`, `Reflection.AccessorsInstalled` and `Reflection.AccessorNamesCollide` |
| Reflection.SetterName | src/Component.js:63-65 | `set` followed by the key with its first letter upper-cased; characterised by the same lemmas as `Reflection.GetterName` |
| Reflection.Tracked | src/Component.js:56-61 | the first loop's filter: the key is not in `IGNORED_PROPS`, does not start with `_`, and the value is not a function; characterised by `Reflection.ScanFieldsSpec` and `Elements.Component.BaseEntriesUntracked` |
| Reflection.ScanFields | src/Component.js:55-62 | `this.props[key] = value` for each tracked entry in order; characterised by `Reflection.ScanFieldsSpec` and proved equal to the loop by `Elements.Component.ScanOwnFields` |
| Reflection.InstallAccessors | src/Component.js:63-65 | the `get` and `set` accessors written for each tracked entry in order; characterised by `Reflection.AccessorsInstalled` and `Reflection.InstallAccessorsOther`, and proved equal to the loop by `Elements.Component.ScanOwnFields` |
| Reflection.ApplyAttributes | src/Component.js:69-77 | each attribute in order, cast to its prop's current type, stored under `attrToPropName` of its name; characterised by `Reflection.ApplyAttributesSpec` and proved equal to the loop by `Elements.Component.ApplyMountAttributes` |
| Reflection.ReflectProps | src/Component.js:79-86 | each prop in order, written with `updateAttribute` under `propToAttrName` of its key when that attribute is missing; characterised by `Reflection.ReflectPropsSpec` and proved equal to the loop by `Elements.Component.ReflectToAttributes` |
| Reflection.WriteAttribute | src/Component.js:89-99 | `updateAttribute` leaves `name` empty for `true`, absent for `false` and holding the string form otherwise; it changes no other attribute and repeats no name |
| Reflection.ScanFieldsSpec | src/Component.js:55-67 | the first phase gives each tracked own field its value as a prop, leaves every other prop as it was, and repeats no prop |
| Reflection.ScanFieldsTracked | src/Component.js:55-62 | a tracked own field ends up as a prop with its value |
| Reflection.ScanFieldsOther | src/Component.js:55-62 | a prop no tracked field names keeps its value |
| Reflection.ScanFieldsGet | src/Component.js:55-62 | the field found under a tracked key becomes that prop |
| Reflection.ScanFieldsSkips | src/Component.js:56-61 | fields the filter refuses, such as the base class's own fields, can be dropped from the front of the scan |
| Reflection.ScanFieldsConcat | src/Component.js:55-62 | the first loop over a list of fields is the loop over its first part followed by the loop over the rest, started from what the first part left |
| Reflection.ScanFieldsDistinct | src/Component.js:62 | the first phase repeats no prop name |
| Reflection.AccessorsInstalled | src/Component.js:63-65 | after the first phase every tracked field has its `get` and `set` accessors |
| Reflection.InstallAccessorsKeeps | src/Component.js:63-65 | a property that holds an accessor still holds one afterwards |
| Reflection.InstallAccessorsOther | src/Component.js:63-65 | an own property that is no accessor name of a tracked field keeps its value |
| Reflection.InstallAccessorsSkips | src/Component.js:56-61 | refused fields install no accessors |
| Reflection.InstallAccessorsConcat | src/Component.js:63-65 | installing the accessors of a list of fields is installing those of its first part, then those of the rest |
| Reflection.InstallAccessorsDistinct | src/Component.js:64-65 | installing accessors repeats no property name |
| Reflection.AccessorNamesDiffer | src/Component.js:64-65 | a field's getter and setter have different names |
| Reflection.AccessorNamesAreNotBaseFields | src/Component.js:64-65 | no accessor name is a field of the base class |
| Reflection.AccessorNamesCollide | src/Component.js:63-65 | `foo` and `Foo` get the same accessor names, so the later field's accessors replace the earlier one's |
| Reflection.ApplyAttributesSpec | src/Component.js:69-77 | a prop named by an attribute takes the last such attribute cast to its type; every other prop keeps its value; no prop is repeated |
| Reflection.ApplyAttributesLast | src/Component.js:71-76 | the prop named by attribute `i`, the last attribute naming it, holds that attribute cast to the prop's original type |
| Reflection.ApplyAttributesOther | src/Component.js:71-76 | a prop that no attribute names keeps its value |
| Reflection.ApplyAttributesDistinct | src/Component.js:75 | the second phase repeats no prop name |
| Reflection.EmptyBooleanAttributeReadsFalse | src/Component.js:69-77 | a boolean prop mounted with its attribute present but empty becomes `false` |
| Reflection.ReflectPropsSpec | src/Component.js:79-86 | the third phase never overwrites an attribute that was present; every prop that is not `false` has an attribute afterwards; a prop whose attribute was missing, and which shares its attribute name with no other prop, gets the attribute `updateAttribute` writes; other attributes are untouched; no name is repeated |
| Reflection.ReflectKeepsPresent | src/Component.js:83 | an attribute that was present keeps its value |
| Reflection.ReflectOther | src/Component.js:80-86 | an attribute that no prop's name converts to is untouched |
| Reflection.ReflectCovers | src/Component.js:80-86 | every prop that is not `false` has an attribute afterwards |
| Reflection.ReflectWritesAbsent | src/Component.js:83-84 | a missing attribute that only one prop converts to is written from that prop |
| Reflection.ReflectDistinct | src/Component.js:84 | the third phase repeats no attribute name |
| Elements.AttrValue | src/Component.js:13 | an attribute's text reaches the callback as that string, and an absent attribute as `null` |
| Elements.CallbackUpdateIsNeverShortCircuited | src/Component.js:21-22 | when the callback's cast value differs from the stored prop, the raw value differs too, so the `updateProp` it calls never returns early |
| Elements.Component.constructor | src/Component.js:9-11 | a new component has no initial children, is not initialised, has empty props and has not rendered |
| Elements.Component.BaseEntriesUntracked | src/Component.js:6-11 | the base class's own fields are exactly the declared names, and the first phase passes over every one of them |
| Elements.Component.BaseEntries | src/Component.js:9-11 | the base class's fields with their current values, in declaration order; characterised by `Elements.Component.BaseEntriesUntracked` |
| Elements.Component.OwnEntries | src/Component.js:55 | `Object.entries(this)`: the base class's fields, then the subclass's fields and installed accessors; `Elements.Component.ScanOwnFields` proves the loop over it equal to the scan of the subclass's fields |
| Elements.Component.Snapshot | src/Component.js:30-35 | `{ ...this, ...this.props }` for the element's current state; characterised by `Elements.SpreadContents` |
| Elements.Spread | src/Component.js:30-35 | the spread of own entries followed by props; characterised by `Elements.SpreadContents` |
| Dicts.ToMap | src/Component.js:30 | `{ ...d }`, the plain map of a dictionary; characterised by `Dicts.ToMapContents` |
| Elements.Component.UpdateDom | src/Component.js:101-103 | `updateDom` renders once, and the render may replace the element's child nodes |
| Elements.Component.SetAttribute | src/Component.js:92 | `setAttribute` gives `name` the value and changes no other attribute |
| Elements.Component.RemoveAttribute | src/Component.js:94 | `removeAttribute` drops `name` and changes no other attribute |
| Elements.Component.UpdateAttribute | src/Component.js:89-99 | the attribute afterwards is the value's attribute form; no other attribute changes |
| Elements.Component.UpdateProp | src/Component.js:105-116 | a value `===` to the stored prop changes nothing; otherwise the prop takes the cast value and no other prop changes, the converted attribute name takes its attribute form and no other attribute changes, one render happens, and a primitive prop keeps its type |
| Elements.Component.AttributeChangedCallback | src/Component.js:13-24 | nothing changes before initialisation or when the value is unchanged, nor when the cast value is `===` to the stored prop; otherwise the prop is updated as `updateProp` does |
| Elements.Component.InitializeProps | src/Component.js:53-87 | accessors are installed for the own fields; props are the scanned fields overridden by the attributes; attributes are the old ones with every missing prop written back |
| Elements.Component.ScanOwnFields | src/Component.js:55-67 | the first loop's result is the scan of the subclass's fields alone, since the base class's fields are never tracked |
| Elements.Component.TrackEntry | src/Component.js:56-66 | a tracked entry becomes a prop and gets a getter and a setter; any other entry changes nothing |
| Elements.Component.ApplyMountAttributes | src/Component.js:69-77 | the second loop's props are the attributes applied in order |
| Elements.Component.ReflectToAttributes | src/Component.js:79-86 | the third loop's attributes are the props reflected in order |
| Elements.Component.ConnectedCallback | src/Component.js:26-32 | each connection captures the current children (after a render, the rendered ones), runs `initializeProps`, sets `_initialized`, renders once and hands the hook a snapshot of the element |
| Elements.Component.DisconnectedCallback | src/Component.js:34-36 | the hook receives a snapshot of the element, and nothing changes |
| Elements.SpreadContents | src/Component.js:30 | `{ ...this, ...this.props }` holds every own property and every prop, and a prop wins over an own property of the same name |
| Elements.MountSingleField | src/Component.js:26-32 | a component with one declared field and no attributes connects with that field as its only prop, keeps the field, and writes its attribute |
| Elements.ReconnectForgetsTrue | src/Component.js:26-32 | a `false` boolean prop set to `true` reads `false` after a disconnect and reconnect, while its empty attribute stays |
| Elements.CountExample | src/Component.js:105-116 | setting `"5"` on a number prop stores the number 5 and writes `"5"`; setting `"5"` again renders again |

## Left out

- Rendering: `render` from uhtml and the subclass's `render` method are outside the model. `updateDom` is modelled as a render counter that may replace the child nodes with any sequence; which nodes a render produces is not modelled.
- `define` and `customElements.define`: the browser's registry is outside the model.
- The `connected` and `disconnected` hooks: subclasses override them, so their effects are unknown. Only the snapshot they receive is modelled.
- `attrToPropName`, and the number parsing and printing inside `Number(...)` and `String(...)`: these are parameters of the model (`JsValues.Host`). src/attrToPropName.js is not part of this model.
- The accessor closures: only their names are modelled, each holding the same function value. Calling `setX` is calling `updateProp`, which is modelled.
- `Object.hasOwnProperty.call(this, key)` is always true for the entries of `Object.entries(this)`, so the model drops that test.
- Which attributes the browser observes: the class declares no `observedAttributes`, so it is left open when the browser calls `attributeChangedCallback`. Callbacks that re-enter during an update are not modelled either.
- Attribute-name lower-casing is not modelled. On an HTML element, `setAttribute`, `hasAttribute` and `removeAttribute` lower-case the name themselves, so `HTML-parser` is stored as `html-parser` and `isX` as `isx`. The model compares and stores attribute names exactly as `propToAttrName` produces them.
- Elements.Component.SetAttribute: never fails. In the browser, `setAttribute` throws `InvalidCharacterError` for a name that is not a valid attribute name, for example one from a quoted field `'a b'` or `-title` from a field `Title`. `connectedCallback` then stops before `_initialized` is set; the model does not capture that exception path.
- Elements.Component.constructor: requires that no declared field is named like a base class field (`NoBaseFields`). JavaScript accepts a subclass that redeclares `props` or `updateProp`, and the redeclaration replaces the base field where it stands; the model does not cover such subclasses.
- Accessors that shadow the element's own methods are not modelled. A field named `attribute` installs an own `setAttribute` closure (src/Component.js:65), after which `updateAttribute`'s `this.setAttribute(name, value)` runs `updateProp('attribute', name)` and writes no attribute; the same field also installs an own `getAttribute`. The model's `Elements.Component.SetAttribute` always writes the attribute, and `Reflection.AccessorNamesAreNotBaseFields` checks accessor names only against the base class's fields.
- Integer-like property keys are not ordered as JavaScript orders them. `Object.entries` lists such keys first, in numeric order; the model keeps every key in insertion order (`Dicts.PutOrder`), which decides the order of the three phases only for components with such field names.
- `bigint` and `symbol` values are not modelled (`JsValues.Value` has neither). A symbol-valued field would make `setAttribute` throw `TypeError` when its attribute is reflected.
- Reflection.Lookup: a key that is not an own prop reads `undefined`. In JavaScript, `this.props[k]` for a name inherited from `Object.prototype`, such as `toString`, finds the inherited function, whose `typeof` is `"function"`, so such a prop is never cast. The model does not capture these inherited names.
- JavaScript `-0` is not told apart from `0`. Objects and functions are modelled as references whose conversions to number and string are parameters.
- The child nodes are an opaque sequence of node references.
