/**
 * The dynamic attributes of the edit-listing page: the list of attribute
 * fields shown and the map of their values, as loaded from the item, as
 * merged with AI-suggested fields, and as edited one key at a time.
 */
module EditItem {
  import opened Wrappers

  type Attributes = map<string, string>

  /** The fields of a list, as a set. */
  ghost function FieldSet(fields: seq<string>): set<string> {
    set j | 0 <= j < |fields| :: fields[j]
  }

  /**
   * The members every plain object inherits from `Object.prototype`. Read
   * on an object without an own key of that name, each gives a function
   * or an object, never a falsy value.
   */
  const PROTOTYPE_MEMBERS: set<string> := {
    "constructor", "hasOwnProperty", "isPrototypeOf", "propertyIsEnumerable",
    "toLocaleString", "toString", "valueOf", "__proto__",
    "__defineGetter__", "__defineSetter__", "__lookupGetter__", "__lookupSetter__"}

  /**
   * `const newValues = { ...attributeValues };
   *  data.forEach(field => { if (!newValues[field]) newValues[field] = ""; });`
   * A missing or empty value becomes ""; every other value is kept. A
   * field named after an inherited member reads as that member, which is
   * truthy, so it gets no key unless it already had one.
   */
  method MergeAttributes(values: Attributes, fields: seq<string>) returns (merged: Attributes)
    ensures merged.Keys == values.Keys + (FieldSet(fields) - PROTOTYPE_MEMBERS)
    ensures forall k :: k in values ==> k in merged && merged[k] == values[k]
    ensures forall k :: k in merged && k !in values ==> merged[k] == ""
  {
    merged := values;
    var j := 0;
    while j < |fields|
      invariant 0 <= j <= |fields|
      invariant merged.Keys == values.Keys + (FieldSet(fields[..j]) - PROTOTYPE_MEMBERS)
      invariant forall k :: k in values ==> k in merged && merged[k] == values[k]
      invariant forall k :: k in merged && k !in values ==> merged[k] == ""
    {
      var field := fields[j];
      if (field in merged && merged[field] == "") || (field !in merged && field !in PROTOTYPE_MEMBERS) {
        merged := merged[field := ""];
      }
      assert fields[..j + 1] == fields[..j] + [field];
      FieldSetSnoc(fields[..j], field);
      j := j + 1;
    }
    assert fields[..j] == fields;
  }

  /** `setAttributeValues(prev => ({ ...prev, [key]: value }))` */
  function SetAttribute(values: Attributes, key: string, value: string): (r: Attributes)
    ensures r.Keys == values.Keys + {key}
    ensures key in r && r[key] == value
    ensures forall k :: k in values && k != key ==> r[k] == values[k]
  {
    values[key := value]
  }

  /**
   * `dynamic_details` as it arrives: key/value pairs in key order, each key
   * once. `Object.keys` gives the keys in that order.
   */
  predicate DistinctKeys(pairs: seq<(string, string)>) {
    forall i, j :: 0 <= i < j < |pairs| ==> pairs[i].0 != pairs[j].0
  }

  function ObjectKeys(pairs: seq<(string, string)>): (keys: seq<string>)
    ensures |keys| == |pairs|
  {
    seq(|pairs|, j requires 0 <= j < |pairs| => pairs[j].0)
  }

  function ToAttributes(pairs: seq<(string, string)>): (m: Attributes)
    ensures m.Keys == FieldSet(ObjectKeys(pairs))
    ensures forall j :: 0 <= j < |pairs| ==> pairs[j].0 in m
  {
    if pairs == [] then map[]
    else
      var rest := ToAttributes(pairs[..|pairs| - 1]);
      var last := pairs[|pairs| - 1];
      assert ObjectKeys(pairs) == ObjectKeys(pairs[..|pairs| - 1]) + [last.0];
      FieldSetSnoc(ObjectKeys(pairs[..|pairs| - 1]), last.0);
      assert forall j :: 0 <= j < |pairs| - 1 ==> pairs[j] == pairs[..|pairs| - 1][j];
      rest[last.0 := last.1]
  }

  lemma FieldSetSnoc(fields: seq<string>, x: string)
    ensures FieldSet(fields + [x]) == FieldSet(fields) + {x}
  {
    var t := fields + [x];
    forall y | y in FieldSet(t) ensures y in FieldSet(fields) + {x} {
      var j :| 0 <= j < |t| && t[j] == y;
      if j < |fields| {
        assert fields[j] == y;
      }
    }
    forall y | y in FieldSet(fields) ensures y in FieldSet(t) {
      var j :| 0 <= j < |fields| && fields[j] == y;
      assert t[j] == y;
    }
    assert t[|fields|] == x;
  }

  /** Every pair of the object is in the map with its own value. */
  lemma {:induction false} ToAttributesValues(pairs: seq<(string, string)>)
    requires DistinctKeys(pairs)
    ensures forall j :: 0 <= j < |pairs| ==> ToAttributes(pairs)[pairs[j].0] == pairs[j].1
  {
    if pairs != [] {
      var init := pairs[..|pairs| - 1];
      assert DistinctKeys(init);
      ToAttributesValues(init);
      forall j | 0 <= j < |pairs| ensures ToAttributes(pairs)[pairs[j].0] == pairs[j].1 {
        if j < |pairs| - 1 {
          assert pairs[j] == init[j];
          assert pairs[j].0 != pairs[|pairs| - 1].0;
        }
      }
    }
  }

  /** The category select: empty, or holding a category id (0 counts as empty). */
  datatype Category = NoCategory | CategoryId(id: int)

  predicate ChosenCategory(c: Category) {
    c.CategoryId? && c.id != 0
  }

  /** What `GET /api/items/:id` gave: a failure, or the item's editable fields. */
  datatype LoadResponse =
    | LoadFailed
    | Loaded(sellerId: string, name: string, description: string, categoryId: int,
             dynamicDetails: Option<seq<(string, string)>>)

  /** What `POST /generate-attributes` gave: a failure, a non-array body, or an array of fields. */
  datatype AttributesResponse = RequestFailed | NotAnArray | Fields(fields: seq<string>)

  class EditItemForm {
    var name: string
    var description: string
    var category: Category
    var attributeFields: seq<string>
    var attributeValues: Attributes
    var loading: bool
    var msg: string

    /**
     * Every field on screen has an entry in the value map, except one named
     * after an inherited member, which shows that member instead.
     */
    ghost predicate Valid()
      reads this
    {
      forall j :: 0 <= j < |attributeFields| ==>
        attributeFields[j] in attributeValues || attributeFields[j] in PROTOTYPE_MEMBERS
    }

    constructor ()
      ensures Valid()
      ensures name == "" && description == "" && category == NoCategory
      ensures attributeFields == [] && attributeValues == map[] && loading && msg == ""
    {
      name, description, category := "", "", NoCategory;
      attributeFields, attributeValues := [], map[];
      loading, msg := true, "";
    }

    /**
     * `loadData`: someone else's item changes nothing (the page navigates
     * away); otherwise the form is filled, and the attributes are taken
     * from `dynamic_details` when it is present.
     */
    method Load(userId: string, response: LoadResponse)
      requires Valid()
      requires response.Loaded? && response.dynamicDetails.Some? ==> DistinctKeys(response.dynamicDetails.value)
      modifies this
      ensures Valid()
      ensures response.LoadFailed? ==>
        && msg == "Error loading item data." && !loading
        && name == old(name) && description == old(description) && category == old(category)
        && attributeFields == old(attributeFields) && attributeValues == old(attributeValues)
      ensures response.Loaded? && response.sellerId != userId ==>
        && name == old(name) && description == old(description) && category == old(category)
        && loading == old(loading) && msg == old(msg)
        && attributeFields == old(attributeFields) && attributeValues == old(attributeValues)
      ensures response.Loaded? && response.sellerId == userId ==>
        && name == response.name && description == response.description
        && category == CategoryId(response.categoryId) && !loading && msg == old(msg)
        && (response.dynamicDetails.Some? ==>
              && attributeFields == ObjectKeys(response.dynamicDetails.value)
              && attributeValues == ToAttributes(response.dynamicDetails.value)
              && (forall j :: 0 <= j < |response.dynamicDetails.value| ==>
                    attributeValues[response.dynamicDetails.value[j].0] == response.dynamicDetails.value[j].1))
        && (response.dynamicDetails.None? ==>
              attributeFields == old(attributeFields) && attributeValues == old(attributeValues))
    {
      match response
      case LoadFailed =>
        msg := "Error loading item data.";
        loading := false;
      case Loaded(sellerId, itemName, itemDescription, categoryId, details) =>
        if userId != sellerId {
          return;
        }
        name := itemName;
        description := itemDescription;
        category := CategoryId(categoryId);
        if details.Some? {
          attributeValues := ToAttributes(details.value);
          attributeFields := ObjectKeys(details.value);
          ToAttributesValues(details.value);
          assert forall j :: 0 <= j < |attributeFields| ==> attributeFields[j] in FieldSet(attributeFields);
        }
        loading := false;
    }

    /**
     * `handleGenerateAttributes`: needs a name and a category; a non-empty
     * array replaces the field list and is merged into the values; anything
     * else changes neither.
     */
    method GenerateAttributes(response: AttributesResponse)
      requires Valid()
      modifies this
      ensures Valid()
      ensures name == old(name) && description == old(description) && category == old(category)
      ensures loading == old(loading) && msg == old(msg)
      ensures (name == "" || !ChosenCategory(category) || !response.Fields? || response.fields == []) ==>
        attributeFields == old(attributeFields) && attributeValues == old(attributeValues)
      ensures name != "" && ChosenCategory(category) && response.Fields? && response.fields != [] ==>
        && attributeFields == response.fields
        && attributeValues.Keys == old(attributeValues).Keys + (FieldSet(response.fields) - PROTOTYPE_MEMBERS)
        && (forall k :: k in old(attributeValues) ==> attributeValues[k] == old(attributeValues)[k])
        && (forall k :: k in attributeValues && k !in old(attributeValues) ==> attributeValues[k] == "")
    {
      if name == "" || !ChosenCategory(category) {
        return;
      }
      match response
      case Fields(data) =>
        if |data| > 0 {
          attributeFields := data;
          var newValues := MergeAttributes(attributeValues, data);
          attributeValues := newValues;
          assert forall j :: 0 <= j < |data| ==> data[j] in FieldSet(data);
        }
      case NotAnArray =>
      case RequestFailed =>
    }

    /** `handleAttributeChange(key, value)` */
    method AttributeChange(key: string, value: string)
      requires Valid()
      modifies this
      ensures Valid()
      ensures attributeValues == SetAttribute(old(attributeValues), key, value)
      ensures attributeFields == old(attributeFields)
      ensures name == old(name) && description == old(description) && category == old(category)
      ensures loading == old(loading) && msg == old(msg)
    {
      attributeValues := SetAttribute(attributeValues, key, value);
    }
  }

  /**
   * After a merge a suggested field has a value exactly when it had one
   * before or is not named after an inherited member; so every field with
   * an ordinary name has one.
   */
  lemma MergeCoversFields(values: Attributes, fields: seq<string>, merged: Attributes)
    requires merged.Keys == values.Keys + (FieldSet(fields) - PROTOTYPE_MEMBERS)
    ensures forall j :: 0 <= j < |fields| ==>
      (fields[j] in merged <==> fields[j] in values || fields[j] !in PROTOTYPE_MEMBERS)
    ensures forall j :: 0 <= j < |fields| && fields[j] !in PROTOTYPE_MEMBERS ==> fields[j] in merged
  {
    assert forall j :: 0 <= j < |fields| ==> fields[j] in FieldSet(fields);
  }

  /** An attribute edit leaves every other key as it was and adds no key but its own. */
  lemma AttributeChangeIsLocal(values: Attributes, key: string, value: string, other: string)
    requires other != key
    ensures (other in SetAttribute(values, key, value)) == (other in values)
    ensures other in values ==> SetAttribute(values, key, value)[other] == values[other]
  {
  }
}
