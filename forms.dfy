/** The form schema: the answers dict, keyed by field name in insertion order. */
module Forms {
  import opened Text

  /** The type names validate_answer accepts values for. */
  const KnownTypes: seq<string> := ["text", "int", "datetime", "boolean", "multichoice"]

  /** One entry of the form definition: its Value, Type, Required flag and Options
      (a missing Options key is the empty sequence). */
  datatype Field = Field(value: string, typeName: string, required: bool, options: seq<string>)

  predicate Distinct(s: seq<string>) {
    forall i, j :: 0 <= i < j < |s| ==> s[i] != s[j]
  }

  /** The answers dict: its keys in insertion order and the entry of each key. */
  datatype Answers = Answers(keys: seq<string>, fields: map<string, Field>) {

    ghost predicate Valid() {
      && Distinct(keys)
      && (forall i :: 0 <= i < |keys| ==> keys[i] in fields)
      && (forall k :: k in fields ==> k in keys)
    }

    /** `answers[key]["Value"] = v`: only that entry's Value changes; the keys and their
        order stay as they are. */
    function WithValue(key: string, v: string): (r: Answers)
      requires Valid() && key in fields
      ensures r.Valid() && r.keys == keys && r.fields.Keys == fields.Keys
      ensures r.fields[key] == fields[key].(value := v)
      ensures forall k :: k in fields && k != key ==> r.fields[k] == fields[k]
    {
      Answers(keys, fields[key := fields[key].(value := v)])
    }
  }

  /** The conditions the controller filters the answers dict by. */
  datatype Selector = Blank | Filled | RequiredBlank

  /** Whether the entry f passes the filter sel; a Value is blank when its strip() is "". */
  predicate Selects(sel: Selector, f: Field) {
    match sel
    case Blank => IsBlank(f.value)
    case Filled => !IsBlank(f.value)
    case RequiredBlank => f.required && IsBlank(f.value)
  }

  /** `[k for k, v in answers.items() if <sel holds of v>]`. */
  function KeysWhere(keys: seq<string>, fields: map<string, Field>, sel: Selector): (r: seq<string>)
    requires forall i :: 0 <= i < |keys| ==> keys[i] in fields
    ensures forall k :: k in r ==> k in fields
  {
    if keys == [] then []
    else (if Selects(sel, fields[keys[0]]) then [keys[0]] else []) + KeysWhere(keys[1..], fields, sel)
  }

  /** A key is listed exactly when it is a key of the dict whose entry passes sel. */
  lemma {:induction false} KeysWhereMembers(keys: seq<string>, fields: map<string, Field>, sel: Selector)
    requires forall i :: 0 <= i < |keys| ==> keys[i] in fields
    ensures forall k :: k in KeysWhere(keys, fields, sel) <==> k in keys && Selects(sel, fields[k])
  {
    if keys != [] {
      KeysWhereMembers(keys[1..], fields, sel);
      assert forall k :: k in keys <==> k == keys[0] || k in keys[1..];
    }
  }

  /** The filtered keys keep the dict's order: the i-th of them stands at position pos[i]
      of keys, and the positions increase. */
  lemma {:induction false} KeysWhereInOrder(keys: seq<string>, fields: map<string, Field>, sel: Selector)
      returns (pos: seq<nat>)
    requires forall i :: 0 <= i < |keys| ==> keys[i] in fields
    ensures |pos| == |KeysWhere(keys, fields, sel)|
    ensures forall i :: 0 <= i < |pos| ==> pos[i] < |keys| && keys[pos[i]] == KeysWhere(keys, fields, sel)[i]
    ensures forall i, j :: 0 <= i < j < |pos| ==> pos[i] < pos[j]
  {
    if keys == [] {
      pos := [];
    } else {
      var tail := KeysWhereInOrder(keys[1..], fields, sel);
      var rest := KeysWhere(keys[1..], fields, sel);
      var shifted := Shift(tail);
      assert forall i :: 0 <= i < |shifted| ==> keys[shifted[i]] == keys[1..][tail[i]];
      if Selects(sel, fields[keys[0]]) {
        pos := [0] + shifted;
        assert KeysWhere(keys, fields, sel) == [keys[0]] + rest;
      } else {
        pos := shifted;
      }
    }
  }

  function Shift(s: seq<nat>): (r: seq<nat>)
    ensures |r| == |s| && forall i :: 0 <= i < |s| ==> r[i] == s[i] + 1
  {
    if s == [] then [] else [s[0] + 1] + Shift(s[1..])
  }

  /** With distinct keys, no key is listed twice by a filter. */
  lemma KeysWhereDistinct(keys: seq<string>, fields: map<string, Field>, sel: Selector)
    requires forall i :: 0 <= i < |keys| ==> keys[i] in fields
    requires Distinct(keys)
    ensures Distinct(KeysWhere(keys, fields, sel))
  {
    var r := KeysWhere(keys, fields, sel);
    var pos := KeysWhereInOrder(keys, fields, sel);
    forall i, j | 0 <= i < j < |r| ensures r[i] != r[j] {
      assert r[i] == keys[pos[i]] && r[j] == keys[pos[j]] && pos[i] < pos[j];
    }
  }

  /** `[k for k, v in answers.items() if v.get("Value", "").strip() == ""]`. */
  function Unanswered(a: Answers): (r: seq<string>)
    requires a.Valid()
    ensures forall k :: k in r ==> k in a.fields
  {
    KeysWhere(a.keys, a.fields, Blank)
  }

  /** The keys whose Value is not blank, in dict order. */
  function FilledKeys(a: Answers): (r: seq<string>)
    requires a.Valid()
    ensures forall k :: k in r ==> k in a.fields
  {
    KeysWhere(a.keys, a.fields, Filled)
  }

  /** `[k for k, v in answers.items() if v.get("Required") and v.get("Value", "").strip() == ""]`. */
  function RequiredUnanswered(a: Answers): (r: seq<string>)
    requires a.Valid()
    ensures forall k :: k in r ==> k in a.fields
  {
    KeysWhere(a.keys, a.fields, RequiredBlank)
  }

  /** The unanswered keys are exactly the keys whose Value is blank. */
  lemma UnansweredMembers(a: Answers)
    requires a.Valid()
    ensures forall k :: k in Unanswered(a) <==> k in a.fields && IsBlank(a.fields[k].value)
  {
    KeysWhereMembers(a.keys, a.fields, Blank);
  }

  /** The filled keys are exactly the keys whose Value is not blank. */
  lemma FilledKeysMembers(a: Answers)
    requires a.Valid()
    ensures forall k :: k in FilledKeys(a) <==> k in a.fields && !IsBlank(a.fields[k].value)
  {
    KeysWhereMembers(a.keys, a.fields, Filled);
  }

  /** The required-unanswered keys are exactly the Required keys whose Value is blank. */
  lemma RequiredUnansweredMembers(a: Answers)
    requires a.Valid()
    ensures forall k :: k in RequiredUnanswered(a) <==> k in a.fields && a.fields[k].required && IsBlank(a.fields[k].value)
  {
    KeysWhereMembers(a.keys, a.fields, RequiredBlank);
  }

  /** Every field of the form has a non-blank Value. */
  ghost predicate AllAnswered(a: Answers)
    requires a.Valid()
  {
    forall k :: k in a.fields ==> !IsBlank(a.fields[k].value)
  }

  /** No Required field has a blank Value. */
  ghost predicate RequiredAnswered(a: Answers)
    requires a.Valid()
  {
    forall k :: k in a.fields && a.fields[k].required ==> !IsBlank(a.fields[k].value)
  }

  /** The unanswered list is empty exactly when every field is answered. */
  lemma UnansweredEmptyIff(a: Answers)
    requires a.Valid()
    ensures Unanswered(a) == [] <==> AllAnswered(a)
  {
    UnansweredMembers(a);
    if Unanswered(a) != [] {
      assert Unanswered(a)[0] in Unanswered(a);
    }
  }

  /** The required-unanswered list is empty exactly when every Required field is answered. */
  lemma RequiredUnansweredEmptyIff(a: Answers)
    requires a.Valid()
    ensures RequiredUnanswered(a) == [] <==> RequiredAnswered(a)
  {
    RequiredUnansweredMembers(a);
    if RequiredUnanswered(a) != [] {
      assert RequiredUnanswered(a)[0] in RequiredUnanswered(a);
    }
  }
}
