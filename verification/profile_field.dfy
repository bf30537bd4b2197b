/** One editable user-profile attribute: its current values, the value handed
    back to the form (a list for multivalued attributes, one string
    otherwise), the options predefined in the attribute's metadata, and the
    add/remove edits of the option picker. */
module ProfileField {
  import opened Optional
  import opened Text
  import opened Seqs

  /** The `value` prop: `string | string[] | undefined`. */
  datatype FieldValue = Undefined | Single(text: string) | Many(items: seq<string>)

  /** `getValueArray`: an array as it is, a non-empty string as a one-element
      list, anything else as the empty list. */
  function ValueArray(v: FieldValue): (r: seq<string>)
    ensures v.Many? ==> r == v.items
    ensures v.Single? && v.text != "" ==> r == [v.text]
    ensures (v.Undefined? || v == Single("")) ==> r == []
  {
    match v
    case Many(xs) => xs
    case Single(s) => if s != "" then [s] else []
    case Undefined => []
  }

  /** `notifyChange`'s argument to `onChange`: the whole list for a multivalued
      attribute, otherwise its first element or `""`. */
  function Emitted(multivalued: bool, values: seq<string>): (r: FieldValue)
    ensures multivalued ==> r == Many(values)
    ensures !multivalued ==> r.Single? && (r.text == if |values| > 0 then values[0] else "")
  {
    if multivalued then Many(values)
    else Single(if |values| > 0 then values[0] else "")
  }

  /** What the form hands back is read again as the same list, as long as a
      single-valued attribute holds at most one, non-empty, value. */
  lemma EmittedRoundTrip(multivalued: bool, values: seq<string>)
    requires !multivalued ==> |values| <= 1 && (|values| == 1 ==> values[0] != "")
    ensures ValueArray(Emitted(multivalued, values)) == values
  {
  }

  /** An edit of the picker: nothing happens, or the new values are stored and
      reported to the form. */
  datatype Edit = Unchanged | Changed(values: seq<string>, emitted: FieldValue)

  function Notify(multivalued: bool, values: seq<string>): (r: Edit)
    ensures r.Changed? && r.values == values
  {
    Changed(values, Emitted(multivalued, values))
  }

  /** `handleAddValue`. */
  function AddValue(multivalued: bool, values: seq<string>, option: string): (r: Edit)
    ensures multivalued && option in values ==> r.Unchanged?
    ensures multivalued && option !in values ==> r.Changed? && r.values == values + [option]
    ensures !multivalued ==> r.Changed? && r.values == [option]
    ensures r.Changed? ==> r.emitted == Emitted(multivalued, r.values)
  {
    if multivalued then
      if option !in values then Notify(multivalued, values + [option]) else Unchanged
    else Notify(multivalued, [option])
  }

  /** The values after an edit. */
  function After(values: seq<string>, e: Edit): seq<string> {
    if e.Changed? then e.values else values
  }

  /** Adding keeps a multivalued list free of repeats and puts the option in
      it. */
  lemma AddKeepsDistinct(values: seq<string>, option: string)
    requires NoDup(values)
    ensures NoDup(After(values, AddValue(true, values, option)))
    ensures option in After(values, AddValue(true, values, option))
  {
    var r := After(values, AddValue(true, values, option));
    if option !in values {
      assert r[|values|] == option;
      forall i, j | 0 <= i < j < |r| ensures r[i] != r[j] {
        if j == |values| {
          assert r[i] == values[i];
        } else {
          assert r[i] == values[i] && r[j] == values[j];
        }
      }
    }
  }

  /** `handleRemoveValue`: a multivalued list loses every copy of the option
      and keeps the rest in order; a single-valued one is cleared. */
  function RemoveValue(multivalued: bool, values: seq<string>, option: string): (r: Edit)
    ensures r.Changed?
    ensures multivalued ==> option !in r.values && IsSubseq(r.values, values)
    ensures multivalued ==> forall x :: x != option ==> (x in r.values <==> x in values)
    ensures multivalued ==> forall x :: multiset(r.values)[x] == if x == option then 0 else multiset(values)[x]
    ensures !multivalued ==> r.values == []
    ensures r.emitted == Emitted(multivalued, r.values)
  {
    if multivalued then
      var p := (v: string) => v != option;
      FilterSubseq(values, p);
      FilterMultiset(values, p);
      Notify(multivalued, Filter(values, p))
    else Notify(multivalued, [])
  }

  /** Adding an option that was absent and then removing it restores the
      multivalued list. */
  lemma AddThenRemove(values: seq<string>, option: string)
    requires option !in values
    ensures RemoveValue(true, After(values, AddValue(true, values, option)), option).values == values
  {
    var p := (v: string) => v != option;
    FilterConcat(values, [option], p);
    FilterKeepsAll(values, p);
    assert Filter([option], p) == [];
  }

  /** Metadata values as the attribute's `validations` and `annotations`
      hold them; only the shapes the option lookup distinguishes. */
  datatype Meta =
    | Absent
    | Null
    | Flag(b: bool)
    | Number(n: int)
    | Str(s: string)
    | List(items: seq<string>)
    | Record(fields: map<string, Meta>)

  /** JavaScript truthiness. */
  predicate Truthy(m: Meta) {
    match m
    case Absent => false
    case Null => false
    case Flag(b) => b
    case Number(n) => n != 0
    case Str(s) => s != ""
    case List(_) => true
    case Record(_) => true
  }

  /** `m?.[key]`: a record's field, `undefined` otherwise. */
  function Get(m: Meta, key: string): Meta {
    if m.Record? && key in m.fields then m.fields[key] else Absent
  }

  /** `"a, b".split(",").map((opt) => opt.trim())`. */
  function SplitOptions(s: string): (r: seq<string>)
    ensures |r| == |Split(s, ',')|
    ensures forall i :: 0 <= i < |r| ==> r[i] == Trim(Split(s, ',')[i])
  {
    var parts := Split(s, ',');
    seq(|parts|, i requires 0 <= i < |parts| => Trim(parts[i]))
  }

  /** `getPredefinedOptions`. The options come from the first source that
      has them: the array `validations.options.options`; else the array
      `annotations.inputOptions`; else that field as a comma-separated string,
      each piece trimmed; else the array `annotations.inputOptions.values`;
      else there are none. */
  function PredefinedOptions(validations: Meta, annotations: Meta): (r: seq<string>)
    ensures var v := Get(Get(validations, "options"), "options");
      var io := Get(annotations, "inputOptions");
      && (v.List? ==> r == v.items)
      && (!v.List? && io.List? ==> r == io.items)
      && (!v.List? && io.Str? && io.s != "" ==> |r| == |Split(io.s, ',')| && forall i :: 0 <= i < |r| ==> r[i] == Trim(Split(io.s, ',')[i]))
      && (!v.List? && io.Record? && Get(io, "values").List? ==> r == Get(io, "values").items)
      && (!v.List? && !io.List? && !(io.Str? && io.s != "") && !(io.Record? && Get(io, "values").List?) ==> r == [])
  {
    var fromValidations := Get(Get(validations, "options"), "options");
    var inputOptions := Get(annotations, "inputOptions");
    if Truthy(fromValidations) && fromValidations.List? then fromValidations.items
    else if Truthy(inputOptions) then
      match inputOptions
      case List(xs) => xs
      case Str(s) => SplitOptions(s)
      case Record(_) => if Get(inputOptions, "values").List? then Get(inputOptions, "values").items else []
      case _ => []
    else []
  }

  /** `getAvailableOptions`: the predefined options not yet chosen, in their
      predefined order. */
  function AvailableOptions(predefined: seq<string>, values: seq<string>): (r: seq<string>)
    ensures forall o :: o in r <==> o in predefined && o !in values
    ensures forall o :: multiset(r)[o] == if o in values then 0 else multiset(predefined)[o]
    ensures IsSubseq(r, predefined)
    ensures predefined == [] ==> r == []
  {
    if |predefined| > 0 then
      var p := (o: string) => o !in values;
      FilterSubseq(predefined, p);
      FilterMultiset(predefined, p);
      Filter(predefined, p)
    else []
  }

  /** Choosing an available option removes it from the available ones and
      leaves the others available. */
  lemma AddShrinksAvailable(predefined: seq<string>, values: seq<string>, option: string)
    requires option in AvailableOptions(predefined, values)
    ensures var after := After(values, AddValue(true, values, option));
      forall o :: o in AvailableOptions(predefined, after) <==> o in AvailableOptions(predefined, values) && o != option
  {
  }
}
