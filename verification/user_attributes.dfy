/** The user editor's attribute shaping: normalising a Keycloak attribute bag
    around the personnel security level, and building the submitted payload
    from the three custom single-valued fields. */
module UserAttributes {
  import opened Optional
  import opened Text
  import opened Seqs
  import opened Governance

  /** An attribute value as it arrives: a string list, or anything that is
      not an array. */
  datatype RawValue = Arr(items: seq<string>) | NotArr

  type Attributes = map<string, seq<string>>

  const PersonnelKey := "personnel_security_level"
  const PersonKey := "person_security_level"
  const PersonLevelKey := "person_level"
  const DataLevelsKey := "data_levels"

  /** The four keys the level resolution owns. */
  const LevelKeys: set<string> := {PersonnelKey, PersonKey, PersonLevelKey, DataLevelsKey}

  /** Every value is a trimmed, non-empty string. */
  predicate Clean(xs: seq<string>) {
    forall i :: 0 <= i < |xs| ==> xs[i] != "" && Trimmed(xs[i])
  }

  /** Every entry trimmed. */
  function TrimAll(xs: seq<string>): (r: seq<string>)
    ensures |r| == |xs| && forall i :: 0 <= i < |xs| ==> r[i] == Trim(xs[i])
  {
    if |xs| == 0 then [] else [Trim(xs[0])] + TrimAll(xs[1..])
  }

  predicate NonEmpty(s: string) {
    s != ""
  }

  /** Each entry trimmed, blank entries dropped, order kept. */
  function Sanitize(xs: seq<string>): (r: seq<string>)
    ensures Clean(r)
  {
    var t := TrimAll(xs);
    var r := Filter(t, NonEmpty);
    forall i | 0 <= i < |r| ensures r[i] != "" && Trimmed(r[i]) {
      assert r[i] in t;
    }
    r
  }

  /** Sanitising keeps exactly the non-empty trimmed entries... */
  lemma SanitizeMembers(xs: seq<string>)
    ensures forall x :: x in Sanitize(xs) <==> exists i :: 0 <= i < |xs| && x == Trim(xs[i]) && x != ""
  {
    var t := TrimAll(xs);
    forall x ensures x in t <==> exists i :: 0 <= i < |xs| && x == Trim(xs[i]) {
      if x in t {
        var i :| 0 <= i < |t| && t[i] == x;
      }
    }
  }

  /** ...in their original relative order... */
  lemma SanitizeKeepsOrder(xs: seq<string>)
    ensures IsSubseq(Sanitize(xs), TrimAll(xs))
  {
    FilterSubseq(TrimAll(xs), NonEmpty);
  }

  /** ...and leaves nothing exactly when every entry is blank. */
  lemma SanitizeEmpty(xs: seq<string>)
    ensures Sanitize(xs) == [] <==> forall i :: 0 <= i < |xs| ==> IsBlank(xs[i])
  {
    var t := TrimAll(xs);
    var r := Filter(t, NonEmpty);
    assert Sanitize(xs) == r;
    if r == [] {
      forall i | 0 <= i < |xs| ensures IsBlank(xs[i]) {
        assert t[i] in t && t[i] !in r;
      }
    } else {
      assert r[0] in t;
      var i :| 0 <= i < |t| && t[i] == r[0];
      assert !IsBlank(xs[i]);
    }
  }

  /** Sanitising a clean list changes nothing. */
  lemma SanitizeClean(xs: seq<string>)
    requires Clean(xs)
    ensures Sanitize(xs) == xs
  {
    forall i | 0 <= i < |xs| ensures Trim(xs[i]) == xs[i] {
      TrimOfTrimmed(xs[i]);
    }
    assert TrimAll(xs) == xs;
    FilterKeepsAll(xs, NonEmpty);
  }

  /** JavaScript's `a || b || c || ""` over strings: the first non-empty one. */
  function FirstNonEmpty(xs: seq<string>): (r: string)
    ensures r == "" <==> forall i :: 0 <= i < |xs| ==> xs[i] == ""
    ensures r != "" ==> exists i :: 0 <= i < |xs| && xs[i] == r && forall j :: 0 <= j < i ==> xs[j] == ""
  {
    if |xs| == 0 then ""
    else if xs[0] != "" then xs[0]
    else
      var r := FirstNonEmpty(xs[1..]);
      assert forall i :: 1 <= i < |xs| ==> xs[i] == xs[1..][i - 1];
      assert r != "" ==> exists i :: 1 <= i < |xs| && xs[i] == r && forall j :: 0 <= j < i ==> xs[j] == "" by {
        if r != "" {
          var i :| 0 <= i < |xs[1..]| && xs[1..][i] == r && forall j :: 0 <= j < i ==> xs[1..][j] == "";
          assert xs[i + 1] == r;
        }
      }
      r
  }

  /** The copy of the input that keeps only the array-valued entries. */
  function ArraysOnly(attrs: map<string, RawValue>): (r: Attributes)
    ensures forall k :: k in r <==> k in attrs && attrs[k].Arr?
    ensures forall k :: k in r ==> r[k] == attrs[k].items
  {
    map k | k in attrs && attrs[k].Arr? :: attrs[k].items
  }

  /** `m[key]?.[0]`, with a missing key or an empty list read as `""`. */
  function FirstEntry(m: Attributes, key: string): string {
    if key in m && |m[key]| > 0 then m[key][0] else ""
  }

  /** The explicit `level` argument; an absent or empty one does not count. */
  function LevelArgument(level: Option<string>): string {
    level.GetOr("")
  }

  /** The upper-cased candidate personnel level. */
  function CandidateLevel(level: Option<string>, m: Attributes): string {
    Upper(FirstNonEmpty([LevelArgument(level), FirstEntry(m, PersonnelKey), FirstEntry(m, PersonKey), FirstEntry(m, PersonLevelKey)]))
  }

  /** The candidate, kept only when it is a recognised (and non-empty) level. */
  function ResolveLevel(g: Governance, level: Option<string>, m: Attributes): (r: Option<string>)
    ensures r.Some? ==> r.value in g.personLevels && r.value != "" && Upper(r.value) == r.value
    ensures r.Some? <==> CandidateLevel(level, m) != "" && CandidateLevel(level, m) in g.personLevels
    ensures r.Some? ==> r.value == CandidateLevel(level, m)
  {
    var c := CandidateLevel(level, m);
    UpperIdempotent(FirstNonEmpty([LevelArgument(level), FirstEntry(m, PersonnelKey), FirstEntry(m, PersonKey), FirstEntry(m, PersonLevelKey)]));
    if c != "" && c in g.personLevels then Some(c) else None
  }

  /** Where the candidate level comes from: the explicit argument if it is
      non-empty, else the first entry of `personnel_security_level`, then of
      `person_security_level`, then of `person_level`, upper-cased. */
  lemma LevelPrecedence(level: Option<string>, m: Attributes)
    ensures LevelArgument(level) != "" ==> CandidateLevel(level, m) == Upper(level.value)
    ensures LevelArgument(level) == "" && FirstEntry(m, PersonnelKey) != "" ==>
      CandidateLevel(level, m) == Upper(m[PersonnelKey][0])
    ensures LevelArgument(level) == "" && FirstEntry(m, PersonnelKey) == "" && FirstEntry(m, PersonKey) != "" ==>
      CandidateLevel(level, m) == Upper(m[PersonKey][0])
    ensures (LevelArgument(level) == "" && FirstEntry(m, PersonnelKey) == "" && FirstEntry(m, PersonKey) == ""
             && FirstEntry(m, PersonLevelKey) != "") ==>
      CandidateLevel(level, m) == Upper(m[PersonLevelKey][0])
    ensures (LevelArgument(level) == "" && FirstEntry(m, PersonnelKey) == "" && FirstEntry(m, PersonKey) == ""
             && FirstEntry(m, PersonLevelKey) == "") ==>
      CandidateLevel(level, m) == ""
  {
    var xs := [LevelArgument(level), FirstEntry(m, PersonnelKey), FirstEntry(m, PersonKey), FirstEntry(m, PersonLevelKey)];
    var f := FirstNonEmpty(xs);
    assert CandidateLevel(level, m) == Upper(f);
    assert xs[0] == LevelArgument(level) && xs[1] == FirstEntry(m, PersonnelKey);
    assert xs[2] == FirstEntry(m, PersonKey) && xs[3] == FirstEntry(m, PersonLevelKey);
    if f != "" {
      var i :| 0 <= i < |xs| && xs[i] == f && forall j :: 0 <= j < i ==> xs[j] == "";
      if xs[0] != "" {
        assert i == 0;
      } else if xs[1] != "" {
        assert i == 1;
      } else if xs[2] != "" {
        assert i == 2;
      } else {
        assert i == 3;
      }
    }
  }

  /** The bag after the level keys are written or removed, before sanitising. */
  function WithLevel(g: Governance, m: Attributes, resolved: Option<string>): (r: Attributes)
    ensures forall k :: k !in LevelKeys ==> (k in r <==> k in m) && (k in r ==> r[k] == m[k])
    ensures resolved.None? ==> forall k :: k in LevelKeys ==> k !in r
    ensures resolved.Some? ==>
      && PersonnelKey in r && r[PersonnelKey] == [resolved.value]
      && PersonKey in r && r[PersonKey] == [resolved.value]
      && PersonLevelKey in r && r[PersonLevelKey] == [resolved.value]
      && DataLevelsKey in r && r[DataLevelsKey] == g.deriveDataLevels(resolved.value)
  {
    match resolved
    case Some(l) =>
      m[PersonnelKey := [l]][PersonKey := [l]][PersonLevelKey := [l]][DataLevelsKey := g.deriveDataLevels(l)]
    case None => m - LevelKeys
  }

  /** Every list sanitised; keys whose list becomes empty are deleted. */
  function SanitizeAll(m: Attributes): (r: Attributes)
    ensures forall k :: k in r <==> k in m && Sanitize(m[k]) != []
    ensures forall k :: k in r ==> r[k] == Sanitize(m[k])
  {
    map k | k in m && Sanitize(m[k]) != [] :: Sanitize(m[k])
  }

  /** An alias key holds the trimmed level, or is absent when the level is
      blank once trimmed. */
  predicate LevelSlot(r: Attributes, k: string, l: string) {
    (k in r <==> !IsBlank(l)) && (k in r ==> r[k] == [Trim(l)])
  }

  lemma SanitizeSingleton(l: string)
    ensures Sanitize([l]) == if IsBlank(l) then [] else [Trim(l)]
  {
    var t := TrimAll([l]);
    assert t == [Trim(l)];
    assert t[1..] == [];
    assert Filter(t, NonEmpty) == if NonEmpty(t[0]) then [t[0]] + Filter(t[1..], NonEmpty) else Filter(t[1..], NonEmpty);
  }

  /** `normalizeAttributesForState`: nothing blank is ever kept. */
  function Normalize(g: Governance, attrs: map<string, RawValue>, level: Option<string>): (r: Attributes)
    ensures forall k :: k in r ==> r[k] != [] && Clean(r[k])
  {
    var cloned := ArraysOnly(attrs);
    SanitizeAll(WithLevel(g, cloned, ResolveLevel(g, level, cloned)))
  }

  /** Every key outside the four level keys survives exactly when its value is
      an array with a non-blank entry, and then holds that array sanitised. */
  lemma NormalizeOtherKey(g: Governance, attrs: map<string, RawValue>, level: Option<string>, k: string)
    requires k !in LevelKeys
    ensures var r := Normalize(g, attrs, level);
      && (k in r <==> k in attrs && attrs[k].Arr? && Sanitize(attrs[k].items) != [])
      && (k in r ==> r[k] == Sanitize(attrs[k].items))
  {
  }

  /** An unrecognised or missing level removes all four level keys. */
  lemma NormalizeUnrecognisedLevel(g: Governance, attrs: map<string, RawValue>, level: Option<string>)
    requires ResolveLevel(g, level, ArraysOnly(attrs)).None?
    ensures forall k :: k in LevelKeys ==> k !in Normalize(g, attrs, level)
  {
  }

  /** A recognised level is written, trimmed, under its three alias keys, and
      the data levels derived from it, sanitised, under `data_levels`. */
  lemma NormalizeRecognisedLevel(g: Governance, attrs: map<string, RawValue>, level: Option<string>, l: string)
    requires ResolveLevel(g, level, ArraysOnly(attrs)) == Some(l)
    ensures var r := Normalize(g, attrs, level);
      && LevelSlot(r, PersonnelKey, l) && LevelSlot(r, PersonKey, l) && LevelSlot(r, PersonLevelKey, l)
      && (DataLevelsKey in r <==> Sanitize(g.deriveDataLevels(l)) != [])
      && (DataLevelsKey in r ==> r[DataLevelsKey] == Sanitize(g.deriveDataLevels(l)))
  {
    SanitizeSingleton(l);
  }

  /** A normalised bag read back as raw input. */
  function Lift(m: Attributes): map<string, RawValue> {
    map k | k in m :: Arr(m[k])
  }

  /** Normalising a normalised bag again, with the same `level` argument,
      returns it unchanged: when the level comes from the bag itself this needs
      the recognised levels to be trimmed, as a trimmed copy is what gets
      stored. */
  lemma NormalizeIdempotent(g: Governance, attrs: map<string, RawValue>, level: Option<string>)
    requires LevelArgument(level) != "" || forall i :: 0 <= i < |g.personLevels| ==> Trimmed(g.personLevels[i])
    ensures Normalize(g, Lift(Normalize(g, attrs, level)), level) == Normalize(g, attrs, level)
  {
    var r1 := Normalize(g, attrs, level);
    var r2 := Normalize(g, Lift(r1), level);
    forall k ensures (k in r2 <==> k in r1) && (k in r1 ==> r2[k] == r1[k]) {
      NormalizeIdempotentAt(g, attrs, level, k, r1, r2);
    }
    MapExt(r2, r1);
  }

  lemma NormalizeIdempotentAt(g: Governance, attrs: map<string, RawValue>, level: Option<string>, k: string, r1: Attributes, r2: Attributes)
    requires LevelArgument(level) != "" || forall i :: 0 <= i < |g.personLevels| ==> Trimmed(g.personLevels[i])
    requires r1 == Normalize(g, attrs, level) && r2 == Normalize(g, Lift(r1), level)
    ensures (k in r2 <==> k in r1) && (k in r1 ==> r2[k] == r1[k])
  {
    LiftArraysOnly(r1);
    ResolveLevelStable(g, attrs, level);
    var lv := ResolveLevel(g, level, ArraysOnly(attrs));
    if k !in LevelKeys {
      OtherKeyStable(g, attrs, level, k, r1, r2);
    } else if lv.Some? && k == DataLevelsKey {
      DataLevelsStable(g, attrs, level, r1, r2, lv.value);
    } else if lv.Some? {
      AliasKeys(k);
      AliasStable(g, attrs, level, k, r1, r2, lv.value);
    } else {
      NormalizeUnrecognisedLevel(g, attrs, level);
      NormalizeUnrecognisedLevel(g, Lift(r1), level);
    }
  }

  lemma OtherKeyStable(g: Governance, attrs: map<string, RawValue>, level: Option<string>, k: string, r1: Attributes, r2: Attributes)
    requires r1 == Normalize(g, attrs, level) && r2 == Normalize(g, Lift(r1), level)
    requires k !in LevelKeys
    ensures (k in r2 <==> k in r1) && (k in r1 ==> r2[k] == r1[k])
  {
    NormalizeOtherKey(g, attrs, level, k);
    NormalizeOtherKey(g, Lift(r1), level, k);
    if k in r1 {
      SanitizeClean(r1[k]);
      assert Lift(r1)[k] == Arr(r1[k]);
    }
  }

  lemma DataLevelsStable(g: Governance, attrs: map<string, RawValue>, level: Option<string>, r1: Attributes, r2: Attributes, l: string)
    requires r1 == Normalize(g, attrs, level) && r2 == Normalize(g, Lift(r1), level)
    requires ResolveLevel(g, level, ArraysOnly(attrs)) == Some(l)
    requires ResolveLevel(g, level, ArraysOnly(Lift(r1))) == Some(l)
    ensures (DataLevelsKey in r2 <==> DataLevelsKey in r1)
    ensures DataLevelsKey in r1 ==> r2[DataLevelsKey] == r1[DataLevelsKey]
  {
    NormalizeRecognisedLevel(g, attrs, level, l);
    NormalizeRecognisedLevel(g, Lift(r1), level, l);
  }

  lemma AliasStable(g: Governance, attrs: map<string, RawValue>, level: Option<string>, k: string, r1: Attributes, r2: Attributes, l: string)
    requires r1 == Normalize(g, attrs, level) && r2 == Normalize(g, Lift(r1), level)
    requires ResolveLevel(g, level, ArraysOnly(attrs)) == Some(l)
    requires ResolveLevel(g, level, ArraysOnly(Lift(r1))) == Some(l)
    requires k == PersonnelKey || k == PersonKey || k == PersonLevelKey
    ensures (k in r2 <==> k in r1) && (k in r1 ==> r2[k] == r1[k])
  {
    NormalizeRecognisedLevel(g, attrs, level, l);
    NormalizeRecognisedLevel(g, Lift(r1), level, l);
    if k == PersonnelKey {
      assert LevelSlot(r1, PersonnelKey, l) && LevelSlot(r2, PersonnelKey, l);
    } else if k == PersonKey {
      assert LevelSlot(r1, PersonKey, l) && LevelSlot(r2, PersonKey, l);
    } else {
      assert LevelSlot(r1, PersonLevelKey, l) && LevelSlot(r2, PersonLevelKey, l);
    }
  }

  /** The level keys other than `data_levels` are the three aliases. */
  lemma AliasKeys(k: string)
    requires k in LevelKeys && k != DataLevelsKey
    ensures k == PersonnelKey || k == PersonKey || k == PersonLevelKey
  {
  }

  lemma MapExt(a: Attributes, b: Attributes)
    requires forall k :: (k in a <==> k in b) && (k in a ==> a[k] == b[k])
    ensures a == b
  {
  }

  lemma LiftArraysOnly(m: Attributes)
    ensures ArraysOnly(Lift(m)) == m
  {
  }

  /** Re-normalising resolves the same level as the first pass did. */
  lemma ResolveLevelStable(g: Governance, attrs: map<string, RawValue>, level: Option<string>)
    requires LevelArgument(level) != "" || forall i :: 0 <= i < |g.personLevels| ==> Trimmed(g.personLevels[i])
    ensures ResolveLevel(g, level, Normalize(g, attrs, level)) == ResolveLevel(g, level, ArraysOnly(attrs))
  {
    var r1 := Normalize(g, attrs, level);
    var c1 := ArraysOnly(attrs);
    if LevelArgument(level) != "" {
      LevelPrecedence(level, c1);
      LevelPrecedence(level, r1);
    } else if ResolveLevel(g, level, c1).Some? {
      RecognisedLevelStable(g, attrs, level, ResolveLevel(g, level, c1).value);
    } else {
      UnrecognisedLevelStable(g, attrs, level);
    }
  }

  /** A level read from the bag is found again, already trimmed, under
      `personnel_security_level`. */
  lemma RecognisedLevelStable(g: Governance, attrs: map<string, RawValue>, level: Option<string>, l: string)
    requires LevelArgument(level) == ""
    requires forall i :: 0 <= i < |g.personLevels| ==> Trimmed(g.personLevels[i])
    requires ResolveLevel(g, level, ArraysOnly(attrs)) == Some(l)
    ensures ResolveLevel(g, level, Normalize(g, attrs, level)) == Some(l)
  {
    var r1 := Normalize(g, attrs, level);
    TrimOfTrimmed(l);
    assert !IsBlank(l);
    NormalizeRecognisedLevel(g, attrs, level, l);
    assert FirstEntry(r1, PersonnelKey) == l;
    LevelPrecedence(level, r1);
    UpperIdempotent(l);
  }

  /** With no recognised level the bag has no level key left to read. */
  lemma UnrecognisedLevelStable(g: Governance, attrs: map<string, RawValue>, level: Option<string>)
    requires LevelArgument(level) == ""
    requires ResolveLevel(g, level, ArraysOnly(attrs)).None?
    ensures ResolveLevel(g, level, Normalize(g, attrs, level)).None?
  {
    var r1 := Normalize(g, attrs, level);
    NormalizeUnrecognisedLevel(g, attrs, level);
    assert FirstEntry(r1, PersonnelKey) == "";
    assert FirstEntry(r1, PersonKey) == "";
    assert FirstEntry(r1, PersonLevelKey) == "";
    LevelPrecedence(level, r1);
  }

  /** One custom single-valued field as the payload builder sees it. */
  datatype CustomField = CustomField(key: string, value: string, original: string)

  /** The three outcomes the payload allows for a custom field: a set value, an
      explicit clear when an earlier value existed, or no entry at all. */
  predicate TriState(r: Attributes, key: string, value: string, original: string) {
    && (value != "" ==> key in r && r[key] == [value])
    && (value == "" && !IsBlank(original) ==> key in r && r[key] == [])
    && (value == "" && IsBlank(original) ==> key !in r)
  }

  function ApplyCustom(attrs: Attributes, f: CustomField): (r: Attributes)
    ensures TriState(r, f.key, f.value, f.original)
    ensures forall k :: k != f.key ==> (k in r <==> k in attrs) && (k in r ==> r[k] == attrs[k])
  {
    if f.value != "" then attrs[f.key := [f.value]]
    else if !IsBlank(f.original) then attrs[f.key := []]
    else attrs - {f.key}
  }

  const DepartmentKey := "department"
  const PositionKey := "position"

  lemma CustomKeysDistinct()
    ensures PersonnelKey != DepartmentKey && PersonnelKey != PositionKey && DepartmentKey != PositionKey
  {
    assert |PersonnelKey| == 24 && |DepartmentKey| == 10 && |PositionKey| == 8;
  }

  /** The three custom fields of the form, current or as first loaded. */
  datatype CustomFields = CustomFields(personnelSecurityLevel: string, department: string, position: string)

  /** The second `buildAttributesPayload`: the personnel level is taken as
      entered, department and position trimmed; every other key is copied. */
  function BuildAttributesPayload(attrs: Attributes, form: CustomFields, original: CustomFields): (r: Attributes)
    ensures TriState(r, PersonnelKey, form.personnelSecurityLevel, original.personnelSecurityLevel)
    ensures TriState(r, DepartmentKey, Trim(form.department), original.department)
    ensures TriState(r, PositionKey, Trim(form.position), original.position)
    ensures forall k :: k != PersonnelKey && k != DepartmentKey && k != PositionKey ==>
      (k in r <==> k in attrs) && (k in r ==> r[k] == attrs[k])
  {
    var f1 := CustomField(PersonnelKey, form.personnelSecurityLevel, original.personnelSecurityLevel);
    var f2 := CustomField(DepartmentKey, Trim(form.department), original.department);
    var f3 := CustomField(PositionKey, Trim(form.position), original.position);
    CustomKeysDistinct();
    ApplyThree(attrs, f1, f2, f3);
    ApplyCustom(ApplyCustom(ApplyCustom(attrs, f1), f2), f3)
  }

  /** Three fields with different keys applied in turn: each ends in the
      state its own value and original ask for, and no other key changes. */
  lemma ApplyThree(attrs: Attributes, f1: CustomField, f2: CustomField, f3: CustomField)
    requires f1.key != f2.key && f1.key != f3.key && f2.key != f3.key
    ensures var r := ApplyCustom(ApplyCustom(ApplyCustom(attrs, f1), f2), f3);
      && TriState(r, f1.key, f1.value, f1.original)
      && TriState(r, f2.key, f2.value, f2.original)
      && TriState(r, f3.key, f3.value, f3.original)
      && forall k :: k != f1.key && k != f2.key && k != f3.key ==>
           (k in r <==> k in attrs) && (k in r ==> r[k] == attrs[k])
  {
    var a1 := ApplyCustom(attrs, f1);
    var a2 := ApplyCustom(a1, f2);
    TriStateKept(a1, f2, f1);
    TriStateKept(a2, f3, f1);
    TriStateKept(a2, f3, f2);
  }

  /** Setting one custom field leaves another field's state as it was. */
  lemma TriStateKept(a: Attributes, f: CustomField, g: CustomField)
    requires f.key != g.key && TriState(a, g.key, g.value, g.original)
    ensures TriState(ApplyCustom(a, f), g.key, g.value, g.original)
  {
  }
}
