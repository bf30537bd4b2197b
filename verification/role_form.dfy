/** The role editor: the form's initial values for a new or an existing role,
    the role-name rule, the attributes sent on create and on edit, the menu
    checkboxes and the menu tree they are drawn from. The JSON text of the
    `menuIds` attribute is produced and read by an encode/decode pair carried
    as parameters. */
module RoleForm {
  import opened Optional
  import opened Text
  import opened Seqs

  /** The fields of a Keycloak role the editor reads. */
  datatype KeycloakRole = KeycloakRole(
    id: Option<string>,
    name: string,
    description: Option<string>,
    composite: Option<bool>,
    attributes: Option<map<string, string>>)

  datatype Mode = Create | Edit

  datatype FormData = FormData(name: string, description: string, composite: bool, dataSecurityLevel: string)

  const DataLevelKey: string := "dataSecurityLevel"
  const MenuKey: string := "menuIds"
  const DefaultLevel: string := "DATA_INTERNAL"

  /** What `JSON.parse` yields, as far as the editor looks at it: an array
      (its elements already passed through `String`) or anything else. */
  datatype Json = JArray(items: seq<string>) | JOther

  /** `JSON.parse`: `None` when it throws. */
  type Decoder = string -> Option<Json>

  /** `JSON.stringify` of a list of ids. */
  type Encoder = seq<string> -> string

  /** The form opened on an empty role. */
  const EmptyForm: FormData := FormData("", "", false, DefaultLevel)

  /** `role.attributes?.[key]`. */
  function Attribute(role: KeycloakRole, key: string): Option<string> {
    if role.attributes.Some? && key in role.attributes.value then Some(role.attributes.value[key]) else None
  }

  /** The saved menu selection: the distinct elements of the stored array, or
      nothing when the attribute is missing, empty, not JSON or not an
      array. */
  function StoredMenus(role: KeycloakRole, decode: Decoder): (r: seq<string>)
    ensures NoDup(r)
    ensures var raw := Attribute(role, MenuKey);
      forall x :: x in r <==>
        (&& raw.Some? && raw.value != "" && decode(raw.value).Some?
         && decode(raw.value).value.JArray? && x in decode(raw.value).value.items)
    ensures var raw := Attribute(role, MenuKey);
      raw.Some? && raw.value != "" && decode(raw.value).Some? && decode(raw.value).value.JArray? ==>
        var xs := decode(raw.value).value.items;
        forall i, j :: 0 <= i < j < |r| ==> FirstIndex(xs, r[i]) < FirstIndex(xs, r[j])
  {
    var raw := Attribute(role, MenuKey);
    if raw.Some? && raw.value != "" then
      match decode(raw.value)
      case Some(JArray(xs)) => Distinct(xs)
      case _ => []
    else []
  }

  /** The first effect of the editor: in edit mode with a role, the role's
      own values (an absent description is empty, an absent `composite`
      false, an absent level `DATA_INTERNAL`) and its saved menus; otherwise
      the empty form with nothing selected. */
  function InitForm(mode: Mode, role: Option<KeycloakRole>, decode: Decoder): (r: (FormData, seq<string>))
    ensures NoDup(r.1)
    ensures !(mode == Edit && role.Some?) ==> r == (EmptyForm, [])
    ensures mode == Edit && role.Some? ==>
      && r.0.name == role.value.name
      && r.0.description == role.value.description.GetOr("")
      && r.0.composite == role.value.composite.GetOr(false)
      && r.0.dataSecurityLevel == Attribute(role.value, DataLevelKey).GetOr(DefaultLevel)
      && r.1 == StoredMenus(role.value, decode)
  {
    if mode == Edit && role.Some? then
      var x := role.value;
      (FormData(x.name, x.description.GetOr(""), x.composite.GetOr(false), Attribute(x, DataLevelKey).GetOr(DefaultLevel)),
       StoredMenus(x, decode))
    else (EmptyForm, [])
  }

  /** A role opened for editing without a saved level shows `DATA_INTERNAL`;
      one whose saved menus are missing, unparsable or not an array shows no
      menu selected. */
  lemma InitFormDefaults(role: KeycloakRole, decode: Decoder)
    ensures Attribute(role, DataLevelKey).None? ==> InitForm(Edit, Some(role), decode).0.dataSecurityLevel == DefaultLevel
    ensures var raw := Attribute(role, MenuKey);
      (raw.None? || decode(raw.value).None? || decode(raw.value).value.JOther?) ==> InitForm(Edit, Some(role), decode).1 == []
  {
  }

  /** Why a name is refused; each is the error line the dialog shows. */
  datatype NameError = BlankName | BadCharacters

  /** `[a-zA-Z0-9_-]`. */
  predicate NameChar(c: char) {
    ('a' <= c <= 'z') || ('A' <= c <= 'Z') || ('0' <= c <= '9') || c == '_' || c == '-'
  }

  /** The name check of `handleSubmit`: a blank name first, then the whole,
      untrimmed name against `^[a-zA-Z0-9_-]+$`. */
  function ValidateName(name: string): (r: Result<string, NameError>)
    ensures r == Failure(BlankName) <==> IsBlank(name)
    ensures r == Failure(BadCharacters) <==> !IsBlank(name) && exists i :: 0 <= i < |name| && !NameChar(name[i])
    ensures r.Success? <==> |name| > 0 && forall i :: 0 <= i < |name| ==> NameChar(name[i])
    ensures r.Success? ==> r.value == name
  {
    if IsBlank(name) then Failure(BlankName)
    else if exists i :: 0 <= i < |name| && !NameChar(name[i]) then Failure(BadCharacters)
    else Success(name)
  }

  /** An accepted name has no surrounding whitespace: trimming it, as the
      blank check does, gives the name back. */
  lemma AcceptedNameIsTrimmed(name: string)
    requires ValidateName(name).Success?
    ensures Trim(name) == name
  {
    NameCharNotSpace(name[0]);
    NameCharNotSpace(name[|name| - 1]);
    TrimOfTrimmed(name);
  }

  lemma NameCharNotSpace(c: char)
    requires NameChar(c)
    ensures !IsSpace(c)
  {
  }

  /** `baseAttributes`: the level always, the encoded menu ids when any is
      selected, and nothing else. */
  function BaseAttributes(level: string, menus: seq<string>, encode: Encoder): (r: map<string, string>)
    ensures DataLevelKey in r && r[DataLevelKey] == level
    ensures MenuKey in r <==> |menus| > 0
    ensures MenuKey in r ==> r[MenuKey] == encode(menus)
    ensures forall k :: k in r ==> k == DataLevelKey || k == MenuKey
  {
    var base := map[DataLevelKey := level];
    if |menus| > 0 then base[MenuKey := encode(menus)] else base
  }

  /** `mergedAttributes`: the role's attributes with the new level and the
      encoded menu ids written over them, and `menuIds` deleted when nothing
      is selected. */
  function EditAttributes(existing: Option<map<string, string>>, level: string, menus: seq<string>, encode: Encoder): (r: map<string, string>)
    ensures DataLevelKey in r && r[DataLevelKey] == level
    ensures MenuKey in r <==> |menus| > 0
    ensures MenuKey in r ==> r[MenuKey] == encode(menus)
    ensures var prior := existing.GetOr(map[]);
      forall k :: k != DataLevelKey && k != MenuKey ==> (k in r <==> k in prior) && (k in r ==> r[k] == prior[k])
  {
    var merged := existing.GetOr(map[]) + BaseAttributes(level, menus, encode);
    if |menus| > 0 then merged[MenuKey := encode(menus)] else merged - {MenuKey}
  }

  datatype RoleData = RoleData(name: string, description: string, composite: bool, attributes: map<string, string>)

  /** The call `handleSubmit` makes: create a role, update the role of the
      given name, or (editing with no role name to address) none. */
  datatype Request = CreateRole(data: RoleData) | UpdateRole(target: string, data: RoleData) | NoRequest

  /** `handleSubmit` up to the service call: a refused name makes no
      request; otherwise the form and the selected menus, in selection
      order, become the create or update request. */
  function Submit(mode: Mode, role: Option<KeycloakRole>, form: FormData, menus: seq<string>, encode: Encoder): (r: Result<Request, NameError>)
    ensures r.Failure? <==> ValidateName(form.name).Failure?
    ensures r.Failure? ==> r.error == ValidateName(form.name).error
    ensures r.Success? && mode == Create ==>
      && r.value.CreateRole?
      && r.value.data == RoleData(form.name, form.description, form.composite,
           BaseAttributes(form.dataSecurityLevel, menus, encode))
    ensures r.Success? && mode == Edit ==>
      (r.value.UpdateRole? <==> role.Some? && role.value.name != "")
    ensures r.Success? && mode == Edit && !(role.Some? && role.value.name != "") ==> r.value == NoRequest
    ensures r.Success? && r.value.UpdateRole? ==>
      && r.value.target == role.value.name
      && r.value.data == RoleData(form.name, form.description, form.composite,
           EditAttributes(role.value.attributes, form.dataSecurityLevel, menus, encode))
  {
    var checked := ValidateName(form.name);
    if checked.Failure? then Failure(checked.error)
    else if mode == Create then
      Success(CreateRole(RoleData(form.name, form.description, form.composite, BaseAttributes(form.dataSecurityLevel, menus, encode))))
    else if role.Some? && role.value.name != "" then
      Success(UpdateRole(role.value.name, RoleData(form.name, form.description, form.composite,
        EditAttributes(role.value.attributes, form.dataSecurityLevel, menus, encode))))
    else Success(NoRequest)
  }

  /** A JSON pair that reads back every list it writes, as a non-empty
      text. */
  ghost predicate RoundTrips(encode: Encoder, decode: Decoder) {
    forall xs :: encode(xs) != "" && decode(encode(xs)) == Some(JArray(xs))
  }

  /** Saving an edited role and opening it again shows the saved level and
      the saved menu selection. */
  lemma SaveThenReopen(role: KeycloakRole, form: FormData, menus: seq<string>, encode: Encoder, decode: Decoder)
    requires RoundTrips(encode, decode)
    requires NoDup(menus)
    ensures var saved := role.(attributes := Some(EditAttributes(role.attributes, form.dataSecurityLevel, menus, encode)));
      var (f, sel) := InitForm(Edit, Some(saved), decode);
      f.dataSecurityLevel == form.dataSecurityLevel && sel == menus
  {
    var attrs := EditAttributes(role.attributes, form.dataSecurityLevel, menus, encode);
    var saved := role.(attributes := Some(attrs));
    assert Attribute(saved, DataLevelKey) == Some(form.dataSecurityLevel);
    if |menus| > 0 {
      assert Attribute(saved, MenuKey) == Some(encode(menus));
      assert decode(encode(menus)) == Some(JArray(menus));
      DistinctOfNoDup(menus, {});
    } else {
      assert Attribute(saved, MenuKey).None?;
    }
  }

  /** The checkbox of menu `id` set to `checked`: `Set.add` keeps a present
      id in place and appends a new one; `Set.delete` removes it. */
  function SetChecked(selected: seq<string>, id: string, checked: bool): (r: seq<string>)
    ensures checked ==> id in r
    ensures !checked ==> id !in r
    ensures forall x :: x != id ==> (x in r <==> x in selected)
    ensures checked ==> IsSubseq(selected, r)
    ensures !checked ==> IsSubseq(r, selected)
    ensures checked && id in selected ==> r == selected
    ensures checked && id !in selected ==> r == selected + [id]
  {
    if checked then
      if id in selected then
        SubseqRefl(selected);
        selected
      else
        AppendSubseq(selected, id);
        selected + [id]
    else
      var p := (x: string) => x != id;
      FilterSubseq(selected, p);
      Filter(selected, p)
  }

  /** A sequence is a subsequence of itself with one element appended. */
  lemma AppendSubseq(xs: seq<string>, x: string)
    ensures IsSubseq(xs, xs + [x])
  {
    SubseqRefl(xs);
    SubseqConcat(xs, xs, [], [x]);
    assert xs + [] == xs;
  }

  /** Checkbox edits keep the selection free of repeats, as a `Set` is. */
  lemma SetCheckedKeepsDistinct(selected: seq<string>, id: string, checked: bool)
    requires NoDup(selected)
    ensures NoDup(SetChecked(selected, id, checked))
  {
    var r := SetChecked(selected, id, checked);
    if checked && id !in selected {
      assert r[|selected|] == id;
      forall i, j | 0 <= i < j < |r| ensures r[i] != r[j] {
        assert r[i] == selected[i];
        if j < |selected| {
          assert r[j] == selected[j];
        }
      }
    } else if !checked {
      var id := (x: string) => x;
      SubseqDistinctBy(r, selected, id);
      forall i, j | 0 <= i < j < |r| ensures r[i] != r[j] {
        assert id(r[i]) != id(r[j]);
      }
    }
  }

  /** Checking a menu that was not selected and unchecking it again restores
      the selection. */
  lemma CheckThenUncheck(selected: seq<string>, id: string)
    requires id !in selected
    ensures SetChecked(SetChecked(selected, id, true), id, false) == selected
  {
    var p := (x: string) => x != id;
    FilterConcat(selected, [id], p);
    FilterKeepsAll(selected, p);
    assert Filter([id], p) == [];
  }

  /** A menu of the tree the service returns; a missing `children` array is
      the empty one. */
  datatype Menu = Menu(id: Option<string>, code: Option<string>, name: string, children: seq<Menu>)

  /** `menu.id || menu.code`: the first of the two that is a non-empty
      string. */
  function Key(m: Menu): (r: Option<string>)
    ensures r.Some? ==> r.value != ""
    ensures r.None? <==> (m.id.None? || m.id.value == "") && (m.code.None? || m.code.value == "")
  {
    if m.id.Some? && m.id.value != "" then m.id
    else if m.code.Some? && m.code.value != "" then m.code
    else None
  }

  /** One checkbox line: its key, its label, its indentation depth, and
      whether it is ticked. */
  datatype Row = Row(key: string, name: string, depth: nat, checked: bool)

  /** `buildNodes(tree, depth)`: each menu with a key, then its children one
      level deeper, then its younger siblings; a menu without a key is left
      out with everything below it. */
  function BuildNodes(tree: seq<Menu>, depth: nat, selected: seq<string>): (r: seq<Row>)
    ensures forall i :: 0 <= i < |r| ==> r[i].key != "" && (r[i].checked <==> r[i].key in selected)
    ensures forall i :: 0 <= i < |r| ==> r[i].depth >= depth
    ensures |r| > 0 ==> r[0].depth == depth
  {
    if |tree| == 0 then []
    else
      var m := tree[0];
      var own := match Key(m)
        case None => []
        case Some(k) => [Row(k, m.name, depth, k in selected)] + BuildNodes(m.children, depth + 1, selected);
      own + BuildNodes(tree[1..], depth, selected)
  }

  /** A menu as a rendered line would show it: its key and its label. */
  function Entry(m: Menu): (Option<string>, string) {
    (Key(m), m.name)
  }

  /** Every menu of the forest in pre-order, keyed or not. */
  function PreOrderEntries(tree: seq<Menu>): seq<(Option<string>, string)> {
    if |tree| == 0 then [] else [Entry(tree[0])] + PreOrderEntries(tree[0].children) + PreOrderEntries(tree[1..])
  }

  function RowEntries(rows: seq<Row>): (r: seq<(Option<string>, string)>)
    ensures |r| == |rows| && forall i :: 0 <= i < |rows| ==> r[i] == (Some(rows[i].key), rows[i].name)
  {
    if |rows| == 0 then [] else [(Some(rows[0].key), rows[0].name)] + RowEntries(rows[1..])
  }

  lemma RowEntriesConcat(a: seq<Row>, b: seq<Row>)
    ensures RowEntries(a + b) == RowEntries(a) + RowEntries(b)
  {
  }

  /** Every menu has a key, all the way down. */
  predicate AllKeyed(tree: seq<Menu>) {
    forall i :: 0 <= i < |tree| ==> Key(tree[i]).Some? && AllKeyed(tree[i].children)
  }

  /** The rendered lines never invent a menu and keep the pre-order of the
      tree. */
  lemma {:induction false} RenderKeepsPreOrder(tree: seq<Menu>, depth: nat, selected: seq<string>)
    ensures IsSubseq(RowEntries(BuildNodes(tree, depth, selected)), PreOrderEntries(tree))
  {
    if |tree| == 0 {
      assert RowEntries([]) == [];
    } else {
      var m := tree[0];
      var below := BuildNodes(m.children, depth + 1, selected);
      var rest := BuildNodes(tree[1..], depth, selected);
      RenderKeepsPreOrder(m.children, depth + 1, selected);
      RenderKeepsPreOrder(tree[1..], depth, selected);
      var pre := PreOrderEntries(tree);
      assert pre == [Entry(m)] + PreOrderEntries(m.children) + PreOrderEntries(tree[1..]);
      if Key(m).Some? {
        var row := Row(Key(m).value, m.name, depth, Key(m).value in selected);
        assert BuildNodes(tree, depth, selected) == [row] + below + rest;
        RowEntriesConcat([row] + below, rest);
        RowEntriesConcat([row], below);
        assert RowEntries([row]) == [Entry(m)];
        SubseqRefl([Entry(m)]);
        SubseqConcat([Entry(m)], [Entry(m)], RowEntries(below), PreOrderEntries(m.children));
        SubseqConcat([Entry(m)] + RowEntries(below), [Entry(m)] + PreOrderEntries(m.children), RowEntries(rest), PreOrderEntries(tree[1..]));
      } else {
        assert BuildNodes(tree, depth, selected) == rest;
        SubseqConcat([], [Entry(m)] + PreOrderEntries(m.children), RowEntries(rest), PreOrderEntries(tree[1..]));
        assert [] + RowEntries(rest) == RowEntries(rest);
      }
    }
  }

  /** When every menu has a key, every menu is rendered, once, in
      pre-order. */
  lemma {:induction false} RenderAllKeyed(tree: seq<Menu>, depth: nat, selected: seq<string>)
    requires AllKeyed(tree)
    ensures RowEntries(BuildNodes(tree, depth, selected)) == PreOrderEntries(tree)
    ensures BuildNodes(tree, depth, selected) == Rows(Annotate(tree, depth, true), selected)
  {
    BuildNodesRendersShown(tree, depth, selected);
    AllKeyedAllShown(tree, depth);
    FilterKeepsAll(Annotate(tree, depth, true), Shown);
    if |tree| > 0 {
      var m := tree[0];
      var below := BuildNodes(m.children, depth + 1, selected);
      var rest := BuildNodes(tree[1..], depth, selected);
      assert AllKeyed(m.children);
      assert AllKeyed(tree[1..]) by {
        forall i | 0 <= i < |tree[1..]| ensures Key(tree[1..][i]).Some? && AllKeyed(tree[1..][i].children) {
          assert tree[1..][i] == tree[i + 1];
        }
      }
      RenderAllKeyed(m.children, depth + 1, selected);
      RenderAllKeyed(tree[1..], depth, selected);
      var row := Row(Key(m).value, m.name, depth, Key(m).value in selected);
      assert BuildNodes(tree, depth, selected) == [row] + below + rest;
      RowEntriesConcat([row] + below, rest);
      RowEntriesConcat([row], below);
    }
  }

  /** A menu of the tree with the depth it is indented to and whether it is
      shown. */
  datatype Placed = Placed(menu: Menu, depth: nat, shown: bool)

  /** The reference listing: every menu of the forest in pre-order, each
      child one level deeper than its parent, and shown exactly when it has a
      key and every menu above it is shown. */
  function Annotate(tree: seq<Menu>, depth: nat, shown: bool): seq<Placed> {
    if |tree| == 0 then []
    else
      var m := tree[0];
      var s := shown && Key(m).Some?;
      [Placed(m, depth, s)] + Annotate(m.children, depth + 1, s) + Annotate(tree[1..], depth, shown)
  }

  predicate Shown(p: Placed) {
    p.shown
  }

  /** The checkbox line a shown menu is rendered as. */
  function RowOf(p: Placed, selected: seq<string>): Row {
    var k := Key(p.menu).GetOr("");
    Row(k, p.menu.name, p.depth, k in selected)
  }

  function Rows(ps: seq<Placed>, selected: seq<string>): (r: seq<Row>)
    ensures |r| == |ps| && forall i :: 0 <= i < |ps| ==> r[i] == RowOf(ps[i], selected)
  {
    if |ps| == 0 then [] else [RowOf(ps[0], selected)] + Rows(ps[1..], selected)
  }

  lemma RowsConcat(a: seq<Placed>, b: seq<Placed>, selected: seq<string>)
    ensures Rows(a + b, selected) == Rows(a, selected) + Rows(b, selected)
  {
    assert Rows(a + b, selected) == Rows(a, selected) + Rows(b, selected);
  }

  /** Below a hidden menu nothing is shown. */
  lemma {:induction false} HiddenBelow(tree: seq<Menu>, depth: nat)
    ensures forall i :: 0 <= i < |Annotate(tree, depth, false)| ==> !Shown(Annotate(tree, depth, false)[i])
  {
    if |tree| > 0 {
      var m := tree[0];
      HiddenBelow(m.children, depth + 1);
      HiddenBelow(tree[1..], depth);
      var below := Annotate(m.children, depth + 1, false);
      var rest := Annotate(tree[1..], depth, false);
      var all := [Placed(m, depth, false)] + below + rest;
      assert Annotate(tree, depth, false) == all;
      forall i | 0 <= i < |all| ensures !Shown(all[i]) {
        if 1 <= i < 1 + |below| {
          assert all[i] == below[i - 1];
        } else if i >= 1 + |below| {
          assert all[i] == rest[i - 1 - |below|];
        }
      }
    }
  }

  /** The shown part of the listing: the first menu and its shown
      descendants if it has a key, nothing of its subtree otherwise, then
      the shown menus among its younger siblings. */
  lemma ShownSplit(tree: seq<Menu>, depth: nat)
    requires |tree| > 0
    ensures var m := tree[0];
      Filter(Annotate(tree, depth, true), Shown)
        == (if Key(m).Some? then [Placed(m, depth, true)] + Filter(Annotate(m.children, depth + 1, true), Shown) else [])
           + Filter(Annotate(tree[1..], depth, true), Shown)
  {
    var m := tree[0];
    var s := Key(m).Some?;
    var head := [Placed(m, depth, s)];
    var below := Annotate(m.children, depth + 1, s);
    var rest := Annotate(tree[1..], depth, true);
    assert Annotate(tree, depth, true) == head + below + rest;
    FilterConcat(head + below, rest, Shown);
    FilterConcat(head, below, Shown);
    FilterCons(Placed(m, depth, s), [], Shown);
    assert head == [Placed(m, depth, s)] + [];
    if !s {
      HiddenBelow(m.children, depth + 1);
      FilterNone(below, Shown);
    }
  }

  /** `buildNodes` renders exactly the shown menus of the reference listing,
      in pre-order, each with its key, its name, its depth (children one level
      deeper than their parent) and whether its key is selected: a menu
      without a key is skipped together with everything below it. */
  lemma {:induction false} BuildNodesRendersShown(tree: seq<Menu>, depth: nat, selected: seq<string>)
    ensures BuildNodes(tree, depth, selected) == Rows(Filter(Annotate(tree, depth, true), Shown), selected)
  {
    if |tree| > 0 {
      var m := tree[0];
      var rest := Filter(Annotate(tree[1..], depth, true), Shown);
      ShownSplit(tree, depth);
      BuildNodesRendersShown(tree[1..], depth, selected);
      if Key(m).Some? {
        var below := Filter(Annotate(m.children, depth + 1, true), Shown);
        BuildNodesRendersShown(m.children, depth + 1, selected);
        RowsConcat([Placed(m, depth, true)] + below, rest, selected);
        RowsConcat([Placed(m, depth, true)], below, selected);
      } else {
        assert [] + rest == rest;
      }
    }
  }

  /** When every menu has a key, every menu is shown. */
  lemma {:induction false} AllKeyedAllShown(tree: seq<Menu>, depth: nat)
    requires AllKeyed(tree)
    ensures forall i :: 0 <= i < |Annotate(tree, depth, true)| ==> Shown(Annotate(tree, depth, true)[i])
  {
    if |tree| > 0 {
      var m := tree[0];
      assert AllKeyed(m.children);
      assert AllKeyed(tree[1..]) by {
        forall i | 0 <= i < |tree[1..]| ensures Key(tree[1..][i]).Some? && AllKeyed(tree[1..][i].children) {
          assert tree[1..][i] == tree[i + 1];
        }
      }
      AllKeyedAllShown(m.children, depth + 1);
      AllKeyedAllShown(tree[1..], depth);
      var below := Annotate(m.children, depth + 1, true);
      var rest := Annotate(tree[1..], depth, true);
      var all := [Placed(m, depth, true)] + below + rest;
      assert Annotate(tree, depth, true) == all;
      forall i | 0 <= i < |all| ensures Shown(all[i]) {
        if 1 <= i < 1 + |below| {
          assert all[i] == below[i - 1];
        } else if i >= 1 + |below| {
          assert all[i] == rest[i - 1 - |below|];
        }
      }
    }
  }
}
