/** The card-template editor: an ordered list of field configurations that
    the author adds to, edits, removes from and reorders by drag and drop,
    and saves under a name. Field positions are kept in the `order`
    attribute, 1-based. */
module TemplateEditor {
  import opened Wrappers
  import opened Schema
  import opened JsText

  /** The single field a new template starts with. */
  const DefaultFields := [FieldConfig("definition", "Definition", TextArea, true, None, None, None, 1)]

  const DefaultTemplateName := "Custom Template"

  /** The editor's starting name: the template's own name unless it is
      missing or empty. */
  function InitialName(templateName: Option<string>): (r: string)
    ensures r == DefaultTemplateName <==> (templateName.None? || templateName.value == [] || templateName.value == DefaultTemplateName)
    ensures templateName.Some? && templateName.value != [] ==> r == templateName.value
  {
    match templateName
    case None => DefaultTemplateName
    case Some(n) => if n == [] then DefaultTemplateName else n
  }

  /** The editor's starting fields: the template's own list whenever there
      is a template (an empty array is truthy), the default field otherwise. */
  function InitialFields(templateFields: Option<seq<FieldConfig>>): (r: seq<FieldConfig>)
    ensures templateFields.Some? ==> r == templateFields.value
    ensures templateFields.None? ==> r == DefaultFields
  {
    match templateFields
    case None => DefaultFields
    case Some(fs) => fs
  }

  /** Decimal digits of a natural number, most significant first. */
  function Decimal(n: nat): (r: string)
    ensures |r| > 0
    ensures forall i :: 0 <= i < |r| ==> '0' <= r[i] <= '9'
  {
    var d := ['0' + (n % 10) as char];
    if n < 10 then d else Decimal(n / 10) + d
  }

  /** `addField`: a new optional short-text field, named "New Field", with
      an id derived from the clock reading `now`, appended at position
      `fields.length + 1`. */
  function AddField(fields: seq<FieldConfig>, now: nat): (r: seq<FieldConfig>)
    ensures |r| == |fields| + 1 && r[..|fields|] == fields
    ensures var f := r[|fields|];
      && StartsWith(f.id, "field_") && f.name == "New Field" && f.fieldType == Text
      && !f.required && f.order == |fields| + 1
      && f.placeholder.None? && f.options.None? && f.maxLength.None?
  {
    fields + [FieldConfig("field_" + Decimal(now), "New Field", Text, false, None, None, None, |fields| + 1)]
  }

  /** `Partial<FieldConfig>`: the attributes an edit sets; an absent one is
      left as it was. */
  datatype FieldUpdate = FieldUpdate(
    name: Option<string>,
    fieldType: Option<FieldType>,
    required: Option<bool>,
    placeholder: Option<Option<string>>,
    options: Option<Option<seq<string>>>,
    maxLength: Option<Option<int>>)

  /** `{ ...field, ...updates }`. */
  function ApplyUpdate(f: FieldConfig, u: FieldUpdate): (r: FieldConfig)
    ensures r.id == f.id && r.order == f.order
    ensures u.name.Some? ==> r.name == u.name.value
    ensures u.name.None? ==> r.name == f.name
    ensures u.fieldType.Some? ==> r.fieldType == u.fieldType.value
    ensures u.fieldType.None? ==> r.fieldType == f.fieldType
    ensures u.required.Some? ==> r.required == u.required.value
    ensures u.required.None? ==> r.required == f.required
    ensures u.placeholder.Some? ==> r.placeholder == u.placeholder.value
    ensures u.placeholder.None? ==> r.placeholder == f.placeholder
    ensures u.options.Some? ==> r.options == u.options.value
    ensures u.options.None? ==> r.options == f.options
    ensures u.maxLength.Some? ==> r.maxLength == u.maxLength.value
    ensures u.maxLength.None? ==> r.maxLength == f.maxLength
  {
    FieldConfig(
      f.id,
      u.name.GetOr(f.name),
      u.fieldType.GetOr(f.fieldType),
      u.required.GetOr(f.required),
      u.placeholder.GetOr(f.placeholder),
      u.options.GetOr(f.options),
      u.maxLength.GetOr(f.maxLength),
      f.order)
  }

  /** Applying the same update twice is applying it once. */
  lemma ApplyUpdateIdempotent(f: FieldConfig, u: FieldUpdate)
    ensures ApplyUpdate(ApplyUpdate(f, u), u) == ApplyUpdate(f, u)
  {
  }

  /** `updateField(index, updates)`, called for a field shown in the list. */
  function UpdateField(fields: seq<FieldConfig>, index: int, u: FieldUpdate): (r: seq<FieldConfig>)
    requires 0 <= index < |fields|
    ensures |r| == |fields|
    ensures r[index] == ApplyUpdate(fields[index], u)
    ensures forall i :: 0 <= i < |fields| && i != index ==> r[i] == fields[i]
  {
    fields[index := ApplyUpdate(fields[index], u)]
  }

  /** `removeField(index)`: every field but the one at `index`; an index
      outside the list removes nothing. */
  function RemoveField(fields: seq<FieldConfig>, index: int): (r: seq<FieldConfig>)
    ensures 0 <= index < |fields| ==> |r| == |fields| - 1
    ensures !(0 <= index < |fields|) ==> r == fields
    ensures 0 <= index < |fields| ==>
      (forall i :: 0 <= i < index ==> r[i] == fields[i])
      && (forall i :: index <= i < |r| ==> r[i] == fields[i + 1])
  {
    RemoveAt(fields, index)
  }

  /** The two `splice` calls of `handleDragEnd`: take the element at `src`
      out and put it back in at `dst`. */
  function Move<T>(s: seq<T>, src: int, dst: int): (r: seq<T>)
    requires 0 <= src < |s| && 0 <= dst < |s|
    ensures |r| == |s|
    ensures r[dst] == s[src]
    ensures multiset(r) == multiset(s)
  {
    var rest := s[..src] + s[src + 1..];
    assert s == s[..src] + [s[src]] + s[src + 1..];
    assert multiset(s) == multiset(s[..src]) + multiset{s[src]} + multiset(s[src + 1..]);
    assert multiset(rest) == multiset(s[..src]) + multiset(s[src + 1..]);
    assert rest == rest[..dst] + rest[dst..];
    assert multiset(rest) == multiset(rest[..dst]) + multiset(rest[dst..]);
    var r := rest[..dst] + [s[src]] + rest[dst..];
    assert multiset(r) == multiset(rest[..dst]) + multiset{s[src]} + multiset(rest[dst..]);
    assert multiset(r) == multiset(rest) + multiset{s[src]};
    assert multiset(s) == multiset(rest) + multiset{s[src]};
    r
  }

  /** Everything between the two positions shifts by one towards the gap,
      and everything outside them stays where it was. */
  lemma MoveShifts<T>(s: seq<T>, src: int, dst: int, i: int)
    requires 0 <= src < |s| && 0 <= dst < |s| && 0 <= i < |s|
    ensures i < src && i < dst ==> Move(s, src, dst)[i] == s[i]
    ensures i > src && i > dst ==> Move(s, src, dst)[i] == s[i]
    ensures src < dst && src <= i < dst ==> Move(s, src, dst)[i] == s[i + 1]
    ensures dst < src && dst < i <= src ==> Move(s, src, dst)[i] == s[i - 1]
  {
  }

  /** Dragging the field back from where it was dropped undoes the drag. */
  lemma {:induction false} MoveBack<T>(s: seq<T>, src: int, dst: int)
    requires 0 <= src < |s| && 0 <= dst < |s|
    ensures Move(Move(s, src, dst), dst, src) == s
  {
    var r := Move(s, src, dst);
    var rest := s[..src] + s[src + 1..];
    assert r == rest[..dst] + [s[src]] + rest[dst..];
    assert r[..dst] + r[dst + 1..] == rest;
    assert rest[..src] == s[..src];
    assert rest[src..] == s[src + 1..];
    assert Move(r, dst, src) == rest[..src] + [s[src]] + rest[src..];
  }

  /** `map((field, index) => ({ ...field, order: index + 1 }))`. */
  function Renumber(fields: seq<FieldConfig>): (r: seq<FieldConfig>)
    ensures |r| == |fields|
    ensures forall i :: 0 <= i < |r| ==> r[i].order == i + 1
    ensures forall i :: 0 <= i < |r| ==> r[i].(order := 0) == fields[i].(order := 0)
  {
    seq(|fields|, i requires 0 <= i < |fields| => fields[i].(order := i + 1))
  }

  /** Renumbering gives every field a distinct order, and a second
      renumbering changes nothing. */
  lemma RenumberDistinctAndStable(fields: seq<FieldConfig>)
    ensures forall i, j :: 0 <= i < j < |fields| ==> Renumber(fields)[i].order != Renumber(fields)[j].order
    ensures Renumber(Renumber(fields)) == Renumber(fields)
  {
  }

  /** `handleDragEnd`: a drop outside the list changes nothing; a drop at
      `dst` moves the dragged field there and renumbers the list. */
  function HandleDragEnd(fields: seq<FieldConfig>, src: int, dst: Option<int>): (r: seq<FieldConfig>)
    requires 0 <= src < |fields|
    requires dst.Some? ==> 0 <= dst.value < |fields|
    ensures dst.None? ==> r == fields
    ensures dst.Some? ==>
      && |r| == |fields|
      && r[dst.value].(order := 0) == fields[src].(order := 0)
      && r[dst.value].order == dst.value + 1
      && (forall i :: 0 <= i < |r| ==> r[i].order == i + 1)
  {
    match dst
    case None => fields
    case Some(d) => Renumber(Move(fields, src, d))
  }

  /** The ids of a list of fields, in list order. */
  function Ids(fields: seq<FieldConfig>): (r: seq<string>)
    ensures |r| == |fields|
    ensures forall i :: 0 <= i < |fields| ==> r[i] == fields[i].id
  {
    seq(|fields|, i requires 0 <= i < |fields| => fields[i].id)
  }

  /** The fields a drag leaves are the fields it found: the id list is the
      old id list with the dragged id moved, so every id occurs as often as
      before. */
  lemma DragKeepsFields(fields: seq<FieldConfig>, src: int, dst: int)
    requires 0 <= src < |fields| && 0 <= dst < |fields|
    ensures Ids(HandleDragEnd(fields, src, Some(dst))) == Move(Ids(fields), src, dst)
    ensures multiset(Ids(HandleDragEnd(fields, src, Some(dst)))) == multiset(Ids(fields))
  {
    var r := HandleDragEnd(fields, src, Some(dst));
    forall i | 0 <= i < |fields|
      ensures Ids(r)[i] == Move(Ids(fields), src, dst)[i]
    {
      MoveShifts(fields, src, dst, i);
      MoveShifts(Ids(fields), src, dst, i);
    }
  }

  /** What a save hands to the caller. */
  datatype SavedTemplate = SavedTemplate(name: string, fields: seq<FieldConfig>)

  /** `handleSave` behind the save button: disabled while saving, with a
      blank name or with no fields; otherwise the name as typed and the
      fields renumbered 1, 2, 3, ... */
  function HandleSave(templateName: string, fields: seq<FieldConfig>, isLoading: bool): (r: Option<SavedTemplate>)
    ensures r.None? <==> (isLoading || IsBlank(templateName) || |fields| == 0)
    ensures r.Some? ==>
      && r.value.name == templateName
      && |r.value.fields| == |fields|
      && (forall i :: 0 <= i < |fields| ==> r.value.fields[i].order == i + 1)
      && (forall i :: 0 <= i < |fields| ==> r.value.fields[i].(order := 0) == fields[i].(order := 0))
  {
    if isLoading || IsBlank(templateName) || |fields| == 0 then None
    else Some(SavedTemplate(templateName, Renumber(fields)))
  }
}
