/** The field tree edited by the schema builder: a field has a name, a type
    tag and an ordered sequence of child fields. Every handler of the editor
    builds an edited copy of a field or of the field list and passes it on
    (to `onChange` or to `setFields`); each handler here is a function that
    returns that copy. */
module FieldTree {

  /** The three choices of the type selector. */
  datatype FieldType = String | Number | Nested

  datatype Field = Field(key: string, ty: FieldType, children: seq<Field>)

  /** Only a field of type nested carries children, at every depth. */
  predicate WellFormed(f: Field)
    decreases f
  {
    (f.ty != Nested ==> f.children == []) &&
    forall i :: 0 <= i < |f.children| ==> WellFormed(f.children[i])
  }

  predicate AllWellFormed(fs: seq<Field>) {
    forall i :: 0 <= i < |fs| ==> WellFormed(fs[i])
  }

  /** A freshly added field: unnamed, of type string, without children. */
  function DefaultField(): (f: Field)
    ensures f.key == "" && f.ty == String && f.children == []
    ensures WellFormed(f)
  {
    Field("", String, [])
  }

  // ---------------------------------------------------------------------
  // Edits of a sibling sequence (the top-level list, or a field's children)
  // ---------------------------------------------------------------------

  /** Appends a default field after the existing ones. */
  function AddField(fs: seq<Field>): (r: seq<Field>)
    ensures |r| == |fs| + 1
    ensures r[..|fs|] == fs && r[|fs|] == DefaultField()
    ensures AllWellFormed(fs) ==> AllWellFormed(r)
  {
    fs + [DefaultField()]
  }

  /** Replaces the field at `index`; every other position is untouched. */
  function UpdateField(fs: seq<Field>, index: nat, updated: Field): (r: seq<Field>)
    requires index < |fs|
    ensures |r| == |fs| && r[index] == updated
    ensures forall j :: 0 <= j < |fs| && j != index ==> r[j] == fs[j]
    ensures AllWellFormed(fs) && WellFormed(updated) ==> AllWellFormed(r)
  {
    fs[index := updated]
  }

  /** Removes the field at `index`; the later fields shift one place left
      and keep their order. */
  function DeleteField(fs: seq<Field>, index: nat): (r: seq<Field>)
    requires index < |fs|
    ensures |r| == |fs| - 1
    ensures forall j :: 0 <= j < index ==> r[j] == fs[j]
    ensures forall j :: index <= j < |r| ==> r[j] == fs[j + 1]
    ensures AllWellFormed(fs) ==> AllWellFormed(r)
  {
    fs[..index] + fs[index + 1..]
  }

  // ---------------------------------------------------------------------
  // Edits of one field
  // ---------------------------------------------------------------------

  /** Renames a field; its type and children are untouched. */
  function SetKey(f: Field, newKey: string): (r: Field)
    ensures r.key == newKey && r.ty == f.ty && r.children == f.children
    ensures newKey == f.key ==> r == f
    ensures WellFormed(f) ==> WellFormed(r)
  {
    f.(key := newKey)
  }

  /** Retypes a field. Any type other than nested discards the children;
      nested keeps them. */
  function SetType(f: Field, newType: FieldType): (r: Field)
    ensures r.key == f.key && r.ty == newType
    ensures newType == Nested ==> r.children == f.children
    ensures newType != Nested ==> r.children == []
    ensures newType != Nested ==> WellFormed(r)
    ensures AllWellFormed(f.children) ==> WellFormed(r)
  {
    var updated := f.(ty := newType);
    if newType != Nested then updated.(children := []) else updated
  }

  /** Appends a default child. */
  function AddNested(f: Field): (r: Field)
    ensures r.key == f.key && r.ty == f.ty
    ensures |r.children| == |f.children| + 1
    ensures r.children[..|f.children|] == f.children
    ensures r.children[|f.children|] == DefaultField()
    ensures WellFormed(f) && f.ty == Nested ==> WellFormed(r)
  {
    f.(children := AddField(f.children))
  }

  /** Replaces the child at `index`. */
  function UpdateNested(f: Field, index: nat, updated: Field): (r: Field)
    requires index < |f.children|
    ensures r.key == f.key && r.ty == f.ty
    ensures |r.children| == |f.children| && r.children[index] == updated
    ensures forall j :: 0 <= j < |f.children| && j != index ==> r.children[j] == f.children[j]
    ensures WellFormed(f) && WellFormed(updated) ==> WellFormed(r)
  {
    f.(children := UpdateField(f.children, index, updated))
  }

  /** Removes the child at `index`, shifting the later children left. */
  function DeleteNested(f: Field, index: nat): (r: Field)
    requires index < |f.children|
    ensures r.key == f.key && r.ty == f.ty
    ensures |r.children| == |f.children| - 1
    ensures forall j :: 0 <= j < index ==> r.children[j] == f.children[j]
    ensures forall j :: index <= j < |r.children| ==> r.children[j] == f.children[j + 1]
    ensures WellFormed(f) ==> WellFormed(r)
  {
    f.(children := DeleteField(f.children, index))
  }
}
