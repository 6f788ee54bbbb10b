/** The editor session: what a user can do to the field tree through the
    rendered rows, and how an edit deep in the tree travels back to the root.
    A child row passes its edited field to the `onChange` closure its parent
    gave it; that closure calls the parent's `updateNestedField`, which writes
    the field at the child's index in a copy of the children and passes the
    edited parent on to the parent's own `onChange`. At the top, the page's
    closure calls `updateField`, which hands a new list to `setFields`. So an
    edit rebuilds exactly the path from the root to the edited field. */
module Editor {
  import opened Wrappers
  import opened FieldTree

  /** What a user can do on one rendered field row. `EditChild` is an
      action performed on the row of child `index`, reported upwards. */
  datatype Action =
    | ChangeKey(newKey: string)
    | ChangeType(newType: FieldType)
    | AddChild
    | EditChild(index: nat, action: Action)
    | DeleteChild(index: nat)

  /** What a user can do on the page. */
  datatype Command =
    | NewField
    | EditField(index: nat, action: Action)
    | RemoveField(index: nat)

  /** An action is offered only on rows that are shown: the children of a
      field, and its "add nested field" button, are shown only while the
      field's type is nested. */
  predicate Enabled(f: Field, a: Action): (r: bool)
    ensures r && !a.ChangeKey? && !a.ChangeType? ==> f.ty == Nested
    ensures r && (a.EditChild? || a.DeleteChild?) ==> a.index < |f.children|
    decreases a
  {
    match a
    case ChangeKey(_) => true
    case ChangeType(_) => true
    case AddChild => f.ty == Nested
    case EditChild(i, b) => f.ty == Nested && i < |f.children| && Enabled(f.children[i], b)
    case DeleteChild(i) => f.ty == Nested && i < |f.children|
  }

  /** The field a row reports through `onChange` after action `a`. */
  function Apply(f: Field, a: Action): (r: Field)
    requires Enabled(f, a)
    ensures WellFormed(f) ==> WellFormed(r)
    ensures a.ChangeKey? ==> r.key == a.newKey
    ensures a.ChangeType? ==> r.ty == a.newType
    ensures !a.ChangeKey? ==> r.key == f.key
    ensures !a.ChangeType? ==> r.ty == f.ty
    ensures a.EditChild? ==>
      |r.children| == |f.children| &&
      r.children[a.index] == Apply(f.children[a.index], a.action) &&
      forall j :: 0 <= j < |f.children| && j != a.index ==> r.children[j] == f.children[j]
    decreases a
  {
    match a
    case ChangeKey(k) => SetKey(f, k)
    case ChangeType(t) => SetType(f, t)
    case AddChild => AddNested(f)
    case EditChild(i, b) => UpdateNested(f, i, Apply(f.children[i], b))
    case DeleteChild(i) => DeleteNested(f, i)
  }

  /** The field list the page starts with: one default field. */
  function InitialFields(): (fs: seq<Field>)
    ensures |fs| == 1 && fs[0] == DefaultField()
    ensures AllWellFormed(fs)
  {
    [DefaultField()]
  }

  /** A page command is offered only on a row that is shown. */
  predicate CommandEnabled(fs: seq<Field>, c: Command): (r: bool)
    ensures r && !c.NewField? ==> c.index < |fs|
  {
    match c
    case NewField => true
    case EditField(i, a) => i < |fs| && Enabled(fs[i], a)
    case RemoveField(i) => i < |fs|
  }

  /** The page's field list after command `c`. */
  function Execute(fs: seq<Field>, c: Command): (r: seq<Field>)
    requires CommandEnabled(fs, c)
    ensures AllWellFormed(fs) ==> AllWellFormed(r)
    ensures c.NewField? ==> |r| == |fs| + 1 && r[..|fs|] == fs && r[|fs|] == DefaultField()
    ensures c.EditField? ==>
      |r| == |fs| && r[c.index] == Apply(fs[c.index], c.action) &&
      forall j :: 0 <= j < |fs| && j != c.index ==> r[j] == fs[j]
    ensures c.RemoveField? ==>
      |r| == |fs| - 1 &&
      (forall j :: 0 <= j < c.index ==> r[j] == fs[j]) &&
      (forall j :: c.index <= j < |r| ==> r[j] == fs[j + 1])
  {
    match c
    case NewField => AddField(fs)
    case EditField(i, a) => UpdateField(fs, i, Apply(fs[i], a))
    case RemoveField(i) => DeleteField(fs, i)
  }

  /** Runs a session of commands; `None` if some command was not offered. */
  function Replay(fs: seq<Field>, cmds: seq<Command>): (r: Option<seq<Field>>)
    ensures r.Some? ==> |r.value| <= |fs| + |cmds|
    ensures r.Some? && NoRemovals(cmds) ==> |r.value| >= |fs|
    decreases |cmds|
  {
    if cmds == [] then Some(fs)
    else if !CommandEnabled(fs, cmds[0]) then None
    else Replay(Execute(fs, cmds[0]), cmds[1..])
  }

  predicate NoRemovals(cmds: seq<Command>) {
    forall i :: 0 <= i < |cmds| ==> !cmds[i].RemoveField?
  }

  /** No session breaks the tree invariant. */
  lemma {:induction false} ReplayKeepsWellFormed(fs: seq<Field>, cmds: seq<Command>)
    requires AllWellFormed(fs)
    ensures Replay(fs, cmds).Some? ==> AllWellFormed(Replay(fs, cmds).value)
    decreases |cmds|
  {
    if cmds != [] && CommandEnabled(fs, cmds[0]) {
      ReplayKeepsWellFormed(Execute(fs, cmds[0]), cmds[1..]);
    }
  }

  /** In every tree a user can build, a field that is not nested has no
      children. */
  lemma NonNestedFieldsHaveNoChildren(cmds: seq<Command>)
    requires Replay(InitialFields(), cmds).Some?
    ensures AllWellFormed(Replay(InitialFields(), cmds).value)
  {
    ReplayKeepsWellFormed(InitialFields(), cmds);
  }

  /** The invariant rests on the rendering guard: a child added under a
      field that is not nested breaks it. */
  lemma AddChildNeedsGuard()
    ensures !Enabled(DefaultField(), AddChild)
    ensures !WellFormed(AddNested(DefaultField()))
  {
    assert AddNested(DefaultField()).children == [DefaultField()];
  }
}
