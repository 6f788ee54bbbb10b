# JSON schema builder: field tree and schema compiler

This project models the logic of a browser-based schema builder. The user builds
a tree of fields. Each field has a name (`key`), a type (`string`, `number` or
`nested`) and an ordered list of child fields. The page shows a live preview of
the schema object compiled from the tree.

- `field_tree.dfy` (module `FieldTree`) holds the field datatype and every edit
  handler of `src/App.jsx`, written as functions. A JavaScript handler builds an
  edited copy of a field (by spread, or by changing a fresh copy) or of the field
  list, and passes it to `onChange` (a row) or `setFields` (the page). The model's
  function returns that copy.
  `WellFormed` is the tree invariant: a field that is not `nested` has no
  children, at every depth.
- `wrappers.dfy` (module `Wrappers`) holds the `Option` type used by the other modules.
- `editor.dfy` (module `Editor`) models how the rendered rows
  use the handlers. A child row passes its edited field to the closure its
  parent gave it as `onChange`. That closure calls the parent's
  `updateNestedField`, which writes the field at the child's index in a copy of
  the children and passes the edited parent to the parent's own `onChange`. At
  the top, `updateField` writes into a copy of the list and calls `setFields`.
  `Editor.Apply` and `Editor.Execute` thread the copy upwards in the same way, so
  an edit deep in the tree rebuilds only the path from the root. The model also keeps the
  rendering guards: children and the "add nested field" button appear only
  under a `nested` field. `Replay` runs any session of user commands from the
  initial page state. The invariant is proved for every session.
- `schema.dfy` (module `SchemaCompiler`) models `buildSchema`. `Compile` is a
  left-to-right fold. `BuildSchema` is the loop method, with its recursion into
  nested children, and is proved equal to `Compile`. A JavaScript object is
  modelled as an association list. Writing an existing key keeps its position
  and replaces its value. Writing a new key appends it.
  `Compile` is tied to reference definitions by lemmas:
  - the keys are exactly the non-empty field names;
  - each key holds the value written by the last field with that name;
  - keys appear in the order their names first occur.

## Model

| member | source | states |
|---|---|---|
| `FieldTree.DefaultField` | src/App.jsx:9 | a new field has the empty key, type string and no children, so it satisfies the tree invariant |
| `FieldTree.SetKey` | src/App.jsx:13 | only the key changes; type and children are kept; setting the current key returns an equal field; the invariant is preserved |
| `FieldTree.SetType` | src/App.jsx:15-19 | the type becomes the chosen one and the key is kept; a type other than nested empties the children, nested keeps them; a non-nested result is always well formed |
| `FieldTree.AddNested` | src/App.jsx:21-24 | adds one child; the earlier children are unchanged and the new last child is the default field; a well-formed nested field stays well formed |
| `FieldTree.UpdateNested` | src/App.jsx:26-30 | the number of children is kept, the new field is at `index`, every other child is unchanged, key and type are kept |
| `FieldTree.DeleteNested` | src/App.jsx:32-36 | one child fewer; children before `index` are unchanged and later ones shift one place left in order; key and type are kept |
| `FieldTree.AddField` | src/App.jsx:80 | the list grows by one; the earlier fields are unchanged and the new last field is the default field |
| `FieldTree.UpdateField` | src/App.jsx:81-85 | length kept, new field at `index`, every other position unchanged, invariant preserved |
| `FieldTree.DeleteField` | src/App.jsx:86-90 | length drops by one; positions before `index` are unchanged and later ones shift left in order; invariant preserved |
| `Editor.Enabled` | src/App.jsx:57-67 | only key and type edits are offered on a row that is not nested; child edits and deletions name an existing child |
| `Editor.Apply` | src/App.jsx:57-67 | a key or type action sets that attribute and keeps the other; an enabled row action keeps the tree invariant; an edit reported from child `index` writes the child's result at `index` and keeps the number of children and every other child |
| `Editor.InitialFields` | src/App.jsx:78 | the page starts with one default field, which is well formed |
| `Editor.CommandEnabled` | src/App.jsx:109-116 | an edit or a delete on the page names an existing top-level row |
| `Editor.Execute` | src/App.jsx:109-117 | adding appends the default field after the unchanged list; an edit of row `index` writes that row's reported field at `index` and keeps the length and every other field; deleting row `index` removes it and shifts the later fields left in order; every command keeps the invariant |
| `Editor.Replay` | src/App.jsx:78-90 | a session of offered commands ends with at most one more top-level field per command, and with no fewer fields than it started with when nothing was deleted |
| `Editor.ReplayKeepsWellFormed` | src/App.jsx:13-36 | every session of enabled commands on a well-formed list ends in a well-formed list |
| `Editor.NonNestedFieldsHaveNoChildren` | src/App.jsx:15-19 | in every tree reachable from the initial page, no non-nested field has children |
| `Editor.AddChildNeedsGuard` | src/App.jsx:57-67 | "add nested field" is not offered on a string field, and adding a child there would break the invariant, so the guard is what keeps it |
| `SchemaCompiler.Lookup` | src/App.jsx:98 | the read side of the object model, which the source only writes here; it is used to state what a write does: a key can be read exactly when it is among the object's keys, and the value read is stored under it |
| `SchemaCompiler.Assign` | src/App.jsx:98-100 | writing an existing key keeps the key order, writing a new key appends it; keys stay distinct |
| `SchemaCompiler.LookupAssign` | src/App.jsx:98-100 | after a write, the written key reads as the new value and every other key reads as before |
| `SchemaCompiler.Compile` | src/App.jsx:93-104 | the compiled object never holds a key twice |
| `SchemaCompiler.BuildSchema` | src/App.jsx:93-104 | the loop with its recursion into nested children returns exactly `Compile` of its input |
| `SchemaCompiler.CompileKeys` | src/App.jsx:95-101 | a key is in the schema if and only if some field has that non-empty name |
| `SchemaCompiler.CompileLookupLast` | src/App.jsx:95-101 | a key holds the value of the last field with that name: the compiled children if that field is nested, otherwise its type name |
| `SchemaCompiler.CompileLookupAbsent` | src/App.jsx:96 | the empty name, and a name no field carries, are absent from the schema |
| `SchemaCompiler.CompileOrder` | src/App.jsx:94-101 | the keys are ordered by the first position at which each name occurs |
| `SchemaCompiler.CompileEmpty` | src/App.jsx:94-96 | the schema is empty if and only if every field is unnamed |
| `SchemaCompiler.AddFieldKeepsSchema` | src/App.jsx:96 | adding a field leaves the schema unchanged, because the new field is unnamed |
| `SchemaCompiler.DeleteUnnamedKeepsSchema` | src/App.jsx:96 | deleting an unnamed field leaves the schema unchanged |
| `SchemaCompiler.LastWriteWins` | src/App.jsx:98-100 | two fields named `a`, string then number, compile to `{a: "number"}` |
| `SchemaCompiler.NestedFieldCompilesToObject` | src/App.jsx:97-98 | a nested field `a` with a number child `b` compiles to `{a: {b: "number"}}` |

## Left out

- React components, `useState`, antd widgets, icons and styles: rendering only. The guards the markup applies are kept in `Editor.Enabled`: children and "add nested field" are shown only under a nested field.
- `JSON.stringify(..., null, 2)` text of the preview. The model stops at the schema value.
- JavaScript object-key quirks: integer-like keys enumerate first, and writing `__proto__` is special. The association list gives every key the plain insertion-order behaviour.
- DOM event extraction (`e.target.value`): the new key is passed as a string.
- `splice` and index assignment with an index out of range: the rendered rows only pass their own index, so `index < |children|` is a precondition.
- React's `key={index}` reconciliation, and stale closures between renders. A session is modelled as commands applied one after another to the latest state.
- The "add nested field" handler does not check the type itself. The "only under nested" condition is the rendering guard in `Editor.Enabled`, not a precondition of the handler.
- The `type` value comes from a select with three options. It is modelled as the three-valued `FieldType`, so no other string can be stored.
