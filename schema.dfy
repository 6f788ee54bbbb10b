/** The schema preview: a single left-to-right pass over a field list that
    skips unnamed fields, recurses into nested ones and writes the type name
    of every other field under its key, a later write to a key replacing the
    earlier value. The resulting object is an association list that keeps
    the order in which keys were first written. */
module SchemaCompiler {
  import opened Wrappers
  import opened FieldTree

  /** A value of the compiled schema: a type name, or an object. */
  datatype Schema = Scalar(typeName: string) | Obj(entries: seq<(string, Schema)>)

  /** The type string a field stores in its `type` property. */
  function TypeName(t: FieldType): string {
    match t
    case String => "string"
    case Number => "number"
    case Nested => "nested"
  }

  // ---------------------------------------------------------------------
  // Objects as association lists
  // ---------------------------------------------------------------------

  function Keys(e: seq<(string, Schema)>): seq<string> {
    if e == [] then [] else [e[0].0] + Keys(e[1..])
  }

  lemma KeysAt(e: seq<(string, Schema)>)
    ensures |Keys(e)| == |e|
    ensures forall i :: 0 <= i < |e| ==> Keys(e)[i] == e[i].0
  {
  }

  /** No key occurs twice. */
  predicate DistinctKeys(e: seq<(string, Schema)>) {
    e == [] || (e[0].0 !in Keys(e[1..]) && DistinctKeys(e[1..]))
  }

  /** Reading property `k` of an object. */
  function Lookup(e: seq<(string, Schema)>, k: string): (r: Option<Schema>)
    ensures r.Some? <==> k in Keys(e)
    ensures r.Some? ==> (k, r.value) in e
  {
    if e == [] then None
    else if e[0].0 == k then Some(e[0].1)
    else Lookup(e[1..], k)
  }

  /** Writing property `k` of an object: an existing key keeps its place and
      takes the new value, a new key goes last. */
  function Assign(e: seq<(string, Schema)>, k: string, v: Schema): (r: seq<(string, Schema)>)
    ensures Keys(r) == if k in Keys(e) then Keys(e) else Keys(e) + [k]
    ensures DistinctKeys(e) ==> DistinctKeys(r)
  {
    if e == [] then [(k, v)]
    else if e[0].0 == k then
      assert ([(k, v)] + e[1..])[1..] == e[1..];
      [(k, v)] + e[1..]
    else
      assert ([e[0]] + Assign(e[1..], k, v))[1..] == Assign(e[1..], k, v);
      [e[0]] + Assign(e[1..], k, v)
  }

  /** Reading after a write gives the written value under the written key
      and the old value under every other key. */
  lemma {:induction false} LookupAssign(e: seq<(string, Schema)>, k: string, v: Schema, k': string)
    ensures Lookup(Assign(e, k, v), k') == if k' == k then Some(v) else Lookup(e, k')
  {
    if e != [] && e[0].0 != k {
      var r := Assign(e, k, v);
      assert r[1..] == Assign(e[1..], k, v);
      LookupAssign(e[1..], k, v, k');
    }
  }

  // ---------------------------------------------------------------------
  // The compiler
  // ---------------------------------------------------------------------

  /** The schema object of a field list, as a fold over its fields from the
      first to the last. */
  function Compile(fs: seq<Field>): (schema: seq<(string, Schema)>)
    ensures DistinctKeys(schema)
    decreases fs
  {
    if fs == [] then []
    else
      var rest := Compile(fs[..|fs| - 1]);
      var f := fs[|fs| - 1];
      if f.key == "" then rest else Assign(rest, f.key, ValueOf(f))
  }

  /** What a named field writes under its key. */
  function ValueOf(f: Field): Schema
    decreases f
  {
    if f.ty == Nested then Obj(Compile(f.children)) else Scalar(TypeName(f.ty))
  }

  /** One more field extends the fold by one step. */
  lemma CompileSnoc(fs: seq<Field>, i: nat)
    requires i < |fs|
    ensures Compile(fs[..i + 1]) ==
      if fs[i].key == "" then Compile(fs[..i])
      else Assign(Compile(fs[..i]), fs[i].key, ValueOf(fs[i]))
  {
    assert fs[..i + 1][..i] == fs[..i];
  }

  /** The object-building loop, with the recursion into nested children. */
  method BuildSchema(fields: seq<Field>) returns (schema: seq<(string, Schema)>)
    ensures schema == Compile(fields)
    decreases fields
  {
    schema := [];
    var i := 0;
    while i < |fields|
      invariant 0 <= i <= |fields|
      invariant schema == Compile(fields[..i])
    {
      var field := fields[i];
      CompileSnoc(fields, i);
      if field.key != "" {
        var value;
        if field.ty == Nested {
          var nested := BuildSchema(field.children);
          value := Obj(nested);
        } else {
          value := Scalar(TypeName(field.ty));
        }
        assert value == ValueOf(field);
        schema := Assign(schema, field.key, value);
      }
      i := i + 1;
    }
    assert fields[..|fields|] == fields;
  }

  // ---------------------------------------------------------------------
  // Reference descriptions of the result
  // ---------------------------------------------------------------------

  /** Some field of `fs` is named `k` (an empty name names nothing). */
  predicate Named(fs: seq<Field>, k: string) {
    k != "" && exists i :: 0 <= i < |fs| && fs[i].key == k
  }

  /** The position of the first field named `k`, or `|fs|` if there is none. */
  function FirstWithKey(fs: seq<Field>, k: string): (r: nat)
    ensures r <= |fs|
    ensures r < |fs| ==> fs[r].key == k
    ensures forall j :: 0 <= j < r ==> fs[j].key != k
  {
    if fs == [] then 0
    else if fs[0].key == k then 0
    else 1 + FirstWithKey(fs[1..], k)
  }

  // ---------------------------------------------------------------------
  // What the compiler promises
  // ---------------------------------------------------------------------

  /** The keys of the schema are exactly the non-empty field names. */
  lemma {:induction false} CompileKeys(fs: seq<Field>)
    ensures forall k :: k in Keys(Compile(fs)) <==> Named(fs, k)
  {
    if fs != [] {
      var p, f := fs[..|fs| - 1], fs[|fs| - 1];
      assert fs == p + [f];
      CompileKeys(p);
      forall k ensures Named(fs, k) <==> Named(p, k) || (k != "" && f.key == k) {
        if Named(fs, k) {
          var i :| 0 <= i < |fs| && fs[i].key == k;
          if i < |p| { assert p[i].key == k; }
        }
        if Named(p, k) {
          var i :| 0 <= i < |p| && p[i].key == k;
          assert fs[i].key == k;
        }
      }
    }
  }

  /** A key holds what the last field of that name wrote: the compiled
      children of a nested field, or the type name of any other field. */
  lemma {:induction false} CompileLookupLast(fs: seq<Field>, k: string, i: nat)
    requires i < |fs| && k != "" && fs[i].key == k
    requires forall j :: i < j < |fs| ==> fs[j].key != k
    ensures Lookup(Compile(fs), k) == Some(ValueOf(fs[i]))
  {
    var p, f := fs[..|fs| - 1], fs[|fs| - 1];
    if i < |fs| - 1 {
      CompileLookupLast(p, k, i);
    }
    if f.key != "" {
      LookupAssign(Compile(p), f.key, ValueOf(f), k);
    }
  }

  /** A name that no field carries, and the empty name, are absent. */
  lemma CompileLookupAbsent(fs: seq<Field>, k: string)
    requires k == "" || forall j :: 0 <= j < |fs| ==> fs[j].key != k
    ensures Lookup(Compile(fs), k) == None
  {
    CompileKeys(fs);
  }

  /** An empty schema comes exactly from a list whose fields are all unnamed. */
  lemma {:induction false} CompileEmpty(fs: seq<Field>)
    ensures Compile(fs) == [] <==> forall i :: 0 <= i < |fs| ==> fs[i].key == ""
  {
    CompileKeys(fs);
    if Compile(fs) != [] {
      var k := Compile(fs)[0].0;
      assert k in Keys(Compile(fs));
      assert Named(fs, k);
      var i :| 0 <= i < |fs| && fs[i].key == k && k != "";
    } else {
      assert Keys(Compile(fs)) == [];
      forall i | 0 <= i < |fs| ensures fs[i].key == "" {
        assert !Named(fs, fs[i].key);
      }
    }
  }

  lemma FirstWithKeyOfPrefix(p: seq<Field>, f: Field, k: string)
    ensures FirstWithKey(p + [f], k) ==
      if FirstWithKey(p, k) < |p| then FirstWithKey(p, k)
      else if f.key == k then |p| else |p| + 1
  {
    var fs := p + [f];
    var r, q := FirstWithKey(fs, k), FirstWithKey(p, k);
    if q < |p| {
      assert fs[q].key == k;
      assert r < |p| ==> p[r].key == k;
    } else {
      assert forall j :: 0 <= j < |p| ==> fs[j].key != k;
      assert fs[|p|] == f;
    }
  }

  /** `CompileKeys` restated through `FirstWithKey`, the form in which
      `CompileOrder` uses it. */
  lemma CompileKeyFirst(fs: seq<Field>, k: string)
    ensures k in Keys(Compile(fs)) <==> k != "" && FirstWithKey(fs, k) < |fs|
  {
    CompileKeys(fs);
    if Named(fs, k) {
      var i :| 0 <= i < |fs| && fs[i].key == k;
    }
  }

  /** Keys appear in the order in which their names first occur. */
  lemma {:induction false} CompileOrder(fs: seq<Field>, a: nat, b: nat)
    requires a < b < |Compile(fs)|
    ensures FirstWithKey(fs, Compile(fs)[a].0) < FirstWithKey(fs, Compile(fs)[b].0)
  {
    var p, f := fs[..|fs| - 1], fs[|fs| - 1];
    assert fs == p + [f];
    var e, ep := Compile(fs), Compile(p);
    KeysAt(e);
    KeysAt(ep);
    var ka, kb := e[a].0, e[b].0;
    assert Keys(e)[a] == ka && Keys(e)[b] == kb;
    assert Keys(e) == Keys(ep) || (f.key != "" && f.key !in Keys(ep) && Keys(e) == Keys(ep) + [f.key]);
    assert Keys(ep)[a] == ka;
    CompileKeyFirst(p, ka);
    FirstWithKeyOfPrefix(p, f, ka);
    FirstWithKeyOfPrefix(p, f, kb);
    if b < |ep| {
      assert Keys(ep)[b] == kb;
      CompileOrder(p, a, b);
    } else {
      assert kb == f.key && kb !in Keys(ep);
      CompileKeyFirst(p, kb);
    }
  }

  /** Adding a field leaves the preview unchanged: the new field is unnamed. */
  lemma AddFieldKeepsSchema(fs: seq<Field>)
    ensures Compile(AddField(fs)) == Compile(fs)
  {
    assert AddField(fs)[..|fs|] == fs;
  }

  /** Deleting an unnamed field leaves the preview unchanged. */
  lemma {:induction false} DeleteUnnamedKeepsSchema(fs: seq<Field>, index: nat)
    requires index < |fs| && fs[index].key == ""
    ensures Compile(DeleteField(fs, index)) == Compile(fs)
  {
    var r := DeleteField(fs, index);
    var p, f := fs[..|fs| - 1], fs[|fs| - 1];
    assert r == fs[..index] + fs[index + 1..];
    if index == |fs| - 1 {
      assert r == p;
    } else {
      var q := DeleteField(p, index);
      assert q == p[..index] + p[index + 1..];
      assert r == q + [f];
      assert r[..|r| - 1] == q && r[|r| - 1] == f;
      DeleteUnnamedKeepsSchema(p, index);
    }
  }

  /** The last of two fields with the same name wins. */
  lemma LastWriteWins()
    ensures Compile([Field("a", String, []), Field("a", Number, [])]) == [("a", Scalar("number"))]
  {
    var fs := [Field("a", String, []), Field("a", Number, [])];
    assert fs[..1] == [Field("a", String, [])];
    assert fs[..1][..0] == [];
  }

  /** A nested field compiles to the object of its children. */
  lemma NestedFieldCompilesToObject()
    ensures Compile([Field("a", Nested, [Field("b", Number, [])])]) ==
      [("a", Obj([("b", Scalar("number"))]))]
  {
    var inner := [Field("b", Number, [])];
    assert inner[..0] == [];
    assert Compile(inner) == [("b", Scalar("number"))];
    var outer := [Field("a", Nested, inner)];
    assert outer[..0] == [];
  }
}
