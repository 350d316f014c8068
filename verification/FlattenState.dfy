/**
 The object behind flatten.rs: its registration loops fill the symbol table, and the
 driver merges the files.
 */
module FlattenState {
  import opened Common
  import opened Decimal
  import opened FlattenNames
  import opened FlattenTable
  import opened FlattenRewrite
  import opened Flatten

  lemma {:induction false} FreeIs(used: set<string>, c: string, k: nat, n: nat)
    requires (forall i :: 0 <= i < k ==> Candidate(c, i) in used) && k <= n
    requires (forall i :: k <= i < n ==> Candidate(c, i) in used) && Candidate(c, n) !in used
    ensures FirstFree(used, c, k) == n
    decreases n - k
  {
    if k < n { FreeIs(used, c, k + 1, n); }
  }

  class FlattenState {
    const rootPackage: string
    var usedTopLevel: set<string>
    var typeNames: map<string, string>
    var serviceNames: map<string, string>
    var extensionNames: map<string, string>
    var enumValues: map<string, map<string, string>>

    function Symbols(): Table
      reads this
    {
      Table(usedTopLevel, typeNames, serviceNames, extensionNames, enumValues)
    }

    constructor (root: string)
      ensures Symbols() == NO_SYMBOLS && rootPackage == root
    {
      rootPackage := root;
      usedTopLevel, typeNames, serviceNames, extensionNames, enumValues := {}, map[], map[], map[], map[];
    }

    /** `reserve`: the candidate, or the candidate with the first free suffix. */
    method Reserve(candidate: string) returns (name: string)
      modifies `usedTopLevel
      ensures name == Reserved(old(usedTopLevel), candidate) && usedTopLevel == old(usedTopLevel) + {name}
    {
      name := candidate;
      var k, suffix := 0, 2;
      while name in usedTopLevel
        invariant name == Candidate(candidate, k) && suffix == k + 2 && usedTopLevel == old(usedTopLevel)
        invariant forall i :: 0 <= i < k ==> Candidate(candidate, i) in usedTopLevel
        decreases |usedTopLevel| + 1 - k
      {
        Taken(usedTopLevel, candidate, k + 1);
        name := candidate + "_" + NatText(suffix);
        suffix := suffix + 1;
        k := k + 1;
      }
      FreeIs(usedTopLevel, candidate, 0, k);
      usedTopLevel := usedTopLevel + {name};
    }

    /** `register_nested_message_symbols`. */
    method RegisterNested(original: string, flattened: string, m: Message)
      modifies `typeNames, `enumValues
      ensures |NestedNames(original, m)| == |NestedNames(flattened, m)|
      ensures typeNames == InsertAll(old(typeNames), NestedNames(original, m), NestedNames(flattened, m))
      ensures enumValues == NestedValues(original, m, old(enumValues))
      decreases m
    {
      NestedSame(original, flattened, m);
      for i := 0 to |m.nested|
        invariant |MessageNames(original, m.nested[..i])| == |MessageNames(flattened, m.nested[..i])|
        invariant typeNames == InsertAll(old(typeNames), MessageNames(original, m.nested[..i]),
                  MessageNames(flattened, m.nested[..i]))
        invariant enumValues == NestedMessages(original, m.nested[..i], old(enumValues))
      {
        RegisterNestedOne(original, flattened, m, i, old(typeNames), old(enumValues));
      }
      assert m.nested[..|m.nested|] == m.nested;
      RegisterNestedEnums(original, flattened, m, typeNames, enumValues);
      EnumCounts(original, flattened, m.enums);
      InsertAllAppend(old(typeNames), MessageNames(original, m.nested), MessageNames(flattened, m.nested),
                      EnumNames(original, m.enums), EnumNames(flattened, m.enums));
    }

    /** One nested message, with everything inside it. */
    method RegisterNestedOne(original: string, flattened: string, m: Message, i: nat,
                             ghost types: map<string, string>, ghost values: map<string, map<string, string>>)
      requires i < |m.nested|
      requires |MessageNames(original, m.nested[..i])| == |MessageNames(flattened, m.nested[..i])|
      requires typeNames == InsertAll(types, MessageNames(original, m.nested[..i]),
               MessageNames(flattened, m.nested[..i]))
      requires enumValues == NestedMessages(original, m.nested[..i], values)
      modifies `typeNames, `enumValues
      ensures |MessageNames(original, m.nested[..i + 1])| == |MessageNames(flattened, m.nested[..i + 1])|
      ensures typeNames == InsertAll(types, MessageNames(original, m.nested[..i + 1]),
              MessageNames(flattened, m.nested[..i + 1]))
      ensures enumValues == NestedMessages(original, m.nested[..i + 1], values)
      decreases m, 0
    {
      var n := m.nested[i];
      var q, r := Qualify(original, n.name), Qualify(flattened, n.name);
      ghost var ms := m.nested[..i + 1];
      assert ms[..i] == m.nested[..i] && ms[i] == n;
      assert NestedMessages(original, ms, values) == NestedValues(q, n, NestedMessages(original, ms[..i], values));
      MessageNamesSnoc(original, m.nested, i);
      MessageNamesSnoc(flattened, m.nested, i);
      hide MessageNames, NestedNames, NestedMessages, NestedValues, Qualify;
      ghost var before := typeNames;
      typeNames := typeNames[q := r];
      InsertOne(before, q, r);
      RegisterNested(q, r, n);
      InsertAllAppend(before, [q], [r], NestedNames(q, n), NestedNames(r, n));
      InsertAllAppend(types, MessageNames(original, m.nested[..i]), MessageNames(flattened, m.nested[..i]),
                      [q] + NestedNames(q, n), [r] + NestedNames(r, n));
    }

    method RegisterNestedEnums(original: string, flattened: string, m: Message,
                               ghost types: map<string, string>, ghost values: map<string, map<string, string>>)
      requires typeNames == types && enumValues == values
      modifies `typeNames, `enumValues
      ensures |EnumNames(original, m.enums)| == |EnumNames(flattened, m.enums)|
      ensures typeNames == InsertAll(types, EnumNames(original, m.enums), EnumNames(flattened, m.enums))
      ensures enumValues == NestedEnums(original, m.enums, values)
    {
      hide Qualify, EnumNames, SameNames;
      EnumCounts(original, flattened, m.enums);
      assert m.enums[..0] == [];
      NoEnumNames(original);
      NoEnumNames(flattened);
      for i := 0 to |m.enums|
        invariant |EnumNames(original, m.enums[..i])| == |EnumNames(flattened, m.enums[..i])|
        invariant typeNames == InsertAll(types, EnumNames(original, m.enums[..i]), EnumNames(flattened, m.enums[..i]))
        invariant enumValues == NestedEnums(original, m.enums[..i], values)
      {
        var e := m.enums[i];
        var q, r := Qualify(original, e.name), Qualify(flattened, e.name);
        EnumNamesSnoc(original, m.enums, i);
        EnumNamesSnoc(flattened, m.enums, i);
        InsertAllAppend(types, EnumNames(original, m.enums[..i]), EnumNames(flattened, m.enums[..i]), [q], [r]);
        InsertOne(typeNames, q, r);
        assert m.enums[..i + 1][..i] == m.enums[..i];
        typeNames := typeNames[q := r];
        enumValues := enumValues[q := SameNames(e.values)];
      }
      assert m.enums[..|m.enums|] == m.enums;
    }

    method TopLevelName(f: File, name: string) returns (n: string)
      modifies `usedTopLevel
      ensures n == Reserved(old(usedTopLevel), TopName(rootPackage, f, name)) && usedTopLevel == old(usedTopLevel) + {n}
    {
      var candidate := name;
      if f.pkg != rootPackage {
        var prefix := PackagePrefixLoop(f.pkg);
        candidate := prefix + "_" + name;
      }
      n := Reserve(candidate);
    }

    method AddMessage(f: File, m: Message)
      modifies this
      ensures Symbols() == RegisterMessage(rootPackage, old(Symbols()), f, m)
    {
      hide Reserved, TopName, NestedNames, NestedValues, InsertAll;
      var original := Qualify(f.pkg, m.name);
      var name := TopLevelName(f, m.name);
      var flattened := Qualify(rootPackage, name);
      typeNames := typeNames[original := flattened];
      RegisterNested(original, flattened, m);
    }

    method AddEnum(f: File, e: EnumDecl)
      modifies this
      ensures Symbols() == RegisterEnum(rootPackage, old(Symbols()), f, e)
    {
      hide Reserved, TopName;
      var original := Qualify(f.pkg, e.name);
      var name := TopLevelName(f, e.name);
      typeNames := typeNames[original := Qualify(rootPackage, name)];
      var values: map<string, string> := map[];
      ghost var start := Values(usedTopLevel, map[]);
      for i := 0 to |e.values|
        invariant Values(usedTopLevel, values) == RegisterValues(f.pkg == rootPackage, name, e.values[..i], start)
        invariant typeNames == old(typeNames)[original := Qualify(rootPackage, name)]
        invariant serviceNames == old(serviceNames) && extensionNames == old(extensionNames)
                  && enumValues == old(enumValues)
      {
        assert e.values[..i + 1][..i] == e.values[..i];
        var newName := e.values[i];
        if f.pkg == rootPackage {
          usedTopLevel := usedTopLevel + {newName};
        } else {
          newName := Reserve(name + "_" + e.values[i]);
        }
        values := values[e.values[i] := newName];
      }
      assert e.values[..|e.values|] == e.values;
      enumValues := enumValues[original := values];
    }

    method AddService(f: File, name: string)
      modifies this
      ensures Symbols() == RegisterService(rootPackage, old(Symbols()), f, name)
    {
      var n := TopLevelName(f, name);
      serviceNames := serviceNames[Qualify(f.pkg, name) := Qualify(rootPackage, n)];
    }

    method AddExtension(f: File, name: string)
      modifies this
      ensures Symbols() == RegisterExtension(rootPackage, old(Symbols()), f, name)
    {
      var n := TopLevelName(f, name);
      extensionNames := extensionNames[Qualify(f.pkg, name) := Qualify(rootPackage, n)];
    }

    /** `register_file_symbols`. */
    method RegisterFileSymbols(f: File)
      modifies this
      ensures Symbols() == RegisterFile(rootPackage, old(Symbols()), f)
    {
      hide RegisterMessage, RegisterEnum, RegisterService, RegisterExtension;
      for i := 0 to |f.messages|
        invariant Symbols() == RegisterMessages(rootPackage, old(Symbols()), f, f.messages[..i])
      {
        assert f.messages[..i + 1][..i] == f.messages[..i];
        AddMessage(f, f.messages[i]);
      }
      assert f.messages[..|f.messages|] == f.messages;
      ghost var a := Symbols();
      for i := 0 to |f.enums|
        invariant Symbols() == RegisterEnums(rootPackage, a, f, f.enums[..i])
      {
        assert f.enums[..i + 1][..i] == f.enums[..i];
        AddEnum(f, f.enums[i]);
      }
      assert f.enums[..|f.enums|] == f.enums;
      ghost var b := Symbols();
      for i := 0 to |f.services|
        invariant Symbols() == RegisterServices(rootPackage, b, f, f.services[..i])
      {
        assert f.services[..i + 1][..i] == f.services[..i];
        AddService(f, f.services[i].name);
      }
      assert f.services[..|f.services|] == f.services;
      ghost var c := Symbols();
      for i := 0 to |f.extensions|
        invariant Symbols() == RegisterExtensions(rootPackage, c, f, f.extensions[..i])
      {
        assert f.extensions[..i + 1][..i] == f.extensions[..i];
        AddExtension(f, f.extensions[i].name);
      }
      assert f.extensions[..|f.extensions|] == f.extensions;
    }

    /** One registration pass over the files in order. */
    method RegisterPass(fs: seq<File>, inRoot: bool)
      modifies this
      ensures Symbols() == RegisterAll(rootPackage, old(Symbols()), PassOf(rootPackage, fs, inRoot))
    {
      hide RegisterFile;
      for i := 0 to |fs|
        invariant Symbols() == RegisterAll(rootPackage, old(Symbols()), PassOf(rootPackage, fs[..i], inRoot))
      {
        assert fs[..i + 1][..i] == fs[..i];
        ghost var p := PassOf(rootPackage, fs[..i], inRoot);
        assert p + [] == p;
        if (fs[i].pkg == rootPackage) != inRoot { continue; }
        assert (p + [fs[i]])[..|p|] == p;
        RegisterFileSymbols(fs[i]);
      }
      assert fs[..|fs|] == fs;
    }
  }

  lemma InsertOne(t: map<string, string>, k: string, v: string)
    ensures InsertAll(t, [k], [v]) == t[k := v]
  {
    assert InsertAll(t, [k][..0], [v][..0]) == t;
  }

  lemma {:induction false} RegisterAllAppend(root: string, t: Table, a: seq<File>, b: seq<File>)
    ensures RegisterAll(root, t, a + b) == RegisterAll(root, RegisterAll(root, t, a), b)
    decreases |b|
  {
    hide RegisterFile;
    if b == [] {
      assert a + b == a;
    } else {
      assert (a + b)[..|a + b| - 1] == a + b[..|b| - 1];
      RegisterAllAppend(root, t, a, b[..|b| - 1]);
    }
  }

  /** `flatten_descriptors`: two registration passes, then one merge after the other. */
  method FlattenDescriptors(below: Below, fs: seq<File>, preferred: string) returns (r: Outcome<File>)
    ensures r == FlattenFiles(below, fs, preferred)
  {
    hide ChooseRoot, SortByName, RegisterAll, MergeFile, WithHeader, PassOf;
    var root, ordered := ChooseRoot(fs, preferred), SortByName(fs);
    var state := new FlattenState(root);
    state.RegisterPass(ordered, true);
    state.RegisterPass(ordered, false);
    RegisterAllAppend(root, NO_SYMBOLS, PassOf(root, ordered, true), PassOf(root, ordered, false));
    var t := state.Symbols();
    assert t == SymbolTable(root, ordered);
    var m := Merge(EmptyFlat(root), []);
    for i := 0 to |ordered|
      invariant MergeAll(below, t, root, ordered[..i]) == Done(m)
    {
      assert ordered[..i + 1][..i] == ordered[..i];
      var step := MergeFile(below, t, m, ordered[i]);
      if step.Failed? {
        FailureStays(below, t, root, ordered, i + 1);
        return Failed(step.error);
      }
      m := step.value;
    }
    assert ordered[..|ordered|] == ordered;
    r := Done(WithHeader(m));
  }

  lemma {:induction false} FailureStays(below: Below, t: Table, root: string, fs: seq<File>, n: nat)
    requires n <= |fs| && MergeAll(below, t, root, fs[..n]).Failed?
    ensures MergeAll(below, t, root, fs) == MergeAll(below, t, root, fs[..n])
    decreases |fs| - n
  {
    hide MergeFile;
    if n == |fs| {
      assert fs[..n] == fs;
    } else {
      assert fs[..n + 1][..n] == fs[..n];
      FailureStays(below, t, root, fs, n + 1);
    }
  }
}
