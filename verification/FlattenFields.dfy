/**
 What the flattening pass of flatten.rs does to each field, said without its rewriting
 functions: which option it carries, which names stay, and which references stay as written.
 */
module FlattenFields {
  import opened Common
  import opened FlattenNames
  import opened FlattenTable
  import opened FlattenOneofs
  import opened FlattenRewrite
  import opened Flatten

  // ---- Names of message fields -------------------------------------------------------------------

  function NamesOf(xs: seq<Field>): seq<string> {
    seq(|xs|, i requires 0 <= i < |xs| => xs[i].name)
  }

  lemma NamesAppend(xs: seq<Field>, ys: seq<Field>)
    ensures NamesOf(xs + ys) == NamesOf(xs) + NamesOf(ys)
  {
  }

  lemma {:induction false} RewrittenNames(t: Table, syntax: string, fs: seq<Field>)
    ensures NamesOf(RewriteFields(t, syntax, fs)) == NamesOf(fs)
    decreases |fs|
  {
    hide RewriteTypeName, RewriteDefault, EffectivePacked;
    if fs != [] {
      RewrittenNames(t, syntax, fs[1..]);
      NamesAppend([RewriteField(t, syntax, fs[0])], RewriteFields(t, syntax, fs[1..]));
      NamesAppend([fs[0]], fs[1..]);
      assert [fs[0]] + fs[1..] == fs;
    }
  }

  lemma OneofNames(xs: seq<Field>, ys: seq<Field>)
    requires |xs| == |ys| && forall k :: 0 <= k < |xs| ==> OnlyOneof(xs[k], ys[k])
    ensures NamesOf(ys) == NamesOf(xs)
  {
  }

  lemma {:induction false} MessageNamesKept(t: Table, syntax: string, full: string, m: Message)
    requires RewriteMessage(t, syntax, full, m).Done?
    ensures NamesOf(MessageFields(RewriteMessage(t, syntax, full, m).value)) == NamesOf(MessageFields(m))
    decreases m, 1
  {
    hide NamesOf, OnlyOneof, RemoveSynthetic, RewriteFields;
    var s, r := RemoveSynthetic(m).value, RewriteMessage(t, syntax, full, m).value;
    OnlyOneofsChange(m);
    OneofNames(m.fields, s.fields);
    RewrittenNames(t, syntax, s.fields);
    RewrittenNames(t, syntax, m.extensions);
    NestedNamesKept(t, syntax, full, m.nested);
    NamesAppend(m.fields, m.extensions);
    NamesAppend(m.fields + m.extensions, FieldsOf(m.nested));
    NamesAppend(r.fields, r.extensions);
    NamesAppend(r.fields + r.extensions, FieldsOf(r.nested));
  }

  lemma {:induction false} NestedNamesKept(t: Table, syntax: string, parent: string, ms: seq<Message>)
    requires RewriteMessages(t, syntax, parent, ms).Done?
    ensures NamesOf(FieldsOf(RewriteMessages(t, syntax, parent, ms).value)) == NamesOf(FieldsOf(ms))
    decreases ms, 0
  {
    if ms != [] {
      hide NamesOf, RewriteMessage, MessageFields;
      var rs := RewriteMessages(t, syntax, parent, ms).value;
      MessageNamesKept(t, syntax, Qualify(parent, ms[0].name), ms[0]);
      NestedNamesKept(t, syntax, parent, ms[1..]);
      assert rs[1..] == RewriteMessages(t, syntax, parent, ms[1..]).value;
      NamesAppend(MessageFields(ms[0]), FieldsOf(ms[1..]));
      NamesAppend(MessageFields(rs[0]), FieldsOf(rs[1..]));
    }
  }

  lemma {:induction false} FlatNamesKept(t: Table, f: File, ms: seq<Message>)
    requires FlatMessages(t, f, ms).Done?
    ensures NamesOf(FieldsOf(FlatMessages(t, f, ms).value)) == NamesOf(FieldsOf(ms))
    decreases |ms|
  {
    hide NamesOf, RewriteMessage, ShortName, Qualify;
    if ms != [] {
      var n := |ms| - 1;
      var p, m := ms[..n], ms[n];
      var x := FlatMessages(t, f, p).value;
      var o := Qualify(f.pkg, m.name);
      var q := RewriteMessage(t, f.syntax, o, m).value;
      var r := q.(name := ShortName(Lookup(t.types, o)));
      FlatNamesKept(t, f, p);
      MessageNamesKept(t, f.syntax, o, m);
      assert MessageFields(r) == MessageFields(q);
      hide MessageFields;
      FieldsOfAppend(p, [m]);
      FieldsOfOne(m);
      FieldsOfAppend(x, [r]);
      FieldsOfOne(r);
      assert p + [m] == ms;
      NamesAppend(FieldsOf(p), MessageFields(m));
      NamesAppend(FieldsOf(x), MessageFields(r));
    }
  }

  /** Names of the fields of all messages of the files, in order. */
  function PlacedNames(ps: seq<Placed>): seq<string> {
    seq(|ps|, i requires 0 <= i < |ps| => ps[i].field.name)
  }

  lemma {:induction false} MergedNames(below: Below, t: Table, root: string, fs: seq<File>)
    requires MergeAll(below, t, root, fs).Done?
    ensures NamesOf(FieldsOf(MergeAll(below, t, root, fs).value.flat.messages)) == PlacedNames(MessagePlaced(fs))
    decreases |fs|
  {
    if fs != [] {
      var n := |fs| - 1;
      var p, f, m := fs[..n], fs[n], MergeAll(below, t, root, fs[..n]).value;
      MergedNames(below, t, root, p);
      var ms := FlatMessages(t, f, f.messages).value;
      assert MergeAll(below, t, root, fs).value.flat.messages == m.flat.messages + ms by {
        hide KeptLocations, LostComments, FlatMessages, FlatEnums, FlatServices, FlatExtensions;
      }
      hide MergeAll, NamesOf, FlatMessages;
      FlatNamesKept(t, f, f.messages);
      FieldsOfAppend(m.flat.messages, ms);
      NamesAppend(FieldsOf(m.flat.messages), FieldsOf(ms));
      PlaceNames(MessagePlaced(p), f.syntax, FieldsOf(f.messages));
    }
  }

  lemma PlaceNames(ps: seq<Placed>, syntax: string, xs: seq<Field>)
    ensures PlacedNames(ps + Place(syntax, xs)) == PlacedNames(ps) + NamesOf(xs)
  {
  }

  // ---- Main result -----------------------------------------------------------------------------------

  /** The packed option a field carries itself. */
  function OwnOption(f: Field): Option<bool> {
    if f.options.Some? then f.options.value.packed else None
  }

  const NEVER_PACKED: set<Kind> := {StringKind, BytesKind, MessageKind, GroupKind}

  /** What a field becomes, apart from names of declared types and enum values. */
  ghost predicate FieldKept(p: Placed, y: Field, declared: seq<string>) {
    var x := p.field;
    && y.repeated == x.repeated && y.kind == x.kind
    && (y.options == Some(FieldOptions(Some(true), "")) <==>
        x.repeated && x.kind.Some? && x.kind.value !in NEVER_PACKED
        && (OwnOption(x) == Some(true) || (OwnOption(x) == None && p.syntax == "proto3")))
    && (y.options == Some(FieldOptions(Some(true), "")) || y.options == None)
    && y.jsonName == (if x.extendee != "" then None else x.jsonName)
    && (TrimDots(x.typeName) !in declared ==> y.typeName == x.typeName)
    && (TrimDots(x.extendee) !in declared ==> y.extendee == x.extendee)
    && (x.kind != Some(EnumKind) || x.defaultValue == "" ==> y.defaultValue == x.defaultValue)
  }

  lemma MatchKeeps(t: Table, p: Placed, y: Field, declared: seq<string>)
    requires Match(t, p.syntax, p.field, y) && forall a :: a in t.types <==> a in declared
    ensures FieldKept(p, y, declared)
  {
    hide TrimDots, RewriteValue;
  }

  /**
   Every field, at any depth and in every file, by its place in the flat file: it has the
   option `packed = true` exactly when it was packed in its own file, and no option otherwise;
   it keeps its label and kind, its name if it is in a message, its JSON name unless it is an
   extension, its reference if that names no declared type, and any default but an enum's.
   Methods keep their names and such references too.
   */
  lemma FieldsKept(below: Below, fs: seq<File>, preferred: string)
    requires NamedFiles(fs) && DistinctTypes(fs) && FlattenFiles(below, fs, preferred).Done?
    ensures var ordered, flat := SortByName(fs), FlattenFiles(below, fs, preferred).value;
            var ps, qs := MessagePlaced(ordered), ExtensionPlaced(ordered);
            var ys, zs := FieldsOf(flat.messages), flat.extensions;
            |ys| == |ps| && |zs| == |qs|
            && (forall k :: 0 <= k < |ps| ==>
                  FieldKept(ps[k], ys[k], AllKeys(ordered)) && ys[k].name == ps[k].field.name)
            && (forall k :: 0 <= k < |qs| ==> FieldKept(qs[k], zs[k], AllKeys(ordered)))
            && |RpcsOf(flat.services)| == |RpcsOfFiles(ordered)|
            && forall k :: 0 <= k < |RpcsOfFiles(ordered)| ==>
                 RpcKept(RpcsOfFiles(ordered)[k], RpcsOf(flat.services)[k], AllKeys(ordered))
  {
    hide SortByName, ChooseRoot, SymbolTable, MessagePlaced, ExtensionPlaced, FieldsOf, FieldKept, Match, AllKeys,
        MergeAll, JoinLines, ImagesOf, EnumsMatch, NamedFile, RpcsOf, RpcsOfFiles;
    FlatFileMirrors(below, fs, preferred);
    var root, ordered, flat := ChooseRoot(fs, preferred), SortByName(fs), FlattenFiles(below, fs, preferred).value;
    var t := SymbolTable(root, ordered);
    TableKeys(fs, preferred);
    MergedNames(below, t, root, ordered);
    var ps, qs := MessagePlaced(ordered), ExtensionPlaced(ordered);
    var ys, zs := FieldsOf(flat.messages), flat.extensions;
    assert flat.messages == MergeAll(below, t, root, ordered).value.flat.messages;
    forall k | 0 <= k < |ps| ensures FieldKept(ps[k], ys[k], AllKeys(ordered)) && ys[k].name == ps[k].field.name {
      MatchKeeps(t, ps[k], ys[k], AllKeys(ordered));
      assert NamesOf(ys)[k] == PlacedNames(ps)[k];
    }
    forall k | 0 <= k < |qs| ensures FieldKept(qs[k], zs[k], AllKeys(ordered)) {
      MatchKeeps(t, qs[k], zs[k], AllKeys(ordered));
    }
    var rs, us := RpcsOfFiles(ordered), RpcsOf(flat.services);
    hide RpcMatch, RpcKept;
    forall k | 0 <= k < |rs| ensures RpcKept(rs[k], us[k], AllKeys(ordered)) {
      assert RpcMatch(t, rs[k], us[k]);
      RpcMatchKeeps(t, rs[k], us[k], AllKeys(ordered));
    }
  }

  /** A method keeps its name, and its input and output if they name no declared type. */
  ghost predicate RpcKept(a: Rpc, b: Rpc, declared: seq<string>) {
    && b.name == a.name && (TrimDots(a.input) !in declared ==> b.input == a.input)
    && (TrimDots(a.output) !in declared ==> b.output == a.output)
  }

  lemma RpcMatchKeeps(t: Table, a: Rpc, b: Rpc, declared: seq<string>)
    requires RpcMatch(t, a, b) && forall x :: x in t.types <==> x in declared
    ensures RpcKept(a, b, declared)
  {
    hide TrimDots;
  }

  /** The table knows exactly the declared types. */
  lemma TableKeys(fs: seq<File>, preferred: string)
    requires NamedFiles(fs) && DistinctTypes(fs)
    ensures var t := SymbolTable(ChooseRoot(fs, preferred), SortByName(fs));
            forall a :: a in t.types <==> a in AllKeys(SortByName(fs))
  {
    hide NamedFile, SymbolTable, ChooseRoot, SortByName, AllKeys, FileCovered;
    var ordered := SortByName(fs);
    SortKeeps(fs);
    forall i | 0 <= i < |ordered| ensures NamedFile(ordered[i]) {
      assert ordered[i] in multiset(fs);
      var j :| 0 <= j < |fs| && fs[j] == ordered[i];
    }
    TableIsSound(ChooseRoot(fs, preferred), ordered);
  }
}
