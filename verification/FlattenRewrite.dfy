/**
 Rewriting in flatten.rs: every field, enum, message and method goes through the symbol table.
 References, effective packing and enum defaults keep their meaning, and everything stays in
 its place at any nesting depth.
 */
module FlattenRewrite {
  import opened Common
  import opened FlattenNames
  import opened FlattenTable
  import opened FlattenOneofs

  datatype FlattenError = FlattenError(message: string, error: OneofError)

  datatype Outcome<T> = Done(value: T) | Failed(error: FlattenError)

  // ---- Rewriting --------------------------------------------------------------------------

  predicate IsPackable(k: Kind) {
    !(k.StringKind? || k.BytesKind? || k.MessageKind? || k.GroupKind?)
  }

  /** The explicit option, else what the file's syntax says. */
  predicate EffectivePacked(syntax: string, f: Field) {
    f.repeated && f.kind.Some? && IsPackable(f.kind.value)
    && if f.options.Some? && f.options.value.packed.Some? then f.options.value.packed.value else syntax == "proto3"
  }

  function TrimDots(name: string): string {
    if name != "" && name[0] == '.' then TrimDots(name[1..]) else name
  }

  function RewriteTypeName(types: map<string, string>, name: string): string {
    if name == "" then ""
    else if TrimDots(name) in types then "." + types[TrimDots(name)]
    else name
  }

  /** The new name of an enum value; names the table does not know stay. */
  function RewriteValue(values: map<string, map<string, string>>, full: string, v: string): string {
    if full in values && v in values[full] && values[full][v] != "" then values[full][v] else v
  }

  function RewriteDefault(t: Table, f: Field): string {
    if f.defaultValue != "" && f.kind == Some(EnumKind) then
      RewriteValue(t.values, TrimDots(f.typeName), f.defaultValue)
    else f.defaultValue
  }

  /** `rewrite_field`. */
  function RewriteField(t: Table, syntax: string, f: Field): Field {
    f.(typeName := RewriteTypeName(t.types, f.typeName),
       extendee := RewriteTypeName(t.types, f.extendee),
       jsonName := if f.extendee != "" then None else f.jsonName,
       defaultValue := RewriteDefault(t, f),
       options := if EffectivePacked(syntax, f) then Some(FieldOptions(Some(true), "")) else None,
       proto3Optional := false)
  }

  function RewriteFields(t: Table, syntax: string, fs: seq<Field>): seq<Field> {
    if fs == [] then [] else [RewriteField(t, syntax, fs[0])] + RewriteFields(t, syntax, fs[1..])
  }

  function RewriteValues(values: map<string, map<string, string>>, full: string, vs: seq<string>): seq<string> {
    if vs == [] then [] else [RewriteValue(values, full, vs[0])] + RewriteValues(values, full, vs[1..])
  }

  /** `rewrite_enum`. */
  function RewriteEnum(t: Table, full: string, e: EnumDecl): EnumDecl {
    EnumDecl(e.name, RewriteValues(t.values, full, e.values))
  }

  function RewriteEnums(t: Table, parent: string, es: seq<EnumDecl>): seq<EnumDecl> {
    if es == [] then [] else [RewriteEnum(t, Qualify(parent, es[0].name), es[0])] + RewriteEnums(t, parent, es[1..])
  }

  /** `rewrite_message`. */
  function RewriteMessage(t: Table, syntax: string, full: string, m: Message): Outcome<Message>
    decreases m, 1
  {
    var r := RemoveSynthetic(m);
    if r.Err? then Failed(FlattenError(full, r.error))
    else
      var nested := RewriteMessages(t, syntax, full, m.nested);
      if nested.Failed? then Failed(nested.error)
      else
        Done(Message(m.name, RewriteFields(t, syntax, r.value.fields), nested.value, RewriteEnums(t, full, m.enums),
                     RewriteFields(t, syntax, m.extensions), r.value.oneofs))
  }

  function RewriteMessages(t: Table, syntax: string, parent: string, ms: seq<Message>): Outcome<seq<Message>>
    decreases ms, 0
  {
    if ms == [] then Done([])
    else
      var m := RewriteMessage(t, syntax, Qualify(parent, ms[0].name), ms[0]);
      if m.Failed? then Failed(m.error)
      else
        var rest := RewriteMessages(t, syntax, parent, ms[1..]);
        if rest.Failed? then rest else Done([m.value] + rest.value)
  }

  function RewriteRpcs(t: Table, rs: seq<Rpc>): seq<Rpc> {
    if rs == [] then []
    else [Rpc(rs[0].name, RewriteTypeName(t.types, rs[0].input), RewriteTypeName(t.types, rs[0].output))]
         + RewriteRpcs(t, rs[1..])
  }

  // ---- What rewriting keeps -------------------------------------------------------------------

  /** How a field and its rewritten form are related. */
  predicate Match(t: Table, syntax: string, a: Field, b: Field) {
    && b.repeated == a.repeated && b.kind == a.kind
    && b.typeName == RewriteTypeName(t.types, a.typeName)
    && b.extendee == RewriteTypeName(t.types, a.extendee)
    && b.defaultValue == RewriteDefault(t, a)
    && b.jsonName == (if a.extendee != "" then None else a.jsonName)
    && b.options == (if EffectivePacked(syntax, a) then Some(FieldOptions(Some(true), "")) else None)
    && EffectivePacked("proto2", b) == EffectivePacked(syntax, a)
  }

  ghost predicate AllMatch(t: Table, syntax: string, xs: seq<Field>, ys: seq<Field>) {
    |xs| == |ys| && forall k :: 0 <= k < |xs| ==> Match(t, syntax, xs[k], ys[k])
  }

  lemma AllMatchAppend(t: Table, syntax: string, a: seq<Field>, x: seq<Field>, b: seq<Field>, y: seq<Field>)
    requires AllMatch(t, syntax, a, x) && AllMatch(t, syntax, b, y)
    ensures AllMatch(t, syntax, a + b, x + y)
  {
    hide Match;
    forall k | 0 <= k < |a + b| ensures Match(t, syntax, (a + b)[k], (x + y)[k]) {
      if k >= |a| { assert Match(t, syntax, b[k - |a|], y[k - |a|]); }
    }
  }

  /** Oneof bookkeeping does not matter for the match. */
  lemma RewrittenMatches(t: Table, syntax: string, f: Field, g: Field)
    requires OnlyOneof(f, g)
    ensures Match(t, syntax, f, RewriteField(t, syntax, g))
  {
    hide RewriteTypeName, RewriteValue;
  }

  lemma {:induction false} FieldsMatch(t: Table, syntax: string, fs: seq<Field>, gs: seq<Field>)
    requires |fs| == |gs| && forall k :: 0 <= k < |fs| ==> OnlyOneof(fs[k], gs[k])
    ensures AllMatch(t, syntax, fs, RewriteFields(t, syntax, gs))
    decreases |fs|
  {
    hide Match, RewriteField, OnlyOneof;
    if fs != [] {
      RewrittenMatches(t, syntax, fs[0], gs[0]);
      FieldsMatch(t, syntax, fs[1..], gs[1..]);
      AllMatchAppend(t, syntax, [fs[0]], [RewriteField(t, syntax, gs[0])], fs[1..], RewriteFields(t, syntax, gs[1..]));
      assert [fs[0]] + fs[1..] == fs;
    }
  }

  /** Every field of a message: its own, its extensions, and those of nested messages. */
  function MessageFields(m: Message): seq<Field>
    decreases m, 1
  {
    m.fields + m.extensions + FieldsOf(m.nested)
  }

  function FieldsOf(ms: seq<Message>): seq<Field>
    decreases ms, 0
  {
    if ms == [] then [] else MessageFields(ms[0]) + FieldsOf(ms[1..])
  }

  lemma {:induction false} MessageMatches(t: Table, syntax: string, full: string, m: Message)
    requires RewriteMessage(t, syntax, full, m).Done?
    ensures var r := RewriteMessage(t, syntax, full, m).value;
            AllMatch(t, syntax, MessageFields(m), MessageFields(r)) && Rels(r) == Rels(m) && r.name == m.name
    decreases m, 1
  {
    hide Match, OnlyOneof, RemoveSynthetic;
    var s, r := RemoveSynthetic(m).value, RewriteMessage(t, syntax, full, m).value;
    OnlyOneofsChange(m);
    FieldsMatch(t, syntax, m.fields, s.fields);
    SameFieldsMatch(t, syntax, m.extensions);
    MessagesMatch(t, syntax, full, m.nested);
    AllMatchAppend(t, syntax, m.fields, r.fields, m.extensions, r.extensions);
    AllMatchAppend(t, syntax, m.fields + m.extensions, r.fields + r.extensions, FieldsOf(m.nested), FieldsOf(r.nested));
    EnumRelsKept(t, full, m.enums);
  }

  lemma SameFieldsMatch(t: Table, syntax: string, fs: seq<Field>)
    ensures AllMatch(t, syntax, fs, RewriteFields(t, syntax, fs))
  {
    FieldsMatch(t, syntax, fs, fs);
  }

  lemma {:induction false} EnumRelsKept(t: Table, parent: string, es: seq<EnumDecl>)
    ensures EnumRels(RewriteEnums(t, parent, es)) == EnumRels(es)
    decreases |es|
  {
    hide RewriteValues;
    if es != [] { EnumRelsKept(t, parent, es[1..]); }
  }

  lemma {:induction false} MessagesMatch(t: Table, syntax: string, parent: string, ms: seq<Message>)
    requires RewriteMessages(t, syntax, parent, ms).Done?
    ensures var rs := RewriteMessages(t, syntax, parent, ms).value;
            |rs| == |ms| && AllMatch(t, syntax, FieldsOf(ms), FieldsOf(rs)) && MessageRels(rs) == MessageRels(ms)
    decreases ms, 0
  {
    if ms != [] {
      hide Match, RewriteMessage, MessageFields, EnumRels;
      var rs := RewriteMessages(t, syntax, parent, ms).value;
      MessageMatches(t, syntax, Qualify(parent, ms[0].name), ms[0]);
      MessagesMatch(t, syntax, parent, ms[1..]);
      assert rs[1..] == RewriteMessages(t, syntax, parent, ms[1..]).value;
      AllMatchAppend(t, syntax, MessageFields(ms[0]), MessageFields(rs[0]), FieldsOf(ms[1..]), FieldsOf(rs[1..]));
    }
  }

  // ---- Enums and their values --------------------------------------------------------------------

  datatype FullEnum = FullEnum(full: string, values: seq<string>)

  function EnumsAt(parent: string, es: seq<EnumDecl>): seq<FullEnum> {
    if es == [] then [] else [FullEnum(Qualify(parent, es[0].name), es[0].values)] + EnumsAt(parent, es[1..])
  }

  /** Every enum declared inside a message, with its full name. */
  function MessageEnums(full: string, m: Message): seq<FullEnum>
    decreases m, 1
  {
    EnumsAt(full, m.enums) + EnumsIn(full, m.nested)
  }

  function EnumsIn(parent: string, ms: seq<Message>): seq<FullEnum>
    decreases ms, 0
  {
    if ms == [] then [] else MessageEnums(Qualify(parent, ms[0].name), ms[0]) + EnumsIn(parent, ms[1..])
  }

  /** An enum and its image: the mapped name, the rewritten values. */
  predicate EnumMatch(t: Table, a: FullEnum, b: FullEnum) {
    a.full in t.types && b.full == t.types[a.full] && b.values == RewriteValues(t.values, a.full, a.values)
  }

  ghost predicate EnumsMatch(t: Table, xs: seq<FullEnum>, ys: seq<FullEnum>) {
    |xs| == |ys| && forall k :: 0 <= k < |xs| ==> EnumMatch(t, xs[k], ys[k])
  }

  lemma EnumsMatchAppend(t: Table, a: seq<FullEnum>, x: seq<FullEnum>, b: seq<FullEnum>, y: seq<FullEnum>)
    requires EnumsMatch(t, a, x) && EnumsMatch(t, b, y)
    ensures EnumsMatch(t, a + b, x + y)
  {
    hide EnumMatch;
    forall k | 0 <= k < |a + b| ensures EnumMatch(t, (a + b)[k], (x + y)[k]) {
      if k >= |a| { assert EnumMatch(t, b[k - |a|], y[k - |a|]); }
    }
  }

  /** The declarations below `full` sit at the same places below `flat`. */
  ghost predicate Located(types: map<string, string>, full: string, flat: string, rels: seq<string>) {
    forall k :: 0 <= k < |rels| ==> full + rels[k] in types && types[full + rels[k]] == flat + rels[k]
  }

  lemma LocatedPart(types: map<string, string>, full: string, flat: string, a: seq<string>, b: seq<string>)
    requires Located(types, full, flat, a + b)
    ensures Located(types, full, flat, a) && Located(types, full, flat, b)
  {
    var s := a + b;
    forall k | 0 <= k < |a| ensures full + a[k] in types && types[full + a[k]] == flat + a[k] { assert s[k] == a[k]; }
    forall k | 0 <= k < |b| ensures full + b[k] in types && types[full + b[k]] == flat + b[k] {
      assert s[|a| + k] == b[k];
    }
  }

  lemma LocatedInside(types: map<string, string>, full: string, flat: string, p: string, rels: seq<string>)
    requires Located(types, full, flat, Prefixed(p, rels))
    ensures Located(types, full + p, flat + p, rels)
  {
    forall k | 0 <= k < |rels| ensures full + p + rels[k] in types && types[full + p + rels[k]] == flat + p + rels[k] {
      PrefixedAt(p, rels, k);
      Assoc(full, p, rels[k]);
      Assoc(flat, p, rels[k]);
    }
  }

  lemma {:induction false} EnumsAtMatch(t: Table, full: string, flat: string, es: seq<EnumDecl>)
    requires full != "" && flat != "" && NamedEnums(es) && Located(t.types, full, flat, EnumRels(es))
    ensures EnumsMatch(t, EnumsAt(full, es), EnumsAt(flat, RewriteEnums(t, full, es)))
    decreases |es|
  {
    if es != [] {
      var p, rs := "." + es[0].name, RewriteEnums(t, full, es);
      LocatedPart(t.types, full, flat, [p], EnumRels(es[1..]));
      EnumsAtMatch(t, full, flat, es[1..]);
      Assoc(full, ".", es[0].name);
      Assoc(flat, ".", es[0].name);
      assert full + [p][0] in t.types;
      var a, b := FullEnum(Qualify(full, es[0].name), es[0].values), FullEnum(Qualify(flat, rs[0].name), rs[0].values);
      assert EnumMatch(t, a, b);
      EnumsMatchAppend(t, [a], [b], EnumsAt(full, es[1..]), EnumsAt(flat, RewriteEnums(t, full, es[1..])));
    }
  }

  lemma {:induction false} MessageEnumsMatch(t: Table, syntax: string, full: string, flat: string, m: Message)
    requires full != "" && flat != "" && NamedMessages(m.nested) && NamedEnums(m.enums)
    requires Located(t.types, full, flat, Rels(m)) && RewriteMessage(t, syntax, full, m).Done?
    ensures EnumsMatch(t, MessageEnums(full, m), MessageEnums(flat, RewriteMessage(t, syntax, full, m).value))
    decreases m, 1
  {
    hide RemoveSynthetic, EnumsMatch, Located, RewriteFields;
    var r := RewriteMessage(t, syntax, full, m).value;
    LocatedPart(t.types, full, flat, MessageRels(m.nested), EnumRels(m.enums));
    EnumsAtMatch(t, full, flat, m.enums);
    EnumsInMatch(t, syntax, full, flat, m.nested);
    EnumsMatchAppend(t, EnumsAt(full, m.enums), EnumsAt(flat, r.enums), EnumsIn(full, m.nested),
        EnumsIn(flat, r.nested));
  }

  lemma {:induction false} EnumsInMatch(t: Table, syntax: string, full: string, flat: string, ms: seq<Message>)
    requires full != "" && flat != "" && NamedMessages(ms)
    requires Located(t.types, full, flat, MessageRels(ms)) && RewriteMessages(t, syntax, full, ms).Done?
    ensures EnumsMatch(t, EnumsIn(full, ms), EnumsIn(flat, RewriteMessages(t, syntax, full, ms).value))
    decreases ms, 0
  {
    if ms != [] {
      var m, p := ms[0], "." + ms[0].name;
      var rs := RewriteMessages(t, syntax, full, ms).value;
      NestedSplit(t.types, full, flat, ms);
      MessageMatches(t, syntax, Qualify(full, m.name), m);
      assert rs[1..] == RewriteMessages(t, syntax, full, ms[1..]).value;
      hide EnumsMatch, Located, RewriteMessage, MessageEnums, MessageFields, AllMatch, Rels;
      MessageEnumsMatch(t, syntax, Qualify(full, m.name), Qualify(flat, m.name), m);
      EnumsInMatch(t, syntax, full, flat, ms[1..]);
      EnumsMatchAppend(t, MessageEnums(Qualify(full, m.name), m), MessageEnums(Qualify(flat, m.name), rs[0]),
                       EnumsIn(full, ms[1..]), EnumsIn(flat, rs[1..]));
    }
  }

  lemma NestedSplit(types: map<string, string>, full: string, flat: string, ms: seq<Message>)
    requires full != "" && flat != "" && NamedMessages(ms) && ms != [] && Located(types, full, flat, MessageRels(ms))
    ensures Located(types, Qualify(full, ms[0].name), Qualify(flat, ms[0].name), Rels(ms[0]))
    ensures Located(types, full, flat, MessageRels(ms[1..])) && NamedMessages(ms[1..])
    ensures Plain(ms[0].name) && NamedMessages(ms[0].nested) && NamedEnums(ms[0].enums)
  {
    var m, p := ms[0], "." + ms[0].name;
    LocatedPart(types, full, flat, [p] + Prefixed(p, Rels(m)), MessageRels(ms[1..]));
    LocatedPart(types, full, flat, [p], Prefixed(p, Rels(m)));
    LocatedInside(types, full, flat, p, Rels(m));
    Assoc(full, ".", m.name);
    Assoc(flat, ".", m.name);
  }
}
