/**
 Recursive redaction (`sanitize_value` of sanitize.rs): the attachment store, the walk
 that replaces secrets and inline images, what it does to every node of a tree, and why
 skipping it on a payload the prescreen calls clean changes nothing.
 */
module Sanitize {
  import opened Common
  import opened Decimal
  import opened JsonGrammar
  import opened JsonScanner
  import opened JsonTree
  import opened JsonEscape
  import opened JsonValue
  import opened JsonMeaning
  import opened Prescreen

  // ---- Environment and attachment store ------------------------------------------

  /** The library calls: key normalisation, base64, SHA-256 in hex, and JSON parsing. */
  datatype Env = Env(
    normalize: bytes -> bytes,
    decode64: bytes -> Option<bytes>,
    sha256: bytes -> bytes,
    parse: bytes -> Option<JVal>)

  /** References already written, by hash, and the number of files written. */
  datatype Store = Store(byHash: map<bytes, bytes>, count: nat)

  function ImageExtension(mime: bytes): bytes {
    if mime == "image/jpeg" then ".jpg" else if mime == "image/png" then ".png"
    else if mime == "image/gif" then ".gif" else if mime == "image/webp" then ".webp" else ".bin"
  }

  /** `{:03}`. */
  function Padded(n: nat): bytes {
    var t := NatText(n);
    if |t| == 1 then "00" + t else if |t| == 2 then "0" + t else t
  }

  /** The file of the n-th attachment of a request. */
  function AttachmentName(n: nat, mime: bytes): bytes {
    "attachments/image-" + Padded(n) + ImageExtension(mime)
  }

  function Reference(count: nat, mime: bytes, size: nat, hash: bytes): bytes {
    "{\"file\":" + Escaped(AttachmentName(count, mime))
    + ",\"mime_type\":" + Escaped(mime) + ",\"size\":" + NatText(size) + ",\"sha256\":" + Escaped(hash) + "}"
  }

  function WriteAttachment(env: Env, st: Store, data: bytes, mime: bytes): (bytes, Store) {
    var hash := env.sha256(data);
    if hash in st.byHash then (st.byHash[hash], st)
    else
      var reference := Reference(st.count + 1, mime, |data|, hash);
      (reference, Store(st.byHash[hash := reference], st.count + 1))
  }

  // ---- Sensitive keys ---------------------------------------------------------------

  predicate SecretKey(env: Env, key: bytes) {
    env.normalize(key) in SECRET_KEY_NAMES
  }

  predicate MetadataSecretKey(env: Env, key: bytes) {
    env.normalize(key) in METADATA_SECRET_KEY_NAMES
  }

  predicate IsMetadataKey(env: Env, key: bytes) {
    env.normalize(key) == "metadata"
  }

  predicate Sensitive(env: Env, key: bytes, scope: bool) {
    SecretKey(env, key) || (scope && MetadataSecretKey(env, key))
  }

  const MARKER: JVal := Str("<redacted>")

  function Redact(env: Env, members: seq<Entry>, scope: bool): (r: seq<Entry>)
    ensures |r| == |members|
    ensures forall i :: 0 <= i < |r| ==> r[i] == Entry(members[i].key,
                                                       if Sensitive(env, members[i].key, scope) then MARKER
                                                           else members[i].value)
  {
    seq(|members|, i requires 0 <= i < |members| =>
      Entry(members[i].key, if Sensitive(env, members[i].key, scope) then MARKER else members[i].value))
  }

  // ---- Images ----------------------------------------------------------------------

  predicate StartsWith(s: bytes, p: bytes) {
    p <= s
  }

  predicate EndsWith(s: bytes, p: bytes) {
    |p| <= |s| && s[|s| - |p|..] == p
  }

  /** The string stored under `key`, if any. */
  function Lookup(members: seq<Entry>, key: bytes): Option<bytes> {
    if members == [] then None
    else if members[0].key == key then if members[0].value.Str? then Some(members[0].value.s) else None
    else Lookup(members[1..], key)
  }

  /** The first of `keys` that names a string. */
  function StringField(members: seq<Entry>, keys: seq<bytes>): Option<bytes> {
    if keys == [] then None
    else if Lookup(members, keys[0]).Some? then Lookup(members, keys[0])
    else StringField(members, keys[1..])
  }

  const MIME_KEYS: seq<bytes> := ["mime_type", "mimeType", "MIMEType"]
  const DATA_KEYS: seq<bytes> := ["data", "base64_data", "base64Data", "Data"]

  /** Decoded data and MIME type of an object that is an inline image. */
  function ObjectImage(env: Env, members: seq<Entry>): Option<(bytes, bytes)> {
    var mime, text := StringField(members, MIME_KEYS), StringField(members, DATA_KEYS);
    if mime.None? || text.None? || !StartsWith(mime.value, "image/") || text.value == [] then None
    else match env.decode64(text.value)
      case None => None
      case Some(data) => Some((data, mime.value))
  }

  /** Decoded data and MIME type of a `data:image/...;base64,` string. */
  function TextImage(env: Env, s: bytes): Option<(bytes, bytes)> {
    var n := IndexOf(s, ',');
    if !StartsWith(s, "data:image/") || n == |s| then None
    else
      var header := s[..n];
      if !EndsWith(header, ";base64") || |header| < 12 then None
      else match env.decode64(s[n + 1..])
        case None => None
        case Some(data) => Some((data, header[5..n - 7]))
  }

  /** A string is an inline image exactly when it is written `data:<mime>;base64,<text>` and the text decodes. */
  lemma TextImageIs(env: Env, s: bytes, data: bytes, mime: bytes)
    ensures TextImage(env, s) == Some((data, mime)) <==>
            StartsWith(mime, "image/") && ',' !in mime
            && exists text :: s == "data:" + mime + ";base64," + text && env.decode64(text) == Some(data)
  {
    if TextImage(env, s) == Some((data, mime)) {
      var n := IndexOf(s, ',');
      var text := s[n + 1..];
      IndexOfFirst(s, ',');
      assert s == s[..n] + [s[n]] + text;
      HeaderSplit(s[..n]);
      assert s == "data:" + mime + ";base64," + text;
      assert forall k :: 0 <= k < |mime| ==> mime[k] == s[..n][k + 5];
    }
    forall text | StartsWith(mime, "image/") && ',' !in mime && s == "data:" + mime + ";base64," + text
        && env.decode64(text) == Some(data)
      ensures TextImage(env, s) == Some((data, mime))
    {
      ImageFound(env, s, mime, text);
    }
  }

  /** A header that starts like a data URL and ends like base64 has its MIME type in between. */
  lemma HeaderSplit(h: bytes)
    requires StartsWith(h, "data:image/") && EndsWith(h, ";base64")
    ensures |h| >= 18 && h == "data:" + h[5..|h| - 7] + ";base64" && StartsWith(h[5..|h| - 7], "image/")
  {
    var p, q := "data:image/", ";base64";
    assert h[..11] == p && h[|h| - 7..] == q;
    assert h[|h| - 7] == ';';
    assert h == h[..5] + h[5..|h| - 7] + h[|h| - 7..];
    assert h[..5] == "data:" by { assert h[..5] == p[..5]; }
    assert h[5..|h| - 7][..6] == p[5..11];
    assert p[5..11] == "image/";
  }

  lemma ImageFound(env: Env, s: bytes, mime: bytes, text: bytes)
    requires StartsWith(mime, "image/") && ',' !in mime && s == "data:" + mime + ";base64," + text
    ensures TextImage(env, s) == if env.decode64(text).None? then None else Some((env.decode64(text).value, mime))
  {
    var h := "data:" + mime + ";base64";
    var n := |h|;
    assert s == h + "," + text && s[n] == ',';
    assert s[..n] == h && s[n + 1..] == text;
    forall k | 0 <= k < n ensures h[k] != ',' {
      if 5 <= k < 5 + |mime| { assert h[k] == mime[k - 5]; }
    }
    IndexOfIs(s, ',', n);
    assert h[5..n - 7] == mime;
    assert h[n - 7..] == ";base64";
    assert mime[..6] == "image/";
    assert s[..11] == "data:" + mime[..6];
  }

  // ---- The walk ---------------------------------------------------------------------

  predicate NoRaw(v: JVal) {
    match v
    case List(items) => forall i :: 0 <= i < |items| ==> NoRaw(items[i])
    case Map(members) => forall i :: 0 <= i < |members| ==> NoRaw(members[i].value)
    case Raw(_) => false
    case _ => true
  }

  /** Parsing yields plain trees. */
  ghost predicate ParsesPlain(env: Env) {
    forall raw :: env.parse(raw).Some? ==> NoRaw(env.parse(raw).value)
  }

  function Attach(env: Env, st: Store, image: (bytes, bytes)): (JVal, Store) {
    var (reference, st') := WriteAttachment(env, st, image.0, image.1);
    (Raw(reference), st')
  }

  /** The redacted tree and the store after the walk. A redaction marker is never walked further. */
  function Sanitized(env: Env, v: JVal, scope: bool, st: Store): (JVal, Store)
    requires ParsesPlain(env)
    decreases !NoRaw(v), v, 1, 0
  {
    match v
    case List(items) => var (r, st') := SanitizedItems(env, v, 0, scope, st); (List(r), st')
    case Map(members) =>
      var image := ObjectImage(env, Redact(env, members, scope));
      if image.Some? then Attach(env, st, image.value)
      else var (r, st') := SanitizedMembers(env, v, 0, scope, st); (Map(r), st')
    case Str(s) => if TextImage(env, s).Some? then Attach(env, st, TextImage(env, s).value) else (v, st)
    case Raw(raw) =>
      if !NeedsSanitize(raw) || env.parse(raw).None? then (v, st)
      else Sanitized(env, env.parse(raw).value, false, st)
    case _ => (v, st)
  }

  function SanitizedItems(env: Env, v: JVal, i: nat, scope: bool, st: Store): (r: (seq<JVal>, Store))
    requires ParsesPlain(env) && v.List? && i <= |v.items|
    ensures |r.0| == |v.items| - i
    decreases !NoRaw(v), v, 0, |v.items| - i
  {
    if i == |v.items| then ([], st)
    else
      var (x, st1) := Sanitized(env, v.items[i], scope, st);
      var (rest, st2) := SanitizedItems(env, v, i + 1, scope, st1);
      ([x] + rest, st2)
  }

  function SanitizedMembers(env: Env, v: JVal, i: nat, scope: bool, st: Store): (r: (seq<Entry>, Store))
    requires ParsesPlain(env) && v.Map? && i <= |v.members|
    ensures |r.0| == |v.members| - i
    decreases !NoRaw(v), v, 0, |v.members| - i
  {
    if i == |v.members| then ([], st)
    else
      var (x, st1) := SanitizedMember(env, v, i, scope, st);
      var (rest, st2) := SanitizedMembers(env, v, i + 1, scope, st1);
      ([Entry(v.members[i].key, x)] + rest, st2)
  }

  function SanitizedMember(env: Env, v: JVal, i: nat, scope: bool, st: Store): (JVal, Store)
    requires ParsesPlain(env) && v.Map? && i < |v.members|
    decreases !NoRaw(v), v, 0, 0
  {
    var key := v.members[i].key;
    if Sensitive(env, key, scope) then (MARKER, st)
    else Sanitized(env, v.members[i].value, scope || IsMetadataKey(env, key), st)
  }

  lemma MapUnreplaced(env: Env, v: JVal, scope: bool, st: Store)
    requires ParsesPlain(env) && v.Map? && ObjectImage(env, Redact(env, v.members, scope)).None?
    ensures var r := SanitizedMembers(env, v, 0, scope, st); Sanitized(env, v, scope, st) == (Map(r.0), r.1)
  {
  }

  lemma MembersStep(env: Env, v: JVal, i: nat, scope: bool, st: Store)
    requires ParsesPlain(env) && v.Map? && i < |v.members|
    ensures var m := SanitizedMember(env, v, i, scope, st);
            var rest := SanitizedMembers(env, v, i + 1, scope, m.1);
            SanitizedMembers(env, v, i, scope, st) == ([Entry(v.members[i].key, m.0)] + rest.0, rest.1)
  {
  }

  lemma MembersEnd(env: Env, v: JVal, scope: bool)
    requires ParsesPlain(env) && v.Map?
    ensures forall st :: SanitizedMembers(env, v, |v.members|, scope, st) == ([], st)
  {
  }

  /** The sanitizer of one request: it owns the attachment store. */
  class Sanitizer {
    var byHash: map<bytes, bytes>
    var count: nat

    constructor ()
      ensures Contents() == Store(map[], 0)
    {
      byHash, count := map[], 0;
    }

    function Contents(): Store
      reads this
    {
      Store(byHash, count)
    }

    method Write(env: Env, data: bytes, mime: bytes) returns (reference: bytes)
      modifies this
      ensures (reference, Contents()) == WriteAttachment(env, old(Contents()), data, mime)
    {
      var hash := env.sha256(data);
      if hash in byHash { return byHash[hash]; }
      count := count + 1;
      reference := Reference(count, mime, |data|, hash);
      byHash := byHash[hash := reference];
    }

    method SanitizeValue(env: Env, v: JVal, scope: bool) returns (r: JVal)
      requires ParsesPlain(env)
      modifies this
      ensures (r, Contents()) == Sanitized(env, v, scope, old(Contents()))
      decreases !NoRaw(v), v, 1
    {
      r := v;
      match v {
        case List(items) =>
          r := SanitizeItems(env, v, scope);
        case Map(members) =>
          var image := ObjectImage(env, Redact(env, members, scope));
          if image.Some? {
            var reference := Write(env, image.value.0, image.value.1);
            r := Raw(reference);
          } else {
            r := SanitizeMembers(env, v, scope);
          }
        case Str(s) =>
          var image := TextImage(env, s);
          if image.Some? {
            var reference := Write(env, image.value.0, image.value.1);
            r := Raw(reference);
          }
        case Raw(raw) =>
          var needs := RawNeedsSanitize(raw);
          if needs && env.parse(raw).Some? {
            r := SanitizeValue(env, env.parse(raw).value, false);
          }
        case _ =>
      }
    }

    method SanitizeItems(env: Env, v: JVal, scope: bool) returns (r: JVal)
      requires ParsesPlain(env) && v.List?
      modifies this
      ensures (r, Contents()) == Sanitized(env, v, scope, old(Contents()))
      decreases !NoRaw(v), v, 0
    {
      var done: seq<JVal> := [];
      ghost var whole := SanitizedItems(env, v, 0, scope, Contents());
      for i := 0 to |v.items|
        invariant whole.0 == done + SanitizedItems(env, v, i, scope, Contents()).0
        invariant whole.1 == SanitizedItems(env, v, i, scope, Contents()).1
      {
        ghost var st := Contents();
        var x := SanitizeValue(env, v.items[i], scope);
        assert SanitizedItems(env, v, i, scope, st).0 == [x] + SanitizedItems(env, v, i + 1, scope, Contents()).0;
        done := done + [x];
      }
      assert done + [] == done;
      r := List(done);
    }

    method SanitizeMembers(env: Env, v: JVal, scope: bool) returns (r: JVal)
      requires ParsesPlain(env) && v.Map? && ObjectImage(env, Redact(env, v.members, scope)).None?
      modifies this
      ensures (r, Contents()) == Sanitized(env, v, scope, old(Contents()))
      decreases !NoRaw(v), v, 0
    {
      hide Sanitized, SanitizedMembers, ObjectImage, Redact, SecretKey, MetadataSecretKey;
      MapUnreplaced(env, v, scope, Contents());
      MembersEnd(env, v, scope);
      var done: seq<Entry> := [];
      ghost var whole := SanitizedMembers(env, v, 0, scope, Contents());
      for i := 0 to |v.members|
        invariant whole.0 == done + SanitizedMembers(env, v, i, scope, Contents()).0
        invariant whole.1 == SanitizedMembers(env, v, i, scope, Contents()).1
      {
        ghost var st := Contents();
        var key, x := v.members[i].key, MARKER;
        if !Sensitive(env, key, scope) {
          x := SanitizeValue(env, v.members[i].value, scope || IsMetadataKey(env, key));
        }
        MembersStep(env, v, i, scope, st);
        done := done + [Entry(key, x)];
      }
      assert done + [] == done;
      r := Map(done);
    }
  }

  // ---- What the walk does to every node -----------------------------------------------

  /** The node reached by child indices from `v`. */
  function At(v: JVal, path: seq<nat>): Option<JVal>
    decreases |path|
  {
    if path == [] then Some(v)
    else if v.List? && path[0] < |v.items| then At(v.items[path[0]], path[1..])
    else if v.Map? && path[0] < |v.members| then At(v.members[path[0]].value, path[1..])
    else None
  }

  /** `v` is replaced by an attachment reference. */
  predicate Replaced(env: Env, v: JVal, scope: bool) {
    (v.Map? && ObjectImage(env, Redact(env, v.members, scope)).Some?) || (v.Str? && TextImage(env, v.s).Some?)
  }

  /** Some key on the way down, `path`'s last node excluded, opens a metadata scope. */
  function ScopeAt(env: Env, v: JVal, path: seq<nat>, scope: bool): bool
    requires At(v, path).Some?
    decreases |path|
  {
    if path == [] then scope
    else if v.List? then ScopeAt(env, v.items[path[0]], path[1..], scope)
    else ScopeAt(env, v.members[path[0]].value, path[1..], scope || IsMetadataKey(env, v.members[path[0]].key))
  }

  /** The step out of the k-th node of the path goes through a key that normalises to `metadata`. */
  predicate MetadataStep(env: Env, v: JVal, path: seq<nat>, k: nat)
    requires k < |path|
  {
    At(v, path[..k]).Some? && At(v, path[..k]).value.Map? && path[k] < |At(v, path[..k]).value.members|
    && env.normalize(At(v, path[..k]).value.members[path[k]].key) == "metadata"
  }

  /** A node is in a metadata scope exactly when the walk started in one or some key above it is `metadata`. */
  lemma {:induction false} ScopeIs(env: Env, v: JVal, path: seq<nat>, scope: bool)
    requires At(v, path).Some?
    ensures ScopeAt(env, v, path, scope) <==> scope || exists k :: 0 <= k < |path| && MetadataStep(env, v, path, k)
    decreases |path|
  {
    if path != [] {
      var c, tail := Child(v, path[0]), path[1..];
      assert path[..0] == [];
      ScopeIs(env, c, tail, ChildScope(env, v, path[0], scope));
      forall k | 0 <= k < |tail| ensures MetadataStep(env, v, path, k + 1) <==> MetadataStep(env, c, tail, k) {
        assert path[..k + 1][1..] == tail[..k];
      }
      if exists k :: 0 <= k < |path| && MetadataStep(env, v, path, k) {
        var k :| 0 <= k < |path| && MetadataStep(env, v, path, k);
        if k > 0 { assert MetadataStep(env, c, tail, k - 1); }
      }
      if exists k :: 0 <= k < |tail| && MetadataStep(env, c, tail, k) {
        var k :| 0 <= k < |tail| && MetadataStep(env, c, tail, k);
        assert MetadataStep(env, v, path, k + 1);
      }
      assert MetadataStep(env, v, path, 0) <==> v.Map? && IsMetadataKey(env, v.members[path[0]].key);
    }
  }

  /** The step from `v` goes through a sensitive key. */
  predicate SensitiveStep(env: Env, v: JVal, i: nat, scope: bool) {
    v.Map? && i < |v.members| && Sensitive(env, v.members[i].key, scope)
  }

  /** The parent of the last node of `path` is an object and the last key is sensitive in its scope. */
  predicate SensitiveAt(env: Env, v: JVal, path: seq<nat>, scope: bool)
    requires At(v, path).Some?
  {
    path != [] &&
    At(v, path[..|path| - 1]).Some? &&
    SensitiveStep(env, At(v, path[..|path| - 1]).value, path[|path| - 1], ScopeAt(env, v, path[..|path| - 1], scope))
  }

  /** No proper ancestor on the way was replaced as an image or cut off by redaction. */
  predicate Kept(env: Env, v: JVal, path: seq<nat>, scope: bool)
    requires At(v, path).Some?
  {
    forall k :: 0 <= k < |path| ==>
      At(v, path[..k]).Some? &&
      !Replaced(env, At(v, path[..k]).value, ScopeAt(env, v, path[..k], scope)) &&
      !SensitiveAt(env, v, path[..k], scope)
  }

  /** Same kind, same number of children, same keys; equal when without children. */
  predicate SameShape(a: JVal, b: JVal) {
    match a
    case List(items) => b.List? && |b.items| == |items|
    case Map(members) => b.Map? && |b.members| == |members|
                         && forall i :: 0 <= i < |members| ==> b.members[i].key == members[i].key
    case _ => a == b
  }

  lemma {:induction false} ItemAt(env: Env, v: JVal, i: nat, j: nat, scope: bool, st: Store) returns (st': Store)
    requires ParsesPlain(env) && v.List? && i <= j < |v.items|
    ensures SanitizedItems(env, v, i, scope, st).0[j - i] == Sanitized(env, v.items[j], scope, st').0
    decreases j - i
  {
    if i == j {
      st' := st;
    } else {
      st' := ItemAt(env, v, i + 1, j, scope, Sanitized(env, v.items[i], scope, st).1);
    }
  }

  lemma {:induction false} MemberAt(env: Env, v: JVal, i: nat, j: nat, scope: bool, st: Store) returns (st': Store)
    requires ParsesPlain(env) && v.Map? && i <= j < |v.members|
    ensures SanitizedMembers(env, v, i, scope, st).0[j - i]
            == Entry(v.members[j].key, SanitizedMember(env, v, j, scope, st').0)
    decreases j - i
  {
    if i == j {
      st' := st;
    } else {
      st' := MemberAt(env, v, i + 1, j, scope, SanitizedMember(env, v, i, scope, st).1);
    }
  }

  /** A raw payload that is parsed and walked: the prescreen flags it and it is a JSON text. */
  predicate Walked(env: Env, v: JVal) {
    v.Raw? && NeedsSanitize(v.raw) && env.parse(v.raw).Some?
  }

  lemma NodeShape(env: Env, v: JVal, scope: bool, st: Store)
    requires ParsesPlain(env) && !Walked(env, v)
    ensures var r := Sanitized(env, v, scope, st).0; if Replaced(env, v, scope) then r.Raw? else SameShape(v, r)
  {
    if v.Map? && !Replaced(env, v, scope) {
      var r := Sanitized(env, v, scope, st).0;
      forall j | 0 <= j < |v.members| ensures r.members[j].key == v.members[j].key {
        var st' := MemberAt(env, v, 0, j, scope, st);
      }
    }
  }

  lemma KeptTop(env: Env, v: JVal, path: seq<nat>, scope: bool)
    requires path != [] && At(v, path).Some? && Kept(env, v, path, scope)
    ensures !Replaced(env, v, scope)
  {
    assert path[..0] == [];
  }

  /**
   Redaction: at every path whose proper ancestors survive, the walk leaves the marker under
   a sensitive key, a reference in place of an image, and otherwise a node of the same shape.
   A raw payload stays as it is unless it is walked itself.
   */
  lemma {:induction false} Redaction(env: Env, v: JVal, path: seq<nat>, scope: bool, st: Store)
    requires ParsesPlain(env) && At(v, path).Some? && Kept(env, v, path, scope)
    requires SensitiveAt(env, v, path, scope) || !Walked(env, At(v, path).value)
    ensures var r := Sanitized(env, v, scope, st).0;
            var x, s := At(v, path).value, ScopeAt(env, v, path, scope);
            At(r, path).Some?
            && (SensitiveAt(env, v, path, scope) ==> At(r, path).value == MARKER)
            && (!SensitiveAt(env, v, path, scope) && Replaced(env, x, s) ==> At(r, path).value.Raw?)
            && (!SensitiveAt(env, v, path, scope) && !Replaced(env, x, s) ==> SameShape(x, At(r, path).value))
    decreases |path|
  {
    hide NeedsSanitize, TextImage, ObjectImage, Sensitive, WriteAttachment, Redact, SameShape, Kept, Walked;
    if path == [] {
      NodeShape(env, v, scope, st);
    } else {
      var i, tail := path[0], path[1..];
      KeptTop(env, v, path, scope);
      assert At(v, path) == At(Child(v, i), tail);
      if SensitiveStep(env, v, i, scope) {
        SensitiveCut(env, v, path, scope);
        var st' := MemberAt(env, v, 0, i, scope, st);
      } else {
        KeptTail(env, v, path, scope);
        var st' := if v.List? then ItemAtOf(env, v, i, scope, st) else MemberAtOf(env, v, i, scope, st);
        Redaction(env, Child(v, i), tail, ChildScope(env, v, i, scope), st');
      }
    }
  }

  function Child(v: JVal, i: nat): JVal
    requires (v.List? && i < |v.items|) || (v.Map? && i < |v.members|)
  {
    if v.List? then v.items[i] else v.members[i].value
  }

  function ChildScope(env: Env, v: JVal, i: nat, scope: bool): bool
    requires (v.List? && i < |v.items|) || (v.Map? && i < |v.members|)
  {
    if v.List? then scope else scope || IsMetadataKey(env, v.members[i].key)
  }

  ghost function ItemAtOf(env: Env, v: JVal, i: nat, scope: bool, st: Store): (st': Store)
    requires ParsesPlain(env) && v.List? && i < |v.items|
    ensures Sanitized(env, v, scope, st).0.items[i] == Sanitized(env, v.items[i], scope, st').0
  {
    ItemExists(env, v, i, scope, st);
    var st' :| Sanitized(env, v, scope, st).0.items[i] == Sanitized(env, v.items[i], scope, st').0;
    st'
  }

  lemma ItemExists(env: Env, v: JVal, i: nat, scope: bool, st: Store)
    requires ParsesPlain(env) && v.List? && i < |v.items|
    ensures exists st' :: Sanitized(env, v, scope, st).0.items[i] == Sanitized(env, v.items[i], scope, st').0
  {
    var st' := ItemAt(env, v, 0, i, scope, st);
    assert Sanitized(env, v, scope, st).0.items[i] == Sanitized(env, v.items[i], scope, st').0;
  }

  ghost function MemberAtOf(env: Env, v: JVal, i: nat, scope: bool, st: Store): (st': Store)
    requires ParsesPlain(env) && v.Map? && i < |v.members| && !Replaced(env, v, scope)
    requires !Sensitive(env, v.members[i].key, scope)
    ensures Sanitized(env, v, scope, st).0.members[i].value
            == Sanitized(env, v.members[i].value, ChildScope(env, v, i, scope), st').0
  {
    MemberExists(env, v, i, scope, st);
    var st' :| Sanitized(env, v, scope, st).0.members[i].value
               == Sanitized(env, v.members[i].value, ChildScope(env, v, i, scope), st').0;
    st'
  }

  lemma MemberExists(env: Env, v: JVal, i: nat, scope: bool, st: Store)
    requires ParsesPlain(env) && v.Map? && i < |v.members| && !Replaced(env, v, scope)
    requires !Sensitive(env, v.members[i].key, scope)
    ensures exists st' :: Sanitized(env, v, scope, st).0.members[i].value
                          == Sanitized(env, v.members[i].value, ChildScope(env, v, i, scope), st').0
  {
    var st' := MemberAt(env, v, 0, i, scope, st);
    assert Sanitized(env, v, scope, st).0.members[i].value
           == Sanitized(env, v.members[i].value, ChildScope(env, v, i, scope), st').0;
  }

  /** Nothing below a redacted member is kept: the path ends there. */
  lemma SensitiveCut(env: Env, v: JVal, path: seq<nat>, scope: bool)
    requires path != [] && At(v, path).Some? && Kept(env, v, path, scope) && SensitiveStep(env, v, path[0], scope)
    ensures |path| == 1 && SensitiveAt(env, v, path, scope)
  {
    FirstSensitive(env, v, path, scope);
    assert |path| == 1;
    assert path[..1] == path;
  }

  lemma FirstSensitive(env: Env, v: JVal, path: seq<nat>, scope: bool)
    requires path != [] && At(v, path).Some? && SensitiveStep(env, v, path[0], scope)
    ensures At(v, path[..1]).Some? && SensitiveAt(env, v, path[..1], scope)
  {
    var p := path[..1];
    assert p[..|p| - 1] == [] && p[0] == path[0] && p[1..] == [];
  }

  /** The conditions on a path carry over to the child it goes through. */
  lemma KeptTail(env: Env, v: JVal, path: seq<nat>, scope: bool)
    requires path != [] && At(v, path).Some? && Kept(env, v, path, scope) && !SensitiveStep(env, v, path[0], scope)
    ensures var c, s := Child(v, path[0]), ChildScope(env, v, path[0], scope);
            Kept(env, c, path[1..], s)
            && ScopeAt(env, c, path[1..], s) == ScopeAt(env, v, path, scope)
            && SensitiveAt(env, c, path[1..], s) == SensitiveAt(env, v, path, scope)
  {
    var c, s, tail := Child(v, path[0]), ChildScope(env, v, path[0], scope), path[1..];
    SensitiveTail(env, v, path, scope);
    forall k | 0 <= k < |tail|
      ensures At(c, tail[..k]).Some?
              && !Replaced(env, At(c, tail[..k]).value, ScopeAt(env, c, tail[..k], s))
              && !SensitiveAt(env, c, tail[..k], s)
    {
      var p := path[..k + 1];
      assert At(v, p).Some? && !SensitiveAt(env, v, p, scope);
      assert p[1..] == tail[..k] && p[0] == path[0];
      SensitiveTail(env, v, p, scope);
    }
  }

  lemma SensitiveTail(env: Env, v: JVal, path: seq<nat>, scope: bool)
    requires path != [] && At(v, path).Some? && !SensitiveStep(env, v, path[0], scope)
    ensures SensitiveAt(env, Child(v, path[0]), path[1..], ChildScope(env, v, path[0], scope))
            == SensitiveAt(env, v, path, scope)
  {
    var tail := path[1..];
    if tail == [] {
      assert path[..|path| - 1] == [];
    } else {
      var p := path[..|path| - 1];
      assert p[1..] == tail[..|tail| - 1] && p[0] == path[0];
    }
  }

  // ---- The prescreen is a sound fast path ------------------------------------------------

  predicate Ascii(s: bytes) {
    forall i :: 0 <= i < |s| ==> s[i] < '\U{80}'
  }

  /** On ASCII keys the Unicode normalisation is the ASCII one. */
  ghost predicate NormalizesAscii(env: Env) {
    forall key :: Ascii(key) ==> env.normalize(key) == Normalized(key)
  }

  /** Nothing in the tree is sensitive in any scope, and no text announces an image. */
  predicate Clean(env: Env, v: JVal) {
    match v
    case Str(s) => !StartsWith(s, "data:image/") && !StartsWith(s, "image/")
    case List(items) => forall i :: 0 <= i < |items| ==> Clean(env, items[i])
    case Map(members) => forall i :: 0 <= i < |members| ==> CleanEntry(env, members[i])
    case Raw(_) => false
    case _ => true
  }

  predicate CleanEntry(env: Env, e: Entry) {
    !SecretKey(env, e.key) && !MetadataSecretKey(env, e.key) && Clean(env, e.value)
  }

  lemma {:induction false} LookupClean(env: Env, members: seq<Entry>, key: bytes)
    requires forall i :: 0 <= i < |members| ==> CleanEntry(env, members[i])
    ensures Lookup(members, key).Some? ==> !StartsWith(Lookup(members, key).value, "image/")
    decreases |members|
  {
    if members != [] {
      assert CleanEntry(env, members[0]) && Clean(env, members[0].value);
      LookupClean(env, members[1..], key);
    }
  }

  lemma {:induction false} FieldClean(env: Env, members: seq<Entry>, keys: seq<bytes>)
    requires forall i :: 0 <= i < |members| ==> CleanEntry(env, members[i])
    ensures StringField(members, keys).Some? ==> !StartsWith(StringField(members, keys).value, "image/")
    decreases |keys|
  {
    if keys != [] {
      LookupClean(env, members, keys[0]);
      FieldClean(env, members, keys[1..]);
    }
  }

  /** Walking a clean tree changes nothing. */
  lemma {:induction false} CleanUnchanged(env: Env, v: JVal, scope: bool, st: Store)
    requires ParsesPlain(env) && Clean(env, v)
    ensures Sanitized(env, v, scope, st) == (v, st)
    decreases v, 1, 0
  {
    match v
    case List(items) =>
      CleanItems(env, v, 0, scope, st);
      assert items[0..] == items;
    case Map(members) =>
      assert Redact(env, members, scope) == members by {
        assert forall i :: 0 <= i < |members| ==> CleanEntry(env, members[i]);
      }
      FieldClean(env, members, MIME_KEYS);
      CleanMembers(env, v, 0, scope, st);
      assert members[0..] == members;
    case _ =>
  }

  lemma {:induction false} CleanItems(env: Env, v: JVal, i: nat, scope: bool, st: Store)
    requires ParsesPlain(env) && v.List? && i <= |v.items| && Clean(env, v)
    ensures SanitizedItems(env, v, i, scope, st) == (v.items[i..], st)
    decreases v, 0, |v.items| - i
  {
    if i < |v.items| {
      CleanUnchanged(env, v.items[i], scope, st);
      CleanItems(env, v, i + 1, scope, st);
      assert v.items[i..] == [v.items[i]] + v.items[i + 1..];
    } else {
      assert v.items[i..] == [];
    }
  }

  lemma {:induction false} CleanMembers(env: Env, v: JVal, i: nat, scope: bool, st: Store)
    requires ParsesPlain(env) && v.Map? && i <= |v.members| && Clean(env, v)
    ensures SanitizedMembers(env, v, i, scope, st) == (v.members[i..], st)
    decreases v, 0, |v.members| - i
  {
    if i < |v.members| {
      var e := v.members[i];
      assert CleanEntry(env, e);
      CleanUnchanged(env, e.value, scope || IsMetadataKey(env, e.key), st);
      CleanMembers(env, v, i + 1, scope, st);
      assert v.members[i..] == [v.members[i]] + v.members[i + 1..];
    } else {
      assert v.members[i..] == [];
    }
  }

  // ---- Documents the prescreen calls clean ------------------------------------------------

  /** Keys are ASCII and string values hold no backslash. */
  predicate Simple(n: Node) {
    match n
    case Token(t) => '\\' !in t
    case Arr(_, e) => SimpleElems(e)
    case Obj(_, e) => SimpleElems(e)
  }

  predicate SimpleElems(e: Elems) {
    e.Cons? ==> (e.tag.Key? ==> Ascii(e.tag.name)) && Simple(e.value) && SimpleElems(e.rest)
  }

  lemma {:induction false} DecodePlain(s: bytes)
    requires StringBody(s) == Some(|s|) && '\\' !in s
    ensures Decode(s) == Some(s[..|s| - 1])
    decreases |s|
  {
    if s[0] != '"' {
      assert StringBody(s) == More(1, StringBody(s[1..]));
      DecodePlain(s[1..]);
      assert [s[0]] + s[1..][..|s| - 2] == s[..|s| - 1];
    }
  }

  lemma MeaningPlain(t: bytes)
    requires IsString(t) && '\\' !in t
    ensures |t| >= 2 && Meaning(t) == Inner(t)
  {
    StringSize(t);
    DecodePlain(t[1..]);
    assert t[1..][..|t| - 2] == Inner(t);
  }

  lemma ImagePrefix(a: bytes, b: bytes)
    requires !HasImage(a + b)
    ensures !HasImage(a) && !HasImage(b)
  {
    forall i | 0 <= i < |a| ensures !ImageAt(a, i) {
      if ImageAt(a, i) {
        assert (a + b)[i..i + 6] == a[i..i + 6];
        assert ImageAt(a + b, i);
      }
    }
    forall i | 0 <= i < |b| ensures !ImageAt(b, i) {
      if ImageAt(b, i) {
        assert (a + b)[|a| + i..|a| + i + 6] == b[i..i + 6];
        assert ImageAt(a + b, |a| + i);
      }
    }
  }

  lemma ImageText(t: bytes)
    requires |t| >= 2
    ensures StartsWith(Inner(t), "data:image/") || StartsWith(Inner(t), "image/") ==> HasImage(t)
  {
    var s := Inner(t);
    if StartsWith(s, "image/") {
      assert t[1..7] == s[..6] == "image/";
      assert ImageAt(t, 1);
    } else if StartsWith(s, "data:image/") {
      assert s[..11] == "data:image/";
      assert t[6..12] == s[5..11] == s[..11][5..] == "image/";
      assert ImageAt(t, 6);
    }
  }

  lemma BackslashInside(t: bytes)
    requires |t| >= 2 && t[0] != '\\' && t[|t| - 1] != '\\'
    ensures '\\' in t ==> '\\' in Inner(t)
  {
    if '\\' in t {
      var i :| 0 <= i < |t| && t[i] == '\\';
      assert Inner(t)[i - 1] == '\\';
    }
  }

  lemma KeyClean(env: Env, name: bytes)
    requires NormalizesAscii(env) && IsString(name) && Ascii(name) && !(|name| >= 2 && FlaggedSpan(Inner(name)))
    ensures !SecretKey(env, Meaning(name)) && !MetadataSecretKey(env, Meaning(name))
  {
    StringSize(name);
    LastQuote(name[1..]);
    BackslashInside(name);
    MeaningPlain(name);
    assert Ascii(Inner(name));
  }

  lemma {:induction false} LastQuote(s: bytes)
    requires StringBody(s) == Some(|s|)
    ensures s[|s| - 1] == '"'
    decreases |s|
  {
    if s[0] != '"' {
      BodyUnitPlain(s);
      LastQuote(s[Unit(s)..]);
    }
  }

  lemma {:induction false} ParsedClean(env: Env, n: Node, k: bytes)
    requires NormalizesAscii(env) && Wf(n) && Simple(n) && !AnyFlagged(n) && !HasImage(TextOn(n, k))
    ensures Clean(env, Parsed(n))
    decreases n
  {
    hide HasImage;
    match n
    case Token(t) =>
      if t[0] == '"' {
        MeaningPlain(t);
        ImagePrefix(t, k);
        ImageText(t);
      }
    case Arr(blank, e) =>
      if e.Cons? {
        ImagePrefix("[", ElemsOn(e, ']', k));
        ItemsClean(env, e, k);
      }
    case Obj(blank, e) =>
      if e.Cons? { ImagePrefix("{", ElemsOn(e, '}', k)); }
      MembersClean(env, e, k, []);
  }

  lemma {:induction false} ItemsClean(env: Env, e: Elems, k: bytes)
    requires NormalizesAscii(env) && e.Cons? && WfElems(e, false) && SimpleElems(e) && !AnyFlaggedElem(e)
    requires !HasImage(ElemsOn(e, ']', k))
    ensures forall i :: 0 <= i < |ParsedItems(e)| ==> Clean(env, ParsedItems(e)[i])
    decreases e
  {
    hide HasImage;
    var r := RestOn(e, ']', k);
    ImagePrefix(e.pre, TextOn(e.value, e.post + r));
    ParsedClean(env, e.value, e.post + r);
    ImageAfter(e.value, e.post + r);
    ImagePrefix(e.post, r);
    if e.rest.Cons? {
      ImagePrefix(",", ElemsOn(e.rest, ']', k));
      ItemsClean(env, e.rest, k);
    }
  }

  lemma {:induction false} ImageAfter(n: Node, k: bytes)
    requires !HasImage(TextOn(n, k))
    ensures !HasImage(k)
  {
    hide HasImage;
    TextAppend(n, k);
    ImagePrefix(Text(n), k);
  }

  lemma {:induction false} MembersClean(env: Env, e: Elems, k: bytes, sofar: seq<Entry>)
    requires NormalizesAscii(env) && WfElems(e, true) && SimpleElems(e) && !AnyFlaggedElem(e)
    requires e.Cons? ==> !HasImage(ElemsOn(e, '}', k))
    requires forall i :: 0 <= i < |sofar| ==> CleanEntry(env, sofar[i])
    ensures forall i :: 0 <= i < |ParsedMembers(e, sofar)| ==> CleanEntry(env, ParsedMembers(e, sofar)[i])
    decreases e
  {
    hide HasImage;
    if e.Cons? {
      var r := RestOn(e, '}', k);
      var v := TextOn(e.value, e.post + r);
      var tag := e.tag;
      ImagePrefix(e.pre, LabelOn(tag, v));
      ImagePrefix(tag.name, tag.before + (":" + (tag.after + v)));
      ImagePrefix(tag.before, ":" + (tag.after + v));
      ImagePrefix(":", tag.after + v);
      ImagePrefix(tag.after, v);
      ParsedClean(env, e.value, e.post + r);
      ImageAfter(e.value, e.post + r);
      ImagePrefix(e.post, r);
      KeyClean(env, tag.name);
      var entry := Entry(Meaning(tag.name), Parsed(e.value));
      InsertClean(env, sofar, entry);
      if e.rest.Cons? { ImagePrefix(",", ElemsOn(e.rest, '}', k)); }
      MembersClean(env, e.rest, k, Insert(sofar, entry));
    }
  }

  lemma {:induction false} InsertClean(env: Env, members: seq<Entry>, e: Entry)
    requires CleanEntry(env, e) && forall i :: 0 <= i < |members| ==> CleanEntry(env, members[i])
    ensures forall i :: 0 <= i < |Insert(members, e)| ==> CleanEntry(env, Insert(members, e)[i])
    decreases |members|
  {
    if members != [] { InsertClean(env, members[1..], e); }
  }

  /**
   When the prescreen calls a simple document clean, parsing it and walking the tree
   changes nothing: skipping both is sound.
   */
  lemma PrescreenSound(env: Env, src: bytes, lead: bytes, n: Node, trail: bytes, scope: bool, st: Store)
    requires ParsesPlain(env) && NormalizesAscii(env)
    requires IsDocument(src, lead, n, trail) && Simple(n)
    requires !NeedsSanitize(src)
    ensures Sanitized(env, Parsed(n), scope, st) == (Parsed(n), st)
  {
    QuoteScanIffFlaggedKey(src, lead, n, trail);
    ImagePrefix(lead, TextOn(n, trail));
    ParsedClean(env, n, trail);
    CleanUnchanged(env, Parsed(n), scope, st);
  }
}
