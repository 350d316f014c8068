/**
 The attachment store of sanitize.rs over a whole walk: one file per content, numbered from
 one without gaps, and every image of the tree replaced by the reference of its own content.
 */
module Attachments {
  import opened Common
  import opened Decimal
  import opened JsonGrammar
  import opened JsonTree
  import opened JsonNormal
  import opened JsonEscape
  import opened JsonValue
  import opened JsonMeaning
  import opened Prescreen
  import opened Sanitize

  // ---- The invariant of the store --------------------------------------------------------------

  /** Numbers from 1 to the count, none given twice. */
  ghost predicate Numbers(num: map<bytes, nat>, count: nat) {
    (forall h :: h in num ==> 1 <= num[h] <= count)
    && (forall g, h :: g in num && h in num && num[g] == num[h] ==> g == h)
  }

  /** `num` numbers the stored contents, without gaps, and each reference names its number. */
  ghost predicate Numbered(st: Store, num: map<bytes, nat>) {
    && num.Keys == st.byHash.Keys && |st.byHash| == st.count && Numbers(num, st.count)
    && forall h :: h in num ==> References(st, h, num[h])
  }

  /** The reference stored for `hash` names attachment `n` and that hash. */
  ghost predicate References(st: Store, hash: bytes, n: nat) {
    hash in st.byHash && exists mime, size :: st.byHash[hash] == Reference(n, mime, size, hash)
  }

  ghost predicate StoreOk(st: Store) {
    exists num :: Numbered(st, num)
  }

  /** Nothing stored is changed or forgotten. */
  ghost predicate Grows(a: Store, b: Store) {
    a.count <= b.count && forall h :: h in a.byHash ==> h in b.byHash && b.byHash[h] == a.byHash[h]
  }

  lemma EmptyOk()
    ensures StoreOk(Store(map[], 0))
  {
    assert Numbered(Store(map[], 0), map[]);
  }

  lemma ReferencesKept(st: Store, later: Store, h: bytes, n: nat)
    requires References(st, h, n) && h in later.byHash && later.byHash[h] == st.byHash[h]
    ensures References(later, h, n)
  {
  }

  lemma OneMore(m: map<bytes, bytes>, h: bytes, r: bytes)
    requires h !in m
    ensures |m[h := r]| == |m| + 1
  {
    assert m[h := r].Keys == m.Keys + {h};
    assert |m[h := r]| == |m[h := r].Keys| && |m| == |m.Keys|;
  }

  lemma NumbersNext(num: map<bytes, nat>, count: nat, hash: bytes)
    requires Numbers(num, count)
    ensures Numbers(num[hash := count + 1], count + 1)
  {
  }

  /** A new content under the next number. */
  lemma NumberNext(st: Store, num: map<bytes, nat>, hash: bytes, r: bytes, st': Store)
    requires Numbered(st, num) && hash !in st.byHash
    requires st' == Store(st.byHash[hash := r], st.count + 1) && References(st', hash, st.count + 1)
    ensures Numbered(st', num[hash := st.count + 1])
  {
    hide References, Numbers;
    var num' := num[hash := st.count + 1];
    OneMore(st.byHash, hash, r);
    NumbersNext(num, st.count, hash);
    assert num'.Keys == num.Keys + {hash} && st'.byHash.Keys == st.byHash.Keys + {hash};
    forall h | h in num' ensures References(st', h, num'[h]) {
      if h != hash {
        assert h in num && h in st.byHash.Keys;
        ReferencesKept(st, st', h, num[h]);
      }
    }
  }

  /** Writing keeps the invariant, stores the content under its hash, and adds a file only for new content. */
  lemma WriteKeeps(env: Env, st: Store, data: bytes, mime: bytes)
    requires StoreOk(st)
    ensures var (r, st') := WriteAttachment(env, st, data, mime);
            StoreOk(st') && Grows(st, st')
            && env.sha256(data) in st'.byHash && st'.byHash[env.sha256(data)] == r
            && st'.count == st.count + if env.sha256(data) in st.byHash then 0 else 1
  {
    hide Reference, Numbered;
    var hash := env.sha256(data);
    var num :| Numbered(st, num);
    if hash !in st.byHash {
      var (r, st') := WriteAttachment(env, st, data, mime);
      assert st'.byHash[hash] == Reference(st.count + 1, mime, |data|, hash);
      NumberNext(st, num, hash, r, st');
    }
  }

  /** Whatever was written in between, the same content gives the same reference and no new file. */
  lemma WriteAgain(env: Env, st: Store, data: bytes, mime: bytes, later: Store, mime': bytes)
    requires StoreOk(st) && Grows(WriteAttachment(env, st, data, mime).1, later)
    ensures WriteAttachment(env, later, data, mime') == (WriteAttachment(env, st, data, mime).0, later)
  {
    WriteKeeps(env, st, data, mime);
  }

  // ---- The walk ---------------------------------------------------------------------------------

  lemma GrowsTrans(a: Store, b: Store, c: Store)
    requires Grows(a, b) && Grows(b, c)
    ensures Grows(a, c)
  {
  }

  /** A whole walk keeps the invariant of the store and everything stored. */
  lemma {:induction false} WalkKeeps(env: Env, v: JVal, scope: bool, st: Store)
    requires ParsesPlain(env) && StoreOk(st)
    ensures StoreOk(Sanitized(env, v, scope, st).1) && Grows(st, Sanitized(env, v, scope, st).1)
    decreases !NoRaw(v), v, 1, 0
  {
    hide StoreOk, Grows, WriteAttachment, NeedsSanitize, ObjectImage, TextImage;
    SameStore(st);
    match v
    case List(items) => ItemsKeep(env, v, 0, scope, st);
    case Map(members) =>
      var image := ObjectImage(env, Redact(env, members, scope));
      if image.Some? {
        WriteKeeps(env, st, image.value.0, image.value.1);
      } else {
        MembersKeep(env, v, 0, scope, st);
      }
    case Str(s) =>
      if TextImage(env, s).Some? { WriteKeeps(env, st, TextImage(env, s).value.0, TextImage(env, s).value.1); }
    case Raw(raw) =>
      if NeedsSanitize(raw) && env.parse(raw).Some? { WalkKeeps(env, env.parse(raw).value, false, st); }
    case _ =>
  }

  lemma SameStore(st: Store)
    ensures Grows(st, st)
  {
  }

  lemma {:induction false} ItemsKeep(env: Env, v: JVal, i: nat, scope: bool, st: Store)
    requires ParsesPlain(env) && v.List? && i <= |v.items| && StoreOk(st)
    ensures var st' := SanitizedItems(env, v, i, scope, st).1; StoreOk(st') && Grows(st, st')
    decreases !NoRaw(v), v, 0, |v.items| - i
  {
    hide StoreOk, Grows, Sanitized;
    SameStore(st);
    if i < |v.items| {
      var mid := Sanitized(env, v.items[i], scope, st).1;
      WalkKeeps(env, v.items[i], scope, st);
      ItemsKeep(env, v, i + 1, scope, mid);
      GrowsTrans(st, mid, SanitizedItems(env, v, i + 1, scope, mid).1);
    }
  }

  lemma {:induction false} MembersKeep(env: Env, v: JVal, i: nat, scope: bool, st: Store)
    requires ParsesPlain(env) && v.Map? && i <= |v.members| && StoreOk(st)
    ensures var st' := SanitizedMembers(env, v, i, scope, st).1; StoreOk(st') && Grows(st, st')
    decreases !NoRaw(v), v, 0, |v.members| - i
  {
    hide StoreOk, Grows, Sanitized, Sensitive;
    SameStore(st);
    if i < |v.members| {
      var mid := SanitizedMember(env, v, i, scope, st).1;
      var key := v.members[i].key;
      if !Sensitive(env, key, scope) {
        WalkKeeps(env, v.members[i].value, scope || IsMetadataKey(env, key), st);
      }
      MembersKeep(env, v, i + 1, scope, mid);
      GrowsTrans(st, mid, SanitizedMembers(env, v, i + 1, scope, mid).1);
    }
  }

  // ---- Every image under its own reference ------------------------------------------------------------

  /** The image a node is, if it is one. */
  function ImageOf(env: Env, v: JVal, scope: bool): Option<(bytes, bytes)> {
    if v.Map? then ObjectImage(env, Redact(env, v.members, scope)) else if v.Str? then TextImage(env, v.s) else None
  }

  /** The reference kept for the content of an image. */
  predicate StoredFor(env: Env, st: Store, data: bytes, r: JVal) {
    env.sha256(data) in st.byHash && r == Raw(st.byHash[env.sha256(data)])
  }

  lemma StoredLater(env: Env, a: Store, b: Store, data: bytes, r: JVal)
    requires StoredFor(env, a, data, r) && Grows(a, b)
    ensures StoredFor(env, b, data, r)
  {
  }

  /** How the j-th item was walked: from some store, and into one that the whole walk extends. */
  lemma {:induction false} ItemWalk(env: Env, v: JVal, i: nat, j: nat, scope: bool, st: Store) returns (at: Store)
    requires ParsesPlain(env) && v.List? && i <= j < |v.items| && StoreOk(st)
    ensures StoreOk(at) && SanitizedItems(env, v, i, scope, st).0[j - i] == Sanitized(env, v.items[j], scope, at).0
    ensures Grows(Sanitized(env, v.items[j], scope, at).1, SanitizedItems(env, v, i, scope, st).1)
    decreases j - i
  {
    hide StoreOk, Grows, Sanitized;
    var mid := Sanitized(env, v.items[i], scope, st).1;
    WalkKeeps(env, v.items[i], scope, st);
    if i == j {
      at := st;
      ItemsKeep(env, v, i + 1, scope, mid);
    } else {
      at := ItemWalk(env, v, i + 1, j, scope, mid);
    }
  }

  lemma {:induction false} MemberWalk(env: Env, v: JVal, i: nat, j: nat, scope: bool, st: Store) returns (at: Store)
    requires ParsesPlain(env) && v.Map? && i <= j < |v.members| && StoreOk(st)
    ensures StoreOk(at) && SanitizedMembers(env, v, i, scope, st).0[j - i]
                           == Entry(v.members[j].key, SanitizedMember(env, v, j, scope, at).0)
    ensures Grows(SanitizedMember(env, v, j, scope, at).1, SanitizedMembers(env, v, i, scope, st).1)
    decreases j - i
  {
    hide StoreOk, Grows, Sanitized, Sensitive;
    var mid := SanitizedMember(env, v, i, scope, st).1;
    MemberKeeps(env, v, i, scope, st);
    if i == j {
      at := st;
      MembersKeep(env, v, i + 1, scope, mid);
    } else {
      at := MemberWalk(env, v, i + 1, j, scope, mid);
    }
  }

  lemma MemberKeeps(env: Env, v: JVal, i: nat, scope: bool, st: Store)
    requires ParsesPlain(env) && v.Map? && i < |v.members| && StoreOk(st)
    ensures StoreOk(SanitizedMember(env, v, i, scope, st).1) && Grows(st, SanitizedMember(env, v, i, scope, st).1)
  {
    hide StoreOk, Grows, Sanitized, Sensitive;
    SameStore(st);
    var key := v.members[i].key;
    if !Sensitive(env, key, scope) {
      WalkKeeps(env, v.members[i].value, scope || IsMetadataKey(env, key), st);
    }
  }

  lemma ImageStored(env: Env, v: JVal, scope: bool, st: Store)
    requires ParsesPlain(env) && StoreOk(st) && ImageOf(env, v, scope).Some?
    ensures var r := Sanitized(env, v, scope, st);
            StoredFor(env, r.1, ImageOf(env, v, scope).value.0, r.0)
  {
    hide StoreOk, ObjectImage, TextImage, Grows, WriteAttachment;
    var image := ImageOf(env, v, scope).value;
    WriteKeeps(env, st, image.0, image.1);
    if v.Map? {
      assert Sanitized(env, v, scope, st) == Attach(env, st, image);
    } else {
      assert Sanitized(env, v, scope, st) == Attach(env, st, image);
    }
  }

  /** The child of an unreplaced node that is not under a sensitive key, in the walk of the whole node. */
  lemma ChildWalk(env: Env, v: JVal, i: nat, scope: bool, st: Store) returns (at: Store)
    requires ParsesPlain(env) && StoreOk(st) && !Replaced(env, v, scope) && !SensitiveStep(env, v, i, scope)
    requires (v.List? && i < |v.items|) || (v.Map? && i < |v.members|)
    ensures StoreOk(at) && At(Sanitized(env, v, scope, st).0, [i]).Some?
    ensures var r := Sanitized(env, Child(v, i), ChildScope(env, v, i, scope), at);
            At(Sanitized(env, v, scope, st).0, [i]) == Some(r.0) && Grows(r.1, Sanitized(env, v, scope, st).1)
  {
    hide StoreOk, Grows, Sensitive, ObjectImage, TextImage, WriteAttachment;
    assert [i][1..] == [];
    if v.List? {
      at := ItemWalk(env, v, 0, i, scope, st);
    } else {
      at := MemberWalk(env, v, 0, i, scope, st);
    }
  }

  lemma DeeperAt(v: JVal, path: seq<nat>)
    requires path != [] && At(v, [path[0]]).Some?
    ensures At(v, path) == At(At(v, [path[0]]).value, path[1..])
  {
    assert [path[0]][1..] == [];
  }

  /** How a node that survives was walked: from some store, and into one that the whole walk extends. */
  lemma {:induction false} WalkAt(env: Env, v: JVal, path: seq<nat>, scope: bool, st: Store) returns (at: Store)
    requires ParsesPlain(env) && StoreOk(st) && At(v, path).Some? && Kept(env, v, path, scope)
    requires !SensitiveAt(env, v, path, scope)
    ensures StoreOk(at)
    ensures var whole, r := Sanitized(env, v, scope, st),
                            Sanitized(env, At(v, path).value, ScopeAt(env, v, path, scope), at);
            At(whole.0, path) == Some(r.0) && Grows(r.1, whole.1)
    decreases |path|
  {
    hide Sanitized, StoreOk, Grows;
    if path == [] {
      at := st;
      SameStore(Sanitized(env, v, scope, st).1);
    } else {
      var i := path[0];
      assert path[..0] == [] && !Replaced(env, v, scope);
      if SensitiveStep(env, v, i, scope) { SensitiveCut(env, v, path, scope); }
      KeptTail(env, v, path, scope);
      var below := ChildWalk(env, v, i, scope, st);
      var c, s := Child(v, i), ChildScope(env, v, i, scope);
      at := WalkAt(env, c, path[1..], s, below);
      DeeperAt(Sanitized(env, v, scope, st).0, path);
      GrowsTrans(Sanitized(env, At(v, path).value, ScopeAt(env, v, path, scope), at).1,
                 Sanitized(env, c, s, below).1, Sanitized(env, v, scope, st).1);
    }
  }

  /**
   Every image that survives to be reached is replaced by the reference the final store keeps
   for its content: one reference for one content, however often it occurs.
   */
  lemma ImagesStoredOnce(env: Env, v: JVal, path: seq<nat>, scope: bool, st: Store)
    requires ParsesPlain(env) && StoreOk(st) && At(v, path).Some? && Kept(env, v, path, scope)
    requires !SensitiveAt(env, v, path, scope)
    requires ImageOf(env, At(v, path).value, ScopeAt(env, v, path, scope)).Some?
    ensures var (r, st') := Sanitized(env, v, scope, st);
            var image := ImageOf(env, At(v, path).value, ScopeAt(env, v, path, scope)).value;
            At(r, path).Some? && StoredFor(env, st', image.0, At(r, path).value)
  {
    hide Sanitized, StoreOk, ImageOf, Grows, Kept, SensitiveAt, ScopeAt;
    var x, s := At(v, path).value, ScopeAt(env, v, path, scope);
    var at := WalkAt(env, v, path, scope, st);
    ImageStored(env, x, s, at);
    var r := Sanitized(env, x, s, at);
    StoredLater(env, r.1, Sanitized(env, v, scope, st).1, ImageOf(env, x, s).value.0, r.0);
  }

  // ---- Raw payloads ---------------------------------------------------------------------------------------

  lemma {:induction false} AtJoin(v: JVal, a: seq<nat>, b: seq<nat>)
    requires At(v, a).Some?
    ensures At(v, a + b) == At(At(v, a).value, b)
    decreases |a|
  {
    if a == [] {
      assert a + b == b;
    } else {
      assert (a + b)[1..] == a[1..] + b;
      AtJoin(Child(v, a[0]), a[1..], b);
    }
  }

  /**
   A raw payload that survives to be reached, is flagged by the prescreen and parses is replaced
   by its own tree, redacted in no metadata scope whatever surrounds it: every surviving path
   inside it carries the marker, the final store's reference or a node of the same shape.
   */
  lemma RawWalked(env: Env, v: JVal, path: seq<nat>, scope: bool, st: Store, inner: seq<nat>)
    requires ParsesPlain(env) && StoreOk(st) && At(v, path).Some? && Kept(env, v, path, scope)
    requires !SensitiveAt(env, v, path, scope) && Walked(env, At(v, path).value)
    requires var tree := env.parse(At(v, path).value.raw).value;
             At(tree, inner).Some? && Kept(env, tree, inner, false)
    ensures var whole, tree := Sanitized(env, v, scope, st), env.parse(At(v, path).value.raw).value;
            var x, s := At(tree, inner).value, ScopeAt(env, tree, inner, false);
            At(whole.0, path + inner).Some?
            && var y := At(whole.0, path + inner).value;
               if SensitiveAt(env, tree, inner, false) then y == MARKER
               else if ImageOf(env, x, s).Some? then StoredFor(env, whole.1, ImageOf(env, x, s).value.0, y)
               else SameShape(x, y)
  {
    hide StoreOk, Grows, Kept, SensitiveAt, ImageOf, ScopeAt, SameShape, NeedsSanitize, StoredFor;
    var whole, raw := Sanitized(env, v, scope, st), At(v, path).value.raw;
    var tree := env.parse(raw).value;
    var at := WalkAt(env, v, path, scope, st);
    var r := Sanitized(env, tree, false, at);
    assert Sanitized(env, Raw(raw), ScopeAt(env, v, path, scope), at) == r;
    hide Sanitized;
    AtJoin(whole.0, path, inner);
    PlainAt(tree, inner);
    Redaction(env, tree, inner, false, at);
    var x, s := At(tree, inner).value, ScopeAt(env, tree, inner, false);
    if !SensitiveAt(env, tree, inner, false) && ImageOf(env, x, s).Some? {
      ImagesStoredOnce(env, tree, inner, false, at);
      StoredLater(env, r.1, whole.1, ImageOf(env, x, s).value.0, At(r.0, inner).value);
    } else {
      ImageReplaced(env, x, s);
    }
  }

  lemma ImageReplaced(env: Env, x: JVal, scope: bool)
    ensures Replaced(env, x, scope) <==> ImageOf(env, x, scope).Some?
  {
  }

  lemma {:induction false} PlainAt(v: JVal, path: seq<nat>)
    requires NoRaw(v) && At(v, path).Some?
    ensures NoRaw(At(v, path).value)
    decreases |path|
  {
    if path != [] { PlainAt(Child(v, path[0]), path[1..]); }
  }

  // ---- File names ---------------------------------------------------------------------------------------

  lemma {:induction false} NoLeadingZero(n: nat)
    requires n > 0
    ensures NatText(n)[0] != '0'
    decreases n
  {
    if n >= 10 { NoLeadingZero(n / 10); }
  }

  lemma PaddedInjective(m: nat, n: nat)
    requires m > 0 && n > 0 && Padded(m) == Padded(n)
    ensures m == n
  {
    var s, t := NatText(m), NatText(n);
    NoLeadingZero(m);
    NoLeadingZero(n);
    var p := Padded(m);
    assert |s| == 1 ==> p[0] == '0' && p[1] == '0' && p[2..] == s;
    assert |t| == 1 ==> p[0] == '0' && p[1] == '0' && p[2..] == t;
    assert |s| == 2 ==> p[0] == '0' && p[1] == s[0] && p[1..] == s;
    assert |t| == 2 ==> p[0] == '0' && p[1] == t[0] && p[1..] == t;
    NatTextInjective(m, n);
  }

  lemma {:induction false} PaddedDigits(n: nat)
    ensures '.' !in Padded(n)
  {
    NatTextDigits(n);
  }

  lemma ExtensionDot(mime: bytes)
    ensures |ImageExtension(mime)| > 0 && ImageExtension(mime)[0] == '.'
  {
  }

  lemma NumberEnds(n: nat, mime: bytes)
    ensures var x := Padded(n) + ImageExtension(mime);
            IndexOf(x, '.') == |Padded(n)| && x[..|Padded(n)|] == Padded(n)
  {
    PaddedDigits(n);
    ExtensionDot(mime);
    hide Padded, ImageExtension;
    IndexOfIs(Padded(n) + ImageExtension(mime), '.', |Padded(n)|);
  }

  lemma AfterPrefix(p: bytes, x: bytes, y: bytes)
    requires p + x == p + y
    ensures x == y
  {
    assert (p + x)[|p|..] == x && (p + y)[|p|..] == y;
  }

  /** Different attachments of a request are different files. */
  lemma NamesDiffer(m: nat, n: nat, a: bytes, b: bytes)
    requires m > 0 && n > 0 && AttachmentName(m, a) == AttachmentName(n, b)
    ensures m == n
  {
    hide Padded, ImageExtension, IndexOf;
    var p, x, y := "attachments/image-", Padded(m) + ImageExtension(a), Padded(n) + ImageExtension(b);
    Assoc(p, Padded(m), ImageExtension(a));
    Assoc(p, Padded(n), ImageExtension(b));
    AfterPrefix(p, x, y);
    NumberEnds(m, a);
    NumberEnds(n, b);
    PaddedInjective(m, n);
  }

  /**
   A file is named by its number in at least three decimal digits, without needless zeros, and
   by the type of its image.
   */
  lemma FileNameIs(n: nat, mime: bytes)
    ensures exists digits, ext ::
              NamedBy(n, mime, digits, ext) && AttachmentName(n, mime) == "attachments/image-" + digits + ext
  {
    var digits, ext := Padded(n), ImageExtension(mime);
    PaddedReads(n);
    assert NamedBy(n, mime, digits, ext);
  }

  predicate NamedBy(n: nat, mime: bytes, digits: bytes, ext: bytes) {
    && ReadNat(digits) == n && |digits| >= 3 && (|digits| > 3 ==> digits[0] != '0')
    && (ext == ".jpg" <==> mime == "image/jpeg") && (ext == ".png" <==> mime == "image/png")
    && (ext == ".gif" <==> mime == "image/gif") && (ext == ".webp" <==> mime == "image/webp")
    && (ext == ".bin" <==> mime !in {"image/jpeg", "image/png", "image/gif", "image/webp"})
  }

  lemma {:induction false} ZeroFirst(t: bytes)
    ensures ReadNat("0" + t) == ReadNat(t)
    decreases |t|
  {
    var z := "0" + t;
    if t == "" {
      assert z[..0] == "";
    } else {
      assert z[..|z| - 1] == "0" + t[..|t| - 1];
      ZeroFirst(t[..|t| - 1]);
    }
  }

  lemma PaddedReads(n: nat)
    ensures ReadNat(Padded(n)) == n && |Padded(n)| >= 3 && (|Padded(n)| > 3 ==> Padded(n)[0] != '0')
  {
    var t := NatText(n);
    ReadNatText(n);
    ZeroFirst(t);
    ZeroFirst("0" + t);
    assert "00" + t == "0" + ("0" + t);
    if n > 0 { NoLeadingZero(n); }
  }

  // ---- What a reference says ------------------------------------------------------------------------------

  /** The reference as a tree: four members on one line. */
  function ReferenceTree(file: bytes, mime: bytes, size: nat, hash: bytes): Node {
    Obj("", Member("\"file\"", Token(Escaped(file)),
            Member("\"mime_type\"", Token(Escaped(mime)),
            Member("\"size\"", Token(NatText(size)),
            Member("\"sha256\"", Token(Escaped(hash)), Nil)))))
  }

  function Member(key: bytes, value: Node, rest: Elems): Elems {
    Cons("", Key(key, "", ""), value, "", rest)
  }

  lemma MemberText(key: bytes, t: bytes, rest: Elems, k: bytes)
    ensures ElemsOn(Member(key, Token(t), rest), '}', k)
            == key + ":" + t + (if rest.Nil? then "}" + k else "," + ElemsOn(rest, '}', k))
  {
    var tail := RestOn(Member(key, Token(t), rest), '}', k);
    assert "" + tail == tail && "" + (t + tail) == t + tail && "" + (":" + (t + tail)) == ":" + (t + tail);
    assert "" + (key + (":" + (t + tail))) == key + ":" + t + tail;
    assert ['}'] + k == "}" + k;
  }

  /** The stored reference is the text of that tree. */
  lemma ReferenceText(count: nat, mime: bytes, size: nat, hash: bytes)
    ensures Text(ReferenceTree(AttachmentName(count, mime), mime, size, hash)) == Reference(count, mime, size, hash)
  {
    hide Escaped, NatText, AttachmentName, ElemsOn;
    var a, b, c, d := Escaped(AttachmentName(count, mime)), Escaped(mime), NatText(size), Escaped(hash);
    var m3 := Member("\"sha256\"", Token(d), Nil);
    var m2 := Member("\"size\"", Token(c), m3);
    var m1 := Member("\"mime_type\"", Token(b), m2);
    MemberText("\"sha256\"", d, Nil, "");
    MemberText("\"size\"", c, m3, "");
    MemberText("\"mime_type\"", b, m2, "");
    MemberText("\"file\"", a, m1, "");
    assert "}" + "" == "}";
    ReferenceJoins(a, b, c, d);
  }

  lemma ReferenceJoins(a: bytes, b: bytes, c: bytes, d: bytes)
    ensures "{" + ("\"file\"" + ":" + a
            + ("," + ("\"mime_type\"" + ":" + b
            + ("," + ("\"size\"" + ":" + c + ("," + ("\"sha256\"" + ":" + d + "}")))))))
            == "{\"file\":" + a + ",\"mime_type\":" + b + ",\"size\":" + c + ",\"sha256\":" + d + "}"
  {
    assert "{\"file\":" == "{" + ("\"file\"" + ":") && ",\"mime_type\":" == "," + ("\"mime_type\"" + ":");
    assert ",\"size\":" == "," + ("\"size\"" + ":") && ",\"sha256\":" == "," + ("\"sha256\"" + ":");
  }

  lemma {:induction false} AsciiValid(s: bytes)
    requires forall k :: 0 <= k < |s| ==> s[k] < '\U{80}'
    ensures ValidUtf8(s)
    decreases |s|
  {
    if s != "" { AsciiValid(s[1..]); }
  }

  lemma NameAscii(n: nat, mime: bytes)
    ensures ValidUtf8(AttachmentName(n, mime))
  {
    var p, e := Padded(n), ImageExtension(mime);
    NatTextDigits(n);
    var name := AttachmentName(n, mime);
    assert forall k :: 0 <= k < |p| ==> p[k] < '\U{80}';
    assert forall k :: 0 <= k < |e| ==> e[k] < '\U{80}';
    AsciiValid(name);
  }

  lemma StringMeans(s: bytes)
    requires ValidUtf8(s)
    ensures Wf(Token(Escaped(s))) && Parsed(Token(Escaped(s))) == Str(s)
  {
    hide ValidUtf8, Body, Decode;
    EscapedNormal(s);
    DecodeEscaped(s);
    assert Escaped(s)[1..] == Body(s);
    assert Escaped(s)[0] == '"';
  }

  lemma SizeMeans(n: nat)
    ensures Wf(Token(NatText(n))) && Parsed(Token(NatText(n))) == Float(Some(NatText(n)))
  {
    IntToken(n);
    NatTextDigits(n);
    assert NatText(n)[0] != 'n' && NatText(n)[0] != 't' && NatText(n)[0] != 'f';
  }

  lemma KeyMeans(key: bytes)
    requires IsString(key) && '\\' !in key && |key| >= 2
    ensures Meaning(key) == key[1..|key| - 1]
  {
    MeaningPlain(key);
  }

  lemma KeysMean()
    ensures IsString("\"file\"") && Meaning("\"file\"") == "file"
    ensures IsString("\"mime_type\"") && Meaning("\"mime_type\"") == "mime_type"
    ensures IsString("\"size\"") && Meaning("\"size\"") == "size"
    ensures IsString("\"sha256\"") && Meaning("\"sha256\"") == "sha256"
  {
    hide IsString, Meaning;
    assert "\"" + "file" + "\"" == "\"file\"" && "\"" + "mime_type" + "\"" == "\"mime_type\"";
    assert "\"" + "size" + "\"" == "\"size\"" && "\"" + "sha256" + "\"" == "\"sha256\"";
    PlainKey("file");
    PlainKey("mime_type");
    PlainKey("size");
    PlainKey("sha256");
  }

  lemma PlainKey(k: bytes)
    requires forall i :: 0 <= i < |k| ==> ' ' <= k[i] < '\U{80}' && k[i] != '"' && k[i] != '\\'
    ensures IsString("\"" + k + "\"") && Meaning("\"" + k + "\"") == k
  {
    var t := "\"" + k + "\"";
    PlainBody(k);
    assert t[1..] == k + "\"";
    KeyMeans(t);
    assert t[1..|t| - 1] == k;
  }

  lemma {:induction false} PlainBody(k: bytes)
    requires forall i :: 0 <= i < |k| ==> k[i] >= ' ' && k[i] != '"' && k[i] != '\\'
    ensures StringBody(k + "\"") == Some(|k| + 1)
    decreases |k|
  {
    if k != "" {
      assert (k + "\"")[1..] == k[1..] + "\"";
      PlainBody(k[1..]);
    } else {
      assert k + "\"" == "\"";
    }
  }

  lemma MemberWf(key: bytes, value: Node, rest: Elems)
    requires IsString(key) && Wf(value) && WfElems(rest, true)
    ensures WfElems(Member(key, value, rest), true)
  {
    hide IsString, Wf;
    assert Blank("");
  }

  lemma ReferenceWf(file: bytes, mime: bytes, size: nat, hash: bytes)
    requires Wf(Token(Escaped(file))) && Wf(Token(Escaped(mime))) && Wf(Token(NatText(size)))
             && Wf(Token(Escaped(hash)))
    ensures Wf(ReferenceTree(file, mime, size, hash))
  {
    hide Escaped, NatText, IsString, Meaning, WfElems, Member, IsToken;
    KeysMean();
    var m3 := Member("\"sha256\"", Token(Escaped(hash)), Nil);
    var m2 := Member("\"size\"", Token(NatText(size)), m3);
    var m1 := Member("\"mime_type\"", Token(Escaped(mime)), m2);
    assert WfElems(Nil, true) by { NilWf(); }
    MemberWf("\"sha256\"", Token(Escaped(hash)), Nil);
    MemberWf("\"size\"", Token(NatText(size)), m3);
    MemberWf("\"mime_type\"", Token(Escaped(mime)), m2);
    MemberWf("\"file\"", Token(Escaped(file)), m1);
  }

  lemma NilWf()
    ensures WfElems(Nil, true)
  {
  }

  lemma MemberRead(key: bytes, value: Node, rest: Elems, sofar: seq<Entry>)
    ensures ParsedMembers(Member(key, value, rest), sofar)
            == ParsedMembers(rest, Insert(sofar, Entry(Meaning(key), Parsed(value))))
  {
    hide Meaning, Parsed, Insert;
  }

  lemma InsertLast(members: seq<Entry>, e: Entry)
    requires members != [] && members[0].key != e.key && !StrBefore(e.key, members[0].key)
    ensures Insert(members, e) == [members[0]] + Insert(members[1..], e)
  {
  }

  lemma InsertFirst(members: seq<Entry>, e: Entry)
    requires members != [] ==> StrBefore(e.key, members[0].key) && members[0].key != e.key
    ensures Insert(members, e) == [e] + members
  {
  }

  /** Members in the order file, type, size, hash end up in the order of their keys. */
  lemma InsertFour(a: JVal, b: JVal, c: JVal, d: JVal)
    ensures var e0, e1, e2, e3 := Entry("file", a), Entry("mime_type", b), Entry("size", c), Entry("sha256", d);
            Insert(Insert(Insert(Insert([], e0), e1), e2), e3) == [e0, e1, e3, e2]
  {
    hide Insert, StrBefore;
    var e0, e1, e2, e3 := Entry("file", a), Entry("mime_type", b), Entry("size", c), Entry("sha256", d);
    KeyOrder();
    KeysDiffer();
    InsertFirst([], e0);
    InsertFirst([], e1);
    InsertFirst([], e2);
    InsertFirst([e2], e3);
    assert [e0][1..] == [] && [e1][1..] == [];
    InsertLast([e0], e1);
    assert [e0, e1][1..] == [e1];
    InsertLast([e0, e1], e2);
    InsertLast([e1], e2);
    assert [e0, e1, e2][1..] == [e1, e2] && [e1, e2][1..] == [e2];
    assert Insert([], e0) == [e0] && Insert([e0], e1) == [e0, e1] && Insert([e0, e1], e2) == [e0, e1, e2];
    InsertLast([e0, e1, e2], e3);
    InsertLast([e1, e2], e3);
    assert [e0] + ([e1] + ([e3] + [e2])) == [e0, e1, e3, e2];
  }

  lemma KeysDiffer()
    ensures "file" != "mime_type" && "file" != "size" && "file" != "sha256"
    ensures "mime_type" != "size" && "mime_type" != "sha256" && "size" != "sha256"
  {
    assert |"file"| == 4 && |"size"| == 4 && |"sha256"| == 6 && |"mime_type"| == 9 && "file"[0] != "size"[0];
  }

  /**
   A stored reference is the text of a JSON object that reads back as the file's name, its
   type, the number of its bytes and their hash.
   */
  lemma ReferenceReads(count: nat, mime: bytes, size: nat, hash: bytes)
    requires ValidUtf8(mime) && ValidUtf8(hash)
    ensures var n := ReferenceTree(AttachmentName(count, mime), mime, size, hash);
            IsDocument(Reference(count, mime, size, hash), "", n, "")
            && Parsed(n) == Map([Entry("file", Str(AttachmentName(count, mime))), Entry("mime_type", Str(mime)),
                                 Entry("sha256", Str(hash)), Entry("size", Float(Some(NatText(size))))])
            && ReadNat(NatText(size)) == size
  {
    hide ValidUtf8, Escaped, NatText, AttachmentName, Reference, Meaning, StrBefore, TextOn, Wf, ParsedMembers;
    var file := AttachmentName(count, mime);
    ReferenceText(count, mime, size, hash);
    ReadNatText(size);
    NameAscii(count, mime);
    StringMeans(file);
    StringMeans(mime);
    StringMeans(hash);
    SizeMeans(size);
    ReferenceWf(file, mime, size, hash);
    var n := ReferenceTree(file, mime, size, hash);
    assert "" + TextOn(n, "") == TextOn(n, "");
    MembersRead(Token(Escaped(file)), Token(Escaped(mime)), Token(NatText(size)), Token(Escaped(hash)));
  }

  lemma KeyOrder()
    ensures StrBefore("file", "mime_type") && StrBefore("mime_type", "sha256") && StrBefore("sha256", "size")
    ensures !StrBefore("mime_type", "file") && !StrBefore("size", "file") && !StrBefore("size", "mime_type")
    ensures !StrBefore("sha256", "file") && !StrBefore("sha256", "mime_type")
  {
    assert "sha256"[1..] == "ha256" && "size"[1..] == "ize";
  }

  lemma MembersRead(a: Node, b: Node, c: Node, d: Node)
    ensures ParsedMembers(Member("\"file\"", a, Member("\"mime_type\"", b, Member("\"size\"", c,
                Member("\"sha256\"", d, Nil)))), [])
            == [Entry("file", Parsed(a)), Entry("mime_type", Parsed(b)), Entry("sha256", Parsed(d)),
                Entry("size", Parsed(c))]
  {
    hide Meaning, StrBefore, Parsed, Insert, ParsedMembers, IsString, Member;
    KeysMean();
    var m3 := Member("\"sha256\"", d, Nil);
    var m2 := Member("\"size\"", c, m3);
    var m1 := Member("\"mime_type\"", b, m2);
    var s1 := Insert([], Entry("file", Parsed(a)));
    var s2 := Insert(s1, Entry("mime_type", Parsed(b)));
    var s3 := Insert(s2, Entry("size", Parsed(c)));
    MemberRead("\"file\"", a, m1, []);
    MemberRead("\"mime_type\"", b, m2, s1);
    MemberRead("\"size\"", c, m3, s2);
    MemberRead("\"sha256\"", d, Nil, s3);
    InsertFour(Parsed(a), Parsed(b), Parsed(c), Parsed(d));
    NothingRead(Insert(s3, Entry("sha256", Parsed(d))));
  }

  lemma NothingRead(sofar: seq<Entry>)
    ensures ParsedMembers(Nil, sofar) == sofar
  {
  }
}
