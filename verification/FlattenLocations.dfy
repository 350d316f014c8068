/**
 Source locations in flatten.rs: every declaration has its place in the flat file, each kept
 location goes to the place of its own declaration unless its index was negative, and no
 comment is dropped.
 */
module FlattenLocations {
  import opened Common
  import opened FlattenNames
  import opened FlattenRewrite
  import opened Flatten

  // ---- Every declaration has its place ------------------------------------------------------------------

  /** Declarations of one kind in all the files. */
  function Total(fs: seq<File>, kind: int): nat {
    if fs == [] then 0 else Total(fs[..|fs| - 1], kind) + CountOf(fs[|fs| - 1], kind)
  }

  /** Declaration `i` of the file became declaration `j` of the flat file. */
  ghost predicate ImageAt(t: Table, f: File, flat: File, kind: int, i: nat, j: nat) {
    (kind == 4 ==> i < |f.messages| && j < |flat.messages| && FlatMessages(t, f, f.messages).Done?
                   && FlatMessagesAt(t, f, i, flat.messages[j]))
    && (kind == 5 ==> i < |f.enums| && j < |flat.enums| && i < |FlatEnums(t, f, f.enums)|
                      && flat.enums[j] == FlatEnums(t, f, f.enums)[i])
    && (kind == 6 ==> i < |f.services| && j < |flat.services| && i < |FlatServices(t, f, f.services)|
                      && flat.services[j] == FlatServices(t, f, f.services)[i])
    && (kind == 7 ==> i < |f.extensions| && j < |flat.extensions| && i < |FlatExtensions(t, f, f.extensions)|
                      && flat.extensions[j] == FlatExtensions(t, f, f.extensions)[i])
  }

  predicate FlatMessagesAt(t: Table, f: File, i: nat, m: Message) {
    var r := FlatMessages(t, f, f.messages);
    r.Done? && i < |r.value| && m == r.value[i]
  }

  predicate Extends(flat: File, more: File) {
    flat.messages <= more.messages && flat.enums <= more.enums && flat.services <= more.services
    && flat.extensions <= more.extensions
  }

  lemma PlaceAfter<T>(a: seq<T>, b: seq<T>, i: nat)
    requires i < |b|
    ensures (a + b)[i + |a|] == b[i]
  {
  }

  lemma MessageImage(t: Table, before: File, f: File, i: int)
    requires AppendFile(t, before, f).Done? && 0 <= i
    requires i + |before.messages| < |AppendFile(t, before, f).value.messages|
    ensures ImageAt(t, f, AppendFile(t, before, f).value, 4, i, i + |before.messages|)
  {
    FlatMessagesLength(t, f, f.messages);
    hide FlatMessages, FlatEnums, FlatServices, FlatExtensions;
    PlaceAfter(before.messages, FlatMessages(t, f, f.messages).value, i);
  }

  lemma EnumImage(t: Table, before: File, f: File, i: int)
    requires AppendFile(t, before, f).Done? && 0 <= i && i + |before.enums| < |AppendFile(t, before, f).value.enums|
    ensures ImageAt(t, f, AppendFile(t, before, f).value, 5, i, i + |before.enums|)
  {
    EnumsLength(t, f, f.enums);
    hide FlatMessages, FlatEnums, FlatServices, FlatExtensions;
    PlaceAfter(before.enums, FlatEnums(t, f, f.enums), i);
  }

  lemma ServiceImage(t: Table, before: File, f: File, i: int)
    requires AppendFile(t, before, f).Done? && 0 <= i
    requires i + |before.services| < |AppendFile(t, before, f).value.services|
    ensures ImageAt(t, f, AppendFile(t, before, f).value, 6, i, i + |before.services|)
  {
    FlatServicesMatch(t, f, f.services);
    hide FlatMessages, FlatEnums, FlatServices, FlatExtensions, RpcsMatch;
    PlaceAfter(before.services, FlatServices(t, f, f.services), i);
  }

  lemma ExtensionImage(t: Table, before: File, f: File, i: int)
    requires AppendFile(t, before, f).Done? && 0 <= i
    requires i + |before.extensions| < |AppendFile(t, before, f).value.extensions|
    ensures ImageAt(t, f, AppendFile(t, before, f).value, 7, i, i + |before.extensions|)
  {
    FlatExtensionsMatch(t, f, f.extensions);
    hide FlatMessages, FlatEnums, FlatServices, FlatExtensions, Match;
    PlaceAfter(before.extensions, FlatExtensions(t, f, f.extensions), i);
  }

  lemma {:induction false} EnumsLength(t: Table, f: File, es: seq<EnumDecl>)
    ensures |FlatEnums(t, f, es)| == |es|
    decreases |es|
  {
    hide RewriteEnum, ShortName;
    if es != [] { EnumsLength(t, f, es[..|es| - 1]); }
  }

  lemma ImageKept(t: Table, f: File, flat: File, more: File, kind: int, i: nat, j: nat)
    requires ImageAt(t, f, flat, kind, i, j) && Extends(flat, more)
    ensures ImageAt(t, f, more, kind, i, j)
  {
    hide FlatMessages, FlatEnums, FlatServices, FlatExtensions;
  }

  /** The place of declaration `q` of file `i`: those of the files before come first. */
  function Spot(fs: seq<File>, i: nat, kind: int, q: int): int
    requires i <= |fs|
  {
    Total(fs[..i], kind) + q
  }

  /** The flat file has the image of declaration `q` of file `i` in its place. */
  ghost predicate PlacedAt(t: Table, fs: seq<File>, flat: File, i: nat, kind: int, q: int) {
    && i < |fs| && 0 <= q < CountOf(fs[i], kind)
    && ImageAt(t, fs[i], flat, kind, q, Spot(fs, i, kind, q))
  }

  lemma AppendCounts(t: Table, before: File, f: File, kind: int)
    requires AppendFile(t, before, f).Done?
    ensures CountOf(AppendFile(t, before, f).value, kind) == CountOf(before, kind) + CountOf(f, kind)
    ensures Extends(before, AppendFile(t, before, f).value)
  {
    hide FlatMessages, FlatEnums, FlatServices, FlatExtensions, RpcsMatch, AllMatch, RpcsOf;
    FlatMessagesLength(t, f, f.messages);
    EnumsLength(t, f, f.enums);
    FlatServicesMatch(t, f, f.services);
    FlatExtensionsLength(t, f, f.extensions);
  }

  lemma FlatExtensionsLength(t: Table, f: File, xs: seq<Field>)
    ensures |FlatExtensions(t, f, xs)| == |xs|
  {
    hide FlatExtensions, Match;
    FlatExtensionsMatch(t, f, xs);
  }

  lemma OwnImage(t: Table, before: File, f: File, kind: int, q: nat)
    requires AppendFile(t, before, f).Done? && q < CountOf(f, kind)
    ensures ImageAt(t, f, AppendFile(t, before, f).value, kind, q, CountOf(before, kind) + q)
  {
    AppendCounts(t, before, f, kind);
    hide ImageAt, AppendFile;
    if kind == 4 {
      MessageImage(t, before, f, q);
    } else if kind == 5 {
      EnumImage(t, before, f, q);
    } else if kind == 6 {
      ServiceImage(t, before, f, q);
    } else {
      ExtensionImage(t, before, f, q);
    }
  }

  /** The merged file before the last file, and what the last file makes of it. */
  lemma LastMerge(below: Below, t: Table, root: string, fs: seq<File>)
    requires fs != [] && MergeAll(below, t, root, fs).Done?
    ensures var m, f := MergeAll(below, t, root, fs[..|fs| - 1]), fs[|fs| - 1];
            m.Done? && AppendFile(t, m.value.flat, f).Done?
            && MergeAll(below, t, root, fs).value == AddLocations(below, m.value.flat, AppendFile(t, m.value.flat,
                f).value, f, m.value.header)
  {
    hide AppendFile, AddLocations;
  }

  lemma PlacedStep(t: Table, p: seq<File>, before: File, f: File, flat: File, i: nat, kind: int, q: int)
    requires AppendFile(t, before, f).Done? && Extends(AppendFile(t, before, f).value, flat)
    requires CountOf(before, kind) == Total(p, kind)
    requires i <= |p| && 0 <= q < CountOf((p + [f])[i], kind) && (i < |p| ==> PlacedAt(t, p, before, i, kind, q))
    ensures PlacedAt(t, p + [f], flat, i, kind, q)
  {
    hide AppendFile, ImageAt, Total;
    var fs, after := p + [f], AppendFile(t, before, f).value;
    AppendCounts(t, before, f, kind);
    assert fs[..i] == p[..i];
    if i < |p| {
      ImageKept(t, fs[i], before, after, kind, q, Spot(p, i, kind, q));
    } else {
      assert p[..i] == p;
      OwnImage(t, before, f, kind, q);
    }
    ImageKept(t, fs[i], after, flat, kind, q, Spot(fs, i, kind, q));
  }

  lemma AddedKeeps(below: Below, before: File, after: File, f: File, header: seq<string>, kind: int)
    ensures var flat := AddLocations(below, before, after, f, header).flat;
            Extends(after, flat) && CountOf(flat, kind) == CountOf(after, kind)
  {
    hide KeptLocations, LostComments;
  }

  /** Each declaration of each file is in the flat file, behind all those of the files before. */
  lemma {:induction false} DeclarationsPlaced(below: Below, t: Table, root: string, fs: seq<File>, kind: int)
    requires MergeAll(below, t, root, fs).Done?
    ensures CountOf(MergeAll(below, t, root, fs).value.flat, kind) == Total(fs, kind)
    ensures forall i, q :: 0 <= i < |fs| && 0 <= q < CountOf(fs[i], kind) ==>
              PlacedAt(t, fs, MergeAll(below, t, root, fs).value.flat, i, kind, q)
    decreases |fs|
  {
    if fs != [] {
      hide MergeAll, AppendFile, ImageAt, AddLocations, PlacedAt, Extends, CountOf;
      LastMerge(below, t, root, fs);
      var n := |fs| - 1;
      var p, f, m := fs[..n], fs[n], MergeAll(below, t, root, fs[..n]).value;
      var after, flat := AppendFile(t, m.flat, f).value, MergeAll(below, t, root, fs).value.flat;
      DeclarationsPlaced(below, t, root, p, kind);
      AddedKeeps(below, m.flat, after, f, m.header, kind);
      AppendCounts(t, m.flat, f, kind);
      assert p + [f] == fs;
      forall i, q | 0 <= i < |fs| && 0 <= q < CountOf(fs[i], kind) ensures PlacedAt(t, fs, flat, i, kind, q) {
        PlacedStep(t, p, m.flat, f, flat, i, kind, q);
      }
    }
  }

  /** Every place in the flat file belongs to a declaration of one of the files. */
  lemma {:induction false} OwnerOf(fs: seq<File>, kind: int, j: int) returns (i: nat, q: nat)
    requires 0 <= j < Total(fs, kind)
    ensures i < |fs| && q < CountOf(fs[i], kind) && j == Spot(fs, i, kind, q)
    decreases |fs|
  {
    var n := |fs| - 1;
    if j < Total(fs[..n], kind) {
      i, q := OwnerOf(fs[..n], kind, j);
      assert fs[..n][..i] == fs[..i];
    } else {
      i, q := n, j - Total(fs[..n], kind);
    }
  }

  // ---- Where source locations land ------------------------------------------------------------------------

  function Locations(f: File): seq<Location> {
    if f.info.Some? then f.info.value else []
  }

  /** Where a kept location comes from: the file and its index there. */
  datatype Origin = Origin(file: nat, at: nat)

  predicate Earlier(a: Origin, b: Origin) {
    a.file < b.file || (a.file == b.file && a.at < b.at)
  }

  /** The path of a location behind the declarations of the files before the i-th. */
  function Shifted(fs: seq<File>, i: nat, l: Location): Location
    requires i <= |fs| && Mappable(l)
  {
    l.(path := l.path[1 := Spot(fs, i, l.path[0], l.path[1])])
  }

  lemma {:induction false} PrefixDone(below: Below, t: Table, root: string, fs: seq<File>, i: nat)
    requires MergeAll(below, t, root, fs).Done? && i < |fs|
    ensures MergeAll(below, t, root, fs[..i]).Done?
    ensures AppendFile(t, MergeAll(below, t, root, fs[..i]).value.flat, fs[i]).Done?
    decreases |fs|
  {
    hide *;
    LastMerge(below, t, root, fs);
    var n := |fs| - 1;
    if i < n {
      PrefixDone(below, t, root, fs[..n], i);
      assert fs[..n][..i] == fs[..i];
    }
  }

  /** The flat file the existence check walks for the locations of file `i`. */
  function Walked(below: Below, t: Table, root: string, fs: seq<File>, i: nat): File
    requires MergeAll(below, t, root, fs).Done? && i < |fs|
  {
    PrefixDone(below, t, root, fs, i);
    AppendFile(t, MergeAll(below, t, root, fs[..i]).value.flat, fs[i]).value
  }

  /** The shifted path leads to something the flat file has by the end of the location's own file. */
  predicate Kept(below: Below, t: Table, root: string, fs: seq<File>, o: Origin)
    requires MergeAll(below, t, root, fs).Done?
  {
    && o.file < |fs| && o.at < |Locations(fs[o.file])|
    && var l := Locations(fs[o.file])[o.at];
    Mappable(l)
    && var path := Shifted(fs, o.file, l).path;
    0 <= path[1] < Total(fs[..o.file + 1], path[0])
    && (|path| == 2 || below(Walked(below, t, root, fs, o.file), path))
  }

  /** Origins of the first `n` locations of file `i` that find a place. */
  function KeptIn(below: Below, before: File, after: File, ls: seq<Location>, i: nat): seq<Origin> {
    if ls == [] then []
    else
      var n := |ls| - 1;
      KeptIn(below, before, after, ls[..n], i)
      + if Mappable(ls[n]) && PathExists(below, after, Remap(before, ls[n]).path) then [Origin(i, n)] else []
  }

  /** Origins of all the locations of the merged file. */
  function Origins(below: Below, t: Table, root: string, fs: seq<File>): seq<Origin>
    requires MergeAll(below, t, root, fs).Done?
  {
    if fs == [] then []
    else
      var n := |fs| - 1;
      var before := MergeAll(below, t, root, fs[..n]).value.flat;
      Origins(below, t, root, fs[..n])
      + KeptIn(below, before, AppendFile(t, before, fs[n]).value, Locations(fs[n]), n)
  }

  lemma {:induction false} KeptInFacts(below: Below, before: File, after: File, ls: seq<Location>, i: nat)
    ensures var os, ks := KeptIn(below, before, after, ls, i), KeptLocations(below, before, after, ls);
            |os| == |ks|
            && (forall k :: 0 <= k < |os| ==>
                  os[k].file == i && os[k].at < |ls| && Mappable(ls[os[k].at]) && ks[k] == Remap(before, ls[os[k].at]))
            && (forall x, y :: 0 <= x < y < |os| ==> os[x].at < os[y].at)
            && forall a :: 0 <= a < |ls| ==>
                 (Origin(i, a) in os <==> Mappable(ls[a]) && PathExists(below, after, Remap(before, ls[a]).path))
    decreases |ls|
  {
    hide Mappable, PathExists, Remap;
    if ls != [] { KeptInFacts(below, before, after, ls[..|ls| - 1], i); }
  }

  /** `ls` are the locations with the given origins, each behind the declarations of the files before its own. */
  ghost predicate Relocates(fs: seq<File>, os: seq<Origin>, ls: seq<Location>) {
    |os| == |ls| && forall k :: 0 <= k < |os| ==> Relocated(fs, os[k], ls[k])
  }

  predicate Relocated(fs: seq<File>, o: Origin, l: Location) {
    && o.file < |fs| && o.at < |Locations(fs[o.file])| && Mappable(Locations(fs[o.file])[o.at])
    && l == Shifted(fs, o.file, Locations(fs[o.file])[o.at])
  }

  /** Shifting by what the merged file holds is shifting by what the files before declare. */
  lemma RemapShifts(below: Below, t: Table, root: string, fs: seq<File>, i: nat, l: Location)
    requires i <= |fs| && MergeAll(below, t, root, fs[..i]).Done? && Mappable(l)
    ensures Remap(MergeAll(below, t, root, fs[..i]).value.flat, l) == Shifted(fs, i, l)
  {
    hide MergeAll;
    DeclarationsPlaced(below, t, root, fs[..i], l.path[0]);
  }

  lemma AddedLocations(below: Below, before: File, after: File, f: File, header: seq<string>)
    requires before.info == after.info
    ensures Locations(AddLocations(below, before, after, f, header).flat)
            == Locations(before) + KeptLocations(below, before, after, Locations(f))
  {
    hide LostComments;
  }

  lemma {:induction false} MergedLocations(below: Below, t: Table, root: string, fs: seq<File>)
    requires MergeAll(below, t, root, fs).Done?
    ensures Relocates(fs, Origins(below, t, root, fs), Locations(MergeAll(below, t, root, fs).value.flat))
    decreases |fs|
  {
    if fs != [] {
      LastMerge(below, t, root, fs);
      var n := |fs| - 1;
      var p, f, m := fs[..n], fs[n], MergeAll(below, t, root, fs[..n]).value;
      var after := AppendFile(t, m.flat, f).value;
      AddedLocations(below, m.flat, after, f, m.header);
      MergedLocations(below, t, root, p);
      var a, x := Origins(below, t, root, p), Locations(m.flat);
      var b, y := KeptIn(below, m.flat, after, Locations(f), n), KeptLocations(below, m.flat, after, Locations(f));
      KeptInFacts(below, m.flat, after, Locations(f), n);
      assert Origins(below, t, root, fs) == a + b;
      assert Locations(MergeAll(below, t, root, fs).value.flat) == x + y;
      hide Origins, MergeAll, KeptIn, KeptLocations, AppendFile, AddLocations, Remap, Shifted, Mappable, Locations;
      forall k | 0 <= k < |a + b| ensures Relocated(fs, (a + b)[k], (x + y)[k]) {
        if k < |a| {
          assert Relocated(p, a[k], x[k]);
          SameShift(fs, n, a[k], x[k]);
        } else {
          RemapShifts(below, t, root, fs, n, Locations(f)[b[k - |a|].at]);
        }
      }
    }
  }

  lemma SameShift(fs: seq<File>, n: nat, o: Origin, l: Location)
    requires n <= |fs| && Relocated(fs[..n], o, l)
    ensures Relocated(fs, o, l)
  {
    assert fs[..n][..o.file] == fs[..o.file];
  }

  ghost predicate Ascending(os: seq<Origin>) {
    forall x, y :: 0 <= x < y < |os| ==> Earlier(os[x], os[y])
  }

  lemma AscendAppend(a: seq<Origin>, b: seq<Origin>, n: nat)
    requires Ascending(a) && forall k :: 0 <= k < |a| ==> a[k].file < n
    requires forall k :: 0 <= k < |b| ==> b[k].file == n
    requires forall x, y :: 0 <= x < y < |b| ==> b[x].at < b[y].at
    ensures Ascending(a + b) && forall k :: 0 <= k < |a + b| ==> (a + b)[k].file <= n
  {
  }

  /** The order of the files and, within a file, of its locations is kept, and none appears twice. */
  lemma {:induction false} OriginsAscend(below: Below, t: Table, root: string, fs: seq<File>)
    requires MergeAll(below, t, root, fs).Done?
    ensures var os := Origins(below, t, root, fs);
            (forall k :: 0 <= k < |os| ==> os[k].file < |fs|)
            && Ascending(os)
    decreases |fs|
  {
    hide MergeAll, AppendFile, KeptIn, KeptLocations, Locations;
    if fs != [] {
      LastMerge(below, t, root, fs);
      var n := |fs| - 1;
      var before := MergeAll(below, t, root, fs[..n]).value.flat;
      OriginsAscend(below, t, root, fs[..n]);
      KeptInFacts(below, before, AppendFile(t, before, fs[n]).value, Locations(fs[n]), n);
      var a, b := Origins(below, t, root, fs[..n]),
                  KeptIn(below, before, AppendFile(t, before, fs[n]).value, Locations(fs[n]), n);
      assert Origins(below, t, root, fs) == a + b;
      AscendAppend(a, b, n);
    }
  }

  lemma KeptInPrefix(below: Below, t: Table, root: string, fs: seq<File>, n: nat, o: Origin)
    requires n <= |fs| && MergeAll(below, t, root, fs).Done? && MergeAll(below, t, root, fs[..n]).Done? && o.file < n
    ensures Kept(below, t, root, fs[..n], o) <==> Kept(below, t, root, fs, o)
  {
    hide MergeAll, AppendFile, Mappable, Locations;
    assert fs[..n][..o.file] == fs[..o.file] && fs[..n][..o.file + 1] == fs[..o.file + 1];
  }

  lemma KeptInLast(below: Below, t: Table, root: string, fs: seq<File>, at: nat)
    requires fs != [] && MergeAll(below, t, root, fs).Done? && at < |Locations(fs[|fs| - 1])|
    ensures MergeAll(below, t, root, fs[..|fs| - 1]).Done?
    ensures var n, m := |fs| - 1, MergeAll(below, t, root, fs[..|fs| - 1]).value.flat;
            var l := Locations(fs[n])[at];
            AppendFile(t, m, fs[n]).Done?
            && (Kept(below, t, root, fs, Origin(n, at)) <==>
                Mappable(l) && PathExists(below, AppendFile(t, m, fs[n]).value, Remap(m, l).path))
  {
    hide MergeAll, AppendFile, Locations, CountOf, Total;
    LastMerge(below, t, root, fs);
    var n := |fs| - 1;
    var m, l := MergeAll(below, t, root, fs[..n]).value.flat, Locations(fs[n])[at];
    assert fs[..n + 1] == fs;
    if Mappable(l) {
      RemapShifts(below, t, root, fs, n, l);
      var kind := Shifted(fs, n, l).path[0];
      DeclarationsPlaced(below, t, root, fs[..n], kind);
      AppendCounts(t, m, fs[n], kind);
      assert Total(fs, kind) == Total(fs[..n], kind) + CountOf(fs[n], kind) by { TotalLast(fs, kind); }
    }
  }

  lemma TotalLast(fs: seq<File>, kind: int)
    requires fs != []
    ensures Total(fs, kind) == Total(fs[..|fs| - 1], kind) + CountOf(fs[|fs| - 1], kind)
  {
  }

  /** A location is in the merged file exactly when it finds a place. */
  lemma {:induction false} OriginsAreKept(below: Below, t: Table, root: string, fs: seq<File>, o: Origin)
    requires MergeAll(below, t, root, fs).Done?
    ensures o in Origins(below, t, root, fs) <==> Kept(below, t, root, fs, o)
    decreases |fs|
  {
    hide MergeAll, AppendFile, KeptIn, KeptLocations, Locations, Mappable, PathExists, Remap, Shifted, Walked;
    if fs != [] {
      LastMerge(below, t, root, fs);
      var n := |fs| - 1;
      var before := MergeAll(below, t, root, fs[..n]).value.flat;
      var a, b := Origins(below, t, root, fs[..n]),
                  KeptIn(below, before, AppendFile(t, before, fs[n]).value, Locations(fs[n]), n);
      assert Origins(below, t, root, fs) == a + b;
      OriginsAreKept(below, t, root, fs[..n], o);
      OriginsAscend(below, t, root, fs[..n]);
      KeptInFacts(below, before, AppendFile(t, before, fs[n]).value, Locations(fs[n]), n);
      if o.file < n {
        KeptInPrefix(below, t, root, fs, n, o);
      } else if o.file == n && o.at < |Locations(fs[n])| {
        KeptInLast(below, t, root, fs, o.at);
      }
    }
  }

  /**
   Where location `l` of file `i` goes. With an index from 0 on it lies in the part of its own
   file, at the image of the very declaration it was about; with a negative index it lies at
   the image of some declaration of an earlier file.
   */
  ghost predicate Lands(t: Table, fs: seq<File>, flat: File, i: nat, l: Location)
    requires i < |fs| && Mappable(l)
  {
    var kind, j := l.path[0], Shifted(fs, i, l).path[1];
    && (l.path[1] >= 0 <==> Spot(fs, i, kind, 0) <= j < Spot(fs, i + 1, kind, 0))
    && (l.path[1] >= 0 ==> j == Spot(fs, i, kind, l.path[1]) && PlacedAt(t, fs, flat, i, kind, l.path[1]))
    && (l.path[1] < 0 ==> Strays(t, fs, flat, i, kind, j))
  }

  ghost predicate Strays(t: Table, fs: seq<File>, flat: File, i: nat, kind: int, j: int)
    requires i < |fs|
  {
    exists h, q :: 0 <= h < i && PlacedAt(t, fs, flat, h, kind, q) && j == Spot(fs, h, kind, q)
  }

  lemma KeptLands(below: Below, t: Table, root: string, fs: seq<File>, o: Origin, flat: File)
    requires MergeAll(below, t, root, fs).Done? && Kept(below, t, root, fs, o)
    requires Extends(MergeAll(below, t, root, fs).value.flat, flat)
    ensures Lands(t, fs, flat, o.file, Locations(fs[o.file])[o.at])
  {
    hide MergeAll, AppendFile, ImageAt, Walked, Locations, Extends;
    var i, l := o.file, Locations(fs[o.file])[o.at];
    var kind, m := l.path[0], MergeAll(below, t, root, fs).value.flat;
    DeclarationsPlaced(below, t, root, fs, kind);
    assert fs[..i + 1][..i] == fs[..i];
    TotalLast(fs[..i + 1], kind);
    hide Total, CountOf;
    if l.path[1] >= 0 {
      assert PlacedAt(t, fs, m, i, kind, l.path[1]);
      ImageKept(t, fs[i], m, flat, kind, l.path[1], Spot(fs, i, kind, l.path[1]));
    } else {
      var h, q := OwnerOf(fs[..i], kind, Shifted(fs, i, l).path[1]);
      assert fs[..i][..h] == fs[..h] && fs[..i][h] == fs[h];
      assert PlacedAt(t, fs, m, h, kind, q);
      ImageKept(t, fs[h], m, flat, kind, q, Spot(fs, h, kind, q));
      assert PlacedAt(t, fs, flat, h, kind, q);
    }
  }

  /**
   The locations of the flat file, but the one for the lost comments, are those of the files
   that find a place, in order, each once and each behind the declarations of the files before
   its own; it lies under the image of its own declaration exactly when its index was not negative.
   */
  lemma LocationsStay(below: Below, fs: seq<File>, preferred: string)
    requires FlattenFiles(below, fs, preferred).Done?
    ensures var root, ordered, flat := ChooseRoot(fs, preferred), SortByName(fs),
                FlattenFiles(below, fs, preferred).value;
            var t := SymbolTable(root, ordered);
            MergeAll(below, t, root, ordered).Done?
            && var os := Origins(below, t, root, ordered);
            |os| <= |Locations(flat)| <= |os| + 1
            && (|Locations(flat)| == |os| + 1 ==> Locations(flat)[|os|].path == [])
            && Relocates(ordered, os, Locations(flat)[..|os|])
            && Ascending(os)
            && (forall o :: o in os <==> Kept(below, t, root, ordered, o))
            && forall o :: o in os ==> Lands(t, ordered, flat, o.file, Locations(ordered[o.file])[o.at])
  {
    hide SortByName, SymbolTable, ChooseRoot, MergeAll, Origins, Relocates, Ascending, Lands, JoinLines, Walked,
        Shifted;
    var root, ordered := ChooseRoot(fs, preferred), SortByName(fs);
    var t := SymbolTable(root, ordered);
    var m, flat := MergeAll(below, t, root, ordered).value, FlattenFiles(below, fs, preferred).value;
    var os := Origins(below, t, root, ordered);
    assert flat == WithHeader(m);
    assert Extends(m.flat, flat);
    MergedLocations(below, t, root, ordered);
    RelocatesLength(ordered, os, Locations(m.flat));
    HeaderLast(m);
    OriginsAscend(below, t, root, ordered);
    hide FlattenFiles, Extends, Locations, WithHeader;
    forall o ensures o in os <==> Kept(below, t, root, ordered, o) {
      OriginsAreKept(below, t, root, ordered, o);
    }
    forall o | o in os ensures Lands(t, ordered, flat, o.file, Locations(ordered[o.file])[o.at]) {
      OriginsAreKept(below, t, root, ordered, o);
      KeptLands(below, t, root, ordered, o, flat);
    }
  }

  lemma RelocatesLength(fs: seq<File>, os: seq<Origin>, ls: seq<Location>)
    requires Relocates(fs, os, ls)
    ensures |os| == |ls|
  {
  }

  lemma HeaderLast(m: Merge)
    ensures var all, ls := Locations(WithHeader(m)), Locations(m.flat);
            |ls| <= |all| <= |ls| + 1 && all[..|ls|] == ls && (|all| == |ls| + 1 ==> all[|ls|].path == [])
  {
    hide JoinLines;
  }

  /** The comments of a location that finds no place are among the collected ones. */
  lemma {:induction false} LostAt(below: Below, before: File, after: File, f: File, ls: seq<Location>, mappable: bool,
      a: nat)
    requires a < |ls| && ls[a].comments.Some? && Mappable(ls[a]) == mappable
    requires !(mappable && PathExists(below, after, Remap(before, ls[a]).path))
    ensures CommentText(f, ls[a])[0] in LostComments(below, before, after, f, ls, mappable)
    decreases |ls|
  {
    hide Remap, PathExists;
    var n := |ls| - 1;
    if a < n { LostAt(below, before, after, f, ls[..n], mappable, a); }
  }

  lemma LostInFile(below: Below, before: File, after: File, f: File, header: seq<string>, at: nat)
    requires at < |Locations(f)| && Locations(f)[at].comments.Some?
    requires !(Mappable(Locations(f)[at]) && PathExists(below, after, Remap(before, Locations(f)[at]).path))
    ensures CommentText(f, Locations(f)[at])[0] in AddLocations(below, before, after, f, header).header
  {
    hide Remap, PathExists, LostComments, CommentText, KeptLocations;
    LostAt(below, before, after, f, Locations(f), Mappable(Locations(f)[at]), at);
  }

  lemma {:induction false} LostAreCollected(below: Below, t: Table, root: string, fs: seq<File>, o: Origin)
    requires MergeAll(below, t, root, fs).Done? && !Kept(below, t, root, fs, o)
    requires o.file < |fs| && o.at < |Locations(fs[o.file])| && Locations(fs[o.file])[o.at].comments.Some?
    ensures CommentText(fs[o.file], Locations(fs[o.file])[o.at])[0] in MergeAll(below, t, root, fs).value.header
    decreases |fs|
  {
    hide MergeAll, AppendFile, AddLocations, Locations, Mappable, PathExists, Remap, CommentText, Kept;
    LastMerge(below, t, root, fs);
    var n, m := |fs| - 1, MergeAll(below, t, root, fs[..|fs| - 1]).value;
    if o.file < n {
      KeptInPrefix(below, t, root, fs, n, o);
      LostAreCollected(below, t, root, fs[..n], o);
      HeaderGrows(below, m.flat, AppendFile(t, m.flat, fs[n]).value, fs[n], m.header);
    } else {
      KeptInLast(below, t, root, fs, o.at);
      LostInFile(below, m.flat, AppendFile(t, m.flat, fs[n]).value, fs[n], m.header, o.at);
    }
  }

  lemma HeaderGrows(below: Below, before: File, after: File, f: File, header: seq<string>)
    ensures header <= AddLocations(below, before, after, f, header).header
  {
    hide LostComments, KeptLocations;
  }

  /** No comment is dropped: that of a location without a place is in the text of the last location. */
  lemma CommentsStay(below: Below, fs: seq<File>, preferred: string, o: Origin)
    requires FlattenFiles(below, fs, preferred).Done?
    requires var ordered := SortByName(fs);
             o.file < |ordered| && o.at < |Locations(ordered[o.file])|
             && Locations(ordered[o.file])[o.at].comments.Some?
    ensures var root, ordered, flat := ChooseRoot(fs, preferred), SortByName(fs),
                FlattenFiles(below, fs, preferred).value;
            var t := SymbolTable(root, ordered);
            MergeAll(below, t, root, ordered).Done?
            && (!Kept(below, t, root, ordered, o) ==>
                  var f, ls := ordered[o.file], Locations(flat);
                  var text := "Comments from " + f.name + ":\n" + Locations(f)[o.at].comments.value;
                  ls != [] && exists a, b :: ls[|ls| - 1] == Location([], Some(a + text + b)))
  {
    hide SortByName, SymbolTable, ChooseRoot, MergeAll, Kept, JoinLines;
    var root, ordered := ChooseRoot(fs, preferred), SortByName(fs);
    var t := SymbolTable(root, ordered);
    if !Kept(below, t, root, ordered, o) {
      var l := Locations(ordered[o.file])[o.at];
      var header := MergeAll(below, t, root, ordered).value.header;
      LostAreCollected(below, t, root, ordered, o);
      var a, b := JoinHas(header, CommentText(ordered[o.file], l)[0]);
    }
  }

  /** Every joined line is in the text. */
  lemma {:induction false} JoinHas(xs: seq<string>, x: string) returns (a: string, b: string)
    requires x in xs
    ensures JoinLines(xs) == a + x + b
    decreases |xs|
  {
    var n := |xs| - 1;
    if x == xs[n] {
      a, b := if n == 0 then "" else JoinLines(xs[..n]) + "\n", "";
      assert a + x + b == a + x && "" + x == x;
    } else {
      a, b := JoinHas(xs[..n], x);
      assert a + x + b + "\n" + xs[n] == a + x + (b + "\n" + xs[n]);
      b := b + "\n" + xs[n];
    }
  }

  // ---- A negative index through the whole pass ----------------------------------------------------------

  function Bare(name: string): Message {
    Message(name, [], [], [], [], [])
  }

  function BareFile(name: string, message: string, info: Option<seq<Location>>): File {
    File(name, "p", "proto3", [Bare(message)], [], [], [], info)
  }

  lemma RegisterBare(t: Table, f: File, name: string)
    requires f.pkg == "p" && f.messages == [Bare(name)] && f.enums == [] && f.services == [] && f.extensions == []
    requires name !in t.used
    ensures var r := RegisterFile("p", t, f);
            r.used == t.used + {name} && r.types == t.types[Qualify("p", name) := Qualify("p", name)]
  {
    assert f.messages[..0] == [];
    assert Reserved(t.used, name) == name;
    var o := Qualify("p", name);
    assert NestedNames(o, Bare(name)) == [];
    assert RegisterMessages("p", t, f, []) == t;
    assert RegisterFile("p", t, f) == RegisterMessage("p", t, f, Bare(name));
  }

  lemma {:induction false} PassOfRoot(root: string, fs: seq<File>)
    requires forall i :: 0 <= i < |fs| ==> fs[i].pkg == root
    ensures PassOf(root, fs, true) == fs && PassOf(root, fs, false) == []
    decreases |fs|
  {
    if fs != [] {
      PassOfRoot(root, fs[..|fs| - 1]);
      assert fs[..|fs| - 1] + [fs[|fs| - 1]] == fs;
    }
  }

  lemma RegisterTwo(root: string, a: File, b: File)
    requires a.pkg == root && b.pkg == root
    ensures SymbolTable(root, [a, b]) == RegisterFile(root, RegisterFile(root, NO_SYMBOLS, a), b)
  {
    hide RegisterFile, PassOf;
    var fs := [a, b];
    PassOfRoot(root, fs);
    assert fs[..1] == [a] && [a][..0] == [] && fs + [] == fs;
    assert RegisterAll(root, NO_SYMBOLS, []) == NO_SYMBOLS;
    assert RegisterAll(root, NO_SYMBOLS, [a]) == RegisterFile(root, NO_SYMBOLS, a);
  }

  lemma TwoBareTypes(a: File, b: File)
    requires a == BareFile("a", "M", a.info) && b == BareFile("b", "N", b.info)
    ensures SymbolTable("p", [a, b]).types == map["p.M" := "p.M", "p.N" := "p.N"]
  {
    hide RegisterFile, SymbolTable;
    RegisterTwo("p", a, b);
    var t := RegisterFile("p", NO_SYMBOLS, a);
    RegisterBare(NO_SYMBOLS, a, "M");
    assert "N" !in t.used by { assert "N"[0] != "M"[0]; }
    RegisterBare(t, b, "N");
    assert Qualify("p", "M") == "p.M" && Qualify("p", "N") == "p.N";
    assert t.types == map["p.M" := "p.M"];
  }

  lemma FlatBare(t: Table, f: File, name: string)
    requires f.pkg == "p" && f.messages == [Bare(name)]
    requires '.' !in name && name != "" && Lookup(t.types, "p." + name) == "p." + name
    ensures FlatMessages(t, f, f.messages) == Done([Bare(name)])
  {
    hide RewriteMessage, ShortName;
    var ms := [Bare(name)];
    assert Qualify(f.pkg, ms[0].name) == "p" + "." + name == "p." + name;
    ShortOfQualified("p", name);
    BareRewritten(t, f.syntax, Qualify(f.pkg, ms[0].name), name);
    assert ms[|ms| - 1] == Bare(name) && ms[..|ms| - 1] == [];
    assert FlatMessages(t, f, []) == Done([]);
    assert ShortName(Lookup(t.types, Qualify(f.pkg, ms[0].name))) == name;
    var none: seq<Message> := [];
    assert none + [Bare(name)] == ms && f.messages == ms;
  }

  lemma AppendBare(t: Table, flat: File, f: File, name: string)
    requires f.pkg == "p" && f.messages == [Bare(name)] && f.enums == [] && f.services == [] && f.extensions == []
    requires '.' !in name && name != "" && Lookup(t.types, "p." + name) == "p." + name
    ensures AppendFile(t, flat, f) == Done(flat.(messages := flat.messages + [Bare(name)]))
  {
    hide FlatMessages;
    FlatBare(t, f, name);
    assert flat.enums + [] == flat.enums && flat.services + [] == flat.services
           && flat.extensions + [] == flat.extensions;
  }

  lemma BareRewritten(t: Table, syntax: string, full: string, name: string)
    ensures RewriteMessage(t, syntax, full, Bare(name)) == Done(Bare(name))
  {
  }

  lemma SortTwo(a: File, b: File)
    requires a.name == "a" && b.name == "b"
    ensures SortByName([b, a]) == [a, b]
  {
    assert [b, a][1..] == [a] && [a][1..] == [];
    assert !StrBefore("b", "a") by { assert "b"[0] > "a"[0]; }
    assert InsertFile(a, []) == [a] && InsertFile(b, []) == [b];
    assert SortByName([a]) == [a];
    assert InsertFile(b, [a]) == [a, b];
  }

  /**
   A negative index is not dropped: the only location of file `b`, about no declaration, ends
   up on message `M` of file `a`.
   */
  lemma NegativeIndexStrays(below: Below)
    ensures var l := Location([4, -1], None);
            var r := FlattenFiles(below, [BareFile("b", "N", Some([l])), BareFile("a", "M", None)], "p");
            r.Done? && r.value.messages == [Bare("M"), Bare("N")] && r.value.info == Some([Location([4, 0], None)])
  {
    hide SymbolTable, SortByName, ChooseRoot, Lookup, MergeAll, JoinLines;
    var a, b := BareFile("a", "M", None), BareFile("b", "N", Some([Location([4, -1], None)]));
    SortTwo(a, b);
    PreferredRoot([b, a], "p", 0);
    TwoBareTypes(a, b);
    BareLookups(SymbolTable("p", [a, b]).types);
    MergeTwo(below, SymbolTable("p", [a, b]), a, b);
  }

  lemma BareLookups(types: map<string, string>)
    requires types == map["p.M" := "p.M", "p.N" := "p.N"]
    ensures Lookup(types, "p.M") == "p.M" && Lookup(types, "p.N") == "p.N"
  {
    assert "p.M"[2] != "p.N"[2];
  }

  lemma PreferredRoot(fs: seq<File>, preferred: string, i: nat)
    requires i < |fs| && fs[i].pkg == preferred
    ensures ChooseRoot(fs, preferred) == preferred
  {
  }

  lemma MergeTwo(below: Below, t: Table, a: File, b: File)
    requires a == BareFile("a", "M", None) && b == BareFile("b", "N", Some([Location([4, -1], None)]))
    requires Lookup(t.types, "p.M") == "p.M" && Lookup(t.types, "p.N") == "p.N"
    ensures MergeAll(below, t, "p", [a, b])
            == Done(Merge(File(BUNDLE_NAME, "p", "proto2", [Bare("M"), Bare("N")], [], [], [],
                               Some([Location([4, 0], None)])), []))
  {
    hide AppendFile;
    var l := Location([4, -1], None);
    var one := EmptyFlat("p").(messages := [Bare("M")]);
    var two := one.(messages := [Bare("M"), Bare("N")]);
    assert "p." + "M" == "p.M" && "p." + "N" == "p.N";
    assert [a, b][..1] == [a] && [a][..0] == [];
    AppendBare(t, EmptyFlat("p"), a, "M");
    AppendBare(t, one, b, "N");
    assert EmptyFlat("p").(messages := [] + [Bare("M")]) == one;
    assert AddLocations(below, EmptyFlat("p"), one, a, []) == Merge(one, []);
    assert MergeFile(below, t, Merge(EmptyFlat("p"), []), a) == Done(Merge(one, []));
    assert one.messages + [Bare("N")] == two.messages;
    MoveOne(below, one, two, b);
    hide AddLocations;
    assert MergeFile(below, t, Merge(one, []), b) == Done(Merge(two.(info := Some([Location([4, 0], None)])), []));
    hide MergeFile;
    assert MergeAll(below, t, "p", []) == Done(Merge(EmptyFlat("p"), []));
    assert MergeAll(below, t, "p", [a]) == Done(Merge(one, []));
  }

  lemma MoveOne(below: Below, one: File, two: File, b: File)
    requires |one.messages| == 1 && |two.messages| == 2 && two.info == None
             && b.info == Some([Location([4, -1], None)])
    ensures AddLocations(below, one, two, b, []) == Merge(two.(info := Some([Location([4, 0], None)])), [])
  {
    var l := Location([4, -1], None);
    assert [l][..0] == [] && Remap(one, l) == Location([4, 0], None);
    assert KeptLocations(below, one, two, [l]) == [Location([4, 0], None)];
    assert LostComments(below, one, two, b, [], true) == LostComments(below, one, two, b, [], false) == [];
    assert LostComments(below, one, two, b, [l], false) == [] == LostComments(below, one, two, b, [l], true);
  }
}
