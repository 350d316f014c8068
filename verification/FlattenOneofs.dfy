/**
 Removing the synthetic oneofs of proto3 `optional` fields: the other oneofs close ranks,
 and every other field keeps pointing at its own.
 */
module FlattenOneofs {
  import opened Common
  import opened FlattenNames

  datatype OneofError = NoOneofIndex(field: string) | RemovedOneof(field: string)

  datatype Result<T> = Ok(value: T) | Err(error: OneofError)

  /** Oneof indices of the proto3-optional fields. */
  function Removed(fs: seq<Field>): set<int> {
    if fs == [] then {}
    else
      var f := fs[|fs| - 1];
      Removed(fs[..|fs| - 1]) + if f.proto3Optional && f.oneofIndex.Some? then {f.oneofIndex.value} else {}
  }

  /** The first proto3-optional field without an index. */
  function Unindexed(fs: seq<Field>): Option<Field> {
    if fs == [] then None
    else if Unindexed(fs[..|fs| - 1]).Some? then Unindexed(fs[..|fs| - 1])
    else
      var f := fs[|fs| - 1];
      if f.proto3Optional && f.oneofIndex.None? then Some(f) else None
  }

  /** How many of the first n oneofs stay: the new index of oneof n. */
  function KeptCount(removed: set<int>, n: nat): nat {
    if n == 0 then 0 else KeptCount(removed, n - 1) + (if n - 1 in removed then 0 else 1)
  }

  function Kept(os: seq<string>, removed: set<int>): seq<string> {
    if os == [] then []
    else
      var n := |os| - 1;
      Kept(os[..n], removed) + if n in removed then [] else [os[n]]
  }

  predicate Stays(os: seq<string>, removed: set<int>, i: int) {
    0 <= i < |os| && i !in removed
  }

  function Retarget(os: seq<string>, removed: set<int>, f: Field): Result<Field> {
    if f.proto3Optional then Ok(f.(oneofIndex := None, proto3Optional := false))
    else if f.oneofIndex.None? then Ok(f)
    else if Stays(os, removed, f.oneofIndex.value) then
      Ok(f.(oneofIndex := Some(KeptCount(removed, f.oneofIndex.value))))
    else Err(RemovedOneof(f.name))
  }

  function RetargetAll(os: seq<string>, removed: set<int>, fs: seq<Field>): Result<seq<Field>> {
    if fs == [] then Ok([])
    else
      var p := RetargetAll(os, removed, fs[..|fs| - 1]);
      if p.Err? then p
      else
        var f := Retarget(os, removed, fs[|fs| - 1]);
        if f.Err? then Err(f.error) else Ok(p.value + [f.value])
  }

  /** `remove_synthetic_oneofs`. */
  function RemoveSynthetic(m: Message): Result<Message> {
    var removed := Removed(m.fields);
    if Unindexed(m.fields).Some? then Err(NoOneofIndex(Unindexed(m.fields).value.name))
    else if removed == {} then Ok(m)
    else
      var fs := RetargetAll(m.oneofs, removed, m.fields);
      if fs.Err? then Err(fs.error) else Ok(m.(fields := fs.value, oneofs := Kept(m.oneofs, removed)))
  }

  // ---- Properties -----------------------------------------------------------------------------

  lemma {:induction false} KeptLength(os: seq<string>, removed: set<int>)
    ensures |Kept(os, removed)| == KeptCount(removed, |os|)
    decreases |os|
  {
    if os != [] { KeptLength(os[..|os| - 1], removed); }
  }

  /** A staying oneof is found at its new index. */
  lemma {:induction false} KeptAt(os: seq<string>, removed: set<int>, i: nat)
    requires Stays(os, removed, i)
    ensures KeptCount(removed, i) < |Kept(os, removed)| && Kept(os, removed)[KeptCount(removed, i)] == os[i]
    decreases |os|
  {
    var n := |os| - 1;
    KeptLength(os[..n], removed);
    if i < n { KeptAt(os[..n], removed, i); }
  }

  /** Staying oneofs keep their order, so different ones get different indices. */
  lemma {:induction false} KeptOrder(removed: set<int>, i: nat, j: nat)
    requires i < j && i !in removed
    ensures KeptCount(removed, i) < KeptCount(removed, j)
    decreases j
  {
    if i < j - 1 { KeptOrder(removed, i, j - 1); }
  }

  lemma {:induction false} RemovedMeans(fs: seq<Field>, i: int)
    ensures i in Removed(fs) <==> exists k :: 0 <= k < |fs| && fs[k].proto3Optional && fs[k].oneofIndex == Some(i)
    decreases |fs|
  {
    if fs != [] {
      var n := |fs| - 1;
      RemovedMeans(fs[..n], i);
      assert forall k :: 0 <= k < n ==> fs[..n][k] == fs[k];
      if k :| 0 <= k < |fs| && fs[k].proto3Optional && fs[k].oneofIndex == Some(i) {
        assert k < n ==> fs[..n][k].proto3Optional && fs[..n][k].oneofIndex == Some(i);
      }
    }
  }

  lemma {:induction false} UnindexedMeans(fs: seq<Field>)
    ensures Unindexed(fs).Some? <==> exists k :: 0 <= k < |fs| && fs[k].proto3Optional && fs[k].oneofIndex.None?
    decreases |fs|
  {
    if fs != [] {
      var n := |fs| - 1;
      UnindexedMeans(fs[..n]);
      assert forall k :: 0 <= k < n ==> fs[..n][k] == fs[k];
      if k :| 0 <= k < |fs| && fs[k].proto3Optional && fs[k].oneofIndex.None? {
        assert k < n ==> fs[..n][k].proto3Optional && fs[..n][k].oneofIndex.None?;
      }
    }
  }

  lemma {:induction false} RetargetEach(os: seq<string>, removed: set<int>, fs: seq<Field>)
    ensures RetargetAll(os, removed, fs).Ok? <==> forall k :: 0 <= k < |fs| ==> Retarget(os, removed, fs[k]).Ok?
    ensures RetargetAll(os, removed, fs).Ok? ==>
              |RetargetAll(os, removed, fs).value| == |fs|
              && (forall k :: 0 <= k < |fs| ==>
                    RetargetAll(os, removed, fs).value[k] == Retarget(os, removed, fs[k]).value)
    decreases |fs|
  {
    if fs != [] {
      var n := |fs| - 1;
      RetargetEach(os, removed, fs[..n]);
      assert forall k :: 0 <= k < n ==> fs[..n][k] == fs[k];
      if RetargetAll(os, removed, fs[..n]).Err? {
        var k :| 0 <= k < n && Retarget(os, removed, fs[..n][k]).Err?;
        assert Retarget(os, removed, fs[k]).Err?;
      }
    }
  }

  /** The field at `k` names, before and after, the same oneof declaration, or none if it was proto3-optional. */
  ghost predicate SameOneof(m: Message, r: Message, k: nat)
    requires k < |m.fields| && k < |r.fields|
  {
    var i, j := m.fields[k].oneofIndex, r.fields[k].oneofIndex;
    if m.fields[k].proto3Optional then j.None?
    else if i.None? then j.None?
    else j.Some? && (0 <= i.value < |m.oneofs| ==> 0 <= j.value < |r.oneofs| && r.oneofs[j.value] == m.oneofs[i.value])
  }

  /** Two fields share a oneof afterwards exactly when they did before, and in the same order. */
  ghost predicate SameOrder(m: Message, r: Message, k: nat, l: nat)
    requires k < |m.fields| && k < |r.fields| && l < |m.fields| && l < |r.fields|
  {
    var a, b := m.fields[k].oneofIndex, m.fields[l].oneofIndex;
    var c, d := r.fields[k].oneofIndex, r.fields[l].oneofIndex;
    !m.fields[k].proto3Optional && !m.fields[l].proto3Optional && a.Some? && b.Some? ==>
      c.Some? && d.Some? && (a.value < b.value <==> c.value < d.value)
  }

  /** After removal nothing is proto3-optional in a oneof, and every other field keeps its oneof and its place. */
  lemma OneofsKept(m: Message)
    requires RemoveSynthetic(m).Ok?
    ensures var r := RemoveSynthetic(m).value;
            |r.fields| == |m.fields|
            && (forall k :: 0 <= k < |m.fields| ==> SameOneof(m, r, k))
            && (forall k, l :: 0 <= k < |m.fields| && 0 <= l < |m.fields| ==> SameOrder(m, r, k, l))
  {
    var removed, r := Removed(m.fields), RemoveSynthetic(m).value;
    if removed == {} {
      forall k | 0 <= k < |m.fields| ensures SameOneof(m, r, k) && !(m.fields[k].proto3Optional) {
        UnindexedMeans(m.fields);
        if m.fields[k].proto3Optional { RemovedMeans(m.fields, m.fields[k].oneofIndex.value); }
      }
    } else {
      RetargetEach(m.oneofs, removed, m.fields);
      forall k | 0 <= k < |m.fields| ensures SameOneof(m, r, k) {
        var f := m.fields[k];
        assert Retarget(m.oneofs, removed, f).Ok?;
        if !f.proto3Optional && f.oneofIndex.Some? { KeptAt(m.oneofs, removed, f.oneofIndex.value); }
      }
      forall k, l | 0 <= k < |m.fields| && 0 <= l < |m.fields| ensures SameOrder(m, r, k, l) {
        OrderKept(m.oneofs, removed, m.fields[k], m.fields[l]);
      }
    }
  }

  lemma OrderKept(os: seq<string>, removed: set<int>, a: Field, b: Field)
    requires Retarget(os, removed, a).Ok? && Retarget(os, removed, b).Ok?
    ensures var c, d := Retarget(os, removed, a).value, Retarget(os, removed, b).value;
            !a.proto3Optional && !b.proto3Optional && a.oneofIndex.Some? && b.oneofIndex.Some? ==>
              c.oneofIndex.Some? && d.oneofIndex.Some?
              && (a.oneofIndex.value < b.oneofIndex.value <==> c.oneofIndex.value < d.oneofIndex.value)
  {
    if !a.proto3Optional && !b.proto3Optional && a.oneofIndex.Some? && b.oneofIndex.Some? {
      var i, j := a.oneofIndex.value, b.oneofIndex.value;
      if i < j { KeptOrder(removed, i, j); }
      if j < i { KeptOrder(removed, j, i); }
    }
  }

  /** Refused: a proto3-optional field without an index, a plain field whose oneof does not stay, nothing else. */
  lemma RefusedExactly(m: Message)
    ensures RemoveSynthetic(m).Err? <==>
            (exists k :: 0 <= k < |m.fields| && m.fields[k].proto3Optional && m.fields[k].oneofIndex.None?)
            || (Removed(m.fields) != {}
                && exists k :: 0 <= k < |m.fields| && Dangling(m.oneofs, Removed(m.fields), m.fields[k]))
  {
    UnindexedMeans(m.fields);
    var removed := Removed(m.fields);
    RetargetEach(m.oneofs, removed, m.fields);
    forall k | 0 <= k < |m.fields|
      ensures Retarget(m.oneofs, removed, m.fields[k]).Err? <==> Dangling(m.oneofs, removed, m.fields[k])
    {
    }
  }

  predicate Dangling(os: seq<string>, removed: set<int>, f: Field) {
    !f.proto3Optional && f.oneofIndex.Some? && !Stays(os, removed, f.oneofIndex.value)
  }

  /** Nothing but the oneof bookkeeping of the fields changes. */
  predicate OnlyOneof(f: Field, g: Field) {
    g == f.(oneofIndex := g.oneofIndex, proto3Optional := g.proto3Optional)
  }

  lemma OnlyOneofsChange(m: Message)
    requires RemoveSynthetic(m).Ok?
    ensures var r := RemoveSynthetic(m).value;
            r == m.(fields := r.fields, oneofs := r.oneofs) && |r.fields| == |m.fields|
            && forall k :: 0 <= k < |m.fields| ==> OnlyOneof(m.fields[k], r.fields[k])
  {
    RetargetEach(m.oneofs, Removed(m.fields), m.fields);
  }

  // ---- The loops ----------------------------------------------------------------------------------

  /** `remove_synthetic_oneofs`: collect, close ranks, retarget. */
  method RemoveSyntheticOneofs(m: Message) returns (r: Result<Message>)
    ensures r == RemoveSynthetic(m)
  {
    var removed: set<int> := {};
    for k := 0 to |m.fields|
      invariant removed == Removed(m.fields[..k]) && Unindexed(m.fields[..k]).None?
    {
      assert m.fields[..k + 1][..k] == m.fields[..k];
      var f := m.fields[k];
      if f.proto3Optional {
        if f.oneofIndex.None? {
          UnindexedStays(m.fields, k + 1);
          return Err(NoOneofIndex(f.name));
        }
        removed := removed + {f.oneofIndex.value};
      }
    }
    assert m.fields[..|m.fields|] == m.fields;
    if removed == {} { return Ok(m); }
    var kept, indexMap := CloseRanks(m.oneofs, removed);
    var fields := RetargetLoop(m.oneofs, removed, indexMap, m.fields);
    if fields.Err? { return Err(fields.error); }
    r := Ok(m.(fields := fields.value, oneofs := kept));
  }

  lemma {:induction false} UnindexedStays(fs: seq<Field>, n: nat)
    requires n <= |fs| && Unindexed(fs[..n]).Some?
    ensures Unindexed(fs) == Unindexed(fs[..n])
    decreases |fs| - n
  {
    if n == |fs| {
      assert fs[..n] == fs;
    } else {
      assert fs[..n + 1][..n] == fs[..n];
      UnindexedStays(fs, n + 1);
    }
  }

  ghost predicate IndexMapOk(os: seq<string>, removed: set<int>, n: nat, im: map<int, int>) {
    && (forall i :: i in im <==> 0 <= i < n && i !in removed)
    && (forall i: nat :: i in im ==> im[i] == KeptCount(removed, i))
  }

  lemma IndexMapGrows(os: seq<string>, removed: set<int>, i: nat, im: map<int, int>)
    requires IndexMapOk(os, removed, i, im)
    ensures i in removed ==> IndexMapOk(os, removed, i + 1, im)
    ensures i !in removed ==> IndexMapOk(os, removed, i + 1, im[i := KeptCount(removed, i)])
  {
    hide KeptCount;
  }

  method CloseRanks(os: seq<string>, removed: set<int>) returns (kept: seq<string>, indexMap: map<int, int>)
    ensures kept == Kept(os, removed) && IndexMapOk(os, removed, |os|, indexMap)
  {
    kept, indexMap := [], map[];
    assert IndexMapOk(os, removed, 0, indexMap);
    hide IndexMapOk, KeptCount;
    for i := 0 to |os|
      invariant kept == Kept(os[..i], removed) && IndexMapOk(os, removed, i, indexMap)
    {
      assert os[..i + 1][..i] == os[..i];
      KeptLength(os[..i], removed);
      IndexMapGrows(os, removed, i, indexMap);
      if i in removed { continue; }
      indexMap := indexMap[i := |kept|];
      kept := kept + [os[i]];
    }
    assert os[..|os|] == os;
  }

  method RetargetLoop(os: seq<string>, removed: set<int>, indexMap: map<int, int>, fs: seq<Field>)
    returns (r: Result<seq<Field>>)
    requires IndexMapOk(os, removed, |os|, indexMap)
    ensures r == RetargetAll(os, removed, fs)
  {
    var out := [];
    for k := 0 to |fs|
      invariant RetargetAll(os, removed, fs[..k]) == Ok(out)
    {
      assert fs[..k + 1][..k] == fs[..k];
      var f := fs[k];
      if f.proto3Optional {
        f := f.(oneofIndex := None, proto3Optional := false);
      } else if f.oneofIndex.Some? {
        if f.oneofIndex.value !in indexMap {
          RefusalStays(os, removed, fs, k + 1);
          return Err(RemovedOneof(f.name));
        }
        f := f.(oneofIndex := Some(indexMap[f.oneofIndex.value]));
      }
      out := out + [f];
    }
    assert fs[..|fs|] == fs;
    r := Ok(out);
  }

  lemma {:induction false} RefusalStays(os: seq<string>, removed: set<int>, fs: seq<Field>, n: nat)
    requires n <= |fs| && RetargetAll(os, removed, fs[..n]).Err?
    ensures RetargetAll(os, removed, fs) == RetargetAll(os, removed, fs[..n])
    decreases |fs| - n
  {
    if n == |fs| {
      assert fs[..n] == fs;
    } else {
      assert fs[..n + 1][..n] == fs[..n];
      RefusalStays(os, removed, fs, n + 1);
    }
  }
}
