/**
 The request index file of debuglog.rs: an append log with a byte counter, rewritten to
 its tail when it passes its cap, and the tail read used by startup replay.
 */
module IndexLog {
  import opened Common

  /** Bytes of the tail that startup replay reads; also the default cap of the file. */
  const REPLAY_WINDOW: nat := 268435456

  /** The last `max` bytes, or everything when the file is smaller. */
  function Tail(file: bytes, max: nat): bytes {
    if |file| > max then file[|file| - max..] else file
  }

  /** What a rewrite to `keep` bytes leaves: the tail without its torn first line. */
  function Truncated(file: bytes, keep: nat): (r: bytes)
    ensures |r| <= keep
  {
    if |file| <= keep then file
    else
      var t := Tail(file, keep);
      var i := IndexOf(t, '\n');
      if i < |t| then t[i + 1..] else ""
  }

  /** `tail_read` of an open file. */
  method TailRead(file: bytes, max: nat) returns (data: bytes)
    ensures data == Tail(file, max)
    ensures |data| <= max && |data| <= |file| && data == file[|file| - |data|..]
  {
    var start := if |file| > max then |file| - max else 0;
    data := file[start..];
  }

  method FindNewline(s: bytes) returns (i: nat)
    ensures i == IndexOf(s, '\n')
  {
    i := 0;
    while i < |s| && s[i] != '\n'
      invariant i <= |s| && '\n' !in s[..i]
    {
      i := i + 1;
    }
    IndexOfIs(s, '\n', i);
  }

  /** `truncate_to_tail` on the file's content. */
  method ShrinkTo(file: bytes, keep: nat) returns (kept: bytes)
    ensures kept == Truncated(file, keep)
  {
    if |file| <= keep { return file; }
    var data := TailRead(file, keep);
    var i := FindNewline(data);
    kept := if i < |data| then data[i + 1..] else "";
  }

  /** `at` is the start of the text or just behind a newline. */
  predicate LineBoundary(h: bytes, at: int) {
    0 <= at <= |h| && (at == 0 || h[at - 1] == '\n')
  }

  predicate EndsLine(h: bytes) {
    h != "" && h[|h| - 1] == '\n'
  }

  /** `index.jsonl` with its lazily opened writer and byte counter. */
  class IndexFile {
    const cap: nat
    /** The file on disk; absent before the first append ever. */
    var file: Option<bytes>
    var writerOpen: bool
    var count: int
    /** Everything the file was given, first the content found at startup. */
    ghost var history: bytes
    /** How much of `history` has been cut off the front. */
    ghost var cut: nat

    ghost function Content(): bytes
      reads this
    {
      if file.Some? then file.value else ""
    }

    ghost predicate Valid()
      reads this
    {
      && LineBoundary(history, cut)
      && Content() == history[cut..]
      && (writerOpen ==> file.Some? && count == |file.value|)
    }

    constructor (cap: nat, found: Option<bytes>)
      ensures Valid() && this.cap == cap && file == found && !writerOpen
      ensures history == Content() && cut == 0
    {
      this.cap := cap;
      file, writerOpen, count := found, false, 0;
      history, cut := if found.Some? then found.value else "", 0;
    }

    /** The writing half of `append_index`: open on demand, write, shrink past the cap. */
    method Append(line: bytes)
      requires Valid()
      modifies this
      ensures Valid() && file.Some?
      ensures history == old(history) + line + "\n" && old(cut) <= cut
      ensures count == |file.value| && |file.value| <= cap
      ensures file.value == Appended(cap, old(Content()), line)
    {
      if !writerOpen {
        if file.None? { file := Some(""); }
        count := |file.value|;
        writerOpen := true;
      }
      file := Some(file.value + line);
      file := Some(file.value + "\n");
      count := count + |line| + 1;
      history := history + line + "\n";
      assert file.value == old(Content()) + line + "\n";
      Extended(old(history), old(cut), line);
      if count > cap {
        TruncateToTail();
      }
    }

    /** Shrink the file to half its cap; the writer is reopened by the next append. */
    method TruncateToTail()
      requires Valid() && file.Some? && EndsLine(history)
      modifies this
      ensures Valid() && file == Some(Truncated(old(file.value), cap / 2))
      ensures history == old(history) && old(cut) <= cut && count == |file.value|
    {
      hide Truncated;
      writerOpen := false;
      var data := ShrinkTo(file.value, cap / 2);
      KeptSuffix(history, cut, cap / 2);
      file := Some(data);
      count := |data|;
      cut := |history| - |data|;
    }
  }

  /** One append, as a function of the file's content. */
  function Appended(cap: nat, content: bytes, line: bytes): bytes {
    var grown := content + line + "\n";
    if |grown| > cap then Truncated(grown, cap / 2) else grown
  }

  lemma Extended(h: bytes, cut: nat, line: bytes)
    requires LineBoundary(h, cut)
    ensures (h + line + "\n")[cut..] == h[cut..] + line + "\n"
    ensures LineBoundary(h + line + "\n", cut)
  {
  }

  /** `r` is the part of the history from a line boundary on, at or behind `cut`. */
  ghost predicate SuffixFrom(h: bytes, cut: nat, r: bytes) {
    |r| <= |h| - cut && r == h[|h| - |r|..] && LineBoundary(h, |h| - |r|)
  }

  lemma IsSuffix(h: bytes, cut: nat, at: nat, r: bytes)
    requires cut <= at <= |h| && r == h[at..] && LineBoundary(h, at)
    ensures SuffixFrom(h, cut, r)
  {
  }

  /** Where the kept part of a file begins: its front, its end, or behind a newline. */
  lemma KeptFrom(file: bytes, keep: nat) returns (at: nat)
    ensures at <= |file| && Truncated(file, keep) == file[at..]
    ensures at == 0 || at == |file| || file[at - 1] == '\n'
  {
    hide IndexOf;
    if |file| <= keep {
      at := 0;
    } else {
      var cut := |file| - keep;
      var t := file[cut..];
      assert t == Tail(file, keep);
      var i := IndexOf(t, '\n');
      if i < |t| {
        at := cut + i + 1;
        assert file[cut + i] == t[i] && t[i + 1..] == file[at..];
      } else {
        at := |file|;
      }
    }
  }

  lemma Deeper(h: bytes, cut: nat, at: nat)
    requires cut + at <= |h|
    ensures h[cut..][at..] == h[cut + at..] && (at > 0 ==> h[cut..][at - 1] == h[cut + at - 1])
  {
  }

  /** The truncated file is again a suffix of the history that starts a line. */
  lemma KeptSuffix(h: bytes, cut: nat, keep: nat)
    requires LineBoundary(h, cut) && EndsLine(h)
    ensures SuffixFrom(h, cut, Truncated(h[cut..], keep))
  {
    hide Truncated;
    var at := KeptFrom(h[cut..], keep);
    Deeper(h, cut, at);
    IsSuffix(h, cut, cut + at, Truncated(h[cut..], keep));
  }

  // ---- Lines -------------------------------------------------------------------------

  predicate OneLine(s: bytes) {
    '\n' !in s
  }

  ghost predicate OneLines(ls: seq<bytes>) {
    forall k :: 0 <= k < |ls| ==> OneLine(ls[k])
  }

  /** The text of some lines, each ended by a newline. */
  function Joined(ls: seq<bytes>): bytes {
    if ls == [] then "" else ls[0] + "\n" + Joined(ls[1..])
  }

  lemma {:induction false} JoinedAppend(a: seq<bytes>, b: seq<bytes>)
    ensures Joined(a + b) == Joined(a) + Joined(b)
    decreases |a|
  {
    if a == [] {
      assert a + b == b;
    } else {
      JoinedAppend(a[1..], b);
      assert (a + b)[1..] == a[1..] + b;
      Assoc(a[0] + "\n", Joined(a[1..]), Joined(b));
    }
  }

  lemma JoinedOne(l: bytes)
    ensures Joined([l]) == l + "\n"
  {
    assert Joined([l][1..]) == "";
  }

  /** The file after appending `ls` to `content`, one after the other. */
  function AppendAll(cap: nat, content: bytes, ls: seq<bytes>): bytes {
    if ls == [] then content
    else Appended(cap, AppendAll(cap, content, ls[..|ls| - 1]), ls[|ls| - 1])
  }

  /**
   Over any run of appends the file is a suffix, cut at a line boundary, of everything it
   was ever given, and after each append it is within its cap.
   */
  lemma {:induction false} RunKeepsTail(cap: nat, content: bytes, ls: seq<bytes>)
    ensures var r, h := AppendAll(cap, content, ls), content + Joined(ls);
            (ls != [] ==> |r| <= cap) && |r| <= |h| && r == h[|h| - |r|..] && LineBoundary(h, |h| - |r|)
    decreases |ls|
  {
    hide Appended, LineBoundary;
    if ls == [] {
      assert content + "" == content;
      assert LineBoundary(content, 0) by { StartIsBoundary(content); }
    } else {
      var p, l := ls[..|ls| - 1], ls[|ls| - 1];
      RunKeepsTail(cap, content, p);
      assert ls == p + [l];
      JoinedAppend(p, [l]);
      JoinedOne(l);
      var g, h := content + Joined(p), content + Joined(ls);
      assert h == g + l + "\n";
      var c := AppendAll(cap, content, p);
      AppendKeepsTail(cap, g, |g| - |c|, l);
    }
  }

  lemma StartIsBoundary(h: bytes)
    ensures LineBoundary(h, 0)
  {
  }

  lemma AppendKeepsTail(cap: nat, g: bytes, cut: nat, l: bytes)
    requires LineBoundary(g, cut)
    ensures var r, h := Appended(cap, g[cut..], l), g + l + "\n";
            |r| <= cap && SuffixFrom(h, 0, r)
  {
    hide Truncated, SuffixFrom;
    var h := g + l + "\n";
    Extended(g, cut, l);
    KeptSuffix(h, cut, cap / 2);
    IsSuffix(h, cut, cut, h[cut..]);
    hide LineBoundary;
    SuffixFromStart(h, cut, Appended(cap, g[cut..], l));
  }

  lemma SuffixFromStart(h: bytes, cut: nat, r: bytes)
    requires SuffixFrom(h, cut, r)
    ensures SuffixFrom(h, 0, r)
  {
  }

  /** With a cap no larger than the replay window, replay reads the whole file. */
  lemma WindowCoversFile(cap: nat, content: bytes, ls: seq<bytes>)
    requires cap <= REPLAY_WINDOW && (|content| <= REPLAY_WINDOW || ls != [])
    ensures Tail(AppendAll(cap, content, ls), REPLAY_WINDOW) == AppendAll(cap, content, ls)
  {
    RunKeepsTail(cap, content, ls);
  }

  /** The newest lines whose text stays below `keep` bytes. */
  function Fitting(ls: seq<bytes>, keep: nat): seq<bytes> {
    if ls == [] || |Joined(ls)| < keep then ls else Fitting(ls[1..], keep)
  }

  lemma DropFirstLine(s: bytes, l: bytes, rest: bytes)
    requires OneLine(l) && s == l + "\n" + rest
    ensures IndexOf(s, '\n') == |l| && s[|l| + 1..] == rest
  {
    assert s[..|l|] == l;
    IndexOfIs(s, '\n', |l|);
  }

  /** A tail that starts exactly with the second line loses that line, though it is whole. */
  lemma CutAtLine(ls: seq<bytes>, keep: nat)
    requires OneLines(ls) && |Joined(ls)| > keep && ls != [] && |Joined(ls[1..])| == keep
    ensures Truncated(Joined(ls), keep) == Joined(Fitting(ls[1..], keep))
  {
    hide IndexOf;
    var rest := Joined(ls[1..]);
    assert Tail(Joined(ls), keep) == rest;
    if ls[1..] != [] {
      var more := ls[1..][1..];
      DropFirstLine(rest, ls[1], Joined(more));
      assert Fitting(more, keep) == more;
    }
  }

  /** A tail that starts inside the first line loses the rest of that line. */
  lemma CutInLine(ls: seq<bytes>, keep: nat)
    requires OneLines(ls) && |Joined(ls)| > keep && ls != [] && |Joined(ls[1..])| < keep
    ensures Truncated(Joined(ls), keep) == Joined(ls[1..])
  {
    hide IndexOf;
    var rest, m := Joined(ls[1..]), |Joined(ls)| - keep;
    var t := Tail(Joined(ls), keep);
    assert t == ls[0][m..] + "\n" + rest;
    DropFirstLine(t, ls[0][m..], rest);
  }

  /** A rewrite keeps as many of the newest whole lines as stay below half the cap. */
  lemma {:induction false} RewriteKeepsNewest(ls: seq<bytes>, keep: nat)
    requires OneLines(ls) && |Joined(ls)| > keep
    ensures Truncated(Joined(ls), keep) == Joined(Fitting(ls, keep))
    decreases |ls|
  {
    var rest := Joined(ls[1..]);
    assert Fitting(ls, keep) == Fitting(ls[1..], keep);
    if |rest| > keep {
      assert Tail(Joined(ls), keep) == Tail(rest, keep);
      RewriteKeepsNewest(ls[1..], keep);
      hide IndexOf, Fitting, Joined;
    } else if |rest| == keep {
      CutAtLine(ls, keep);
    } else {
      CutInLine(ls, keep);
      assert Fitting(ls[1..], keep) == ls[1..];
    }
  }

  /** The newest lines that fit: one line more would not. */
  lemma {:induction false} FittingIs(ls: seq<bytes>, keep: nat) returns (j: nat)
    ensures j <= |ls| && Fitting(ls, keep) == ls[j..]
    ensures j == 0 || |Joined(ls[j - 1..])| >= keep
    decreases |ls|
  {
    if ls == [] || |Joined(ls)| < keep {
      j := 0;
    } else {
      var i := FittingIs(ls[1..], keep);
      j := i + 1;
      assert ls[1..][i..] == ls[j..];
      if i == 0 { assert ls[0..] == ls; } else { assert ls[1..][i - 1..] == ls[j - 1..]; }
    }
  }

  /** Nothing was cut, or what was kept and the line before it make at least half the cap. */
  ghost predicate Enough(cap: nat, all: seq<bytes>, k: nat)
    requires k <= |all|
  {
    k == 0 || |Joined(all[k - 1..])| >= cap / 2
  }

  /** One append to a file that holds the lines from the k-th on. */
  lemma AppendKeepsEnough(cap: nat, all: seq<bytes>, k: nat, line: bytes) returns (k': nat)
    requires OneLines(all) && OneLine(line) && k <= |all| && Enough(cap, all, k)
    ensures k' <= |all| + 1 && Enough(cap, all + [line], k')
    ensures Appended(cap, Joined(all[k..]), line) == Joined((all + [line])[k'..])
  {
    hide Joined, Truncated, Fitting;
    var more := all + [line];
    assert more[k..] == all[k..] + [line];
    JoinedAppend(all[k..], [line]);
    JoinedOne(line);
    var grown := Joined(more[k..]);
    assert grown == Joined(all[k..]) + line + "\n";
    if |grown| > cap {
      RewriteKeepsNewest(more[k..], cap / 2);
      var j := FittingIs(more[k..], cap / 2);
      k' := k + j;
      assert more[k..][j..] == more[k'..];
      if j > 0 { assert more[k..][j - 1..] == more[k' - 1..]; }
    } else {
      k' := k;
    }
    if k' == k && k > 0 {
      assert more[k - 1..] == all[k - 1..] + [line];
      JoinedAppend(all[k - 1..], [line]);
    }
  }

  /**
   When everything given was whole lines, the file is the newest of those lines, and once
   something was cut it holds so many that one more would fill half the cap; so the last line
   is there whenever it is shorter than that.
   */
  lemma {:induction false} RunKeepsLines(cap: nat, found: seq<bytes>, ls: seq<bytes>) returns (k: nat)
    requires OneLines(found) && OneLines(ls)
    ensures k <= |found| + |ls| && Enough(cap, found + ls, k)
    ensures AppendAll(cap, Joined(found), ls) == Joined((found + ls)[k..])
    ensures ls != [] && |ls[|ls| - 1]| + 1 < cap / 2 ==> k < |found| + |ls|
    decreases |ls|
  {
    hide Joined, Appended;
    if ls == [] {
      k := 0;
      assert found + ls == found && (found + ls)[0..] == found;
    } else {
      var p, l := ls[..|ls| - 1], ls[|ls| - 1];
      var k0 := RunKeepsLines(cap, found, p);
      k := AppendKeepsEnough(cap, found + p, k0, l);
      assert found + p + [l] == found + ls;
      assert k == |found| + |ls| ==> (found + ls)[k - 1..] == [l];
      JoinedOne(l);
    }
  }
}
